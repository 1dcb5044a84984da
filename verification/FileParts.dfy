/** The parts of a file name: directory, last component, and the two spellings of a directory
    (with and without the trailing separator), after `Filename.cpp` for Unix. */
module FileParts {
  import opened Paths

  /** Length of the directory part: everything through the last separator. */
  function Cut(s: string): (k: nat)
    ensures k <= |s|
    ensures k > 0 ==> s[k - 1] == SEP
    ensures forall i :: k <= i < |s| ==> s[i] != SEP
  {
    if s == "" then 0
    else if s[|s| - 1] == SEP then |s|
    else Cut(s[..|s| - 1])
  }

  function DirectoryOf(s: string): string {
    s[..Cut(s)]
  }

  function NondirectoryOf(s: string): string {
    s[Cut(s)..]
  }

  /** Drops trailing separators, but never the first character. */
  function FileForm(s: string): (r: string)
    ensures r <= s && (s == "" <==> r == "")
    ensures |r| > 1 ==> r[|r| - 1] != SEP
    ensures Absolute(s) ==> Absolute(r)
  {
    if |s| > 1 && s[|s| - 1] == SEP then FileForm(s[..|s| - 1]) else s
  }

  function DirForm(s: string): string {
    if s != "" && s[|s| - 1] != SEP then s + [SEP] else s
  }

  /** The two-argument constructor without `appendonly`. */
  function Join(dir: string, file: string): string {
    if dir == "" then file else if file == "" then dir else DirForm(dir) + file
  }

  /** The backward scan shared by `directory` and `nondirectory`. */
  method ScanBack(name: string) returns (p: nat)
    ensures p == Cut(name)
  {
    p := |name|;
    while p > 0 && name[p - 1] != SEP
      invariant p <= |name| && Cut(name) == Cut(name[..p])
    {
      assert name[..p][..p - 1] == name[..p - 1];
      p := p - 1;
    }
  }

  method Directory(name: string) returns (r: string)
    ensures r == DirectoryOf(name)
  {
    var p := ScanBack(name);
    r := name[..p];
  }

  method Nondirectory(name: string) returns (r: string)
    ensures r == NondirectoryOf(name)
  {
    var p := ScanBack(name);
    r := name[p..];
  }

  method AsFile(name: string) returns (r: string)
    ensures r == FileForm(name)
  {
    var pos: nat := |name|;
    assert name[..pos] == name;
    while pos > 1 && name[pos - 1] == SEP
      invariant pos <= |name| && FileForm(name) == FileForm(name[..pos])
    {
      assert name[..pos][..pos - 1] == name[..pos - 1];
      pos := pos - 1;
    }
    r := name[..pos];
  }

  // ----- the names a file name is made of ------------------------------------------------------

  /** The non-empty components, in order; separators only keep them apart. */
  function Names(s: string): (ns: seq<string>)
    ensures AllNamed(ns)
    decreases |s|
  {
    if s == "" then []
    else if s[0] == SEP then Names(s[1..])
    else
      var e := NextSep(s, 0);
      [s[..e]] + Names(s[e..])
  }

  predicate Named(c: string) {
    c != "" && NoSep(c)
  }

  ghost predicate AllNamed(ns: seq<string>) {
    forall i :: 0 <= i < |ns| ==> Named(ns[i])
  }

  lemma NamesOfOne(c: string)
    requires Named(c)
    ensures Names(c) == [c]
  {
    NextSepIs(c, 0, |c|);
    assert c[..|c|] == c && c[|c|..] == "";
  }

  /** A separator may be put between two parts without changing the names. */
  lemma {:induction false} NamesSplit(a: string, b: string)
    ensures Names(a + [SEP] + b) == Names(a) + Names(b)
    decreases |a|
  {
    var s := a + [SEP] + b;
    if a == "" {
      assert s[1..] == b;
    } else if a[0] == SEP {
      assert s[1..] == a[1..] + [SEP] + b;
      NamesSplit(a[1..], b);
    } else {
      var e := NextSep(a, 0);
      NextSepIs(s, 0, e);
      assert s[..e] == a[..e] && s[e..] == a[e..] + [SEP] + b;
      NamesSplit(a[e..], b);
    }
  }

  lemma NamesTrailing(a: string)
    ensures Names(a + [SEP]) == Names(a)
  {
    NamesSplit(a, "");
    assert a + [SEP] + "" == a + [SEP];
  }

  /** Directory part and last part hold the names of the whole. */
  lemma NamesOfParts(s: string)
    ensures Names(s) == Names(DirectoryOf(s)) + Names(NondirectoryOf(s))
  {
    var k := Cut(s);
    if k == 0 {
      assert s[0..] == s;
    } else {
      var d := s[..k - 1];
      assert s == d + [SEP] + s[k..];
      NamesSplit(d, s[k..]);
      NamesTrailing(d);
      assert s[..k] == d + [SEP];
    }
  }

  lemma {:induction false} NamesOfFileForm(s: string)
    ensures Names(FileForm(s)) == Names(s)
    decreases |s|
  {
    if |s| > 1 && s[|s| - 1] == SEP {
      var t := s[..|s| - 1];
      assert s == t + [SEP];
      NamesTrailing(t);
      NamesOfFileForm(t);
    }
  }

  lemma NamesOfDirForm(s: string)
    ensures Names(DirForm(s)) == Names(s)
  {
    NamesTrailing(s);
  }

  lemma NamesOfJoin(dir: string, file: string)
    ensures Names(Join(dir, file)) == Names(dir) + Names(file)
  {
    if dir != "" && file != "" {
      if dir[|dir| - 1] == SEP {
        var d := dir[..|dir| - 1];
        assert dir == d + [SEP];
        NamesSplit(d, file);
        NamesTrailing(d);
        assert Join(dir, file) == d + [SEP] + file;
      } else {
        NamesSplit(dir, file);
        assert Join(dir, file) == dir + [SEP] + file;
      }
    }
  }

  /** The absolute name made of the given names. */
  function PathOf(ns: seq<string>): (s: string)
    ensures Absolute(s)
  {
    RenderStarts(ns);
    if ns == [] then [SEP] else Render(ns)
  }

  lemma {:induction false} NamesOfPath(ns: seq<string>)
    requires AllNamed(ns)
    ensures Names(PathOf(ns)) == ns
    decreases |ns|
  {
    if ns == [] {
      assert Names([SEP]) == Names([SEP][1..]);
    } else {
      var init, c := ns[..|ns| - 1], ns[|ns| - 1];
      assert ns == init + [c];
      RenderSnoc(init, c);
      NamesSplit(Render(init), c);
      NamesOfOne(c);
      if init != [] {
        NamesOfPath(init);
      }
    }
  }

  /** Going from a directory to a file in it. */
  lemma PathOfChild(ns: seq<string>, c: string)
    requires AllNamed(ns) && Named(c)
    ensures Join(PathOf(ns), c) == PathOf(ns + [c])
    ensures DirectoryOf(PathOf(ns + [c])) == DirForm(PathOf(ns))
  {
    RenderSnoc(ns, c);
    if ns != [] {
      EndsWithLast(ns);
    }
    var s := PathOf(ns + [c]);
    CutAt(s, |s| - |c|);
    assert s[..|s| - |c|] == Render(ns) + [SEP];
  }

  lemma {:induction false} CutAt(s: string, k: nat)
    requires k <= |s| && (k > 0 ==> s[k - 1] == SEP)
    requires forall i :: k <= i < |s| ==> s[i] != SEP
    ensures Cut(s) == k
    decreases |s|
  {
    if |s| > k {
      CutAt(s[..|s| - 1], k);
    }
  }

  lemma EndsWithLast(ns: seq<string>)
    requires AllNamed(ns) && ns != []
    ensures var s := PathOf(ns); |s| > 1 && s[|s| - 1] != SEP && FileForm(s) == s && DirForm(s) == s + [SEP]
  {
    var c := ns[|ns| - 1];
    assert Render(ns)[|Render(ns)| - 1] == c[|c| - 1];
  }

  /** The parent of a path, as `asFile().directory().asFile()` computes it. */
  lemma ParentOfPath(ns: seq<string>)
    requires AllNamed(ns)
    ensures FileForm(DirectoryOf(FileForm(PathOf(ns)))) == PathOf(if ns == [] then [] else ns[..|ns| - 1])
  {
    if ns == [] {
      CutAt([SEP], 1);
    } else {
      var init, c := ns[..|ns| - 1], ns[|ns| - 1];
      assert ns == init + [c];
      EndsWithLast(ns);
      PathOfChild(init, c);
      if init != [] {
        EndsWithLast(init);
        var d := PathOf(init) + [SEP];
        assert d[..|d| - 1] == PathOf(init);
      }
    }
  }
}
