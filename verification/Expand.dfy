/** `Filename::expand` and `Filename::truename`: a name is made absolute, canonicalised in
    place, and only then resolved. */
module Expand {
  import opened Wrappers
  import opened Paths
  import opened FileParts
  import opened ExpandClean
  import opened Truename

  /** Link chasing gives up after this many levels. */
  const MAX_LINKS: int := 100

  /** The absolute name `expandPrefix` makes of a name without a home directory. */
  function Prefixed(cwd: string, name: string): (r: string)
    requires Absolute(cwd)
    ensures Absolute(r)
  {
    if Absolute(name) then name else DirForm(cwd) + name
  }

  /** The canonical absolute form of a name. */
  method Expanded(cwd: string, name: string) returns (r: string)
    requires Absolute(cwd) && NUL !in cwd && NUL !in name
    requires name != "" && name[0] != '~'
    ensures r == Canonical(Prefixed(cwd, name))
  {
    var target := Prefixed(cwd, name);
    var buf := new char[|target| + 1](i requires 0 <= i <= |target| => CharAt(target, i));
    assert forall i :: 0 <= i <= |target| ==> buf[i] == CharAt(target, i);
    TextOfString(buf[..], target);
    assert buf[|target|] == NUL;
    var size := Rewrite(buf, false);
    r := buf[..size];
  }

  /** The name of a relative name is looked up from the current directory. */
  lemma NamesOfPrefixed(cwd: string, name: string)
    requires Absolute(cwd)
    ensures Names(Prefixed(cwd, name)) == NamesFrom(cwd, name)
  {
    if !Absolute(name) {
      var d := WithoutLast(cwd);
      NamesSplit(d, name);
      NamesTrailing(d);
      assert cwd[|cwd| - 1] == SEP ==> cwd == d + [SEP];
      assert Prefixed(cwd, name) == d + [SEP] + name;
    }
  }

  /** A name without its last separator. */
  function WithoutLast(s: string): string {
    if s != "" && s[|s| - 1] == SEP then s[..|s| - 1] else s
  }

  /** The components of the current directory, then those of the name. */
  lemma ComponentsOfPrefixed(cwd: string, name: string)
    requires Absolute(cwd) && !Absolute(name)
    ensures var d := WithoutLast(cwd);
            && (d == "" || Absolute(d))
            && Components(Prefixed(cwd, name)) == Components(d) + Components([SEP] + name)
  {
    var d, n := WithoutLast(cwd), [SEP] + name;
    assert d == "" || Absolute(d);
    assert Prefixed(cwd, name) == d + n;
    hide Prefixed, WithoutLast;
    ComponentsOfBoth(d, n);
  }

  lemma ComponentsOfBoth(d: string, n: string)
    requires (d == "" || Absolute(d)) && Absolute(n)
    ensures Absolute(d + n) && Components(d + n) == Components(d) + Components(n)
  {
    hide ComponentsFrom, Render;
    var a, b := Components(d), Components(n);
    RenderOfComponents(d);
    RenderOfComponents(n);
    RenderConcat(a, b);
    ComponentsRender(a + b);
  }

  lemma RenderOfComponents(s: string)
    requires s == "" || Absolute(s)
    ensures Render(Components(s)) == s && AllNoSep(Components(s))
  {
    ComponentsNoSep(s, 0);
    RenderComponentsFrom(s, 0);
    assert s[0..] == s;
  }

  // ----- canonicalising before resolving ------------------------------------------------------------

  function NonEmpty(cs: seq<string>): seq<string> {
    if cs == [] then [] else (if cs[0] == "" then [] else [cs[0]]) + NonEmpty(cs[1..])
  }

  function WithoutDots(ns: seq<string>): seq<string> {
    if ns == [] then [] else (if ns[0] == "." then [] else [ns[0]]) + WithoutDots(ns[1..])
  }

  /** The names of a rendered list are its non-empty components. */
  lemma {:induction false} NamesOfRender(cs: seq<string>)
    requires AllNoSep(cs)
    ensures Names(Render(cs)) == NonEmpty(cs)
    decreases |cs|
  {
    if cs != [] {
      var c, rest := cs[0], cs[1..];
      assert cs == [c] + rest;
      RenderCons(c, rest);
      NamesOfRender(rest);
      RenderStarts(rest);
      var tail := Render(rest);
      assert Render(cs)[1..] == c + tail;
      if c != "" {
        if rest == [] {
          assert c + tail == c;
          NamesOfOne(c);
        } else {
          assert c + tail == c + [SEP] + tail[1..];
          NamesSplit(c, tail[1..]);
          NamesOfOne(c);
        }
      } else {
        assert c + tail == tail;
      }
    }
  }

  lemma {:induction false} CleanWithoutParents(stack: seq<string>, cs: seq<string>)
    requires ".." !in cs
    ensures Clean(stack, cs) == stack + WithoutDots(cs)
    decreases |cs|
  {
    if cs == [] {
      assert stack + WithoutDots(cs) == stack;
    } else {
      var rest := WithoutDots(cs[1..]);
      CleanWithoutParents(Push(stack, cs[0]), cs[1..]);
      assert (stack + [cs[0]]) + rest == stack + ([cs[0]] + rest);
      assert [] + rest == rest;
    }
  }

  lemma {:induction false} NonEmptyWithoutDots(cs: seq<string>)
    ensures NonEmpty(WithoutDots(cs)) == WithoutDots(NonEmpty(cs))
    decreases |cs|
  {
    if cs != [] {
      NonEmptyWithoutDots(cs[1..]);
      if cs[0] == "." {
        assert WithoutDots(cs) == WithoutDots(cs[1..]);
      } else {
        assert WithoutDots(cs)[1..] == WithoutDots(cs[1..]);
      }
      if cs[0] == "" {
        assert NonEmpty(cs) == NonEmpty(cs[1..]);
      } else {
        assert NonEmpty(cs)[1..] == NonEmpty(cs[1..]);
      }
    }
  }

  /** `.` among the names makes no difference to where the walk ends. */
  lemma {:induction false} DotsDoNotMatter(link: Links, n: nat, w: Walker, v: Walker, r: seq<string>)
    requires Run(link, n, w) == Walker(r, [])
    requires w.at == v.at && WithoutDots(w.todo) == WithoutDots(v.todo)
    ensures Ends(link, v, r)
    decreases n, |v.todo|
  {
    if v.todo != [] && v.todo[0] == "." {
      DotsDoNotMatter(link, n, w, Walker(v.at, v.todo[1..]), r);
      EndsBack(link, v, r);
    } else if w.todo == [] {
      RunStays(link, n, w.at);
      assert w == Walker(w.at, []);
      assert v.todo == [];
      EndsHere(link, r);
    } else if w.todo[0] == "." {
      DotsDoNotMatter(link, n - 1, Step(link, w), v, r);
    } else {
      assert WithoutDots(v.todo)[0] == WithoutDots(w.todo)[0];
      assert v.todo != [] && v.todo[0] == w.todo[0];
      assert WithoutDots(v.todo)[1..] == WithoutDots(v.todo[1..]);
      assert WithoutDots(w.todo)[1..] == WithoutDots(w.todo[1..]);
      var c := v.todo[0];
      if c != ".." && link(PathOf(w.at + [c])).Some? {
        var t := Names(link(PathOf(w.at + [c])).value);
        WithoutDotsConcat(t, v.todo[1..]);
        WithoutDotsConcat(t, w.todo[1..]);
      }
      DotsDoNotMatter(link, n - 1, Step(link, w), Step(link, v), r);
      EndsBack(link, v, r);
    }
  }

  lemma {:induction false} WithoutDotsConcat(a: seq<string>, b: seq<string>)
    ensures WithoutDots(a + b) == WithoutDots(a) + WithoutDots(b)
    decreases |a|
  {
    if a == [] {
      assert a + b == b;
    } else {
      assert (a + b)[1..] == a[1..] + b;
      WithoutDotsConcat(a[1..], b);
    }
  }

  lemma {:induction false} WithoutDotsTwice(ns: seq<string>)
    ensures WithoutDots(WithoutDots(ns)) == WithoutDots(ns)
    decreases |ns|
  {
    if ns != [] {
      WithoutDotsTwice(ns[1..]);
      if ns[0] == "." {
        assert WithoutDots(ns) == WithoutDots(ns[1..]);
      } else {
        assert WithoutDots(ns)[1..] == WithoutDots(ns[1..]);
      }
    }
  }

  lemma SameEnds(link: Links, w: Walker, v: Walker)
    requires w.at == v.at && WithoutDots(w.todo) == WithoutDots(v.todo)
    ensures forall r :: Ends(link, w, r) <==> Ends(link, v, r)
  {
    forall r
      ensures Ends(link, w, r) <==> Ends(link, v, r)
    {
      if Ends(link, w, r) {
        var n: nat :| Run(link, n, w) == Walker(r, []);
        DotsDoNotMatter(link, n, w, v, r);
      }
      if Ends(link, v, r) {
        var n: nat :| Run(link, n, v) == Walker(r, []);
        DotsDoNotMatter(link, n, v, w, r);
      }
    }
  }

  /** Walking `/l/..` when `/l` leads to `/d/e`. */
  lemma WalkParentOfLink(link: Links, l: string, d: string, e: string)
    requires Named(l) && Named(d) && Named(e) && l != "." && l != ".." && d != "." && d != ".." && e != "." && e != ".."
    requires link(PathOf([] + [l])) == Some(PathOf([d] + [e]))
    requires link(PathOf([] + [d])) == None && link(PathOf([d] + [e])) == None
    ensures Ends(link, Walker([], [l] + [".."]), [d])
  {
    NamesOfPath([d] + [e]);
    hide PathOf, Names;
    var w0, w1 := Walker([], [l] + [".."]), Walker([], ([d] + [e]) + [".."]);
    var w2, w3 := Walker([d], [e] + [".."]), Walker([d] + [e], [".."]);
    assert Step(link, w0) == w1 by {
      assert ([l] + [".."])[1..] == [".."];
    }
    assert Step(link, w1) == w2 by {
      assert (([d] + [e]) + [".."])[1..] == [e] + [".."] && [] + [d] == [d];
    }
    assert Step(link, w2) == w3 by {
      assert ([e] + [".."])[1..] == [".."];
    }
    assert Step(link, w3) == Walker([d], []) by {
      assert ([d] + [e])[..1] == [d];
    }
    EndsHere(link, [d]);
    EndsBack(link, w3, [d]);
    EndsBack(link, w2, [d]);
    EndsBack(link, w1, [d]);
    EndsBack(link, w0, [d]);
  }

  /** With `..` behind a link the order matters: canonicalising takes the link away before it
      is looked at.  If `/l` leads to `/d/e`, then `/l/..` is `/d`, but its canonical form is
      the root. */
  lemma ParentOfLinkIsLost(link: Links, cwd: string, l: string, d: string, e: string)
    requires Named(l) && Named(d) && Named(e) && l != "." && l != ".." && d != "." && d != ".." && e != "." && e != ".."
    requires link(PathOf([] + [l])) == Some(PathOf([d] + [e]))
    requires link(PathOf([] + [d])) == None && link(PathOf([d] + [e])) == None
    ensures var s := Render([l] + [".."]);
            && Absolute(s) && Canonical(s) == [SEP]
            && IsTruename(link, cwd, s, PathOf([d]))
            && IsTruename(link, cwd, Canonical(s), [SEP])
            && PathOf([d]) != [SEP]
  {
    var cs := [l] + [".."];
    RenderStarts(cs);
    ComponentsRender(cs);
    NamesOfRender(cs);
    assert cs[1..] == [".."] && [".."][1..] == [];
    assert NonEmpty(cs) == cs by {
      assert NonEmpty([".."]) == [".."];
    }
    assert Clean([], cs) == [] by {
      assert Push([], l) == [l];
    }
    RootIsTrue(link, cwd);
    WalkParentOfLink(link, l, d, e);
    assert Settled(link, [d]) by {
      assert [d][..1] == [d] && [] + [d] == [d];
    }
    NamesOfPath([d]);
    NamesOfPath([]);
    assert PathOf([]) == [SEP];
  }
}
