/** `findTruename`: the memoised, counter-bounded symbolic link resolver, and the walk over
    names (POSIX.1-2017 XBD section 4.13, Pathname Resolution) it computes. */
module Truename {
  import opened Wrappers
  import opened Paths
  import opened FileParts

  /** What `readlink` says about an absolute name: the target if the name is a link.  The file
      system does not change while a name is being resolved. */
  type Links = string -> Option<string>

  // ----- resolution as a walk -------------------------------------------------------------------

  /** A place reached without links, and the names still to be walked. */
  datatype Walker = Walker(at: seq<string>, todo: seq<string>)

  function Parent(at: seq<string>): seq<string> {
    if at == [] then [] else at[..|at| - 1]
  }

  function Step(link: Links, w: Walker): Walker {
    if w.todo == [] then w
    else
      var c, rest := w.todo[0], w.todo[1..];
      if c == "." then Walker(w.at, rest)
      else if c == ".." then Walker(Parent(w.at), rest)
      else
        match link(PathOf(w.at + [c]))
        case None => Walker(w.at + [c], rest)
        case Some(t) => Walker(if Absolute(t) then [] else w.at, Names(t) + rest)
  }

  function Run(link: Links, n: nat, w: Walker): Walker {
    if n == 0 then w else Run(link, n - 1, Step(link, w))
  }

  /** The walk from `w` ends at `r`. */
  ghost predicate Ends(link: Links, w: Walker, r: seq<string>) {
    exists n: nat :: Run(link, n, w) == Walker(r, [])
  }

  /** A place with no `.`, `..` or link on the way to it. */
  ghost predicate Settled(link: Links, at: seq<string>) {
    && AllNamed(at)
    && (forall i :: 0 <= i < |at| ==> at[i] != "." && at[i] != "..")
    && (forall i :: 0 < i <= |at| ==> link(PathOf(at[..i])) == None)
  }

  function NamesFrom(cwd: string, name: string): seq<string> {
    if Absolute(name) then Names(name) else Names(cwd) + Names(name)
  }

  /** `r` is the absolute, link-free name of the place the walk along `name` ends at. */
  ghost predicate IsTruename(link: Links, cwd: string, name: string, r: string) {
    exists at :: Settled(link, at) && r == PathOf(at)
              && Ends(link, Walker([], NamesFrom(cwd, name)), at)
  }

  lemma {:induction false} RunAdd(link: Links, m: nat, n: nat, w: Walker)
    ensures Run(link, m + n, w) == Run(link, n, Run(link, m, w))
    decreases m
  {
    hide Step;
    if m > 0 {
      RunAdd(link, m - 1, n, Step(link, w));
    }
  }

  lemma {:induction false} RunStays(link: Links, n: nat, r: seq<string>)
    ensures Run(link, n, Walker(r, [])) == Walker(r, [])
  {
    if n > 0 {
      RunStays(link, n - 1, r);
    }
  }

  /** A walk has at most one end. */
  lemma EndIsUnique(link: Links, w: Walker, r: seq<string>, r': seq<string>)
    requires Ends(link, w, r) && Ends(link, w, r')
    ensures r == r'
  {
    var n: nat :| Run(link, n, w) == Walker(r, []);
    var m: nat :| Run(link, m, w) == Walker(r', []);
    RunAdd(link, n, m, w);
    RunAdd(link, m, n, w);
    RunStays(link, m, r);
    RunStays(link, n, r');
  }

  /** Names behind those being walked do not matter until they are reached. */
  lemma {:induction false} RunFrame(link: Links, n: nat, w: Walker, more: seq<string>)
    requires Run(link, n, w).todo == []
    ensures exists k: nat :: k <= n && Run(link, k, Walker(w.at, w.todo + more)) == Walker(Run(link, n, w).at, more)
    decreases n
  {
    hide PathOf, Names, Parent;
    if w.todo == [] {
      RunStays(link, n, w.at);
      assert w == Walker(w.at, []);
      assert [] + more == more;
      assert Run(link, 0, Walker(w.at, w.todo + more)) == Walker(w.at, more);
    } else {
      var v, v' := Walker(w.at, w.todo + more), Step(link, w);
      assert (w.todo + more)[1..] == w.todo[1..] + more;
      assert Step(link, v) == Walker(v'.at, v'.todo + more) by {
        var c := w.todo[0];
        match link(PathOf(w.at + [c]))
        case None =>
        case Some(t) =>
          assert Names(t) + (w.todo[1..] + more) == (Names(t) + w.todo[1..]) + more;
      }
      RunFrame(link, n - 1, v', more);
      var k: nat :| k <= n - 1 && Run(link, k, Walker(v'.at, v'.todo + more)) == Walker(Run(link, n - 1, v').at, more);
      assert Run(link, k + 1, v) == Run(link, k, Step(link, v));
    }
  }

  /** Walking `first` and then `more` is walking `first + more`. */
  lemma EndsVia(link: Links, first: seq<string>, mid: seq<string>, more: seq<string>, r: seq<string>)
    requires Ends(link, Walker([], first), mid) && Ends(link, Walker(mid, more), r)
    ensures Ends(link, Walker([], first + more), r)
  {
    var n: nat :| Run(link, n, Walker([], first)) == Walker(mid, []);
    RunFrame(link, n, Walker([], first), more);
    var k: nat :| k <= n && Run(link, k, Walker([], first + more)) == Walker(mid, more);
    var m: nat :| Run(link, m, Walker(mid, more)) == Walker(r, []);
    RunAdd(link, k, m, Walker([], first + more));
    assert Run(link, k + m, Walker([], first + more)) == Walker(r, []);
  }

  lemma EndsBack(link: Links, w: Walker, r: seq<string>)
    requires Ends(link, Step(link, w), r)
    ensures Ends(link, w, r)
  {
    var n: nat :| Run(link, n, Step(link, w)) == Walker(r, []);
    assert Run(link, n + 1, w) == Walker(r, []);
  }

  lemma EndsHere(link: Links, r: seq<string>)
    ensures Ends(link, Walker(r, []), r)
  {
    assert Run(link, 0, Walker(r, [])) == Walker(r, []);
  }

  /** A settled place is walked to without a detour. */
  lemma {:induction false} SettledWalk(link: Links, at: seq<string>, k: nat)
    requires Settled(link, at) && k <= |at|
    ensures Ends(link, Walker(at[..k], at[k..]), at)
    decreases |at| - k
  {
    if k == |at| {
      assert at[..k] == at && at[k..] == [];
      EndsHere(link, at);
    } else {
      var w := Walker(at[..k], at[k..]);
      assert w.at + [w.todo[0]] == at[..k + 1] && w.todo[1..] == at[k + 1..];
      SettledWalk(link, at, k + 1);
      EndsBack(link, w, at);
    }
  }

  lemma SettledIsNoLink(link: Links, at: seq<string>)
    requires link([SEP]) == None && Settled(link, at)
    ensures link(PathOf(at)) == None
  {
    assert at[..|at|] == at;
  }

  lemma SettledParent(link: Links, at: seq<string>)
    requires Settled(link, at)
    ensures Settled(link, Parent(at))
  {
    forall i | 0 < i <= |Parent(at)|
      ensures link(PathOf(Parent(at)[..i])) == None
    {
      assert Parent(at)[..i] == at[..i];
    }
  }

  lemma SettledChild(link: Links, at: seq<string>, c: string)
    requires Settled(link, at) && Named(c) && c != "." && c != ".."
    requires link(PathOf(at + [c])) == None
    ensures Settled(link, at + [c])
  {
    var all := at + [c];
    forall i | 0 < i <= |all|
      ensures link(PathOf(all[..i])) == None
    {
      if i <= |at| {
        assert all[..i] == at[..i];
      } else {
        assert all[..i] == all;
      }
    }
  }

  // ----- one level of the resolver --------------------------------------------------------------

  /** The directory a name is looked up in. */
  function DirectoryFrom(cwd: string, name: string): string {
    if DirectoryOf(name) == "" then DirForm(cwd) else DirectoryOf(name)
  }

  lemma NamesOfDirectoryFrom(cwd: string, name: string)
    requires Absolute(cwd)
    ensures NamesFrom(cwd, name) == NamesFrom(cwd, DirectoryFrom(cwd, name)) + Names(NondirectoryOf(name))
  {
    NamesOfParts(name);
    if DirectoryOf(name) == "" {
      assert !Absolute(name) && Absolute(DirForm(cwd));
      NamesOfDirForm(cwd);
      assert Names(DirectoryOf(name)) == [];
      assert Names(name) == Names(NondirectoryOf(name));
    } else {
      assert Absolute(name) <==> Absolute(DirectoryOf(name));
      if !Absolute(name) {
        assert Names(cwd) + Names(name)
            == (Names(cwd) + Names(DirectoryOf(name))) + Names(NondirectoryOf(name));
      }
    }
  }

  /** The directory ends in a separator; its file form names the same place, and equals it
      only for the root. */
  lemma DirectoryFromShape(cwd: string, name: string)
    requires Absolute(cwd)
    ensures var dir := DirectoryFrom(cwd, name);
            && dir != "" && dir[|dir| - 1] == SEP
            && NamesFrom(cwd, FileForm(dir)) == NamesFrom(cwd, dir)
            && (dir == FileForm(dir) <==> dir == [SEP])
  {
    var dir := DirectoryFrom(cwd, name);
    NamesOfFileForm(dir);
    assert FileForm(dir)[0] == dir[0];
    if |dir| == 1 {
      assert dir == [SEP];
    }
  }

  /** What the last component makes of the true name of the directory: the final name, or the
      name to chase next. */
  function Level(link: Links, d: string, last: string): (Option<string>, string) {
    if last == ".." then (None, FileForm(DirectoryOf(FileForm(d))))
    else if last == "." then (None, FileForm(d))
    else
      var name := Join(d, last);
      match link(name)
      case None => (None, name)
      case Some(t) => (Some(t), if Absolute(t) then t else Join(d, t))
  }

  /** The walk along `name` passes the place of its directory, and ends where the walk along
      the last component ends from there. */
  lemma TrueVia(link: Links, cwd: string, name: string, at: seq<string>, end: seq<string>)
    requires Absolute(cwd) && Settled(link, end)
    requires Ends(link, Walker([], NamesFrom(cwd, DirectoryFrom(cwd, name))), at)
    requires Ends(link, Walker(at, Names(NondirectoryOf(name))), end)
    ensures IsTruename(link, cwd, name, PathOf(end))
  {
    NamesOfDirectoryFrom(cwd, name);
    EndsVia(link, NamesFrom(cwd, DirectoryFrom(cwd, name)), at, Names(NondirectoryOf(name)), end);
  }

  lemma LevelAtDots(link: Links, cwd: string, name: string, at: seq<string>)
    requires Absolute(cwd) && Settled(link, at)
    requires Ends(link, Walker([], NamesFrom(cwd, DirectoryFrom(cwd, name))), at)
    requires NondirectoryOf(name) == "." || NondirectoryOf(name) == ".."
    ensures IsTruename(link, cwd, name, Level(link, PathOf(at), NondirectoryOf(name)).1)
  {
    var last := NondirectoryOf(name);
    NamesOfOne(last);
    FixedForm(at);
    ParentOfPath(at);
    SettledParent(link, at);
    var end := if last == "." then at else Parent(at);
    assert Step(link, Walker(at, [last])) == Walker(end, []);
    EndsHere(link, end);
    EndsBack(link, Walker(at, [last]), end);
    TrueVia(link, cwd, name, at, end);
  }

  lemma LevelAtName(link: Links, cwd: string, name: string, at: seq<string>)
    requires link([SEP]) == None && Absolute(cwd) && Settled(link, at)
    requires Ends(link, Walker([], NamesFrom(cwd, DirectoryFrom(cwd, name))), at)
    requires NondirectoryOf(name) != "." && NondirectoryOf(name) != ".."
    requires link(Join(PathOf(at), NondirectoryOf(name))) == None
    ensures IsTruename(link, cwd, name, Join(PathOf(at), NondirectoryOf(name)))
  {
    var last := NondirectoryOf(name);
    if last == "" {
      assert Names(last) == [];
      EndsHere(link, at);
      TrueVia(link, cwd, name, at, at);
    } else {
      NamesOfOne(last);
      PathOfChild(at, last);
      SettledChild(link, at, last);
      assert Step(link, Walker(at, [last])) == Walker(at + [last], []);
      EndsHere(link, at + [last]);
      EndsBack(link, Walker(at, [last]), at + [last]);
      TrueVia(link, cwd, name, at, at + [last]);
    }
  }

  /** A settled place is not a link, so only a real last component can be one. */
  lemma LevelAtLink(link: Links, at: seq<string>, last: string)
    requires link([SEP]) == None && Settled(link, at) && NoSep(last)
    requires last != "." && last != ".." && link(Join(PathOf(at), last)) != None
    ensures Named(last) && Join(PathOf(at), last) == PathOf(at + [last])
  {
    SettledIsNoLink(link, at);
    if last != "" {
      PathOfChild(at, last);
    }
  }

  /** If the level is done its name is true; if not, the next name has the same true name. */
  lemma LevelIsRight(link: Links, cwd: string, name: string, d: string)
    requires link([SEP]) == None && Absolute(cwd)
    requires IsTruename(link, cwd, DirectoryFrom(cwd, name), d)
    ensures var (target, next) := Level(link, d, NondirectoryOf(name));
            && (target == None ==> IsTruename(link, cwd, name, next))
            && (target != None ==> forall r :: IsTruename(link, cwd, next, r) ==> IsTruename(link, cwd, name, r))
  {
    var last := NondirectoryOf(name);
    var at :| Settled(link, at) && d == PathOf(at)
           && Ends(link, Walker([], NamesFrom(cwd, DirectoryFrom(cwd, name))), at);
    if last == "." || last == ".." {
      LevelAtDots(link, cwd, name, at);
    } else if link(Join(d, last)) == None {
      LevelAtName(link, cwd, name, at);
    } else {
      LevelAtLink(link, at, last);
      var next := Level(link, d, last).1;
      forall r | IsTruename(link, cwd, next, r)
        ensures IsTruename(link, cwd, name, r)
      {
        ChaseIsRight(link, cwd, name, at, last, r);
      }
    }
  }

  lemma FixedForm(at: seq<string>)
    requires AllNamed(at)
    ensures FileForm(PathOf(at)) == PathOf(at)
  {
    if at != [] {
      EndsWithLast(at);
    }
  }

  /** Following a link at the last component continues the same walk. */
  lemma ChaseIsRight(link: Links, cwd: string, name: string, at: seq<string>, last: string, r: string)
    requires Absolute(cwd) && Settled(link, at) && Named(last) && last != "." && last != ".."
    requires Ends(link, Walker([], NamesFrom(cwd, DirectoryFrom(cwd, name))), at)
    requires last == NondirectoryOf(name) && link(PathOf(at + [last])).Some?
    ensures IsTruename(link, cwd, Chased(link, at, last), r) ==> IsTruename(link, cwd, name, r)
  {
    var t := link(PathOf(at + [last])).value;
    var next := Chased(link, at, last);
    if !IsTruename(link, cwd, next, r) {
      return;
    }
    var end :| Settled(link, end) && r == PathOf(end) && Ends(link, Walker([], NamesFrom(cwd, next)), end);
    NamesOfDirectoryFrom(cwd, name);
    NamesOfOne(last);
    assert Names(t) + [] == Names(t);
    if !Absolute(t) {
      NamesOfJoin(PathOf(at), t);
      NamesOfPath(at);
      assert Absolute(next);
      assert Ends(link, Walker([], at + Names(t)), end);
      SettledWalk(link, at, 0);
      assert at[..0] == [] && at[0..] == at;
      EndsAfter(link, at, at, Names(t), end);
    }
    assert Ends(link, Step(link, Walker(at, [last])), end);
    EndsBack(link, Walker(at, [last]), end);
    EndsVia(link, NamesFrom(cwd, DirectoryFrom(cwd, name)), at, [last], end);
  }

  /** The other half of `EndsVia`: the end of the whole walk is the end from the middle. */
  lemma EndsAfter(link: Links, first: seq<string>, mid: seq<string>, more: seq<string>, r: seq<string>)
    requires Ends(link, Walker([], first), mid) && Ends(link, Walker([], first + more), r)
    ensures Ends(link, Walker(mid, more), r)
  {
    var n: nat :| Run(link, n, Walker([], first)) == Walker(mid, []);
    RunFrame(link, n, Walker([], first), more);
    var k: nat :| k <= n && Run(link, k, Walker([], first + more)) == Walker(mid, more);
    var m: nat :| Run(link, m, Walker([], first + more)) == Walker(r, []);
    RunAdd(link, m, k, Walker([], first + more));
    RunAdd(link, k, m, Walker([], first + more));
    RunStays(link, k, r);
    assert Run(link, m, Walker(mid, more)) == Walker(r, []);
  }

  // ----- the resolver ------------------------------------------------------------------------------

  lemma TruenameIsUnique(link: Links, cwd: string, name: string, r: string, r': string)
    requires IsTruename(link, cwd, name, r) && IsTruename(link, cwd, name, r')
    ensures r == r'
  {
    var w := Walker([], NamesFrom(cwd, name));
    var at :| Settled(link, at) && r == PathOf(at) && Ends(link, w, at);
    var at' :| Settled(link, at') && r' == PathOf(at') && Ends(link, w, at');
    EndIsUnique(link, w, at, at');
  }

  /** A true name is absolute, no part of it is a link, and it has no `.` or `..`. */
  lemma TruenameShape(link: Links, cwd: string, name: string, r: string)
    requires link([SEP]) == None && IsTruename(link, cwd, name, r)
    ensures Absolute(r) && link(r) == None
    ensures "." !in Names(r) && ".." !in Names(r) && PathOf(Names(r)) == r
    ensures forall i :: 0 <= i <= |Names(r)| ==> link(PathOf(Names(r)[..i])) == None
  {
    var at :| Settled(link, at) && r == PathOf(at) && Ends(link, Walker([], NamesFrom(cwd, name)), at);
    NamesOfPath(at);
    SettledIsNoLink(link, at);
    assert at[..0] == [];
  }

  lemma RootIsTrue(link: Links, cwd: string)
    ensures IsTruename(link, cwd, [SEP], [SEP])
  {
    EndsHere(link, []);
    assert Names([SEP]) == Names([SEP][1..]);
    assert Settled(link, []) && PathOf([]) == [SEP];
  }

  /** The same true names for both spellings of the directory. */
  lemma TrueDirectory(link: Links, cwd: string, name: string, r: string)
    requires Absolute(cwd)
    ensures var dir := DirectoryFrom(cwd, name);
            IsTruename(link, cwd, FileForm(dir), r) <==> IsTruename(link, cwd, dir, r)
  {
    DirectoryFromShape(cwd, name);
  }

  function AtLeastZero(i: int): nat {
    if i > 0 then i else 0
  }

  /** The resolver without its memo. */
  function Plain(link: Links, cwd: string, name: string, counter: int): Option<string>
    decreases AtLeastZero(counter), 1
  {
    if counter - 1 < 0 then None
    else
      match PlainDirectory(link, cwd, name, counter - 1)
      case None => None
      case Some(d) =>
        var (target, next) := Level(link, d, NondirectoryOf(name));
        if target == None then Some(next) else Plain(link, cwd, next, counter - 1)
  }

  /** The true name of the directory of `name`; the root is its own. */
  function PlainDirectory(link: Links, cwd: string, name: string, counter: int): Option<string>
    decreases AtLeastZero(counter), 2
  {
    var dir := DirectoryFrom(cwd, name);
    if dir == FileForm(dir) then Some(dir) else Plain(link, cwd, FileForm(dir), counter)
  }

  /** Whatever the plain resolver finds is the true name. */
  lemma {:induction false} PlainIsRight(link: Links, cwd: string, name: string, counter: int)
    requires link([SEP]) == None && Absolute(cwd) && Plain(link, cwd, name, counter).Some?
    ensures IsTruename(link, cwd, name, Plain(link, cwd, name, counter).value)
    decreases AtLeastZero(counter), 1
  {
    var d := PlainDirectory(link, cwd, name, counter - 1).value;
    PlainDirectoryIsRight(link, cwd, name, counter - 1);
    LevelIsRight(link, cwd, name, d);
    var (target, next) := Level(link, d, NondirectoryOf(name));
    if target != None {
      PlainIsRight(link, cwd, next, counter - 1);
    }
  }

  lemma {:induction false} PlainDirectoryIsRight(link: Links, cwd: string, name: string, counter: int)
    requires link([SEP]) == None && Absolute(cwd) && PlainDirectory(link, cwd, name, counter).Some?
    ensures IsTruename(link, cwd, DirectoryFrom(cwd, name), PlainDirectory(link, cwd, name, counter).value)
    decreases AtLeastZero(counter), 2
  {
    var dir := DirectoryFrom(cwd, name);
    DirectoryFromShape(cwd, name);
    if dir == FileForm(dir) {
      RootIsTrue(link, cwd);
    } else {
      PlainIsRight(link, cwd, FileForm(dir), counter);
      TrueDirectory(link, cwd, name, PlainDirectory(link, cwd, name, counter).value);
    }
  }

  /** Every memo entry maps a directory to its true name. */
  ghost predicate SeenIsTrue(link: Links, cwd: string, seen: map<string, string>) {
    forall dir <- seen :: IsTruename(link, cwd, dir, seen[dir])
  }

  /** The part of a turn that finds the true name of the directory: the root as it is, a
      directory in the memo, or a recursive call whose result goes into the memo. */
  method ResolveDirectory(link: Links, cwd: string, name: string, counter: int, seen0: map<string, string>)
    returns (r: Option<string>, seen: map<string, string>)
    requires link([SEP]) == None && Absolute(cwd)
    requires SeenIsTrue(link, cwd, seen0)
    ensures SeenIsTrue(link, cwd, seen)
    ensures r.Some? ==> IsTruename(link, cwd, DirectoryFrom(cwd, name), r.value)
    ensures PlainDirectory(link, cwd, name, counter).Some? ==> r == PlainDirectory(link, cwd, name, counter)
    decreases AtLeastZero(counter), 2
  {
    seen := seen0;
    var dir := Directory(name);
    if dir == "" {
      dir := DirForm(cwd);
    }
    var dirfile := AsFile(dir);
    DirectoryFromShape(cwd, name);
    if dir == dirfile {
      RootIsTrue(link, cwd);
      return Some(dir), seen;
    }
    if dir in seen {
      r := Some(seen[dir]);
      if PlainDirectory(link, cwd, name, counter).Some? {
        PlainDirectoryIsRight(link, cwd, name, counter);
        TruenameIsUnique(link, cwd, dir, seen[dir], PlainDirectory(link, cwd, name, counter).value);
      }
    } else {
      r, seen := FindTruename(link, cwd, dirfile, counter, seen);
      if r.Some? {
        TrueDirectory(link, cwd, name, r.value);
        seen := seen[dir := r.value];
      }
    }
  }

  /** The part of a turn that puts the last component back on the resolved directory. */
  method ResolveLast(link: Links, dir: string, name0: string) returns (name: string, done: bool)
    ensures var (target, next) := Level(link, dir, NondirectoryOf(name0));
            name == next && done == (target == None)
  {
    var last := Nondirectory(name0);
    if last == ".." {
      var file := AsFile(dir);
      var up := Directory(file);
      name := AsFile(up);
      done := true;
    } else if last == "." {
      name := AsFile(dir);
      done := true;
    } else {
      name := Join(dir, last);
      var target := link(name);
      if target.Some? {
        name := if Absolute(target.value) then target.value else Join(dir, target.value);
        done := false;
      } else {
        done := true;
      }
    }
  }

  /** The true name of `name0`, or `None` for "too many symbolic links".  The memo only saves
      work: whenever the plain resolver gets by with the counter, the result is the same. */
  method FindTruename(link: Links, cwd: string, name0: string, counter0: int, seen0: map<string, string>)
    returns (r: Option<string>, seen: map<string, string>)
    requires link([SEP]) == None && Absolute(cwd)
    requires SeenIsTrue(link, cwd, seen0)
    ensures SeenIsTrue(link, cwd, seen)
    ensures r.Some? ==> IsTruename(link, cwd, name0, r.value)
    ensures Plain(link, cwd, name0, counter0).Some? ==> r == Plain(link, cwd, name0, counter0)
    decreases AtLeastZero(counter0), 1
  {
    var name, counter, done := name0, counter0, false;
    seen := seen0;
    while !done
      invariant SeenIsTrue(link, cwd, seen)
      invariant counter <= counter0
      invariant done ==> IsTruename(link, cwd, name0, name)
      invariant !done ==> forall t :: IsTruename(link, cwd, name, t) ==> IsTruename(link, cwd, name0, t)
      invariant Plain(link, cwd, name0, counter0).Some? ==>
                  Plain(link, cwd, name0, counter0) == if done then Some(name) else Plain(link, cwd, name, counter)
      decreases !done, AtLeastZero(counter)
    {
      counter := counter - 1;
      if counter < 0 {
        return None, seen;
      }
      var dir;
      dir, seen := ResolveDirectory(link, cwd, name, counter, seen);
      if dir == None {
        return None, seen;
      }
      LevelIsRight(link, cwd, name, dir.value);
      name, done := ResolveLast(link, dir.value, name);
    }
    r := Some(name);
  }

  // ----- nothing that can be resolved is missed --------------------------------------------------

  predicate Follows(link: Links, w: Walker) {
    w.todo != [] && w.todo[0] != "." && w.todo[0] != ".." && link(PathOf(w.at + [w.todo[0]])).Some?
  }

  /** Links followed in the first `n` steps. */
  function LinkSteps(link: Links, n: nat, w: Walker): nat {
    if n == 0 then 0 else (if Follows(link, w) then 1 else 0) + LinkSteps(link, n - 1, Step(link, w))
  }

  lemma {:induction false} LinkStepsAdd(link: Links, m: nat, n: nat, w: Walker)
    ensures LinkSteps(link, m + n, w) == LinkSteps(link, m, w) + LinkSteps(link, n, Run(link, m, w))
    decreases m
  {
    hide Step, Follows;
    if m > 0 {
      LinkStepsAdd(link, m - 1, n, Step(link, w));
    }
  }

  /** The whole walk passes the end of its first part, having followed the same links. */
  lemma {:induction false} FirstPart(link: Links, n: nat, w: Walker, more: seq<string>) returns (k: nat)
    requires Run(link, n, Walker(w.at, w.todo + more)).todo == []
    ensures k <= n && Run(link, k, w).todo == []
    ensures Run(link, k, Walker(w.at, w.todo + more)) == Walker(Run(link, k, w).at, more)
    ensures LinkSteps(link, k, w) == LinkSteps(link, k, Walker(w.at, w.todo + more))
    decreases n
  {
    hide PathOf, Names, Parent;
    if w.todo == [] {
      k := 0;
      assert w.todo + more == more;
    } else {
      var v, v' := Walker(w.at, w.todo + more), Step(link, w);
      assert (w.todo + more)[1..] == w.todo[1..] + more;
      assert Step(link, v) == Walker(v'.at, v'.todo + more) by {
        match link(PathOf(w.at + [w.todo[0]]))
        case None =>
        case Some(t) =>
          assert Names(t) + (w.todo[1..] + more) == (Names(t) + w.todo[1..]) + more;
      }
      k := FirstPart(link, n - 1, v', more);
      k := k + 1;
    }
  }

  lemma SettledStep(link: Links, at: seq<string>, i: nat, more: seq<string>)
    requires Settled(link, at) && i < |at|
    ensures var w := Walker(at[..i], at[i..] + more);
            Step(link, w) == Walker(at[..i + 1], at[i + 1..] + more) && !Follows(link, w)
  {
    hide PathOf, Names;
    var w := Walker(at[..i], at[i..] + more);
    assert w.at + [w.todo[0]] == at[..i + 1] && w.todo[1..] == at[i + 1..] + more;
  }

  /** Walking a settled place follows no link. */
  lemma {:induction false} SettledNoLinks(link: Links, at: seq<string>, i: nat, more: seq<string>)
    requires Settled(link, at) && i <= |at|
    ensures Run(link, |at| - i, Walker(at[..i], at[i..] + more)) == Walker(at, more)
    ensures LinkSteps(link, |at| - i, Walker(at[..i], at[i..] + more)) == 0
    decreases |at| - i
  {
    if i == |at| {
      assert at[..i] == at && at[i..] + more == more;
    } else {
      hide Settled, Step, Follows;
      SettledStep(link, at, i, more);
      SettledNoLinks(link, at, i + 1, more);
    }
  }

  /** A walk from the root only ever stands on settled places. */
  lemma {:induction false} RunSettled(link: Links, n: nat, w: Walker)
    requires Settled(link, w.at) && AllNamed(w.todo)
    ensures Settled(link, Run(link, n, w).at)
    decreases n
  {
    hide PathOf, Names;
    if n > 0 {
      if w.todo != [] {
        var c := w.todo[0];
        SettledParent(link, w.at);
        if c != "." && c != ".." && link(PathOf(w.at + [c])) == None {
          SettledChild(link, w.at, c);
        }
      }
      RunSettled(link, n - 1, Step(link, w));
    }
  }

  /** A larger counter never changes a result. */
  lemma {:induction false} PlainMore(link: Links, cwd: string, name: string, c: int, c': int)
    requires c <= c' && Plain(link, cwd, name, c).Some?
    ensures Plain(link, cwd, name, c') == Plain(link, cwd, name, c)
    decreases AtLeastZero(c)
  {
    hide Level, DirectoryFrom, FileForm;
    var dir := DirectoryFrom(cwd, name);
    if dir != FileForm(dir) {
      PlainMore(link, cwd, FileForm(dir), c - 1, c' - 1);
    }
    var (target, next) := Level(link, PlainDirectory(link, cwd, name, c - 1).value, NondirectoryOf(name));
    if target != None {
      PlainMore(link, cwd, next, c - 1, c' - 1);
    }
  }

  /** No name is resolved with fewer levels than there are names on the way to it. */
  lemma {:induction false} PlainNeedsDepth(link: Links, cwd: string, name: string, c: int)
    requires Absolute(cwd) && Plain(link, cwd, name, c).Some?
    ensures c >= 1 && c >= |NamesFrom(cwd, name)|
    decreases AtLeastZero(c)
  {
    hide Level, FileForm, DirectoryFrom, Names;
    var dir := DirectoryFrom(cwd, name);
    DirectoryFromShape(cwd, name);
    NamesOfDirectoryFrom(cwd, name);
    AtMostOneName(NondirectoryOf(name));
    if dir == FileForm(dir) {
      assert Names([SEP]) == [] by { RootHasNoNames(); }
    } else {
      PlainNeedsDepth(link, cwd, FileForm(dir), c - 1);
    }
  }

  lemma RootHasNoNames()
    ensures Names([SEP]) == []
  {
    assert Names([SEP]) == Names([SEP][1..]);
  }

  lemma AtMostOneName(last: string)
    requires NoSep(last)
    ensures |Names(last)| <= 1
  {
    if last != "" {
      NamesOfOne(last);
    }
  }

  /** The second name is what a link under the first one says. */
  ghost predicate LeadsTo(link: Links, cwd: string, name: string, next: string) {
    exists d :: IsTruename(link, cwd, DirectoryFrom(cwd, name), d)
             && Level(link, d, NondirectoryOf(name)).0 != None && Level(link, d, NondirectoryOf(name)).1 == next
  }

  /** Nor is one with fewer levels than there are links in the chain it starts; "too many symbolic
      links" is what the code says of every longer chain. */
  lemma {:induction false} ChainNeeds(link: Links, cwd: string, names: seq<string>, c: int)
    requires link([SEP]) == None && Absolute(cwd) && names != []
    requires forall i :: 0 <= i < |names| - 1 ==> LeadsTo(link, cwd, names[i], names[i + 1])
    requires Plain(link, cwd, names[0], c).Some?
    ensures c >= |names|
    decreases |names|
  {
    if |names| > 1 {
      hide Level, DirectoryFrom, IsTruename;
      var name := names[0];
      assert LeadsTo(link, cwd, name, names[1]);
      PlainDirectoryIsRight(link, cwd, name, c - 1);
      var d :| IsTruename(link, cwd, DirectoryFrom(cwd, name), d)
            && Level(link, d, NondirectoryOf(name)).0 != None && Level(link, d, NondirectoryOf(name)).1 == names[1];
      TruenameIsUnique(link, cwd, DirectoryFrom(cwd, name), d, PlainDirectory(link, cwd, name, c - 1).value);
      forall i | 0 <= i < |names| - 2
        ensures LeadsTo(link, cwd, names[1..][i], names[1..][i + 1])
      {
        assert LeadsTo(link, cwd, names[i + 1], names[i + 2]);
      }
      ChainNeeds(link, cwd, names[1..], c - 1);
    }
  }

  function Length(cwd: string, name: string): nat {
    if Absolute(name) then |name| else |cwd| + |name| + 2
  }

  lemma DirectoryIsShorter(cwd: string, name: string)
    requires Absolute(cwd)
    ensures var dir := DirectoryFrom(cwd, name);
            dir != FileForm(dir) ==> Length(cwd, FileForm(dir)) < Length(cwd, name)
  {
    var dir := DirectoryFrom(cwd, name);
    if dir != FileForm(dir) {
      assert |FileForm(dir)| < |dir|;
      assert FileForm(dir)[0] == dir[0];
      if DirectoryOf(name) != "" {
        assert dir[0] == name[0];
      }
    }
  }

  function Max(a: int, b: int): int {
    if a > b then a else b
  }

  /** The name to chase when the last component is a link. */
  function Chased(link: Links, at: seq<string>, last: string): string
    requires link(PathOf(at + [last])).Some?
  {
    var t := link(PathOf(at + [last])).value;
    if Absolute(t) then t else Join(PathOf(at), t)
  }

  /** The walk from a settled place, begun at the root. */
  lemma WalkFrom(link: Links, at: seq<string>, more: seq<string>, n: nat)
    requires Settled(link, at) && Run(link, n, Walker(at, more)).todo == []
    ensures var w := Walker([], at + more);
            && Run(link, |at| + n, w).todo == []
            && LinkSteps(link, |at| + n, w) == LinkSteps(link, n, Walker(at, more))
  {
    hide Settled, Run, LinkSteps;
    SettledNoLinks(link, at, 0, more);
    assert at[..0] == [] && at[0..] == at;
    RunAdd(link, |at|, n, Walker([], at + more));
    LinkStepsAdd(link, |at|, n, Walker([], at + more));
  }

  lemma RelativeWalk(link: Links, at: seq<string>, t: string, n: nat)
    requires Settled(link, at) && Run(link, n, Walker(at, Names(t))).todo == []
    ensures var w := Walker([], Names(Join(PathOf(at), t)));
            && Run(link, |at| + n, w).todo == []
            && LinkSteps(link, |at| + n, w) == LinkSteps(link, n, Walker(at, Names(t)))
  {
    hide Run, LinkSteps, Names, PathOf, Join;
    NamesOfJoin(PathOf(at), t);
    NamesOfPath(at);
    WalkFrom(link, at, Names(t), n);
  }

  /** The step that follows a link at the last component. */
  lemma ChaseStep(link: Links, at: seq<string>, last: string)
    requires Follows(link, Walker(at, [last]))
    ensures var t := link(PathOf(at + [last])).value;
            Step(link, Walker(at, [last])) == Walker(if Absolute(t) then [] else at, Names(t))
  {
    hide PathOf, Names;
    var t := link(PathOf(at + [last])).value;
    assert [last][1..] == [] && Names(t) + [] == Names(t);
  }

  /** Following the link at the last component: the walk along the next name has one link less
      to follow. */
  lemma NextWalk(link: Links, cwd: string, at: seq<string>, last: string, n: nat) returns (m: nat)
    requires Settled(link, at) && Named(last) && Follows(link, Walker(at, [last]))
    requires Run(link, n, Walker(at, [last])).todo == []
    ensures var w := Walker([], NamesFrom(cwd, Chased(link, at, last)));
            && Run(link, m, w).todo == []
            && LinkSteps(link, m, w) + 1 == LinkSteps(link, n, Walker(at, [last]))
    ensures m < |at| + n
  {
    hide Step, Names, PathOf, Run, LinkSteps, Join;
    var t := link(PathOf(at + [last])).value;
    hide Follows;
    ChaseStep(link, at, last);
    OneLinkLess(link, Walker(at, [last]), n);
    m := n - 1;
    if !Absolute(t) {
      RelativeWalk(link, at, t, n - 1);
      m := |at| + m;
      JoinIsAbsolute(at, t);
    }
  }

  lemma OneLinkLess(link: Links, w: Walker, n: nat)
    requires Follows(link, w) && Run(link, n, w).todo == []
    ensures n > 0 && Run(link, n - 1, Step(link, w)).todo == []
    ensures LinkSteps(link, n - 1, Step(link, w)) + 1 == LinkSteps(link, n, w)
  {
    hide Step;
  }

  lemma JoinIsAbsolute(at: seq<string>, t: string)
    ensures Absolute(Join(PathOf(at), t))
  {
  }

  /** A walk along a name passes the place of the directory. */
  lemma PastDirectory(link: Links, cwd: string, name: string, n: nat) returns (k: nat, at: seq<string>)
    requires Absolute(cwd) && Run(link, n, Walker([], NamesFrom(cwd, name))).todo == []
    ensures |at| <= k <= n && Settled(link, at)
    ensures var w, v := Walker([], NamesFrom(cwd, DirectoryFrom(cwd, name))), Walker(at, Names(NondirectoryOf(name)));
            && Run(link, k, w) == Walker(at, [])
            && Run(link, n - k, v).todo == []
            && LinkSteps(link, k, w) + LinkSteps(link, n - k, v) == LinkSteps(link, n, Walker([], NamesFrom(cwd, name)))
  {
    hide DirectoryFrom, NondirectoryOf, Run, LinkSteps;
    var front, last := NamesFrom(cwd, DirectoryFrom(cwd, name)), Names(NondirectoryOf(name));
    NamesOfDirectoryFrom(cwd, name);
    k := FirstPart(link, n, Walker([], front), last);
    at := Run(link, k, Walker([], front)).at;
    LinkStepsAdd(link, k, n - k, Walker([], front + last));
    RunAdd(link, k, n - k, Walker([], front + last));
    RunSettled(link, k, Walker([], front));
    RunDeepens(link, k, Walker([], front));
  }

  /** A step goes down by at most one name. */
  lemma {:induction false} RunDeepens(link: Links, n: nat, w: Walker)
    ensures |Run(link, n, w).at| <= |w.at| + n
    decreases n
  {
    if n > 0 {
      RunDeepens(link, n - 1, Step(link, w));
    }
  }

  /** The counters that do for the directory and for the next name make one for the name. */
  lemma LevelCounter(link: Links, cwd: string, name: string, cd: int, cn: int, d: string)
    requires PlainDirectory(link, cwd, name, cd) == Some(d)
    requires var (target, next) := Level(link, d, NondirectoryOf(name));
             target != None ==> Plain(link, cwd, next, cn).Some?
    ensures Plain(link, cwd, name, Max(Max(cd, cn), 0) + 1).Some?
  {
    var c := Max(Max(cd, cn), 0);
    DirectoryMore(link, cwd, name, cd, c);
    var (target, next) := Level(link, d, NondirectoryOf(name));
    if target != None {
      PlainMore(link, cwd, next, cn, c);
    }
  }

  /** The walk along the name to chase next. */
  lemma LevelWalk(link: Links, cwd: string, at: seq<string>, last: string, n: nat) returns (m: nat)
    requires link([SEP]) == None && Settled(link, at) && NoSep(last)
    requires Run(link, n, Walker(at, Names(last))).todo == []
    requires Level(link, PathOf(at), last).0 != None
    ensures var w := Walker([], NamesFrom(cwd, Level(link, PathOf(at), last).1));
            && Run(link, m, w).todo == []
            && LinkSteps(link, m, w) < LinkSteps(link, n, Walker(at, Names(last)))
    ensures last != "" && m < |at| + n
  {
    LevelAtLink(link, at, last);
    NamesOfOne(last);
    m := NextWalk(link, cwd, at, last, n);
  }

  /** A level for the separator behind a name that is not the root. */
  function Trailing(name: string): (t: nat)
    ensures t <= 1
  {
    if NondirectoryOf(name) == "" && name != [SEP] then 1 else 0
  }

  /** Levels for a name walked to its end in `n` steps: one for each step, one for each link
      among them, one for a trailing separator and one for the name. */
  function EnoughLevels(link: Links, cwd: string, name: string, n: nat): nat {
    n + LinkSteps(link, n, Walker([], NamesFrom(cwd, name))) + Trailing(name) + 1
  }

  lemma DirectoryHasNoTrailing(cwd: string, name: string)
    requires Absolute(cwd)
    ensures var dir := DirectoryFrom(cwd, name);
            && Trailing(FileForm(dir)) == 0
            && (dir != FileForm(dir) && NondirectoryOf(name) == "" ==> Trailing(name) == 1)
  {
    DirectoryFromShape(cwd, name);
  }

  /** With that many levels the name is resolved: each level spends one on itself, and what is
      left does for the walk to the directory and for the walk along the name to chase. */
  lemma {:induction false} EnoughCounter(link: Links, cwd: string, name: string, n: nat)
    requires link([SEP]) == None && Absolute(cwd)
    requires Run(link, n, Walker([], NamesFrom(cwd, name))).todo == []
    ensures Plain(link, cwd, name, EnoughLevels(link, cwd, name, n)).Some?
    decreases LinkSteps(link, n, Walker([], NamesFrom(cwd, name))), Length(cwd, name)
  {
    hide Run, LinkSteps, NamesFrom, Level, PathOf, Plain, Length, FileForm, Trailing;
    var dir, last := DirectoryFrom(cwd, name), NondirectoryOf(name);
    var k, at := PastDirectory(link, cwd, name, n);
    DirectoryFromShape(cwd, name);
    DirectoryIsShorter(cwd, name);
    DirectoryHasNoTrailing(cwd, name);
    LastTakesStep(link, n - k, at, last);
    var c := EnoughLevels(link, cwd, name, n) - 1;
    var cd := 0;
    if dir != FileForm(dir) {
      EnoughCounter(link, cwd, FileForm(dir), k);
      cd := EnoughLevels(link, cwd, FileForm(dir), k);
    }
    DirectoryFound(link, cwd, name, k, cd, at);
    var (target, next) := Level(link, PathOf(at), last);
    var cn := 0;
    if target != None {
      var m := LevelWalk(link, cwd, at, last, n - k);
      EnoughCounter(link, cwd, next, m);
      cn := EnoughLevels(link, cwd, next, m);
    }
    LevelCounter(link, cwd, name, cd, cn, PathOf(at));
    PlainMore(link, cwd, name, Max(Max(cd, cn), 0) + 1, c + 1);
  }

  lemma LastTakesStep(link: Links, n: nat, at: seq<string>, last: string)
    requires NoSep(last) && Run(link, n, Walker(at, Names(last))).todo == []
    ensures last != "" ==> n > 0
  {
    if last != "" {
      NamesOfOne(last);
    }
  }

  /** The counter of the library is enough for every name whose walk takes, each link counted
      twice, no more than 98 steps. */
  lemma HundredIsEnough(link: Links, cwd: string, name: string, n: nat)
    requires link([SEP]) == None && Absolute(cwd)
    requires Run(link, n, Walker([], NamesFrom(cwd, name))).todo == []
    requires n + LinkSteps(link, n, Walker([], NamesFrom(cwd, name))) <= 98
    ensures Plain(link, cwd, name, 100).Some?
  {
    EnoughCounter(link, cwd, name, n);
    PlainMore(link, cwd, name, EnoughLevels(link, cwd, name, n), 100);
  }

  lemma DirectoryMore(link: Links, cwd: string, name: string, c: int, c': int)
    requires c <= c' && PlainDirectory(link, cwd, name, c).Some?
    ensures PlainDirectory(link, cwd, name, c') == PlainDirectory(link, cwd, name, c)
  {
    var dir := DirectoryFrom(cwd, name);
    if dir != FileForm(dir) {
      PlainMore(link, cwd, FileForm(dir), c, c');
    }
  }

  /** The directory found with enough counter is the place its walk ends at. */
  lemma DirectoryFound(link: Links, cwd: string, name: string, k: nat, c: int, at: seq<string>)
    requires link([SEP]) == None && Absolute(cwd)
    requires Run(link, k, Walker([], NamesFrom(cwd, DirectoryFrom(cwd, name)))) == Walker(at, [])
    ensures PlainDirectory(link, cwd, name, c).Some? ==> PlainDirectory(link, cwd, name, c) == Some(PathOf(at))
  {
    var dir := DirectoryFrom(cwd, name);
    var w := Walker([], NamesFrom(cwd, dir));
    if PlainDirectory(link, cwd, name, c) == None {
      return;
    }
    PlainDirectoryIsRight(link, cwd, name, c);
    assert Ends(link, w, at);
    RunSettled(link, k, w);
    TruenameIsUnique(link, cwd, dir, PlainDirectory(link, cwd, name, c).value, PathOf(at));
  }

  /** With some counter the resolver succeeds exactly on the names whose walk ends; a name it
      gives up on for every counter has links that go round for ever. */
  lemma ResolvesExactly(link: Links, cwd: string, name: string)
    requires link([SEP]) == None && Absolute(cwd)
    ensures (exists c :: Plain(link, cwd, name, c).Some?)
       <==> (exists at :: Ends(link, Walker([], NamesFrom(cwd, name)), at))
  {
    if c :| Plain(link, cwd, name, c).Some? {
      PlainIsRight(link, cwd, name, c);
    }
    if at :| Ends(link, Walker([], NamesFrom(cwd, name)), at) {
      var n: nat :| Run(link, n, Walker([], NamesFrom(cwd, name))) == Walker(at, []);
      EnoughCounter(link, cwd, name, n);
    }
  }
}
