/** Canonicalising before resolving: for which names `Filename::truename` resolves what it was asked
    to, whatever the links are. */
module CanonicalLinks {
  import opened Wrappers
  import opened Paths
  import opened FileParts
  import opened ExpandClean
  import opened Truename
  import opened Expand

  predicate Ordinary(c: string) {
    c != "" && c != "." && c != ".."
  }

  /** Some `..` stands behind an ordinary component. */
  predicate CutsName(cs: seq<string>) {
    exists i, j :: 0 <= i < j < |cs| && Ordinary(cs[i]) && cs[j] == ".."
  }

  /** With whatever links, the canonical form has the same true names as the name. */
  ghost predicate SameTruenames(s: string)
    requires Absolute(s)
  {
    forall link: Links, cwd: string, r: string :: link([SEP]) == None && Absolute(cwd) ==>
      (IsTruename(link, cwd, Canonical(s), r) <==> IsTruename(link, cwd, s, r))
  }

  // ----- the part in front of the first ordinary component -------------------------------------------

  /** Where the first ordinary component is. */
  function Lead(cs: seq<string>): (k: nat)
    ensures k <= |cs| && (k < |cs| ==> Ordinary(cs[k]))
    ensures forall i :: 0 <= i < k ==> !Ordinary(cs[i])
  {
    if cs == [] || Ordinary(cs[0]) then 0 else 1 + Lead(cs[1..])
  }

  lemma CutsBehindLead(cs: seq<string>)
    ensures CutsName(cs) <==> ".." in cs[Lead(cs)..]
  {
    var k := Lead(cs);
    if ".." in cs[k..] {
      var j :| k <= j < |cs| && cs[j] == "..";
      assert Ordinary(cs[k]);
    }
  }

  lemma {:induction false} NonEmptyConcat(a: seq<string>, b: seq<string>)
    ensures NonEmpty(a + b) == NonEmpty(a) + NonEmpty(b)
    decreases |a|
  {
    if a == [] {
      assert a + b == b;
    } else {
      assert (a + b)[1..] == a[1..] + b;
      NonEmptyConcat(a[1..], b);
    }
  }

  lemma {:induction false} NonEmptyMembers(cs: seq<string>)
    ensures forall c :: c in NonEmpty(cs) <==> c in cs && c != ""
    decreases |cs|
  {
    if cs != [] {
      NonEmptyMembers(cs[1..]);
      assert cs == [cs[0]] + cs[1..];
    }
  }

  lemma {:induction false} WithoutDotsMembers(ns: seq<string>)
    ensures forall c :: c in WithoutDots(ns) <==> c in ns && c != "."
    decreases |ns|
  {
    if ns != [] {
      WithoutDotsMembers(ns[1..]);
      assert ns == [ns[0]] + ns[1..];
    }
  }

  predicate NoneOrdinary(cs: seq<string>) {
    forall i :: 0 <= i < |cs| ==> !Ordinary(cs[i])
  }

  /** Cleaning invents no ordinary component. */
  lemma {:induction false} CleanStaysOrdinary(stack: seq<string>, cs: seq<string>)
    requires NoneOrdinary(stack) && NoneOrdinary(cs)
    ensures NoneOrdinary(Clean(stack, cs))
    decreases |cs|
  {
    if cs != [] {
      CleanStaysOrdinary(Push(stack, cs[0]), cs[1..]);
    }
  }

  lemma EndsForth(link: Links, w: Walker, r: seq<string>)
    requires Ends(link, w, r)
    ensures Ends(link, Step(link, w), r)
  {
    var n: nat :| Run(link, n, w) == Walker(r, []);
    if n == 0 {
      EndsHere(link, r);
    } else {
      assert Run(link, n - 1, Step(link, w)) == Walker(r, []);
    }
  }

  predicate OnlyDots(p: seq<string>) {
    forall i :: 0 <= i < |p| ==> p[i] == "." || p[i] == ".."
  }

  /** At the root, `.` and `..` lead nowhere. */
  lemma {:induction false} DotsAtRoot(link: Links, p: seq<string>, q: seq<string>, r: seq<string>)
    requires OnlyDots(p)
    ensures Ends(link, Walker([], p + q), r) <==> Ends(link, Walker([], q), r)
    decreases |p|
  {
    if p == [] {
      assert p + q == q;
    } else {
      var w := Walker([], p + q);
      assert (p + q)[0] == p[0] && (p + q)[1..] == p[1..] + q;
      assert Step(link, w) == Walker([], p[1..] + q);
      DotsAtRoot(link, p[1..], q, r);
      if Ends(link, w, r) {
        EndsForth(link, w, r);
      } else if Ends(link, Step(link, w), r) {
        EndsBack(link, w, r);
      }
    }
  }

  lemma NoneOrdinaryIsDots(cs: seq<string>)
    requires NoneOrdinary(cs)
    ensures OnlyDots(NonEmpty(cs))
  {
    NonEmptyMembers(cs);
    forall i | 0 <= i < |NonEmpty(cs)|
      ensures NonEmpty(cs)[i] == "." || NonEmpty(cs)[i] == ".."
    {
      assert NonEmpty(cs)[i] in NonEmpty(cs);
    }
  }

  /** The names of an absolute name are its non-empty components. */
  lemma NamesAreComponents(s: string)
    requires Absolute(s)
    ensures Names(s) == NonEmpty(Components(s)) && AllNoSep(Components(s))
  {
    ComponentsNoSep(s, 0);
    RenderComponentsFrom(s, 0);
    assert s[0..] == s;
    NamesOfRender(Components(s));
  }

  /** A name ends where its part from the first ordinary component on ends. */
  lemma EndsBehindLead(link: Links, s: string, r: seq<string>)
    requires Absolute(s)
    ensures var cs := Components(s);
            Ends(link, Walker([], Names(s)), r) <==> Ends(link, Walker([], NonEmpty(cs[Lead(cs)..])), r)
  {
    hide Names, Components, NonEmpty;
    var cs := Components(s);
    var a, b := cs[..Lead(cs)], cs[Lead(cs)..];
    NamesAreComponents(s);
    assert cs == a + b;
    NonEmptyConcat(a, b);
    NoneOrdinaryIsDots(a);
    DotsAtRoot(link, NonEmpty(a), NonEmpty(b), r);
  }

  // ----- nothing is cut ------------------------------------------------------------------------------

  lemma CanonicalNames(s: string)
    requires Absolute(s)
    ensures Names(Canonical(s)) == NonEmpty(Clean([], Components(s)))
  {
    hide Clean, Components;
    NamesAreComponents(s);
    var stack := Clean([], Components(s));
    assert AllNoSep(stack);
    NamesOfRender(stack);
    if stack == [] {
      assert Names([SEP]) == Names([SEP][1..]);
    }
  }

  lemma CleanOfUncut(a: seq<string>, b: seq<string>)
    requires NoneOrdinary(a) && ".." !in b
    ensures NonEmpty(Clean([], a + b)) == NonEmpty(Clean([], a)) + WithoutDots(NonEmpty(b))
    ensures OnlyDots(NonEmpty(Clean([], a)))
  {
    CleanStaysOrdinary([], a);
    hide NonEmpty, Clean, WithoutDots, OnlyDots;
    var stack := Clean([], a);
    CleanConcat([], a, b);
    CleanWithoutParents(stack, b);
    NonEmptyConcat(stack, WithoutDots(b));
    NonEmptyWithoutDots(b);
    NoneOrdinaryIsDots(stack);
  }

  /** If no ordinary component is cut, only `.` and leading `..` are gone. */
  lemma UncutNames(s: string) returns (lead: seq<string>)
    requires Absolute(s) && !CutsName(Components(s))
    ensures OnlyDots(lead)
    ensures var cs := Components(s);
            Names(Canonical(s)) == lead + WithoutDots(NonEmpty(cs[Lead(cs)..]))
  {
    var cs := Components(s);
    var a, b := cs[..Lead(cs)], cs[Lead(cs)..];
    CutsBehindLead(cs);
    hide Names, Components, NonEmpty, Clean, WithoutDots, Canonical, OnlyDots, CutsName;
    CanonicalNames(s);
    assert cs == a + b;
    CleanOfUncut(a, b);
    lead := NonEmpty(Clean([], a));
  }

  /** Then the canonical form walks as the name does. */
  lemma EndsAlikeUncut(link: Links, s: string, r: seq<string>)
    requires Absolute(s) && !CutsName(Components(s))
    ensures Ends(link, Walker([], Names(Canonical(s))), r) <==> Ends(link, Walker([], Names(s)), r)
  {
    hide Names, Components, NonEmpty, WithoutDots, Canonical, Lead, OnlyDots, Ends, CutsName;
    var cs := Components(s);
    var ns := NonEmpty(cs[Lead(cs)..]);
    var lead := UncutNames(s);
    DotsAtRoot(link, lead, WithoutDots(ns), r);
    WithoutDotsTwice(ns);
    SameEnds(link, Walker([], WithoutDots(ns)), Walker([], ns));
    EndsBehindLead(link, s, r);
  }

  lemma SameEndsSameTruenames(link: Links, cwd: string, s: string, t: string, r: string)
    requires Absolute(s) && Absolute(t)
    requires forall at :: Ends(link, Walker([], Names(s)), at) <==> Ends(link, Walker([], Names(t)), at)
    ensures IsTruename(link, cwd, s, r) <==> IsTruename(link, cwd, t, r)
  {
    hide Names, Settled, Ends, PathOf;
    if at :| Settled(link, at) && r == PathOf(at) && Ends(link, Walker([], NamesFrom(cwd, s)), at) {
      assert Ends(link, Walker([], NamesFrom(cwd, t)), at);
    }
    if at :| Settled(link, at) && r == PathOf(at) && Ends(link, Walker([], NamesFrom(cwd, t)), at) {
      assert Ends(link, Walker([], NamesFrom(cwd, s)), at);
    }
  }

  lemma UncutKeepsTruenames(s: string)
    requires Absolute(s) && !CutsName(Components(s))
    ensures SameTruenames(s)
  {
    CanonicalIsTidyAndFixed(s);
    hide Canonical, CutsName, Names, Components, Ends, IsTruename;
    forall link: Links, cwd: string, r: string | link([SEP]) == None && Absolute(cwd)
      ensures IsTruename(link, cwd, Canonical(s), r) <==> IsTruename(link, cwd, s, r)
    {
      forall at
        ensures Ends(link, Walker([], Names(Canonical(s))), at) <==> Ends(link, Walker([], Names(s)), at)
      {
        EndsAlikeUncut(link, s, at);
      }
      SameEndsSameTruenames(link, cwd, Canonical(s), s, r);
    }
  }

  // ----- a link that shows what is cut ---------------------------------------------------------------

  function Copies(big: string, k: nat): (s: seq<string>)
    ensures |s| == k && forall i :: 0 <= i < k ==> s[i] == big
  {
    seq(k, i => big)
  }

  /** Names the walk can take as they are. */
  predicate AllOrdinary(ns: seq<string>) {
    forall i :: 0 <= i < |ns| ==> Named(ns[i]) && Ordinary(ns[i])
  }

  /** The only link is at `place`; it leads down a chain of copies of one name, which occurs nowhere
      else. */
  datatype Chain = Chain(place: seq<string>, big: string, depth: nat)
  {
    function Links(): Links {
      p => if p == PathOf(place) then Some(PathOf(Copies(big, depth))) else None
    }

    predicate Valid() {
      place != [] && AllOrdinary(place) && big !in place && Named(big) && Ordinary(big)
    }
  }

  lemma NoLinkElsewhere(ch: Chain, at: seq<string>)
    requires ch.Valid() && AllNamed(at) && at != ch.place
    ensures ch.Links()(PathOf(at)) == None
  {
    NamesOfPath(at);
    NamesOfPath(ch.place);
  }

  lemma LinkThere(ch: Chain)
    requires ch.Valid()
    ensures ch.Links()(PathOf(ch.place)).Some?
    ensures Absolute(ch.Links()(PathOf(ch.place)).value)
    ensures Names(ch.Links()(PathOf(ch.place)).value) == Copies(ch.big, ch.depth)
  {
    NamesOfPath(Copies(ch.big, ch.depth));
  }

  /** One name that is no link. */
  lemma StepDown(ch: Chain, at: seq<string>, c: string, rest: seq<string>, r: seq<string>)
    requires ch.Valid() && AllNamed(at) && Named(c) && Ordinary(c) && at + [c] != ch.place
    requires Ends(ch.Links(), Walker(at + [c], rest), r)
    ensures Ends(ch.Links(), Walker(at, [c] + rest), r)
  {
    NoLinkElsewhere(ch, at + [c]);
    assert ([c] + rest)[1..] == rest;
    assert Step(ch.Links(), Walker(at, [c] + rest)) == Walker(at + [c], rest);
    EndsBack(ch.Links(), Walker(at, [c] + rest), r);
  }

  /** Down the chain. */
  lemma {:induction false} DownChain(ch: Chain, i: nat, rest: seq<string>, r: seq<string>)
    requires ch.Valid() && i <= ch.depth
    requires Ends(ch.Links(), Walker(Copies(ch.big, ch.depth), rest), r)
    ensures Ends(ch.Links(), Walker(Copies(ch.big, i), Copies(ch.big, ch.depth - i) + rest), r)
    decreases ch.depth - i
  {
    hide Ends;
    if i == ch.depth {
      assert Copies(ch.big, 0) + rest == rest;
    } else {
      DownChain(ch, i + 1, rest, r);
      var more := Copies(ch.big, ch.depth - i - 1) + rest;
      assert Copies(ch.big, i) + [ch.big] == Copies(ch.big, i + 1);
      assert Copies(ch.big, ch.depth - i) + rest == [ch.big] + more;
      assert (Copies(ch.big, i) + [ch.big])[i] == ch.big;
      StepDown(ch, Copies(ch.big, i), ch.big, more, r);
    }
  }

  /** At the link, and down the chain. */
  lemma JumpDown(ch: Chain, at: seq<string>, c: string, rest: seq<string>, r: seq<string>)
    requires ch.Valid() && at + [c] == ch.place && Ordinary(c)
    requires Ends(ch.Links(), Walker(Copies(ch.big, ch.depth), rest), r)
    ensures Ends(ch.Links(), Walker(at, [c] + rest), r)
  {
    LinkThere(ch);
    DownChain(ch, 0, rest, r);
    assert Copies(ch.big, 0) == [];
    assert ([c] + rest)[1..] == rest;
    assert Step(ch.Links(), Walker(at, [c] + rest)) == Walker([], Copies(ch.big, ch.depth) + rest);
    EndsBack(ch.Links(), Walker(at, [c] + rest), r);
  }

  /** From the root through the names of the link. */
  lemma {:induction false} ThroughLink(ch: Chain, m: nat, rest: seq<string>, r: seq<string>)
    requires ch.Valid() && m < |ch.place|
    requires Ends(ch.Links(), Walker(Copies(ch.big, ch.depth), rest), r)
    ensures Ends(ch.Links(), Walker(ch.place[..m], ch.place[m..] + rest), r)
    decreases |ch.place| - m
  {
    hide Ends;
    var c := ch.place[m];
    var more := ch.place[m + 1..] + rest;
    assert ch.place[m..] + rest == [c] + more;
    assert ch.place[..m] + [c] == ch.place[..m + 1];
    if m + 1 == |ch.place| {
      assert ch.place[..m + 1] == ch.place && more == rest;
      JumpDown(ch, ch.place[..m], c, rest, r);
    } else {
      ThroughLink(ch, m + 1, rest, r);
      StepDown(ch, ch.place[..m], c, more, r);
    }
  }

  /** Below the chain: some copies, then other names. */
  predicate Below(ch: Chain, at: seq<string>, k: nat, u: seq<string>) {
    at == Copies(ch.big, k) + u && ch.big !in u && AllOrdinary(u)
  }

  lemma BelowIsNotPlace(ch: Chain, at: seq<string>, k: nat, u: seq<string>)
    requires ch.Valid() && Below(ch, at, k, u) && k > 0
    ensures AllNamed(at) && at != ch.place && forall c :: at + [c] != ch.place
  {
    assert at[0] == ch.big;
    forall c
      ensures at + [c] != ch.place
    {
      assert (at + [c])[0] == ch.big;
    }
  }

  predicate Others(ch: Chain, ns: seq<string>) {
    forall i :: 0 <= i < |ns| ==> Named(ns[i]) && ns[i] != "." && ns[i] != ch.big
  }

  /** Too few names to climb out of the chain, and none that leads further down it. */
  lemma {:induction false} StayBelow(ch: Chain, at: seq<string>, k: nat, u: seq<string>, rest: seq<string>)
    returns (r: seq<string>, k': nat, u': seq<string>)
    requires ch.Valid() && Below(ch, at, k, u) && k > |rest| && Others(ch, rest)
    ensures Ends(ch.Links(), Walker(at, rest), r) && Below(ch, r, k', u') && 0 < k' <= k
    decreases |rest|
  {
    hide Ends;
    if rest == [] {
      EndsHere(ch.Links(), at);
      r, k', u' := at, k, u;
    } else {
      var c, more := rest[0], rest[1..];
      assert rest == [c] + more;
      BelowIsNotPlace(ch, at, k, u);
      if c == ".." {
        assert Step(ch.Links(), Walker(at, rest)) == Walker(Parent(at), more);
        if u == [] {
          assert Parent(at) == Copies(ch.big, k - 1) + [];
          r, k', u' := StayBelow(ch, Parent(at), k - 1, [], more);
        } else {
          assert Parent(at) == Copies(ch.big, k) + u[..|u| - 1];
          r, k', u' := StayBelow(ch, Parent(at), k, u[..|u| - 1], more);
        }
        EndsBack(ch.Links(), Walker(at, rest), r);
      } else {
        assert at + [c] == Copies(ch.big, k) + (u + [c]);
        r, k', u' := StayBelow(ch, at + [c], k, u + [c], more);
        StepDown(ch, at, c, more, r);
      }
    }
  }

  /** Either all the way down the chain, or nowhere near it. */
  predicate DownOrAway(ch: Chain, at: seq<string>) {
    Copies(ch.big, ch.depth) <= at || ch.big !in at
  }

  lemma {:induction false} StayDownOrAway(ch: Chain, at: seq<string>, rest: seq<string>) returns (r: seq<string>)
    requires ch.Valid() && AllNamed(at) && DownOrAway(ch, at) && Others(ch, rest) && ".." !in rest
    ensures Ends(ch.Links(), Walker(at, rest), r) && DownOrAway(ch, r)
    decreases |rest|
  {
    hide Ends;
    if rest == [] {
      EndsHere(ch.Links(), at);
      r := at;
    } else {
      var c, more := rest[0], rest[1..];
      assert rest == [c] + more;
      if at + [c] == ch.place {
        r := StayDownOrAway(ch, Copies(ch.big, ch.depth), more);
        JumpDown(ch, at, c, more, r);
      } else {
        r := StayDownOrAway(ch, at + [c], more);
        StepDown(ch, at, c, more, r);
      }
    }
  }

  /** The two kinds of end are different. */
  lemma DifferentEnds(ch: Chain, r: seq<string>, k: nat, u: seq<string>)
    requires Below(ch, r, k, u) && 0 < k < ch.depth
    ensures !DownOrAway(ch, r)
  {
    assert r[0] == ch.big;
    if |r| >= ch.depth {
      var i := ch.depth - 1;
      assert r[i] == u[i - k] && u[i - k] in u && Copies(ch.big, ch.depth)[i] == ch.big;
    }
  }

  lemma BelowIsSettled(ch: Chain, r: seq<string>, k: nat, u: seq<string>)
    requires ch.Valid() && Below(ch, r, k, u) && k > 0
    ensures Settled(ch.Links(), r)
  {
    assert AllNamed(r);
    forall i | 0 < i <= |r|
      ensures ch.Links()(PathOf(r[..i])) == None
    {
      assert r[..i][0] == ch.big;
      NoLinkElsewhere(ch, r[..i]);
    }
  }

  // ----- something is cut ----------------------------------------------------------------------------

  lemma {:induction false} ComponentsAreShort(s: string, i: nat)
    requires AtSep(s, i)
    ensures forall c :: c in ComponentsFrom(s, i) ==> |c| <= |s|
    decreases |s| - i
  {
    if i < |s| {
      ComponentsAreShort(s, NextSep(s, i + 1));
    }
  }

  /** The names of an absolute name are named, and not longer than it. */
  lemma NamesAreShort(s: string)
    requires Absolute(s)
    ensures forall c :: c in Names(s) ==> c in Components(s) && c != "" && Named(c) && |c| <= |s|
  {
    NamesAreComponents(s);
    NonEmptyMembers(Components(s));
    ComponentsAreShort(s, 0);
    hide Names, Components, NonEmpty;
    forall c | c in Names(s)
      ensures Named(c)
    {
      var i :| 0 <= i < |Names(s)| && Names(s)[i] == c;
      assert AllNamed(Names(s));
    }
  }

  /** The names from the first ordinary component on, without `.`. */
  function Tail(s: string): seq<string>
    requires Absolute(s)
  {
    var cs := Components(s);
    WithoutDots(NonEmpty(cs[Lead(cs)..]))
  }

  lemma TailMembers(s: string)
    requires Absolute(s)
    ensures forall c :: c in Tail(s) ==> Named(c) && c != "." && |c| <= |s|
    ensures CutsName(Components(s)) ==> ".." in Tail(s) && Ordinary(Tail(s)[0])
  {
    var cs := Components(s);
    var b := cs[Lead(cs)..];
    NamesAreShort(s);
    NamesAreComponents(s);
    NonEmptyMembers(cs);
    NonEmptyMembers(b);
    WithoutDotsMembers(NonEmpty(b));
    CutsBehindLead(cs);
    hide Names, Components;
    assert forall c :: c in b ==> c in cs;
  }

  lemma EndsInTail(link: Links, s: string, r: seq<string>)
    requires Absolute(s)
    ensures Ends(link, Walker([], Names(s)), r) <==> Ends(link, Walker([], Tail(s)), r)
  {
    hide Names, Components, NonEmpty, WithoutDots, Lead, Ends;
    var cs := Components(s);
    var ns := NonEmpty(cs[Lead(cs)..]);
    WithoutDotsTwice(ns);
    SameEnds(link, Walker([], WithoutDots(ns)), Walker([], ns));
    EndsBehindLead(link, s, r);
  }

  function FirstUp(ns: seq<string>): (j: nat)
    requires ".." in ns
    ensures j < |ns| && ns[j] == ".." && ".." !in ns[..j]
  {
    if ns[0] == ".." then 0
    else
      var j := FirstUp(ns[1..]);
      assert ns[..j + 1] == [ns[0]] + ns[1..][..j];
      j + 1
  }

  /** The link stands where the first name is cut; its chain is too deep to climb out of. */
  function Trap(s: string): Chain
    requires Absolute(s) && ".." in Tail(s)
  {
    var j := FirstUp(Tail(s));
    Chain(Tail(s)[..j], seq(|s| + 1, i => 'x'), |Tail(s)| - j + 1)
  }

  lemma TrapIsValid(s: string)
    requires Absolute(s) && CutsName(Components(s))
    ensures ".." in Tail(s) && Trap(s).Valid()
    ensures Others(Trap(s), Tail(s)[FirstUp(Tail(s)) + 1..])
  {
    hide Tail, FirstUp;
    TailMembers(s);
    var ns, ch := Tail(s), Trap(s);
    var j := FirstUp(ns);
    forall i | 0 <= i < j
      ensures Named(ch.place[i]) && Ordinary(ch.place[i]) && ch.place[i] != ch.big
    {
      assert ch.place[i] == ns[i] && ns[i] in ns && ch.place[i] in ns[..j];
    }
    var rest := ns[j + 1..];
    forall i | 0 <= i < |rest|
      ensures Named(rest[i]) && rest[i] != "." && rest[i] != ch.big
    {
      assert rest[i] in ns;
    }
  }

  lemma TrapOnName(s: string)
    requires Absolute(s) && ".." in Tail(s)
    ensures var ns, ch := Tail(s), Trap(s);
            var rest := ns[FirstUp(ns) + 1..];
            ns == ch.place + ([".."] + rest) && ch.depth > |rest| + 1
  {
    hide Tail, FirstUp;
    var ns := Tail(s);
    var j := FirstUp(ns);
    assert ns == ns[..j] + ([".."] + ns[j + 1..]);
  }

  /** Names that climb out of the link by one name, and then too few to leave its chain. */
  lemma ClimbInChain(ch: Chain, rest: seq<string>) returns (r: seq<string>, k: nat, u: seq<string>)
    requires ch.Valid() && ch.depth > |rest| + 1 && Others(ch, rest)
    ensures Ends(ch.Links(), Walker([], ch.place + ([".."] + rest)), r)
    ensures Below(ch, r, k, u) && 0 < k < ch.depth
  {
    hide Ends;
    var link, more := ch.Links(), [".."] + rest;
    var bottom, up := Copies(ch.big, ch.depth), Copies(ch.big, ch.depth - 1);
    r, k, u := FromTheLastButOne(ch, rest);
    assert Step(link, Walker(bottom, more)) == Walker(up, rest) by {
      assert Parent(bottom) == up && more[1..] == rest;
    }
    EndsBack(link, Walker(bottom, more), r);
    ThroughLink(ch, 0, more, r);
    assert ch.place[..0] == [] && ch.place[0..] == ch.place;
  }

  lemma FromTheLastButOne(ch: Chain, rest: seq<string>) returns (r: seq<string>, k: nat, u: seq<string>)
    requires ch.Valid() && ch.depth > |rest| + 1 && Others(ch, rest)
    ensures Ends(ch.Links(), Walker(Copies(ch.big, ch.depth - 1), rest), r)
    ensures Below(ch, r, k, u) && 0 < k < ch.depth
  {
    hide Ends;
    var up := Copies(ch.big, ch.depth - 1);
    assert up == up + [];
    r, k, u := StayBelow(ch, up, ch.depth - 1, [], rest);
  }

  /** The name ends inside the chain. */
  lemma NameEndsBelow(s: string) returns (r: seq<string>, k: nat, u: seq<string>)
    requires Absolute(s) && CutsName(Components(s))
    ensures ".." in Tail(s) && Trap(s).Valid()
    ensures Ends(Trap(s).Links(), Walker([], Names(s)), r)
    ensures Below(Trap(s), r, k, u) && 0 < k < Trap(s).depth
  {
    hide Tail, FirstUp, Ends, Names, Below, Others, Trap, CutsName, Chain.Valid, Components;
    TrapIsValid(s);
    TrapOnName(s);
    var ch := Trap(s);
    r, k, u := ClimbInChain(ch, Tail(s)[FirstUp(Tail(s)) + 1..]);
    EndsInTail(ch.Links(), s, r);
  }

  /** In a canonical form `..` comes first or not at all. */
  lemma CanonicalMembers(s: string) returns (lead: seq<string>, rest: seq<string>)
    requires Absolute(s)
    ensures Absolute(Canonical(s)) && Names(Canonical(s)) == lead + rest && OnlyDots(lead)
    ensures forall c :: c in rest ==> Named(c) && Ordinary(c) && |c| <= |s|
  {
    CanonicalIsTidyAndFixed(s);
    CanonicalNeverLengthens(s);
    var t := Canonical(s);
    var cs := Components(t);
    NamesAreShort(t);
    NamesAreComponents(t);
    hide Names, Components, Canonical;
    if cs != [] && cs[0] == ".." {
      lead, rest := [".."], NonEmpty(cs[1..]);
      NonEmptyMembers(cs[1..]);
      assert forall c :: c in cs[1..] ==> c in cs;
    } else {
      lead, rest := [], NonEmpty(cs);
      NonEmptyMembers(cs);
    }
    assert forall c :: c in rest ==> c in Names(t);
  }

  /** Its canonical form does not. */
  lemma CanonicalEndsElsewhere(s: string, ch: Chain) returns (r: seq<string>)
    requires Absolute(s) && ch.Valid() && |ch.big| > |s|
    ensures Absolute(Canonical(s)) && Ends(ch.Links(), Walker([], Names(Canonical(s))), r) && DownOrAway(ch, r)
  {
    hide Names, Canonical, Ends;
    var lead, rest := CanonicalMembers(s);
    forall i | 0 <= i < |rest|
      ensures Named(rest[i]) && rest[i] != "." && rest[i] != ".." && rest[i] != ch.big
    {
      assert rest[i] in rest;
    }
    r := StayDownOrAway(ch, [], rest);
    DotsAtRoot(ch.Links(), lead, rest, r);
  }

  lemma CutChangesTruenames(s: string)
    requires Absolute(s) && CutsName(Components(s))
    ensures Absolute(Canonical(s)) && !SameTruenames(s)
  {
    hide Names, Canonical, Ends, Tail, CutsName, Components, Trap, Settled;
    var r, k, u := NameEndsBelow(s);
    var ch := Trap(s);
    assert |ch.big| > |s| by { TrapIsLong(s); }
    var r' := CanonicalEndsElsewhere(s, ch);
    DifferentEnds(ch, r, k, u);
    BelowIsSettled(ch, r, k, u);
    NoLinkElsewhere(ch, []);
    var link, cwd := ch.Links(), [SEP];
    assert link([SEP]) == None;
    assert IsTruename(link, cwd, s, PathOf(r));
    if IsTruename(link, cwd, Canonical(s), PathOf(r)) {
      EndOfTruename(link, Canonical(s), r);
      EndIsUnique(link, Walker([], Names(Canonical(s))), r, r');
    }
  }

  lemma TrapIsLong(s: string)
    requires Absolute(s) && ".." in Tail(s)
    ensures |Trap(s).big| > |s|
  {
  }

  lemma EndOfTruename(link: Links, s: string, r: seq<string>)
    requires Absolute(s) && AllNamed(r) && IsTruename(link, [SEP], s, PathOf(r))
    ensures Ends(link, Walker([], Names(s)), r)
  {
    hide Ends;
    var at :| Settled(link, at) && PathOf(r) == PathOf(at) && Ends(link, Walker([], NamesFrom([SEP], s)), at);
    NamesOfPath(at);
    NamesOfPath(r);
  }

  /** `truename` canonicalises first. That never changes what a name resolves to, whatever the links
      are, exactly if no `..` in it stands behind an ordinary component. */
  lemma SameTruenamesExactly(s: string)
    requires Absolute(s)
    ensures SameTruenames(s) <==> !CutsName(Components(s))
  {
    hide SameTruenames, CutsName;
    if CutsName(Components(s)) {
      CutChangesTruenames(s);
    } else {
      UncutKeepsTruenames(s);
    }
  }
}
