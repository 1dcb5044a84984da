/** `Filename::truename` as its callers see it: which names are resolved to what they name, the
    relative ones from the current directory. */
module RelativeNames {
  import opened Wrappers
  import opened Paths
  import opened FileParts
  import opened ExpandClean
  import opened Truename
  import opened Expand
  import opened CanonicalLinks

  // ----- `..` in front of a relative name -------------------------------------------------------------

  /** `.` and `..` in front, and no `..` behind them. */
  ghost predicate UpFirst(cs: seq<string>) {
    exists k :: 0 <= k <= |cs| && OnlyDots(cs[..k]) && ".." !in cs[k..]
  }

  /** The place a stack of components stands for: a "superroot" is the root. */
  function PlaceOf(stack: seq<string>): seq<string> {
    if stack == [".."] then [] else stack
  }

  ghost predicate Climbed(link: Links, stack: seq<string>) {
    stack == [".."] || Settled(link, stack)
  }

  /** Climbing on the stack is climbing in the tree. */
  lemma ClimbStep(link: Links, stack: seq<string>, c: string)
    requires Climbed(link, stack) && (c == "." || c == "..")
    ensures Climbed(link, Push(stack, c))
    ensures PlaceOf(Push(stack, c)) == if c == "." then PlaceOf(stack) else Parent(PlaceOf(stack))
  {
    if c == ".." && Settled(link, stack) {
      SettledParent(link, stack);
      if stack != [] {
        assert Parent(stack) != [".."] by {
          assert forall i :: 0 <= i < |Parent(stack)| ==> Parent(stack)[i] != "..";
        }
      }
    }
  }

  lemma {:induction false} Climb(link: Links, stack: seq<string>, lead: seq<string>, more: seq<string>, r: seq<string>)
    requires Climbed(link, stack) && OnlyDots(lead)
    ensures Climbed(link, Clean(stack, lead))
    ensures Ends(link, Walker(PlaceOf(stack), lead + more), r)
       <==> Ends(link, Walker(PlaceOf(Clean(stack, lead)), more), r)
    decreases |lead|
  {
    hide Ends, Climbed;
    if lead == [] {
      assert lead + more == more;
    } else {
      var w := Walker(PlaceOf(stack), lead + more);
      ClimbStep(link, stack, lead[0]);
      assert (lead + more)[1..] == lead[1..] + more;
      assert Step(link, w) == Walker(PlaceOf(Push(stack, lead[0])), lead[1..] + more);
      Climb(link, Push(stack, lead[0]), lead[1..], more, r);
      EndsBothWays(link, w, r);
    }
  }

  lemma EndsBothWays(link: Links, w: Walker, r: seq<string>)
    ensures Ends(link, w, r) <==> Ends(link, Step(link, w), r)
  {
    if Ends(link, w, r) {
      EndsForth(link, w, r);
    }
    if Ends(link, Step(link, w), r) {
      EndsBack(link, w, r);
    }
  }

  /** A walk may start at a settled place, or come there from the root. */
  lemma FromRoot(link: Links, at: seq<string>, more: seq<string>, r: seq<string>)
    requires Settled(link, at)
    ensures Ends(link, Walker([], at + more), r) <==> Ends(link, Walker(at, more), r)
  {
    SettledWalk(link, at, 0);
    assert at[..0] == [] && at[0..] == at;
    hide Ends, Settled;
    if Ends(link, Walker([], at + more), r) {
      EndsAfter(link, at, at, more, r);
    }
    if Ends(link, Walker(at, more), r) {
      EndsVia(link, at, at, more, r);
    }
  }

  lemma FromStack(link: Links, stack: seq<string>, more: seq<string>, r: seq<string>)
    requires Climbed(link, stack)
    ensures Ends(link, Walker([], stack + more), r) <==> Ends(link, Walker(PlaceOf(stack), more), r)
  {
    hide Ends;
    if stack == [".."] {
      assert ([".."] + more)[1..] == more;
      assert Step(link, Walker([], [".."] + more)) == Walker([], more);
      EndsBothWays(link, Walker([], [".."] + more), r);
    } else {
      assert !(|stack| == 1 && stack[0] == "..");
      FromRoot(link, stack, more, r);
    }
  }

  // ----- both sides ------------------------------------------------------------------------------------

  /** The components of the current directory, of the dots in front, and of the rest. */
  lemma RelativeParts(at: seq<string>, name: string)
    requires AllNamed(at) && !Absolute(name)
    ensures Components(Prefixed(PathOf(at), name)) == at + Components([SEP] + name)
    ensures Names(name) == NonEmpty(Components([SEP] + name))
  {
    ComponentsOfPrefixed(PathOf(at), name);
    NamesAreComponents([SEP] + name);
    assert ([SEP] + name)[1..] == name;
    if at == [] {
      assert WithoutLast([SEP]) == "";
    } else {
      ComponentsRender(at);
      EndsWithLast(at);
      assert WithoutLast(PathOf(at)) == PathOf(at);
    }
  }

  lemma SettledIsTidy(link: Links, at: seq<string>)
    requires Settled(link, at)
    ensures Clean([], at) == at
  {
    assert [] + at == at;
    TidyIsFixed([], at);
  }

  lemma DotsAreNonEmpty(lead: seq<string>)
    requires OnlyDots(lead)
    ensures NonEmpty(lead) == lead
    decreases |lead|
  {
    if lead != [] {
      DotsAreNonEmpty(lead[1..]);
      assert lead == [lead[0]] + lead[1..];
    }
  }

  lemma NamedAreNonEmpty(at: seq<string>)
    requires AllNamed(at)
    ensures NonEmpty(at) == at
    decreases |at|
  {
    if at != [] {
      assert AllNamed(at[1..]);
      NamedAreNonEmpty(at[1..]);
      assert at == [at[0]] + at[1..];
    }
  }

  lemma StackIsNonEmpty(link: Links, stack: seq<string>)
    requires Climbed(link, stack)
    ensures NonEmpty(stack) == stack
  {
    if stack == [".."] {
      DotsAreNonEmpty(stack);
    } else {
      NamedAreNonEmpty(stack);
    }
  }

  /** Cleaning climbs from the current directory, and appends what is no `.`. */
  lemma RelativeStack(link: Links, at: seq<string>, lead: seq<string>, rest: seq<string>)
    requires Settled(link, at) && OnlyDots(lead) && ".." !in rest
    ensures Climbed(link, Clean(at, lead))
    ensures NonEmpty(Clean([], at + (lead + rest))) == Clean(at, lead) + WithoutDots(NonEmpty(rest))
  {
    hide Settled, NonEmpty, WithoutDots, Climbed, Clean, OnlyDots, Ends;
    var stack := Clean(at, lead);
    StartsClimbed(link, at);
    Climb(link, at, lead, [], []);
    CleanConcat([], at, lead + rest);
    CleanConcat(at, lead, rest);
    SettledIsTidy(link, at);
    CleanWithoutParents(stack, rest);
    NonEmptyConcat(stack, WithoutDots(rest));
    NonEmptyWithoutDots(rest);
    StackIsNonEmpty(link, stack);
  }

  lemma StartsClimbed(link: Links, at: seq<string>)
    requires Settled(link, at)
    ensures Climbed(link, at) && PlaceOf(at) == at && AllNamed(at)
  {
    if at != [] {
      assert at[0] != "..";
    }
  }

  /** Both names, cut behind the dots in front. */
  lemma RelativeBoth(link: Links, at: seq<string>, name: string) returns (lead: seq<string>, rest: seq<string>)
    requires Settled(link, at) && !Absolute(name) && UpFirst(Components([SEP] + name))
    ensures OnlyDots(lead) && Climbed(link, Clean(at, lead))
    ensures Names(Canonical(Prefixed(PathOf(at), name))) == Clean(at, lead) + WithoutDots(rest)
    ensures NamesFrom(PathOf(at), name) == at + (lead + rest)
  {
    var cs := Components([SEP] + name);
    var k :| 0 <= k <= |cs| && OnlyDots(cs[..k]) && ".." !in cs[k..];
    lead, rest := cs[..k], NonEmpty(cs[k..]);
    assert cs == lead + cs[k..];
    StartsClimbed(link, at);
    hide Settled, Names, Components, NonEmpty, WithoutDots, Canonical, Climbed, Clean, OnlyDots, PathOf, Prefixed;
    hide UpFirst;
    RelativeStack(link, at, lead, cs[k..]);
    RelativeParts(at, name);
    CanonicalNames(Prefixed(PathOf(at), name));
    NamesOfPath(at);
    NonEmptyConcat(lead, cs[k..]);
    DotsAreNonEmpty(lead);
  }

  /** From a current directory without links, as the system reports it, a name whose `..` all come
      first is resolved to what it names. */
  lemma RelativeEndsAlike(link: Links, at: seq<string>, name: string, r: seq<string>)
    requires Settled(link, at) && !Absolute(name) && UpFirst(Components([SEP] + name))
    ensures Ends(link, Walker([], Names(Canonical(Prefixed(PathOf(at), name)))), r)
       <==> Ends(link, Walker([], NamesFrom(PathOf(at), name)), r)
  {
    hide Settled, Names, WithoutDots, Canonical, Climbed, Clean, OnlyDots, PathOf, Prefixed, UpFirst, Ends, NamesFrom;
    hide PlaceOf;
    var lead, rest := RelativeBoth(link, at, name);
    var place := PlaceOf(Clean(at, lead));
    StartsClimbed(link, at);
    FromStack(link, Clean(at, lead), WithoutDots(rest), r);
    FromRoot(link, at, lead + rest, r);
    Climb(link, at, lead, rest, r);
    WithoutDotsTwice(rest);
    SameEnds(link, Walker(place, WithoutDots(rest)), Walker(place, rest));
  }

  lemma RelativeKeepsTruenames(link: Links, at: seq<string>, name: string, r: string)
    requires Settled(link, at) && !Absolute(name) && UpFirst(Components([SEP] + name))
    ensures IsTruename(link, PathOf(at), Canonical(Prefixed(PathOf(at), name)), r)
       <==> IsTruename(link, PathOf(at), name, r)
  {
    hide Ends, Settled, UpFirst;
    var s := Canonical(Prefixed(PathOf(at), name));
    CanonicalIsTidyAndFixed(Prefixed(PathOf(at), name));
    forall p
      ensures Ends(link, Walker([], NamesFrom(PathOf(at), s)), p)
         <==> Ends(link, Walker([], NamesFrom(PathOf(at), name)), p)
    {
      RelativeEndsAlike(link, at, name, p);
    }
  }

  // ----- the call ---------------------------------------------------------------------------------------

  lemma PrefixedKeepsTruenames(link: Links, cwd: string, name: string, r: string)
    requires Absolute(cwd)
    ensures IsTruename(link, cwd, Prefixed(cwd, name), r) <==> IsTruename(link, cwd, name, r)
  {
    NamesOfPrefixed(cwd, name);
  }

  /** The name is one that canonicalising does not spoil: no `..` behind an ordinary component, or a
      relative name with all its `..` in front, looked up from a directory without links. */
  ghost predicate Unspoilt(link: Links, cwd: string, name: string)
    requires Absolute(cwd)
  {
    || !CutsName(Components(Prefixed(cwd, name)))
    || (!Absolute(name) && UpFirst(Components([SEP] + name)) && exists at :: Settled(link, at) && cwd == PathOf(at))
  }

  lemma UnspoiltKeepsTruenames(link: Links, cwd: string, name: string, r: string)
    requires link([SEP]) == None && Absolute(cwd) && Unspoilt(link, cwd, name)
    ensures IsTruename(link, cwd, Canonical(Prefixed(cwd, name)), r) <==> IsTruename(link, cwd, name, r)
  {
    hide IsTruename, CutsName, UpFirst, Settled;
    var s := Prefixed(cwd, name);
    if !CutsName(Components(s)) {
      UncutKeepsTruenames(s);
      PrefixedKeepsTruenames(link, cwd, name, r);
    } else {
      var at :| Settled(link, at) && cwd == PathOf(at);
      RelativeKeepsTruenames(link, at, name, r);
    }
  }

  /** The true name of a name, or `None` for "too many symbolic links". */
  method TruenameOf(link: Links, cwd: string, name: string) returns (r: Option<string>)
    requires link([SEP]) == None
    requires Absolute(cwd) && NUL !in cwd && NUL !in name
    requires name != "" && name[0] != '~'
    ensures r.Some? ==> IsTruename(link, cwd, Canonical(Prefixed(cwd, name)), r.value)
    ensures r.Some? && Unspoilt(link, cwd, name) ==> IsTruename(link, cwd, name, r.value)
    ensures Plain(link, cwd, Canonical(Prefixed(cwd, name)), MAX_LINKS).Some? ==>
              r == Plain(link, cwd, Canonical(Prefixed(cwd, name)), MAX_LINKS)
  {
    var expanded := Expanded(cwd, name);
    var seen;
    r, seen := FindTruename(link, cwd, expanded, MAX_LINKS, map[]);
    if r.Some? && Unspoilt(link, cwd, name) {
      UnspoiltKeepsTruenames(link, cwd, name, r.value);
    }
  }
}
