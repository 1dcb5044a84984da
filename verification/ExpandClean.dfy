/** `Filename::expandClean`: the in-place canonicaliser of absolute names, and the component
    stack it implements. */
module ExpandClean {
  import opened Paths

  /** What one component does to the stack of components written so far: `.` vanishes, `..`
      takes the last component away, but on an empty stack it stays as a "superroot". */
  function Push(stack: seq<string>, c: string): (r: seq<string>)
    ensures AllNoSep(stack) && NoSep(c) ==> AllNoSep(r)
  {
    if c == "." then stack
    else if c == ".." && stack != [] then stack[..|stack| - 1]
    else stack + [c]
  }

  function Clean(stack: seq<string>, cs: seq<string>): (r: seq<string>)
    ensures AllNoSep(stack) && AllNoSep(cs) ==> AllNoSep(r)
    decreases |cs|
  {
    if cs == [] then stack else Clean(Push(stack, cs[0]), cs[1..])
  }

  lemma CleanCons(stack: seq<string>, c: string, cs: seq<string>)
    ensures Clean(stack, [c] + cs) == Clean(Push(stack, c), cs)
  {
    assert ([c] + cs)[1..] == cs;
  }

  lemma {:induction false} CleanConcat(stack: seq<string>, a: seq<string>, b: seq<string>)
    ensures Clean(stack, a + b) == Clean(Clean(stack, a), b)
    decreases |a|
  {
    if a == [] {
      assert a + b == b;
    } else {
      assert (a + b)[0] == a[0] && (a + b)[1..] == a[1..] + b;
      CleanConcat(Push(stack, a[0]), a[1..], b);
    }
  }

  /** The name of a stack; the empty stack is the root. */
  function Finish(stack: seq<string>): string {
    if stack == [] then [SEP] else Render(stack)
  }

  function Canonical(s: string): string
    requires s == "" || Absolute(s)
  {
    if s == "" then "" else Finish(Clean([], Components(s)))
  }

  predicate DoubleAt(s: string, k: nat) {
    k + 1 < |s| && s[k] == SEP && s[k + 1] == SEP
  }

  /** Position of the second separator of the last `//`, or 0. */
  function StripStart(s: string): (k: nat)
    ensures k <= |s|
    ensures k > 0 ==> DoubleAt(s, k - 1)
    ensures forall j: nat :: j >= k ==> !DoubleAt(s, j)
  {
    LastDouble(s, |s|)
  }

  function LastDouble(s: string, n: nat): (k: nat)
    requires n <= |s|
    requires forall j: nat :: j >= n ==> !DoubleAt(s, j)
    ensures k <= |s|
    ensures k > 0 ==> DoubleAt(s, k - 1)
    ensures forall j: nat :: j >= k ==> !DoubleAt(s, j)
  {
    if n == 0 then 0 else if DoubleAt(s, n - 1) then n else LastDouble(s, n - 1)
  }

  /** Canonical form of the name after the optional flush through the last `//`. */
  function Cleaned(s: string, strip: bool): string
    requires s == "" || Absolute(s)
  {
    Canonical(if strip then s[StripStart(s)..] else s)
  }

  /** Where the cleaning of `s` starts. */
  function Origin(s: string, strip: bool): (k: nat)
    requires s == "" || Absolute(s)
    ensures AtSep(s, k) && (s != "" ==> k < |s|)
  {
    if strip then StripStart(s) else 0
  }

  lemma CleanedIsFromOrigin(s: string, strip: bool)
    requires s != "" && Absolute(s)
    ensures Cleaned(s, strip) == Finish(Clean([], ComponentsFrom(s, Origin(s, strip))))
  {
    hide NextSep, Clean, ComponentsFrom, StripStart, EndsWith, Finish;
    var k := Origin(s, strip);
    SuffixEnds(s, k);
    ComponentsShift(s[k..], s, k, 0);
  }

  // ----- the loop ---------------------------------------------------------------------------

  predicate IsDot(s: string, p: nat)
    requires p < |s|
  {
    p + 1 < |s| && s[p + 1] == '.' && (p + 2 == |s| || s[p + 2] == SEP)
  }

  predicate IsDotDot(s: string, p: nat)
    requires p < |s|
  {
    p + 2 < |s| && s[p + 1] == '.' && s[p + 2] == '.' && (p + 3 == |s| || s[p + 3] == SEP)
  }

  /** The look-ahead tests recognise exactly the components `.` and `..`. */
  lemma ComponentAt(s: string, p: nat)
    requires p < |s| && s[p] == SEP
    ensures var e := NextSep(s, p + 1);
            && (IsDot(s, p) <==> s[p + 1..e] == ".")
            && (IsDotDot(s, p) <==> s[p + 1..e] == "..")
            && (IsDot(s, p) ==> e == p + 2)
            && (IsDotDot(s, p) ==> e == p + 3)
            && ComponentsFrom(s, p) == [s[p + 1..e]] + ComponentsFrom(s, e)
  {
    var e := NextSep(s, p + 1);
    if IsDot(s, p) {
      NextSepIs(s, p + 1, p + 2);
    }
    if IsDotDot(s, p) {
      NextSepIs(s, p + 1, p + 3);
    }
    if s[p + 1..e] == "." {
      assert s[p + 1] == s[p + 1..e][0];
    }
    if s[p + 1..e] == ".." {
      assert s[p + 1] == s[p + 1..e][0] && s[p + 2] == s[p + 1..e][1];
    }
  }

  /** What is left to do is the same as at the start, unless another `//` is still ahead. */
  ghost predicate OnTrack(s: string, strip: bool, stack: seq<string>, e: nat)
    requires Absolute(s)
  {
    && AtSep(s, e)
    && AllNoSep(stack)
    && ((strip && StripStart(s) > e)
        || Clean(stack, ComponentsFrom(s, e)) == Clean([], ComponentsFrom(s, Origin(s, strip))))
  }

  /** `out` characters of the buffer and the rest `s[p..e]` of the current component make up
      the stack; at the end of the name the root has got its separator back.  Nothing at or
      after `p` has been overwritten. */
  ghost predicate Written(s: string, buf: seq<char>, out: nat, p: nat, e: nat, stack: seq<string>) {
    && out <= p <= e <= |s| < |buf|
    && (forall k :: p <= k <= |s| ==> buf[k] == CharAt(s, k))
    && (forall k :: p <= k < e ==> s[k] != SEP)
    && (if p == |s| then buf[..out] == Finish(stack)
        else buf[..out] + s[p..e] == Render(stack))
  }

  lemma StripsBehind(s: string, p: nat)
    requires Absolute(s) && p < |s| && s[p] == SEP && !DoubleAt(s, p) && StripStart(s) > p
    ensures StripStart(s) > NextSep(s, p + 1)
  {
    var k := StripStart(s);
    assert DoubleAt(s, k - 1);
  }

  lemma OnTrackStep(s: string, strip: bool, stack: seq<string>, p: nat)
    requires Absolute(s) && p < |s| && s[p] == SEP
    requires OnTrack(s, strip, stack, p)
    requires !(strip && DoubleAt(s, p))
    ensures var e := NextSep(s, p + 1); OnTrack(s, strip, Push(stack, s[p + 1..e]), e)
  {
    hide Clean, ComponentsFrom, StripStart, DoubleAt;
    var e := NextSep(s, p + 1);
    ComponentAt(s, p);
    CleanCons(stack, s[p + 1..e], ComponentsFrom(s, e));
    if strip && StripStart(s) > p {
      StripsBehind(s, p);
    }
  }

  /** Cuts the last component off the text written so far. */
  method BackScan(namestr: array<char>, out0: nat, ghost stack: seq<string>) returns (out: nat)
    requires out0 <= namestr.Length && stack != [] && AllNoSep(stack)
    requires namestr[..out0] == Render(stack)
    ensures out < out0 && namestr[out] == SEP
    ensures namestr[..out] == Render(stack[..|stack| - 1])
  {
    ghost var init, last := stack[..|stack| - 1], stack[|stack| - 1];
    ghost var all := namestr[..out0];
    assert all == Render(init) + [SEP] + last;
    assert all[|Render(init)|] == SEP;
    assert forall k :: |Render(init)| < k < out0 ==> all[k] != SEP by {
      forall k | |Render(init)| < k < out0
        ensures all[k] != SEP
      {
        assert all[k] == last[k - |Render(init)| - 1];
      }
    }
    out := out0 - 1;
    while out > 0 && namestr[out] != SEP
      invariant |Render(init)| <= out < out0
    {
      assert namestr[out] == all[out];
      out := out - 1;
    }
    assert namestr[out] == all[out];
    assert out == |Render(init)|;
    assert namestr[..out] == all[..out];
  }

  /** What the look-ahead reads at `p` is what the name shows there. */
  lemma LookAhead(s: string, buf: seq<char>, p: nat)
    requires p < |s| < |buf| && NUL !in s
    requires forall k :: p <= k <= |s| ==> buf[k] == CharAt(s, k)
    ensures buf[p] == s[p] && buf[p] != NUL
    ensures DoubleAt(s, p) <==> buf[p] == SEP && buf[p + 1] == SEP
    ensures s[p] == SEP && p + 1 < |s| && s[p + 1] == '.' ==>
              (IsDot(s, p) <==> buf[p + 2] == NUL || buf[p + 2] == SEP)
    ensures s[p] == SEP && p + 2 < |s| && s[p + 1] == '.' && s[p + 2] == '.' ==>
              (IsDotDot(s, p) <==> buf[p + 3] == NUL || buf[p + 3] == SEP)
    ensures p + 1 < |s| ==> buf[p + 1] == s[p + 1]
    ensures p + 2 < |s| ==> buf[p + 2] == s[p + 2]
    ensures buf[|s|] == NUL
  {
  }

  /** Copying one character of the current component. */
  lemma CopyWritten(s: string, buf: seq<char>, out: nat, p: nat, e: nat, stack: seq<string>)
    requires Written(s, buf, out, p, e, stack) && p < e && stack != []
    ensures Written(s, buf[out := buf[p]], out + 1, p + 1, e, stack)
  {
    var after := buf[out := buf[p]];
    assert after[..out + 1] == buf[..out] + [s[p]];
    assert s[p..e] == [s[p]] + s[p + 1..e];
    assert after[..out + 1] + s[p + 1..e] == Render(stack);
    if p + 1 == |s| {
      assert s[p + 1..e] == [];
    }
  }

  /** Copying the separator in front of an ordinary component puts it on the stack. */
  lemma OpenWritten(s: string, buf: seq<char>, out: nat, p: nat, stack: seq<string>)
    requires Written(s, buf, out, p, p, stack) && p < |s| && s[p] == SEP
    ensures var e := NextSep(s, p + 1);
            Written(s, buf[out := buf[p]], out + 1, p + 1, e, stack + [s[p + 1..e]])
  {
    var e := NextSep(s, p + 1);
    var after := buf[out := buf[p]];
    RenderSnoc(stack, s[p + 1..e]);
    assert s[p..p] == [];
    assert after[..out + 1] == Render(stack) + [SEP];
    if p + 1 == |s| {
      assert s[p + 1..e] == [];
    }
  }

  /** Dropping `/.` leaves the stack; at the end of the name an empty one gets its separator. */
  lemma DotWritten(s: string, buf: seq<char>, out: nat, p: nat, stack: seq<string>)
    requires Written(s, buf, out, p, p, stack) && p < |s| && s[p] == SEP && IsDot(s, p)
    ensures out == 0 <==> stack == []
    ensures p + 2 < |s| || out > 0 ==> Written(s, buf, out, p + 2, p + 2, stack)
    ensures p + 2 == |s| && out == 0 ==> Written(s, buf[0 := buf[p]], 1, p + 2, p + 2, stack)
  {
    RenderStarts(stack);
    assert s[p..p] == [] && s[p + 2..p + 2] == [];
    assert buf[..out] == Render(stack);
  }

  /** `/..` on the empty stack is kept as the superroot. */
  lemma SuperrootWritten(s: string, buf: seq<char>, p: nat)
    requires Written(s, buf, 0, p, p, []) && p < |s| && s[p] == SEP && IsDotDot(s, p)
    ensures Written(s, buf[0 := buf[p]][1 := buf[p + 1]][2 := buf[p + 2]], 3, p + 3, p + 3, [".."])
  {
    var after := buf[0 := buf[p]][1 := buf[p + 1]][2 := buf[p + 2]];
    RenderSnoc([], "..");
    assert [] + [".."] == [".."];
    assert after[..3] == [SEP, '.', '.'] == Render([".."]);
    assert s[p + 3..p + 3] == [];
  }

  /** `foo/..` is gone once the scan has gone back over `foo`. */
  lemma ParentWritten(s: string, buf: seq<char>, out: nat, back: nat, p: nat, stack: seq<string>)
    requires Written(s, buf, out, p, p, stack) && p < |s| && s[p] == SEP && IsDotDot(s, p)
    requires stack != [] && back < out && buf[back] == SEP
    requires buf[..back] == Render(stack[..|stack| - 1])
    ensures var rest := stack[..|stack| - 1];
            && (p + 3 < |s| || back > 0 ==> Written(s, buf, back, p + 3, p + 3, rest))
            && (p + 3 == |s| && back == 0 ==> Written(s, buf, 1, p + 3, p + 3, rest))
  {
    RenderStarts(stack[..|stack| - 1]);
    assert s[p + 3..p + 3] == [];
  }

  /** The `/.` branch of the loop. */
  method SkipDot(namestr: array<char>, out0: nat, p0: nat, ghost s: string, ghost stack: seq<string>)
    returns (out: nat, p: nat)
    requires Written(s, namestr[..], out0, p0, p0, stack) && NUL !in s
    requires p0 < |s| && s[p0] == SEP && IsDot(s, p0)
    modifies namestr
    ensures p == p0 + 2 && Written(s, namestr[..], out, p, p, stack)
  {
    ghost var before := namestr[..];
    LookAhead(s, before, p0);
    DotWritten(s, before, out0, p0, stack);
    out, p := out0, p0;
    if namestr[p + 2] == NUL && out == 0 {
      namestr[out] := namestr[p];
      assert namestr[..] == before[0 := before[p]];
      out := out + 1;
    }
    p := p + 2;
  }

  /** The `/..` branch of the loop. */
  method SkipDotDot(namestr: array<char>, out0: nat, p0: nat, ghost s: string, ghost stack: seq<string>)
    returns (out: nat, p: nat)
    requires Written(s, namestr[..], out0, p0, p0, stack) && NUL !in s && AllNoSep(stack)
    requires p0 < |s| && s[p0] == SEP && IsDotDot(s, p0)
    modifies namestr
    ensures p == p0 + 3 && Written(s, namestr[..], out, p, p, Push(stack, ".."))
  {
    assert Render([]) == "";
    hide Render;
    ghost var before := namestr[..];
    LookAhead(s, before, p0);
    RenderStarts(stack);
    out, p := out0, p0;
    assert before[..out] == Render(stack) by {
      assert s[p..p] == [];
    }
    if out == 0 {
      SuperrootWritten(s, before, p);
      namestr[out], namestr[out + 1], namestr[out + 2] :=
        namestr[p], namestr[p + 1], namestr[p + 2];
      assert namestr[..] == before[0 := before[p]][1 := before[p + 1]][2 := before[p + 2]];
      out := out + 3;
    } else {
      assert namestr[..out] == before[..out];
      out := BackScan(namestr, out, stack);
      ParentWritten(s, before, out0, out, p, stack);
      if namestr[p + 3] == NUL && out == 0 {
        out := out + 1;
      }
    }
    p := p + 3;
  }

  /** The branch that copies one character; a separator opens the next component. */
  method CopyOne(namestr: array<char>, out0: nat, p0: nat, ghost s: string, ghost stack0: seq<string>,
                 ghost e0: nat)
    returns (out: nat, p: nat, ghost stack: seq<string>, ghost e: nat)
    requires Written(s, namestr[..], out0, p0, e0, stack0) && NUL !in s
    requires p0 < |s| && (s[p0] == SEP ==> p0 == e0) && (s[p0] != SEP ==> p0 < e0)
    modifies namestr
    ensures p == p0 + 1 && Written(s, namestr[..], out, p, e, stack)
    ensures if s[p0] == SEP then e == NextSep(s, p0 + 1) && stack == stack0 + [s[p0 + 1..e]]
            else e == e0 && stack == stack0
  {
    ghost var before := namestr[..];
    LookAhead(s, before, p0);
    stack, e := stack0, e0;
    if namestr[p0] == SEP {
      OpenWritten(s, before, out0, p0, stack);
      e := NextSep(s, p0 + 1);
      stack := stack + [s[p0 + 1..e]];
    } else {
      RenderStarts(stack);
      CopyWritten(s, before, out0, p0, e, stack);
    }
    namestr[out0] := namestr[p0];
    assert namestr[..] == before[out0 := before[p0]];
    out, p := out0 + 1, p0 + 1;
  }

  lemma FlushTracks(s: string, p: nat)
    requires Absolute(s) && DoubleAt(s, p)
    ensures OnTrack(s, true, [], p + 1)
  {
    hide Clean, ComponentsFrom, NextSep, LastDouble;
    assert StripStart(s) > p;
    hide StripStart;
  }

  /** At a `//` everything written so far is thrown away. */
  lemma FlushWritten(s: string, buf: seq<char>, p: nat)
    requires Absolute(s) && DoubleAt(s, p) && |s| < |buf|
    requires forall k :: p <= k <= |s| ==> buf[k] == CharAt(s, k)
    ensures Written(s, buf, 0, p + 1, p + 1, []) && OnTrack(s, true, [], p + 1)
  {
    FlushTracks(s, p);
    assert Render([]) == "";
    hide OnTrack, Render, StripStart, Clean;
    assert buf[..0] + s[p + 1..p + 1] == "";
  }

  /** One turn of the loop. */
  method Turn(namestr: array<char>, strip: bool, out0: nat, p0: nat, ghost s: string,
              ghost stack0: seq<string>, ghost e0: nat)
    returns (out: nat, p: nat, ghost stack: seq<string>, ghost e: nat)
    requires NUL !in s && Absolute(s) && p0 < |s|
    requires Written(s, namestr[..], out0, p0, e0, stack0) && OnTrack(s, strip, stack0, e0)
    modifies namestr
    ensures p0 < p && Written(s, namestr[..], out, p, e, stack) && OnTrack(s, strip, stack, e)
  {
    hide Clean, ComponentsFrom, Render;
    LookAhead(s, namestr[..], p0);
    out, p, stack, e := out0, p0, stack0, e0;
    if p == e {
      ComponentAt(s, p);
    }
    if strip && namestr[p] == SEP && namestr[p + 1] == SEP {
      FlushWritten(s, namestr[..], p);
      p := p + 1;
      out := 0;
      stack, e := [], p;
    } else if namestr[p] == SEP && namestr[p + 1] == '.'
              && (namestr[p + 2] == NUL || namestr[p + 2] == SEP) {
      OnTrackStep(s, strip, stack, p);
      out, p := SkipDot(namestr, out, p, s, stack);
      e := p;
    } else if namestr[p] == SEP && namestr[p + 1] == '.' && namestr[p + 2] == '.'
              && (namestr[p + 3] == NUL || namestr[p + 3] == SEP) {
      OnTrackStep(s, strip, stack, p);
      out, p := SkipDotDot(namestr, out, p, s, stack);
      stack, e := Push(stack, ".."), p;
    } else {
      if namestr[p] == SEP {
        OnTrackStep(s, strip, stack, p);
      }
      out, p, stack, e := CopyOne(namestr, out, p, s, stack, e);
    }
  }

  /** Rewrites the NUL-terminated name in the buffer and returns the size it is cut to. */
  method Rewrite(namestr: array<char>, strip: bool) returns (size: nat)
    requires HasNul(namestr[..])
    requires Text(namestr[..]) == "" || Absolute(Text(namestr[..]))
    modifies namestr
    ensures size <= |Text(old(namestr[..]))|
    ensures namestr[..size] == Cleaned(Text(old(namestr[..])), strip)
  {
    ghost var s := Text(namestr[..]);
    var out: nat, p: nat := 0, 0;
    if namestr[p] == NUL {
      return 0;
    }
    CleanedIsFromOrigin(s, strip);
    ghost var stack: seq<string>, e: nat := [], 0;
    while namestr[p] != NUL
      invariant Written(s, namestr[..], out, p, e, stack)
      invariant OnTrack(s, strip, stack, e)
      decreases |s| - p
    {
      out, p, stack, e := Turn(namestr, strip, out, p, s, stack, e);
    }
    size := out;
  }

  // ----- what the canonical form promises -----------------------------------------------------

  /** No `.` component, and `..` only as the first component. */
  ghost predicate Tidy(stack: seq<string>) {
    && (forall i :: 0 <= i < |stack| ==> stack[i] != ".")
    && (forall i :: 0 < i < |stack| ==> stack[i] != "..")
  }

  lemma {:induction false} CleanIsTidy(stack: seq<string>, cs: seq<string>)
    requires Tidy(stack)
    ensures Tidy(Clean(stack, cs))
    decreases |cs|
  {
    if cs != [] {
      CleanIsTidy(Push(stack, cs[0]), cs[1..]);
    }
  }

  /** A tidy list of components goes through unchanged, whatever tidy stack it lands on. */
  lemma {:induction false} TidyIsFixed(stack: seq<string>, cs: seq<string>)
    requires Tidy(stack + cs)
    ensures Clean(stack, cs) == stack + cs
    decreases |cs|
  {
    if cs == [] {
      assert stack + cs == stack;
    } else {
      assert (stack + cs)[|stack|] == cs[0];
      assert Push(stack, cs[0]) == stack + [cs[0]];
      assert stack + cs == (stack + [cs[0]]) + cs[1..];
      TidyIsFixed(stack + [cs[0]], cs[1..]);
    }
  }

  /** The stack the name is made of can be read back from it. */
  lemma FinishComponents(stack: seq<string>)
    requires AllNoSep(stack)
    ensures Absolute(Finish(stack))
    ensures Components(Finish(stack)) == if stack == [] then [""] else stack
  {
    RenderStarts(stack);
    if stack == [] {
      assert ComponentsFrom([SEP], 1) == [] && [SEP][1..1] == "";
    } else {
      ComponentsRender(stack);
    }
  }

  /** The canonical form has no `.`, has `..` only in front, and canonicalising it again
      changes nothing. */
  lemma CanonicalIsTidyAndFixed(s: string)
    requires Absolute(s)
    ensures Absolute(Canonical(s))
    ensures Tidy(Components(Canonical(s)))
    ensures Canonical(Canonical(s)) == Canonical(s)
  {
    hide Clean, ComponentsFrom;
    var stack := Clean([], Components(s));
    ComponentsNoSep(s, 0);
    CleanIsTidy([], Components(s));
    FinishComponents(stack);
    var again := if stack == [] then [""] else stack;
    assert [] + again == again;
    TidyIsFixed([], again);
    if stack == [] {
      RenderCons("", []);
      assert [""] + [] == [""];
    }
  }

  /** The names that stay as they are: those without `.`, and without `..` but in front. */
  lemma CanonicalFixedExactly(s: string)
    requires Absolute(s)
    ensures Canonical(s) == s <==> Tidy(Components(s))
  {
    CanonicalIsTidyAndFixed(s);
    var cs := Components(s);
    hide Clean, ComponentsFrom;
    RenderComponentsFrom(s, 0);
    assert s[0..] == s && [] + cs == cs;
    if Tidy(cs) {
      TidyIsFixed([], cs);
    }
  }

  /** Of all others, a `.` can be left out anywhere, */
  lemma DotVanishes(a: seq<string>, b: seq<string>)
    ensures Clean([], a + ["."] + b) == Clean([], a + b)
  {
    CleanConcat([], a + ["."], b);
    CleanConcat([], a, ["."]);
    CleanConcat([], a, b);
    CleanCons(Clean([], a), ".", []);
    assert ["."] + [] == ["."];
  }

  /** a component together with the `..` behind it, */
  lemma ParentTakesOne(a: seq<string>, c: string, b: seq<string>)
    requires c != "." && c != ".."
    ensures Clean([], a + [c, ".."] + b) == Clean([], a + b)
  {
    var stack := Clean([], a);
    CleanConcat([], a + [c, ".."], b);
    CleanConcat([], a, [c, ".."]);
    CleanConcat([], a, b);
    CleanCons(stack, c, [".."]);
    CleanCons(stack + [c], "..", []);
    assert [c] + [".."] == [c, ".."] && [".."] + [] == [".."];
    assert (stack + [c])[..|stack|] == stack;
  }

  /** and so can two `..` in front: the first one stays as a "superroot", and the second one takes
      it away again. */
  lemma TwoParentsVanish(b: seq<string>)
    ensures Clean([], ["..", ".."] + b) == Clean([], b)
  {
    CleanCons([], "..", [".."] + b);
    CleanCons([".."], "..", b);
    assert [".."] + ([".."] + b) == ["..", ".."] + b;
    assert [".."][..0] == [];
  }

  lemma {:induction false} CleanShrinks(stack: seq<string>, cs: seq<string>)
    ensures |Render(Clean(stack, cs))| <= |Render(stack)| + |Render(cs)|
    decreases |cs|
  {
    if cs != [] {
      CleanShrinks(Push(stack, cs[0]), cs[1..]);
      assert cs == [cs[0]] + cs[1..];
      RenderCons(cs[0], cs[1..]);
      RenderSnoc(stack, cs[0]);
    }
  }

  /** The name never gets longer, so the loop never needs room it has not read past. */
  lemma CanonicalNeverLengthens(s: string)
    requires s == "" || Absolute(s)
    ensures |Canonical(s)| <= |s|
  {
    if s == "" {
      return;
    }
    CleanShrinks([], Components(s));
    RenderComponentsFrom(s, 0);
    assert s[0..] == s;
  }

  // ----- the place a name denotes -------------------------------------------------------------

  /** Where a walk over the components leads if no component is a link: empty components and
      `.` stay, `..` goes to the parent, and the parent of the root is the root. */
  function Walk(at: seq<string>, c: string): seq<string> {
    if c == "" || c == "." then at
    else if c == ".." then if at == [] then [] else at[..|at| - 1]
    else at + [c]
  }

  function Locate(cs: seq<string>): seq<string> {
    if cs == [] then [] else Walk(Locate(cs[..|cs| - 1]), cs[|cs| - 1])
  }

  /** `..` would take an empty component away although the place has a parent to go to. */
  predicate Slips(stack: seq<string>, c: string) {
    c == ".." && stack != [] && stack[|stack| - 1] == "" && Locate(stack) != []
  }

  /** One component keeps the place exactly unless `..` slips on an empty component. */
  lemma PushKeepsPlace(stack: seq<string>, c: string)
    requires Tidy(stack)
    ensures Locate(Push(stack, c)) == Walk(Locate(stack), c) <==> !Slips(stack, c)
  {
    assert (stack + [c])[..|stack|] == stack;
    if c == ".." && stack != [] {
      var init, last := stack[..|stack| - 1], stack[|stack| - 1];
      if last == ".." {
        assert init == [];
      } else if last != "" {
        var at := Locate(init);
        assert (at + [last])[..|at|] == at;
      } else {
        assert Locate(stack) == Locate(init);
        if Locate(stack) != [] {
          assert |Walk(Locate(stack), c)| < |Locate(stack)|;
        }
      }
    }
  }

  /** The stack the cleaning has built after `k` components. */
  ghost function StackAfter(cs: seq<string>, k: nat): seq<string>
    requires k <= |cs|
  {
    Clean([], cs[..k])
  }

  ghost predicate NeverSlips(cs: seq<string>) {
    forall k :: 0 <= k < |cs| ==> !Slips(StackAfter(cs, k), cs[k])
  }

  ghost predicate EveryPrefixPlaced(cs: seq<string>) {
    forall k :: 0 <= k <= |cs| ==> Locate(StackAfter(cs, k)) == Locate(cs[..k])
  }

  lemma {:induction false} CleanSnoc(stack: seq<string>, cs: seq<string>, c: string)
    ensures Clean(stack, cs + [c]) == Push(Clean(stack, cs), c)
    decreases |cs|
  {
    if cs == [] {
      assert (cs + [c])[1..] == [];
    } else {
      assert (cs + [c])[1..] == cs[1..] + [c];
      CleanSnoc(Push(stack, cs[0]), cs[1..], c);
    }
  }

  lemma StackAfterStep(cs: seq<string>, k: nat)
    requires k < |cs|
    ensures StackAfter(cs, k + 1) == Push(StackAfter(cs, k), cs[k])
    ensures Locate(cs[..k + 1]) == Walk(Locate(cs[..k]), cs[k])
    ensures Tidy(StackAfter(cs, k))
  {
    assert cs[..k + 1] == cs[..k] + [cs[k]];
    CleanSnoc([], cs[..k], cs[k]);
    CleanIsTidy([], cs[..k]);
  }

  lemma {:induction false} PlacedUpTo(cs: seq<string>, n: nat)
    requires n <= |cs|
    requires forall k :: 0 <= k < n ==> !Slips(StackAfter(cs, k), cs[k])
    ensures forall k :: 0 <= k <= n ==> Locate(StackAfter(cs, k)) == Locate(cs[..k])
  {
    if n == 0 {
      assert cs[..0] == [];
    } else {
      PlacedUpTo(cs, n - 1);
      StackAfterStep(cs, n - 1);
      PushKeepsPlace(StackAfter(cs, n - 1), cs[n - 1]);
    }
  }

  /** Cleaning keeps the place of a name and of all its leading parts exactly when `..` never
      lands on an empty component below a real one. */
  lemma EveryPartKeptExactly(cs: seq<string>)
    ensures EveryPrefixPlaced(cs) <==> NeverSlips(cs)
  {
    if NeverSlips(cs) {
      PlacedUpTo(cs, |cs|);
    } else {
      var k :| 0 <= k < |cs| && Slips(StackAfter(cs, k), cs[k]);
      StackAfterStep(cs, k);
      PushKeepsPlace(StackAfter(cs, k), cs[k]);
      assert !(Locate(StackAfter(cs, k)) == Locate(cs[..k])
               && Locate(StackAfter(cs, k + 1)) == Locate(cs[..k + 1]));
    }
  }

  /** The cleaned place after `k` components, and the place the walk has come to. */
  ghost predicate Apart(cs: seq<string>, k: nat)
    requires k <= |cs|
  {
    Locate(StackAfter(cs, k)) != Locate(cs[..k])
  }

  /** Whenever `..` slips among the first `n` components, the cleaning is back at the root later,
      at the latest after `n`. */
  ghost predicate SlipsMendedBy(cs: seq<string>, n: nat)
    requires n <= |cs|
  {
    forall k :: 0 <= k < n && Slips(StackAfter(cs, k), cs[k]) ==> MendedBetween(cs, k, n)
  }

  ghost predicate MendedBetween(cs: seq<string>, k: nat, n: nat)
    requires n <= |cs|
  {
    exists m :: k < m <= n && Locate(StackAfter(cs, m)) == []
  }

  /** The cleaned place is never shorter than the walked one, and is the same if it is as long. */
  predicate Above(cleaned: seq<string>, walked: seq<string>) {
    |cleaned| >= |walked| && (|cleaned| == |walked| ==> cleaned == walked)
  }

  /** Only `..` at the root brings different places together. */
  lemma WalkTogether(cleaned: seq<string>, walked: seq<string>, c: string)
    requires Above(cleaned, walked)
    ensures Above(Walk(cleaned, c), Walk(walked, c))
    ensures Walk(cleaned, c) == Walk(walked, c) <==> cleaned == walked || Walk(cleaned, c) == []
  {
    if c != "" && c != "." && c != ".." {
      assert (cleaned + [c])[..|cleaned|] == cleaned && (walked + [c])[..|walked|] == walked;
    }
  }

  /** A slip leaves the cleaned place where it is, strictly below the walked one. */
  lemma SlipParts(stack: seq<string>, c: string, walked: seq<string>)
    requires Slips(stack, c) && Above(Locate(stack), walked)
    ensures Locate(Push(stack, c)) == Locate(stack) != []
    ensures |Locate(stack)| > |Walk(walked, c)|
  {
  }

  lemma StartsTogether(cs: seq<string>)
    ensures StackAfter(cs, 0) == cs[..0]
  {
    assert cs[..0] == [];
  }

  lemma {:induction false} MendedExactly(cs: seq<string>, n: nat)
    requires n <= |cs|
    ensures Above(Locate(StackAfter(cs, n)), Locate(cs[..n]))
    ensures !Apart(cs, n) <==> SlipsMendedBy(cs, n)
  {
    hide StackAfter, Locate, Slips, MendedBetween;
    if n == 0 {
      StartsTogether(cs);
    } else {
      MendedExactly(cs, n - 1);
      MendedStep(cs, n - 1);
    }
  }

  lemma MendedStep(cs: seq<string>, k: nat)
    requires k < |cs| && Above(Locate(StackAfter(cs, k)), Locate(cs[..k]))
    requires !Apart(cs, k) <==> SlipsMendedBy(cs, k)
    ensures Above(Locate(StackAfter(cs, k + 1)), Locate(cs[..k + 1]))
    ensures !Apart(cs, k + 1) <==> SlipsMendedBy(cs, k + 1)
  {
    hide StackAfter, Locate, Walk, Push, Slips;
    var stack, walked := StackAfter(cs, k), Locate(cs[..k]);
    StackAfterStep(cs, k);
    PushKeepsPlace(stack, cs[k]);
    if Slips(stack, cs[k]) {
      SlipParts(stack, cs[k], walked);
      assert !MendedBetween(cs, k, k + 1);
    } else {
      WalkTogether(Locate(stack), walked, cs[k]);
      MendedOneMore(cs, k);
    }
  }

  /** Without a slip at `k`, what is mended changes only by reaching the root. */
  lemma MendedOneMore(cs: seq<string>, k: nat)
    requires k < |cs| && !Slips(StackAfter(cs, k), cs[k])
    ensures SlipsMendedBy(cs, k + 1) <==> SlipsMendedBy(cs, k) || Locate(StackAfter(cs, k + 1)) == []
  {
    hide StackAfter, Locate, Slips;
    forall i | 0 <= i < k
      ensures MendedBetween(cs, i, k + 1) <==> MendedBetween(cs, i, k) || Locate(StackAfter(cs, k + 1)) == []
    {
    }
  }

  /** The canonical form denotes the place of the name exactly if the cleaning comes back to the
      root after every `..` that lands on an empty component below a real one. */
  lemma PlaceKeptExactly(s: string)
    requires Absolute(s)
    ensures Absolute(Canonical(s))
    ensures Locate(Components(Canonical(s))) == Locate(Components(s)) <==>
            SlipsMendedBy(Components(s), |Components(s)|)
  {
    var cs := Components(s);
    ComponentsNoSep(s, 0);
    FinishComponents(Clean([], cs));
    MendedExactly(cs, |cs|);
    assert cs[..|cs|] == cs;
    assert Locate([""]) == [];
  }

  lemma {:induction false} CleanInvents(stack: seq<string>, cs: seq<string>)
    requires "" !in stack && "" !in cs
    ensures "" !in Clean(stack, cs)
    decreases |cs|
  {
    if cs != [] {
      CleanInvents(Push(stack, cs[0]), cs[1..]);
    }
  }

  /** A name in which no `..` follows an empty component denotes the place of its canonical
      form; in particular every name without empty components, or with only trailing ones. */
  lemma CanonicalDenotesSamePlace(s: string)
    requires Absolute(s)
    requires forall i, j :: 0 <= i < j < |Components(s)| && Components(s)[i] == ""
               ==> Components(s)[j] != ".."
    ensures Absolute(Canonical(s))
    ensures Locate(Components(Canonical(s))) == Locate(Components(s))
  {
    var cs := Components(s);
    ComponentsNoSep(s, 0);
    FinishComponents(Clean([], cs));
    forall k | 0 <= k < |cs|
      ensures !Slips(StackAfter(cs, k), cs[k])
    {
      if cs[k] == ".." {
        assert "" !in cs[..k] by {
          forall i | 0 <= i < k
            ensures cs[i] != ""
          {
          }
        }
        CleanInvents([], cs[..k]);
      }
    }
    PlacedUpTo(cs, |cs|);
    assert cs[..|cs|] == cs;
    assert Locate([""]) == [];
  }

  lemma LocateSnoc(cs: seq<string>, c: string)
    ensures Locate(cs + [c]) == Walk(Locate(cs), c)
  {
    assert (cs + [c])[..|cs|] == cs;
  }

  /** With an empty component in the way the promise fails: for every ordinary `a` and `b`,
      `/a//../b` becomes `/a/b` although it denotes `/b`. */
  lemma EmptyComponentSlips(a: string, b: string)
    requires NoSep(a) && a != "" && a != "." && a != ".."
    requires NoSep(b) && b != "" && b != "." && b != ".."
    ensures var cs := [a] + [""] + [".."] + [b];
            && Absolute(Render(cs)) && Components(Render(cs)) == cs
            && Canonical(Render(cs)) == Render([a] + [b])
            && Locate(cs) == [b] && Locate([a] + [b]) == [a] + [b]
  {
    var cs := [a] + ([""] + ([".."] + ([b] + [])));
    assert cs == [a] + [""] + [".."] + [b];
    RenderStarts(cs);
    ComponentsRender(cs);
    CleanCons([], a, [""] + ([".."] + ([b] + [])));
    assert Push([], a) == [a];
    CleanCons([a], "", [".."] + ([b] + []));
    CleanCons([a] + [""], "..", [b] + []);
    assert ([a] + [""])[..1] == [a];
    CleanCons([a], b, []);
    LocateSnoc([], a);
    assert [] + [a] == [a];
    LocateSnoc([a], "");
    LocateSnoc([a] + [""], "..");
    LocateSnoc([a] + [""] + [".."], b);
    LocateSnoc([a], b);
    assert Walk([], a) == [a];
    assert Walk([], b) == [b];
  }
}
