/** Absolute file names in Unix syntax: separators, components and their rendering.

    A name is a `string`; the C string functions of the library stop at the first NUL, so a
    buffer is a sequence of characters whose `Text` is everything in front of that NUL. */
module Paths {

  const SEP: char := '/'
  const NUL: char := 0 as char

  ghost predicate HasNul(buf: seq<char>) {
    NUL in buf
  }

  /** Position of the first NUL at or after `i`, or the end of the buffer. */
  function NulFrom(buf: seq<char>, i: nat): (e: nat)
    requires i <= |buf|
    ensures i <= e <= |buf|
    ensures forall k :: i <= k < e ==> buf[k] != NUL
    ensures e < |buf| ==> buf[e] == NUL
    decreases |buf| - i
  {
    if i < |buf| && buf[i] != NUL then NulFrom(buf, i + 1) else i
  }

  /** The C string held by a NUL-terminated buffer. */
  function Text(buf: seq<char>): (s: string)
    ensures |s| <= |buf| && s == buf[..|s|] && NUL !in s
    ensures HasNul(buf) ==> |s| < |buf| && buf[|s|] == NUL
  {
    buf[..NulFrom(buf, 0)]
  }

  /** The character a C string shows at position `k`; the terminator ends it. */
  function CharAt(s: string, k: nat): char
    requires k <= |s|
  {
    if k == |s| then NUL else s[k]
  }

  /** A buffer that shows a NUL-free string holds it as its text. */
  lemma TextOfString(buf: seq<char>, s: string)
    requires |s| < |buf| && NUL !in s
    requires forall i :: 0 <= i <= |s| ==> buf[i] == CharAt(s, i)
    ensures Text(buf) == s && HasNul(buf)
  {
    assert buf[|s|] == NUL;
    assert NulFrom(buf, 0) == |s|;
    assert buf[..|s|] == s;
  }

  predicate NoSep(c: string) {
    SEP !in c
  }

  ghost predicate AllNoSep(cs: seq<string>) {
    forall i :: 0 <= i < |cs| ==> NoSep(cs[i])
  }

  /** Position of the first separator at or after `i`, or the end of the name. */
  function NextSep(s: string, i: nat): (e: nat)
    requires i <= |s|
    ensures i <= e <= |s|
    ensures forall k :: i <= k < e ==> s[k] != SEP
    ensures e < |s| ==> s[e] == SEP
    decreases |s| - i
  {
    if i == |s| || s[i] == SEP then i else NextSep(s, i + 1)
  }

  /** `i` is the start of a (possibly exhausted) run of `/component` pieces. */
  predicate AtSep(s: string, i: nat) {
    i == |s| || (i < |s| && s[i] == SEP)
  }

  /** The components of `s` from the separator at `i` on; empty ones are kept. */
  function ComponentsFrom(s: string, i: nat): seq<string>
    requires AtSep(s, i)
    decreases |s| - i
  {
    if i == |s| then []
    else
      var e := NextSep(s, i + 1);
      [s[i + 1..e]] + ComponentsFrom(s, e)
  }

  predicate Absolute(s: string) {
    s != "" && s[0] == SEP
  }

  function Components(s: string): seq<string>
    requires s == "" || Absolute(s)
  {
    ComponentsFrom(s, 0)
  }

  lemma {:induction false} ComponentsNoSep(s: string, i: nat)
    requires AtSep(s, i)
    ensures AllNoSep(ComponentsFrom(s, i))
    decreases |s| - i
  {
    if i < |s| {
      ComponentsNoSep(s, NextSep(s, i + 1));
    }
  }

  /** Writes a separator in front of every component. */
  function Render(cs: seq<string>): string {
    if cs == [] then "" else Render(cs[..|cs| - 1]) + [SEP] + cs[|cs| - 1]
  }

  lemma RenderSnoc(cs: seq<string>, c: string)
    ensures Render(cs + [c]) == Render(cs) + [SEP] + c
  {
    assert (cs + [c])[..|cs|] == cs;
  }

  lemma {:induction false} RenderConcat(a: seq<string>, b: seq<string>)
    ensures Render(a + b) == Render(a) + Render(b)
    decreases |b|
  {
    if b == [] {
      assert a + b == a;
    } else {
      var b0, c := b[..|b| - 1], b[|b| - 1];
      assert a + b == (a + b0) + [c] && b == b0 + [c];
      RenderSnoc(a + b0, c);
      RenderSnoc(b0, c);
      RenderConcat(a, b0);
    }
  }

  lemma RenderCons(c: string, cs: seq<string>)
    ensures Render([c] + cs) == [SEP] + c + Render(cs)
  {
    RenderConcat([c], cs);
    RenderSnoc([], c);
    assert [] + [c] == [c];
  }

  lemma RenderStarts(cs: seq<string>)
    ensures cs != [] ==> Absolute(Render(cs))
    ensures cs == [] <==> Render(cs) == ""
  {
    if cs != [] {
      RenderCons(cs[0], cs[1..]);
      assert cs == [cs[0]] + cs[1..];
    }
  }

  /** Rendering the components of a name gives the name back. */
  lemma {:induction false} RenderComponentsFrom(s: string, i: nat)
    requires AtSep(s, i)
    ensures Render(ComponentsFrom(s, i)) == s[i..]
    decreases |s| - i
  {
    if i < |s| {
      var e := NextSep(s, i + 1);
      RenderComponentsFrom(s, e);
      RenderCons(s[i + 1..e], ComponentsFrom(s, e));
      assert s[i..] == [SEP] + s[i + 1..e] + s[e..];
    }
  }

  lemma ComponentShift(s: string, t: string, off: nat, i: nat)
    requires i < |s| && s[i] == SEP && EndsWith(t, off, s)
    ensures var e := NextSep(s, i + 1);
            && t[off + i] == SEP && NextSep(t, off + i + 1) == off + e && AtSep(t, off + e)
            && Component(t, off + i) == Component(s, i)
  {
    assert t[off + i] == s[i];
    NextSepIs(t, off + i + 1, off + NextSep(s, i + 1));
    assert t[off + i + 1..off + NextSep(s, i + 1)] == s[i + 1..NextSep(s, i + 1)];
  }

  /** A name's components do not depend on what stands in front of them. */
  lemma {:induction false} ComponentsShift(s: string, t: string, off: nat, i: nat)
    requires AtSep(s, i) && EndsWith(t, off, s)
    ensures AtSep(t, off + i)
    ensures ComponentsFrom(t, off + i) == ComponentsFrom(s, i)
    decreases |s| - i
  {
    hide NextSep, EndsWith, AtSep, ComponentsFrom, Component;
    AtSepShift(s, t, off, i);
    ComponentsStep(s, i);
    ComponentsStep(t, off + i);
    if i < |s| {
      ComponentShift(s, t, off, i);
      var e := NextSep(s, i + 1);
      ComponentsShift(s, t, off, e);
      assert ComponentsFrom(t, off + i) == [Component(s, i)] + ComponentsFrom(t, off + e);
    }
  }

  /** The component behind the separator at `i`. */
  function Component(s: string, i: nat): string
    requires i < |s|
  {
    s[i + 1..NextSep(s, i + 1)]
  }

  lemma ComponentsStep(s: string, i: nat)
    requires AtSep(s, i)
    ensures i < |s| ==> s[i] == SEP && AtSep(s, NextSep(s, i + 1))
    ensures ComponentsFrom(s, i) == if i == |s| then []
                                    else [Component(s, i)] + ComponentsFrom(s, NextSep(s, i + 1))
  {
  }

  lemma AtSepShift(s: string, t: string, off: nat, i: nat)
    requires AtSep(s, i) && EndsWith(t, off, s)
    ensures AtSep(t, off + i) && (i == |s| <==> off + i == |t|)
  {
  }

  /** `t` is `off` characters followed by `s`. */
  ghost predicate EndsWith(t: string, off: nat, s: string) {
    |t| == off + |s| && forall k :: off <= k < |t| ==> t[k] == s[k - off]
  }

  lemma SuffixEnds(s: string, k: nat)
    requires k <= |s|
    ensures EndsWith(s, k, s[k..])
  {
  }

  lemma {:induction false} NextSepIs(s: string, i: nat, e: nat)
    requires i <= e <= |s|
    requires forall k :: i <= k < e ==> s[k] != SEP
    requires e < |s| ==> s[e] == SEP
    ensures NextSep(s, i) == e
    decreases |s| - i
  {
    if i < e {
      NextSepIs(s, i + 1, e);
    }
  }

  /** Reading back a rendered list of separator-free components gives the list. */
  lemma {:induction false} ComponentsRender(cs: seq<string>)
    requires AllNoSep(cs)
    ensures Render(cs) == "" || Absolute(Render(cs))
    ensures Components(Render(cs)) == cs
    decreases |cs|
  {
    RenderStarts(cs);
    if cs != [] {
      var c, rest := cs[0], cs[1..];
      assert cs == [c] + rest;
      RenderCons(c, rest);
      var head := [SEP] + c;
      var tail := Render(rest);
      RenderStarts(rest);
      assert Render(cs) == head + tail;
      NextSepIs(head + tail, 1, |head|);
      ComponentsRender(rest);
      ComponentsShift(tail, head + tail, |head|, 0);
      assert (head + tail)[1..|head|] == c;
    }
  }
}
