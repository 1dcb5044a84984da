/** `Argz`: a command line is split into arguments inside a copy of itself, and `quote` prints
    arguments so that they can be split again (POSIX.1-2017 XCU section 2.2, Quoting, subset). */
module Arguments {
  import opened Paths

  // ----- the tokenizer on values -------------------------------------------------------------------

  const QUOTE: char := 39 as char
  const DQUOTE: char := 34 as char
  const BACKSLASH: char := 92 as char

  /** Space, and the tab to carriage return of ASCII. */
  predicate IsSpace(c: char) {
    c == ' ' || 9 <= c as int <= 13
  }

  /** The three flags of the scanner. */
  datatype Quoting = Quoting(squote: bool, dquote: bool, bslash: bool)

  const UNQUOTED := Quoting(false, false, false)
  const SINGLE := Quoting(true, false, false)

  /** An unquoted space ends the argument. */
  predicate EndsArgument(q: Quoting, c: char) {
    IsSpace(c) && q == UNQUOTED
  }

  /** A backslash quotes the next character outside quotes, and inside double quotes in front
      of a double quote or a backslash. `ahead` is the character behind it, or NUL. */
  predicate StartsQuote(q: Quoting, c: char, ahead: char) {
    c == BACKSLASH && !q.squote && (!q.dquote || ahead == DQUOTE || ahead == BACKSLASH)
  }

  /** The flags after one character of an argument. */
  function NextQuoting(q: Quoting, c: char, ahead: char): Quoting {
    if q.bslash then q.(bslash := false)
    else if StartsQuote(q, c, ahead) then q.(bslash := true)
    else if q.squote then q.(squote := c != QUOTE)
    else if q.dquote then q.(dquote := c != DQUOTE)
    else q.(squote := c == QUOTE, dquote := c == DQUOTE)
  }

  /** One character of an argument is written unless it is a mark of quoting. */
  predicate Writes(q: Quoting, c: char, ahead: char) {
    if q.bslash then true
    else if StartsQuote(q, c, ahead) then false
    else if q.squote then c != QUOTE
    else if q.dquote then c != DQUOTE
    else c != QUOTE && c != DQUOTE
  }

  /** The argument at `i` under the given flags, and where it ends. */
  function Scan(s: string, i: nat, q: Quoting): (r: (string, nat))
    requires i <= |s|
    ensures i <= r.1 <= |s|
    ensures i < |s| && !EndsArgument(q, s[i]) ==> i < r.1
    decreases |s| - i
  {
    if i == |s| || EndsArgument(q, s[i]) then ("", i)
    else
      var ahead := CharAt(s, i + 1);
      var (arg, e) := Scan(s, i + 1, NextQuoting(q, s[i], ahead));
      (if Writes(q, s[i], ahead) then [s[i]] + arg else arg, e)
  }

  function SkipSpace(s: string, i: nat): (j: nat)
    requires i <= |s|
    ensures i <= j <= |s|
    ensures i < |s| && IsSpace(s[i]) ==> i < j
    ensures j < |s| ==> !IsSpace(s[j])
    decreases |s| - i
  {
    if i < |s| && IsSpace(s[i]) then SkipSpace(s, i + 1) else i
  }

  /** The arguments of a command from `i` on; separators are skipped on both sides of each. */
  function Tokens(s: string, i: nat): seq<string>
    requires i <= |s|
    decreases |s| - i
  {
    if i == |s| then []
    else
      var (arg, e) := Scan(s, SkipSpace(s, i), UNQUOTED);
      [arg] + Tokens(s, SkipSpace(s, e))
  }

  // ----- the printer on values ---------------------------------------------------------------------

  predicate Safe(c: char) {
    'A' <= c <= 'Z' || 'a' <= c <= 'z' || '0' <= c <= '9'
    || c == ',' || c == '.' || c == '/' || c == ':' || c == '_' || c == '-' || c == '+'
  }

  /** Position of the first unsafe character at or after `i`, or the end. */
  function FirstUnsafe(arg: string, i: nat): (e: nat)
    requires i <= |arg|
    ensures i <= e <= |arg|
    decreases |arg| - i
  {
    if i < |arg| && Safe(arg[i]) then FirstUnsafe(arg, i + 1) else i
  }

  /** Only safe characters: the argument is printed as it is. */
  predicate AllSafe(arg: string) {
    FirstUnsafe(arg, 0) == |arg|
  }

  function QuoteChar(c: char): string {
    if c == QUOTE || c == BACKSLASH then [QUOTE, BACKSLASH, c, QUOTE] else [c]
  }

  function QuoteBodyFrom(arg: string, n: nat): string
    requires n <= |arg|
    decreases |arg| - n
  {
    if n == |arg| then "" else QuoteChar(arg[n]) + QuoteBodyFrom(arg, n + 1)
  }

  function QuoteBody(arg: string): string {
    QuoteBodyFrom(arg, 0)
  }

  function QuoteArg(arg: string): string {
    if AllSafe(arg) then arg else [QUOTE] + QuoteBody(arg) + [QUOTE]
  }

  /** What is put behind argument `k`. */
  lemma {:induction false} FirstUnsafeIs(arg: string, i: nat)
    requires i <= |arg|
    ensures forall k :: i <= k < FirstUnsafe(arg, i) ==> Safe(arg[k])
    ensures FirstUnsafe(arg, i) < |arg| ==> !Safe(arg[FirstUnsafe(arg, i)])
    decreases |arg| - i
  {
    if i < |arg| && Safe(arg[i]) {
      FirstUnsafeIs(arg, i + 1);
    }
  }

  /** An argument is printed bare exactly if it is made of letters, digits and `,./:_-+`, and
      otherwise between single quotes. */
  lemma BareExactly(arg: string)
    ensures QuoteArg(arg) == arg <==>
            forall c <- arg :: 'A' <= c <= 'Z' || 'a' <= c <= 'z' || '0' <= c <= '9' || c in ",./:_-+"
    ensures QuoteArg(arg) != arg ==> QuoteArg(arg) == "'" + QuoteBody(arg) + "'"
  {
    FirstUnsafeIs(arg, 0);
    BodyIsLonger(arg, 0);
    if AllSafe(arg) {
      assert forall k :: 0 <= k < |arg| ==> Safe(arg[k]);
    } else {
      assert arg[FirstUnsafe(arg, 0)] in arg;
    }
  }

  lemma {:induction false} BodyIsLonger(arg: string, n: nat)
    requires n <= |arg|
    ensures |QuoteBodyFrom(arg, n)| >= |arg| - n
    decreases |arg| - n
  {
    if n < |arg| {
      BodyIsLonger(arg, n + 1);
    }
  }

  /** Between the quotes a character stands for itself; a quote or backslash is taken out of them. */
  lemma BodyOfParts(front: string, c: char, back: string)
    ensures QuoteBody(front + [c] + back) ==
            QuoteBody(front)
            + (if c == '\'' then "'\\''" else if c == '\\' then "'\\\\'" else [c])
            + QuoteBody(back)
  {
    var arg := front + [c] + back;
    BodyShift(front + [c], back, 0);
    BodyShift(front, [c], 0);
    assert QuoteBodyFrom([c], 0) == QuoteChar(c) + "";
  }

  lemma {:induction false} BodyShift(front: string, back: string, n: nat)
    requires n <= |front|
    ensures QuoteBodyFrom(front + back, n) == QuoteBodyFrom(front, n) + QuoteBody(back)
    decreases |front| - n
  {
    if n < |front| {
      BodyShift(front, back, n + 1);
      var c, rest, more := QuoteChar(front[n]), QuoteBodyFrom(front, n + 1), QuoteBody(back);
      assert c + (rest + more) == (c + rest) + more;
    } else {
      BodyBehind(front, back, 0);
    }
  }

  lemma {:induction false} BodyBehind(front: string, back: string, n: nat)
    requires n <= |back|
    ensures QuoteBodyFrom(front + back, |front| + n) == QuoteBodyFrom(back, n)
    decreases |back| - n
  {
    hide QuoteChar, QuoteBodyFrom;
    var all := front + back;
    BodyStep(all, |front| + n);
    BodyStep(back, n);
    if n < |back| {
      BodyBehind(front, back, n + 1);
      assert all[|front| + n] == back[n];
      assert QuoteBodyFrom(all, |front| + n) == QuoteChar(back[n]) + QuoteBodyFrom(back, n + 1);
    }
  }

  lemma BodyStep(arg: string, n: nat)
    requires n <= |arg|
    ensures QuoteBodyFrom(arg, n) == if n == |arg| then "" else QuoteChar(arg[n]) + QuoteBodyFrom(arg, n + 1)
  {
  }

  function Separator(args: seq<string>, k: nat): string {
    if k + 1 < |args| then " " else ""
  }

  /** The arguments from `k` on, printed with a space between them. */
  function QuoteFrom(args: seq<string>, k: nat): string
    requires k <= |args|
    decreases |args| - k
  {
    if k == |args| then "" else QuoteArg(args[k]) + (Separator(args, k) + QuoteFrom(args, k + 1))
  }

  function QuoteAll(args: seq<string>): string {
    QuoteFrom(args, 0)
  }

  // ----- printer and parser ------------------------------------------------------------------------

  /** `w` stands in `s` at `i`. */
  ghost predicate Holds(s: string, i: nat, w: string) {
    i + |w| <= |s| && s[i..i + |w|] == w
  }

  lemma HoldsAt(s: string, i: nat, w: string, k: nat)
    requires Holds(s, i, w) && k < |w|
    ensures s[i + k] == w[k]
  {
    assert s[i..i + |w|][k] == s[i + k];
  }

  lemma {:induction false} ScanSafe(s: string, i: nat, arg: string, n: nat)
    requires n <= |arg| && Holds(s, i, arg) && FirstUnsafe(arg, n) == |arg|
    requires var e := i + |arg|; e < |s| ==> IsSpace(s[e])
    ensures Scan(s, i + n, UNQUOTED) == (arg[n..], i + |arg|)
    decreases |arg| - n
  {
    if n < |arg| {
      HoldsAt(s, i, arg, n);
      ScanSafe(s, i, arg, n + 1);
      assert arg[n..] == [arg[n]] + arg[n + 1..];
    } else {
      assert arg[n..] == "";
    }
  }

  /** The four characters that stand for a quote or a backslash inside single quotes. */
  lemma ScanEscape(s: string, i: nat)
    requires i + 4 <= |s| && s[i] == QUOTE && s[i + 1] == BACKSLASH && s[i + 3] == QUOTE
    ensures Scan(s, i, SINGLE) == ([s[i + 2]] + Scan(s, i + 4, SINGLE).0, Scan(s, i + 4, SINGLE).1)
  {
    assert Scan(s, i + 3, UNQUOTED) == Scan(s, i + 4, SINGLE);
    assert Scan(s, i + 2, Quoting(false, false, true)) ==
           ([s[i + 2]] + Scan(s, i + 3, UNQUOTED).0, Scan(s, i + 3, UNQUOTED).1);
    assert Scan(s, i + 1, UNQUOTED) == Scan(s, i + 2, Quoting(false, false, true));
  }

  /** The two parts of a text stand behind each other. */
  lemma HoldsBoth(s: string, i: nat, a: string, b: string)
    requires Holds(s, i, a + b)
    ensures Holds(s, i, a) && Holds(s, i + |a|, b)
  {
    var w := s[i..i + |a + b|];
    assert s[i..i + |a|] == w[..|a|] == a;
    assert s[i + |a|..i + |a| + |b|] == w[|a|..] == b;
  }

  lemma ScanClose(s: string, i: nat)
    requires i < |s| && s[i] == QUOTE && (i + 1 < |s| ==> IsSpace(s[i + 1]))
    ensures Scan(s, i, SINGLE) == ("", i + 1)
  {
    assert Scan(s, i + 1, UNQUOTED) == ("", i + 1);
  }

  /** The quoted characters of an argument are read back inside single quotes. */
  lemma {:induction false} ScanBody(s: string, i: nat, arg: string, n: nat)
    requires n <= |arg| && Holds(s, i, QuoteBodyFrom(arg, n))
    requires var e := i + |QuoteBodyFrom(arg, n)|; e < |s| && s[e] == QUOTE && (e + 1 < |s| ==> IsSpace(s[e + 1]))
    ensures Scan(s, i, SINGLE) == (arg[n..], i + |QuoteBodyFrom(arg, n)| + 1)
    decreases |arg| - n
  {
    hide QuoteChar, Scan;
    if n == |arg| {
      ScanClose(s, i);
      assert arg[n..] == "";
    } else {
      HoldsBoth(s, i, QuoteChar(arg[n]), QuoteBodyFrom(arg, n + 1));
      ScanBody(s, i + |QuoteChar(arg[n])|, arg, n + 1);
      ScanQuoted(s, i, arg[n]);
      assert [arg[n]] + arg[n + 1..] == arg[n..];
    }
  }

  /** One quoted character is read back inside single quotes, and leaves them open. */
  lemma ScanQuoted(s: string, i: nat, c: char)
    requires Holds(s, i, QuoteChar(c))
    ensures var n := |QuoteChar(c)|;
            Scan(s, i, SINGLE) == ([c] + Scan(s, i + n, SINGLE).0, Scan(s, i + n, SINGLE).1)
  {
    var w := QuoteChar(c);
    HoldsAt(s, i, w, 0);
    if c == QUOTE || c == BACKSLASH {
      HoldsAt(s, i, w, 1);
      HoldsAt(s, i, w, 2);
      HoldsAt(s, i, w, 3);
      ScanEscape(s, i);
    }
  }

  lemma ScanInQuotes(s: string, i: nat, arg: string)
    requires Holds(s, i, [QUOTE] + QuoteBody(arg) + [QUOTE])
    requires var e := i + |QuoteBody(arg)| + 2; e < |s| ==> IsSpace(s[e])
    ensures Scan(s, i, UNQUOTED) == (arg, i + |QuoteBody(arg)| + 2)
  {
    HoldsBoth(s, i, [QUOTE] + QuoteBody(arg), [QUOTE]);
    HoldsBoth(s, i, [QUOTE], QuoteBody(arg));
    HoldsAt(s, i, [QUOTE], 0);
    HoldsAt(s, i + 1 + |QuoteBody(arg)|, [QUOTE], 0);
    ScanBody(s, i + 1, arg, 0);
    assert arg[0..] == arg;
  }

  /** A printed argument is read back as it was. */
  lemma ScanArg(s: string, i: nat, arg: string)
    requires Holds(s, i, QuoteArg(arg))
    requires var e := i + |QuoteArg(arg)|; e < |s| ==> IsSpace(s[e])
    ensures Scan(s, i, UNQUOTED) == (arg, i + |QuoteArg(arg)|)
  {
    if AllSafe(arg) {
      ScanSafe(s, i, arg, 0);
      assert arg[0..] == arg;
    } else {
      ScanInQuotes(s, i, arg);
    }
  }

  function NonEmptyFrom(args: seq<string>, k: nat): seq<string>
    requires k <= |args|
    decreases |args| - k
  {
    if k == |args| then []
    else if args[k] == "" then NonEmptyFrom(args, k + 1)
    else [args[k]] + NonEmptyFrom(args, k + 1)
  }

  function NonEmptyArgs(args: seq<string>): seq<string> {
    NonEmptyFrom(args, 0)
  }

  lemma QuoteArgStarts(arg: string)
    ensures arg == "" <==> QuoteArg(arg) == ""
    ensures arg != "" ==> !IsSpace(QuoteArg(arg)[0])
  {
  }

  /** `s` ends with `w`, from `i` on. */
  ghost predicate Rest(s: string, i: nat, w: string) {
    i + |w| == |s| && Holds(s, i, w)
  }

  lemma RestBoth(s: string, i: nat, a: string, b: string)
    requires Rest(s, i, a + b)
    ensures Holds(s, i, a) && Rest(s, i + |a|, b) && i + |a| + |b| == |s|
  {
    HoldsBoth(s, i, a, b);
  }

  /** Where argument `k + 1` is printed if argument `k` is printed at `i`. */
  function NextPrinted(args: seq<string>, k: nat, i: nat): nat
    requires k < |args|
  {
    i + |QuoteArg(args[k])| + |Separator(args, k)|
  }

  lemma PrintedParts(s: string, i: nat, args: seq<string>, k: nat)
    requires k < |args| && Rest(s, i, QuoteFrom(args, k))
    ensures Holds(s, i, QuoteArg(args[k]))
    ensures var e, next := i + |QuoteArg(args[k])|, NextPrinted(args, k, i);
            && e <= next <= |s| && Rest(s, next, QuoteFrom(args, k + 1))
            && (e < |s| ==> IsSpace(s[e])) && SkipSpace(s, e) == SkipSpace(s, next)
  {
    hide QuoteArg, QuoteFrom, SkipSpace, Holds, Rest, IsSpace;
    var w, sep, more := QuoteArg(args[k]), Separator(args, k), QuoteFrom(args, k + 1);
    QuoteStep(args, k);
    RestBoth(s, i, w, sep + more);
    RestBoth(s, i + |w|, sep, more);
    if k + 1 < |args| {
      SpaceHeld(s, i + |w|);
      OneSpaceToSkip(s, i + |w|);
    } else {
      assert more == "" by { NothingLeftToPrint(args); }
    }
  }

  lemma QuoteStep(args: seq<string>, k: nat)
    requires k < |args|
    ensures QuoteFrom(args, k) == QuoteArg(args[k]) + (Separator(args, k) + QuoteFrom(args, k + 1))
  {
  }

  lemma NothingLeftToPrint(args: seq<string>)
    ensures QuoteFrom(args, |args|) == ""
  {
  }

  lemma SpaceHeld(s: string, i: nat)
    requires Holds(s, i, " ")
    ensures i < |s| && IsSpace(s[i])
  {
    HoldsAt(s, i, " ", 0);
  }

  lemma OneSpaceToSkip(s: string, i: nat)
    requires i < |s| && IsSpace(s[i])
    ensures SkipSpace(s, i) == SkipSpace(s, i + 1)
  {
  }

  /** Splitting what a list was printed as, once the leading separators are gone. */
  lemma {:induction false} TokensOfPrinted(s: string, i: nat, args: seq<string>, k: nat)
    requires k <= |args| && Rest(s, i, QuoteFrom(args, k))
    ensures Tokens(s, SkipSpace(s, i)) == NonEmptyFrom(args, k)
    ensures SkipSpace(s, i) == |s| <==> NonEmptyFrom(args, k) == []
    decreases |args| - k
  {
    hide QuoteArg, Scan;
    if k < |args| {
      PrintedParts(s, i, args, k);
      TokensOfPrinted(s, NextPrinted(args, k, i), args, k + 1);
      QuoteArgStarts(args[k]);
      if args[k] != "" {
        FirstToken(s, i, args[k], NextPrinted(args, k, i));
      }
    }
  }

  lemma FirstToken(s: string, i: nat, arg: string, next: nat)
    requires arg != "" && Holds(s, i, QuoteArg(arg)) && i + |QuoteArg(arg)| <= next <= |s|
    requires var e := i + |QuoteArg(arg)|; (e < |s| ==> IsSpace(s[e])) && SkipSpace(s, e) == SkipSpace(s, next)
    ensures SkipSpace(s, i) == i < |s|
    ensures Tokens(s, i) == [arg] + Tokens(s, SkipSpace(s, next))
  {
    hide Scan, SkipSpace, QuoteArg, Holds, IsSpace, Tokens;
    NoSpaceInFront(s, i, arg);
    ScanArg(s, i, arg);
    OneToken(s, i, arg, i + |QuoteArg(arg)|);
  }

  lemma NoSpaceInFront(s: string, i: nat, arg: string)
    requires arg != "" && Holds(s, i, QuoteArg(arg))
    ensures i < |s| && SkipSpace(s, i) == i
  {
    QuoteArgStarts(arg);
    hide QuoteArg;
    HoldsAt(s, i, QuoteArg(arg), 0);
  }

  lemma OneToken(s: string, i: nat, arg: string, e: nat)
    requires i < |s| && SkipSpace(s, i) == i && e <= |s| && Scan(s, i, UNQUOTED) == (arg, e)
    ensures Tokens(s, i) == [arg] + Tokens(s, SkipSpace(s, e))
  {
    hide Scan, SkipSpace;
  }

  /** Printing a list and splitting the result gives the non-empty arguments in order; only a
      list of two or more empty ones comes back as one empty argument. */
  lemma TokensOfQuoted(args: seq<string>)
    ensures Tokens(QuoteAll(args), 0) ==
            if |args| > 1 && NonEmptyArgs(args) == [] then [""] else NonEmptyArgs(args)
  {
    var s := QuoteAll(args);
    assert s[0..|s|] == s;
    TokensOfPrinted(s, 0, args, 0);
    BlankTokens(s);
    QuotedIsEmpty(args);
  }

  lemma BlankTokens(s: string)
    ensures Tokens(s, 0) ==
            if s != "" && SkipSpace(s, 0) == |s| then [""] else Tokens(s, SkipSpace(s, 0))
  {
    if s != "" {
      var start := SkipSpace(s, 0);
      assert SkipSpace(s, start) == start;
      if start == |s| {
        assert Scan(s, start, UNQUOTED) == ("", start);
        assert Tokens(s, start) == [];
      }
    }
  }

  lemma QuotedIsEmpty(args: seq<string>)
    ensures QuoteAll(args) == "" <==> |args| == 0 || (|args| == 1 && args[0] == "")
    ensures |args| == 1 && args[0] != "" ==> NonEmptyArgs(args) != []
  {
    if args != [] {
      QuoteArgStarts(args[0]);
      assert QuoteAll(args) == QuoteArg(args[0]) + (Separator(args, 0) + QuoteFrom(args, 1));
    }
  }

  lemma {:induction false} NonEmptyFromExactly(args: seq<string>, k: nat)
    requires k <= |args|
    ensures |NonEmptyFrom(args, k)| <= |args| - k
    ensures (forall j :: k <= j < |args| ==> args[j] != "") ==> NonEmptyFrom(args, k) == args[k..]
    ensures (exists j :: k <= j < |args| && args[j] == "") ==> |NonEmptyFrom(args, k)| < |args| - k
    decreases |args| - k
  {
    if k < |args| {
      NonEmptyFromExactly(args, k + 1);
      assert args[k..] == [args[k]] + args[k + 1..];
    }
  }

  /** Parser and printer undo each other exactly on the lists without empty arguments. */
  lemma RoundTripExactly(args: seq<string>)
    ensures Tokens(QuoteAll(args), 0) == args <==> "" !in args
  {
    TokensOfQuoted(args);
    NonEmptyFromExactly(args, 0);
    assert args[0..] == args;
  }

  // ----- the flat data -----------------------------------------------------------------------------

  /** Every argument followed by a NUL. */
  function Flat(args: seq<string>): string {
    if args == [] then "" else args[0] + [NUL] + Flat(args[1..])
  }

  /** The data ends with a NUL, unless there is none. */
  predicate Closed(data: string) {
    data != "" ==> data[|data| - 1] == NUL
  }

  /** The C strings in closed data from `i` on. */
  function SplitFrom(data: string, i: nat): (args: seq<string>)
    requires i <= |data| && Closed(data)
    decreases |data| - i
  {
    if i == |data| then []
    else
      var e := NulFrom(data, i);
      [data[i..e]] + SplitFrom(data, e + 1)
  }

  function Split(data: string): seq<string>
    requires Closed(data)
  {
    SplitFrom(data, 0)
  }

  lemma PieceShift(data: string, t: string, off: nat, i: nat)
    requires i < |data| && Closed(data) && EndsWith(t, off, data)
    ensures NulFrom(t, off + i) == off + NulFrom(data, i) < |t|
    ensures t[off + i..off + NulFrom(data, i)] == data[i..NulFrom(data, i)]
  {
    assert t[off + NulFrom(data, i)] == data[NulFrom(data, i)];
    NulFromIs(t, off + i, off + NulFrom(data, i));
  }

  /** The first C string and the rest. */
  lemma SplitStep(data: string, i: nat)
    requires i <= |data| && Closed(data)
    ensures i < |data| ==> NulFrom(data, i) < |data|
    ensures SplitFrom(data, i) == if i == |data| then []
                                  else [data[i..NulFrom(data, i)]] + SplitFrom(data, NulFrom(data, i) + 1)
  {
  }

  /** What stands in front does not change the arguments behind it. */
  lemma {:induction false} SplitShift(data: string, t: string, off: nat, i: nat)
    requires i <= |data| && Closed(data) && Closed(t) && EndsWith(t, off, data)
    ensures SplitFrom(t, off + i) == SplitFrom(data, i)
    decreases |data| - i
  {
    hide NulFrom, SplitFrom, Closed;
    SplitStep(data, i);
    SplitStep(t, off + i);
    if i < |data| {
      PieceShift(data, t, off, i);
      SplitShift(data, t, off, NulFrom(data, i) + 1);
    }
  }

  lemma {:induction false} NulFromIs(data: string, i: nat, e: nat)
    requires i <= e < |data| && data[e] == NUL
    requires forall k :: i <= k < e ==> data[k] != NUL
    ensures NulFrom(data, i) == e
    decreases e - i
  {
    if i < e {
      NulFromIs(data, i + 1, e);
    }
  }

  /** `t` is `data` followed by `more`. */
  ghost predicate Extends(t: string, data: string, more: string) {
    EndsWith(t, |data|, more) && forall k :: 0 <= k < |data| ==> t[k] == data[k]
  }

  lemma PieceKept(t: string, data: string, more: string, i: nat)
    requires i < |data| && Closed(data) && Extends(t, data, more)
    ensures NulFrom(t, i) == NulFrom(data, i) < |data|
    ensures t[i..NulFrom(data, i)] == data[i..NulFrom(data, i)]
  {
    NulFromIs(t, i, NulFrom(data, i));
  }

  /** Appending closed data appends its arguments to the list, and nothing else. */
  lemma {:induction false} SplitAppend(t: string, data: string, more: string, i: nat)
    requires i <= |data| && Closed(data) && Closed(more) && Closed(t) && Extends(t, data, more)
    ensures SplitFrom(t, i) == SplitFrom(data, i) + Split(more)
    decreases |data| - i
  {
    hide NulFrom, SplitFrom, Closed;
    SplitStep(data, i);
    SplitStep(t, i);
    if i == |data| {
      SplitShift(more, t, |data|, 0);
    } else {
      PieceKept(t, data, more, i);
      SplitAppend(t, data, more, NulFrom(data, i) + 1);
    }
  }

  lemma FlatPiece(arg: string, rest: string)
    requires NUL !in arg && Closed(rest)
    ensures var t := arg + [NUL] + rest;
            Closed(t) && EndsWith(t, |arg| + 1, rest) && NulFrom(t, 0) == |arg| && t[0..|arg|] == arg
  {
    NulFromIs(arg + [NUL] + rest, 0, |arg|);
  }

  lemma {:induction false} SplitFlat(args: seq<string>)
    requires forall i :: 0 <= i < |args| ==> NUL !in args[i]
    ensures Closed(Flat(args)) && Split(Flat(args)) == args
    decreases |args|
  {
    if args != [] {
      SplitFlat(args[1..]);
      FlatPiece(args[0], Flat(args[1..]));
      SplitShift(Flat(args[1..]), Flat(args), |args[0]| + 1, 0);
      assert [args[0]] + args[1..] == args;
    }
  }

  lemma {:induction false} FlatAppend(a: seq<string>, b: seq<string>)
    ensures Flat(a + b) == Flat(a) + Flat(b)
    decreases |a|
  {
    if a == [] {
      assert a + b == b;
    } else {
      assert (a + b)[1..] == a[1..] + b;
      FlatAppend(a[1..], b);
    }
  }

  /** A pointer into the data; the list of arguments ends with a null pointer. */
  datatype Pointer = Null | At(offset: nat)

  /** Where the arguments of `data[i..]` start, if one starts at `i`. */
  function Starts(data: string, i: nat): (ptrs: seq<Pointer>)
    requires i <= |data| && Closed(data)
    decreases |data| - i
  {
    if i == |data| then [] else [At(i)] + Starts(data, NulFrom(data, i) + 1)
  }

  /** The C string a pointer shows. */
  function Pointee(data: string, i: nat): string
    requires i <= |data|
  {
    data[i..NulFrom(data, i)]
  }

  predicate Shows(data: string, p: Pointer, arg: string) {
    p.At? && p.offset < |data| && Pointee(data, p.offset) == arg
  }

  /** Every pointer made from the data shows the argument of its place. */
  lemma {:induction false} StartsShowArguments(data: string, i: nat)
    requires i <= |data| && Closed(data)
    ensures var ptrs, args := Starts(data, i), SplitFrom(data, i);
            && |ptrs| == |args|
            && (forall k :: 0 <= k < |ptrs| ==> Shows(data, ptrs[k], args[k]))
    decreases |data| - i
  {
    if i < |data| {
      StartsShowArguments(data, NulFrom(data, i) + 1);
    }
  }

  lemma {:induction false} SplitNoNul(data: string, i: nat)
    requires i <= |data| && Closed(data)
    ensures forall k :: 0 <= k < |SplitFrom(data, i)| ==> NUL !in SplitFrom(data, i)[k]
    decreases |data| - i
  {
    if i < |data| {
      SplitNoNul(data, NulFrom(data, i) + 1);
    }
  }

  lemma {:induction false} ScanNoNul(s: string, i: nat, q: Quoting)
    requires i <= |s| && NUL !in s
    ensures NUL !in Scan(s, i, q).0
    decreases |s| - i
  {
    if i < |s| && !EndsArgument(q, s[i]) {
      ScanNoNul(s, i + 1, NextQuoting(q, s[i], CharAt(s, i + 1)));
    }
  }

  // ----- the scanner in place ----------------------------------------------------------------------

  /** Nothing at or behind `i` has been overwritten. */
  ghost predicate Unread(s: string, buf: seq<char>, i: nat) {
    && i <= |s| < |buf|
    && forall k :: i <= k <= |s| ==> buf[k] == CharAt(s, k)
  }

  method SkipSpaces(copy: array<char>, input0: nat, ghost s: string) returns (input: nat)
    requires Unread(s, copy[..], input0) && NUL !in s
    ensures input0 <= input <= |s| && input == SkipSpace(s, input0)
  {
    input := input0;
    while IsSpace(copy[input])
      invariant input0 <= input <= |s| && SkipSpace(s, input0) == SkipSpace(s, input)
      decreases |s| - input
    {
      assert copy[input] == CharAt(s, input);
      input := input + 1;
    }
    assert copy[input] == CharAt(s, input);
  }

  /** One turn of the scanner: the flags and whether the character is written. */
  method Classify(squote0: bool, dquote0: bool, bslash0: bool, c: char, ahead: char)
    returns (squote: bool, dquote: bool, bslash: bool, write: bool)
    ensures Quoting(squote, dquote, bslash) == NextQuoting(Quoting(squote0, dquote0, bslash0), c, ahead)
    ensures write == Writes(Quoting(squote0, dquote0, bslash0), c, ahead)
  {
    squote, dquote, bslash, write := squote0, dquote0, bslash0, false;
    if bslash {
      bslash := false;
      write := true;
    } else if c == BACKSLASH && !squote && (!dquote || ahead == DQUOTE || ahead == BACKSLASH) {
      bslash := true;
    } else if squote {
      if c == QUOTE { squote := false; } else { write := true; }
    } else if dquote {
      if c == DQUOTE { dquote := false; } else { write := true; }
    } else {
      if c == QUOTE { squote := true; } else if c == DQUOTE { dquote := true; } else { write := true; }
    }
  }

  /** What is written so far and what the rest gives make up the argument. */
  ghost predicate Scanned(s: string, from: nat, i: nat, q: Quoting, written: string) {
    && from <= i <= |s|
    && var (arg, e) := Scan(s, i, q);
       Scan(s, from, UNQUOTED) == (written + arg, e)
  }

  lemma ScannedStep(s: string, from: nat, i: nat, q: Quoting, written: string)
    requires Scanned(s, from, i, q, written) && i < |s| && !EndsArgument(q, s[i])
    ensures var ahead := CharAt(s, i + 1);
            Scanned(s, from, i + 1, NextQuoting(q, s[i], ahead),
                    if Writes(q, s[i], ahead) then written + [s[i]] else written)
  {
    var (arg, e) := Scan(s, i + 1, NextQuoting(q, s[i], CharAt(s, i + 1)));
    assert written + ([s[i]] + arg) == written + [s[i]] + arg;
  }

  /** Moves the cleaned-up argument at `input0` to the front of the buffer it is read from. */
  method ScanInto(copy: array<char>, input0: nat, ghost s: string) returns (arg: nat, input: nat)
    requires Unread(s, copy[..], input0) && NUL !in s
    modifies copy
    ensures arg <= input && Unread(s, copy[..], input)
    ensures Scan(s, input0, UNQUOTED) == (copy[..arg], input)
  {
    arg, input := 0, input0;
    var squote, dquote, bslash := false, false, false;
    assert copy[..0] + Scan(s, input0, UNQUOTED).0 == Scan(s, input0, UNQUOTED).0;
    while copy[input] != NUL && !(IsSpace(copy[input]) && !squote && !dquote && !bslash)
      invariant arg <= input && Unread(s, copy[..], input)
      invariant Scanned(s, input0, input, Quoting(squote, dquote, bslash), copy[..arg])
      decreases |s| - input
    {
      ghost var before := copy[..arg];
      assert copy[input] == CharAt(s, input) && copy[input + 1] == CharAt(s, input + 1);
      ScannedStep(s, input0, input, Quoting(squote, dquote, bslash), before);
      var write;
      squote, dquote, bslash, write := Classify(squote, dquote, bslash, copy[input], copy[input + 1]);
      if write {
        copy[arg] := copy[input];
        arg := arg + 1;
        assert copy[..arg] == before + [s[input]];
      }
      input := input + 1;
    }
    assert Scan(s, input, Quoting(squote, dquote, bslash)) == ("", input);
    assert copy[..arg] + "" == copy[..arg];
  }

  /** One turn of the outer loop: the next argument with its NUL.  The character the NUL is
      put in place of is restored, as it may be unread. */
  method TakeArgument(copy: array<char>, input0: nat, ghost s: string) returns (piece: string, input: nat)
    requires Unread(s, copy[..], input0) && NUL !in s && input0 < |s|
    modifies copy
    ensures input0 < input && Unread(s, copy[..], input)
    ensures var token := Scan(s, SkipSpace(s, input0), UNQUOTED).0;
            piece == token + [NUL] && NUL !in token && Tokens(s, input0) == [token] + Tokens(s, input)
  {
    input := SkipSpaces(copy, input0, s);
    ScanNoNul(s, input, UNQUOTED);
    var arg;
    arg, input := ScanInto(copy, input, s);
    ghost var before := copy[..];
    var c := copy[arg];
    copy[arg] := NUL;
    piece := copy[..arg + 1];
    copy[arg] := c;
    assert copy[..] == before;
    assert piece == before[..arg] + [NUL];
    input := SkipSpaces(copy, input, s);
  }

  /** The pointers still to be made at `i`; `add` tells whether an argument starts there. */
  ghost function Left(data: string, i: nat, add: bool): seq<Pointer>
    requires i <= |data| && Closed(data) && (!add ==> i < |data|)
  {
    if add then Starts(data, i) else Starts(data, NulFrom(data, i) + 1)
  }

  lemma StartsStep(data: string, i: nat)
    requires i < |data| && Closed(data)
    ensures NulFrom(data, i) < |data| && Starts(data, i) == [At(i)] + Starts(data, NulFrom(data, i) + 1)
  {
  }

  lemma LeftStep(data: string, i: nat, add: bool)
    requires i < |data| && Closed(data)
    ensures data[i] != NUL ==> i + 1 < |data|
    ensures var rest := Left(data, i + 1, data[i] == NUL);
            Left(data, i, add) == if add then [At(i)] + rest else rest
  {
    StartsStep(data, i);
    assert data[i] == NUL ==> NulFrom(data, i) == i;
    assert data[i] != NUL ==> i + 1 < |data| && NulFrom(data, i) == NulFrom(data, i + 1);
    assert data[i] != NUL ==> !add ==> Left(data, i, add) == Left(data, i + 1, false);
    hide NulFrom, Starts;
  }

  lemma AppendArguments(data: string, args: seq<string>)
    requires Closed(data) && forall i :: 0 <= i < |args| ==> NUL !in args[i]
    ensures Closed(data + Flat(args)) && Split(data + Flat(args)) == Split(data) + args
  {
    hide Flat, SplitFrom, Extends, Closed;
    SplitFlat(args);
    var more := Flat(args);
    ConcatExtends(data, more);
    SplitAppend(data + more, data, more, 0);
  }

  lemma ConcatExtends(data: string, more: string)
    requires Closed(data) && Closed(more)
    ensures Closed(data + more) && Extends(data + more, data, more)
  {
  }

  lemma FlatSnoc(args: seq<string>, arg: string)
    ensures Flat(args + [arg]) == Flat(args) + arg + [NUL]
  {
    FlatAppend(args, [arg]);
    assert [arg][1..] == [] && Flat([arg]) == arg + [NUL] + "";
  }

  /** The first `k` arguments have been printed. */
  ghost predicate Printed(args: seq<string>, k: nat, result: string) {
    k <= |args| && QuoteAll(args) == result + QuoteFrom(args, k)
  }

  lemma PrintedStep(args: seq<string>, k: nat, result: string)
    requires k < |args| && Printed(args, k, result)
    ensures Printed(args, k + 1, result + QuoteArg(args[k]) + Separator(args, k))
  {
    hide QuoteArg;
    var w, sep, rest := QuoteArg(args[k]), Separator(args, k), QuoteFrom(args, k + 1);
    assert result + (w + (sep + rest)) == result + w + sep + rest;
  }

  /** The first `k` characters of an argument have been printed. */
  ghost predicate BodyPrinted(arg: string, k: nat, result: string) {
    k <= |arg| && QuoteBody(arg) == result + QuoteBodyFrom(arg, k)
  }

  lemma BodyPrintedStep(arg: string, k: nat, result: string)
    requires k < |arg| && BodyPrinted(arg, k, result)
    ensures BodyPrinted(arg, k + 1, result + QuoteChar(arg[k]))
  {
    hide QuoteChar;
    var rest := QuoteBodyFrom(arg, k + 1);
    assert result + (QuoteChar(arg[k]) + rest) == result + QuoteChar(arg[k]) + rest;
  }

  /** The pointers made so far and those still to be made are the pointers of the data. */
  ghost predicate Pointed(data: string, i: nat, add: bool, ptrs: seq<Pointer>) {
    && i <= |data| && Closed(data) && (!add ==> i < |data|)
    && Starts(data, 0) == ptrs + Left(data, i, add)
  }

  lemma PointedStep(data: string, i: nat, add: bool, ptrs: seq<Pointer>)
    requires i < |data| && Pointed(data, i, add, ptrs)
    ensures Pointed(data, i + 1, data[i] == NUL, if add then ptrs + [At(i)] else ptrs)
  {
    LeftStep(data, i, add);
    var rest := Left(data, i + 1, data[i] == NUL);
    assert ptrs + ([At(i)] + rest) == (ptrs + [At(i)]) + rest;
  }

  lemma PointedStart(data: string)
    requires Closed(data)
    ensures Pointed(data, 0, true, [])
  {
    assert [] + Starts(data, 0) == Starts(data, 0);
  }

  /** At the end all pointers are made. */
  lemma PointedEnd(data: string, add: bool, ptrs: seq<Pointer>)
    requires Pointed(data, |data|, add, ptrs)
    ensures ptrs == Starts(data, 0)
  {
    assert ptrs + [] == ptrs;
  }

  /** The first tokens of the command have been read. */
  ghost predicate Taken(s: string, i: nat, done: seq<string>) {
    && i <= |s| && Tokens(s, 0) == done + Tokens(s, i)
    && forall k :: 0 <= k < |done| ==> NUL !in done[k]
  }

  lemma TakenNone(s: string)
    ensures Taken(s, 0, []) && Flat([]) == ""
  {
    assert [] + Tokens(s, 0) == Tokens(s, 0);
  }

  lemma TakenAll(s: string, done: seq<string>)
    requires Taken(s, |s|, done)
    ensures done == Tokens(s, 0)
  {
    assert done + [] == done;
  }

  lemma FlatSnocOn(data: string, args: seq<string>, arg: string)
    ensures data + Flat(args) + (arg + [NUL]) == data + Flat(args + [arg])
  {
    FlatSnoc(args, arg);
  }

  lemma TakenStep(s: string, i: nat, done: seq<string>, token: string, j: nat)
    requires Taken(s, i, done) && j <= |s| && NUL !in token
    requires Tokens(s, i) == [token] + Tokens(s, j)
    ensures Taken(s, j, done + [token])
  {
    hide Tokens;
    assert done + ([token] + Tokens(s, j)) == (done + [token]) + Tokens(s, j);
  }

  /** A vector of C strings kept in one flat string, with a pointer to each. */
  class Argz {
    var m_data: string
    var m_argz: seq<Pointer>

    /** Before the first `build` there is not even a null pointer. */
    predicate Built()
      reads this
    {
      m_argz != []
    }

    ghost predicate Valid()
      reads this
    {
      && Closed(m_data)
      && (if Built() then m_argz == Starts(m_data, 0) + [Null] else m_data == "")
    }

    ghost function Args(): seq<string>
      reads this
      requires Valid()
    {
      Split(m_data)
    }

    constructor ()
      ensures Valid() && !Built() && Args() == []
    {
      m_data, m_argz := "", [];
    }

    method Clear()
      modifies this
      ensures Valid() && !Built() && Args() == []
    {
      m_data, m_argz := "", [];
    }

    /** Remakes the pointers after the data has grown. */
    method ReArgz()
      requires Closed(m_data)
      modifies this`m_argz
      ensures m_argz == Starts(m_data, 0) + [Null]
    {
      hide Pointed, Starts, Closed;
      m_argz := [];
      var p, add := 0, true;
      PointedStart(m_data);
      while p < |m_data|
        invariant p <= |m_data| && Pointed(m_data, p, add, m_argz)
      {
        PointedStep(m_data, p, add, m_argz);
        if add {
          m_argz := m_argz + [At(p)];
        }
        add := m_data[p] == NUL;
        p := p + 1;
      }
      PointedEnd(m_data, add, m_argz);
      m_argz := m_argz + [Null];
    }

    /** Appends a list of C strings. */
    method BuildList(argz: seq<string>)
      requires Valid() && forall i :: 0 <= i < |argz| ==> NUL !in argz[i]
      modifies this
      ensures Valid() && Built() && Args() == old(Args()) + argz
    {
      hide SplitFrom, Starts;
      if argz == [] {
        if m_argz == [] {
          ReArgz();
        }
        return;
      }
      var n := 0;
      while n < |argz|
        invariant n <= |argz|
        invariant m_argz == old(m_argz) && m_data == old(m_data) + Flat(argz[..n])
      {
        assert argz[..n + 1] == argz[..n] + [argz[n]];
        FlatSnoc(argz[..n], argz[n]);
        m_data := m_data + (argz[n] + [NUL]);
        n := n + 1;
      }
      assert argz[..n] == argz;
      AppendArguments(old(m_data), argz);
      ReArgz();
    }

    /** The argument list as a client walks it, up to the null pointer.  A list never built has
        no pointer at all and is read as an empty one. */
    method CStrings() returns (args: seq<string>)
      requires Valid()
      ensures args == Args()
    {
      args := [];
      if m_argz == [] {
        return;
      }
      StartsShowArguments(m_data, 0);
      assert |m_argz| == |Args()| + 1;
      var arg := 0;
      while m_argz[arg] != Null
        invariant arg <= |Args()| && args == Args()[..arg]
        decreases |m_argz| - arg
      {
        assert Shows(m_data, m_argz[arg], Args()[arg]);
        args := args + [Pointee(m_data, m_argz[arg].offset)];
        arg := arg + 1;
      }
    }

    /** Assignment, also of a list to itself. */
    method Assign(x: Argz)
      requires Valid() && x.Valid()
      modifies this
      ensures Valid() && Args() == old(x.Args()) && (this != x ==> Built())
    {
      if this != x {
        Clear();
        var args := x.CStrings();
        SplitNoNul(x.m_data, 0);
        BuildList(args);
        assert [] + args == args;
      }
    }

    /** The outer loop over a command: appends its arguments to the data. */
    method AppendTokens(copy: array<char>, ghost s: string)
      requires s == Text(copy[..]) && HasNul(copy[..])
      modifies this`m_data, copy
      ensures m_data == old(m_data) + Flat(Tokens(s, 0)) && Taken(s, |s|, Tokens(s, 0))
    {
      hide Scan, SkipSpace, Flat, Tokens, Taken;
      ghost var done: seq<string> := [];
      var input := 0;
      TakenNone(s);
      assert m_data + Flat([]) == m_data;
      while copy[input] != NUL
        invariant Unread(s, copy[..], input)
        invariant m_data == old(m_data) + Flat(done)
        invariant Taken(s, input, done)
        decreases |s| - input
      {
        ghost var from := input;
        ghost var token := Scan(s, SkipSpace(s, from), UNQUOTED).0;
        var piece;
        piece, input := TakeArgument(copy, input, s);
        FlatSnocOn(old(m_data), done, token);
        TakenStep(s, from, done, token, input);
        m_data := m_data + piece;
        done := done + [token];
      }
      TakenAll(s, done);
    }

    /** Splits a command, read up to its first NUL, and appends its arguments. */
    method Build(command: string)
      requires Valid()
      modifies this
      ensures Valid() && Built() && Args() == old(Args()) + Tokens(Text(command + [NUL]), 0)
    {
      if command == "" {
        TextOfString([NUL], "");
        assert command + [NUL] == [NUL];
        if m_argz == [] {
          ReArgz();
        }
        return;
      }
      var copy := new char[|command| + 1](i requires 0 <= i <= |command| => CharAt(command, i));
      assert copy[..] == command + [NUL];
      ghost var s := Text(command + [NUL]);
      assert copy[|command|] == NUL;
      AppendTokens(copy, s);
      AppendArguments(old(m_data), Tokens(s, 0));
      ReArgz();
    }

    /** The arguments, printed so that `Build` reads them back. */
    method Quote() returns (result: string)
      requires Valid() && Built()
      ensures result == QuoteAll(Args())
    {
      hide QuoteArg;
      result := "";
      ghost var args := Args();
      StartsShowArguments(m_data, 0);
      assert |m_argz| == |args| + 1;
      var arg := 0;
      assert "" + QuoteAll(args) == QuoteAll(args);
      while m_argz[arg] != Null
        invariant Printed(args, arg, result)
        decreases |args| - arg
      {
        assert Shows(m_data, m_argz[arg], args[arg]);
        PrintedStep(args, arg, result);
        var quoted := QuoteOne(m_argz[arg].offset);
        result := result + quoted;
        assert m_argz[arg + 1] != Null <==> arg + 1 < |args| by {
          assert arg + 1 < |args| ==> Shows(m_data, m_argz[arg + 1], args[arg + 1]);
        }
        result := result + if m_argz[arg + 1] != Null then " " else "";
        arg := arg + 1;
      }
      assert result + "" == result;
    }

    /** One argument, as it is or in single quotes. */
    method QuoteOne(offset: nat) returns (result: string)
      requires Closed(m_data) && offset < |m_data|
      ensures result == QuoteArg(Pointee(m_data, offset))
    {
      ghost var arg := Pointee(m_data, offset);
      var quoteit, p := false, offset;
      while m_data[p] != NUL && !quoteit
        invariant offset <= p <= offset + |arg| < |m_data|
        invariant if quoteit then !AllSafe(arg) else FirstUnsafe(arg, 0) == FirstUnsafe(arg, p - offset)
        decreases offset + |arg| - p, !quoteit
      {
        assert m_data[p] == arg[p - offset];
        quoteit := !Safe(m_data[p]);
        p := p + 1;
      }
      if !quoteit {
        result := m_data[offset..p];
      } else {
        var body := QuoteText(offset);
        result := [QUOTE] + body + [QUOTE];
      }
    }

    /** The characters of an argument, with quotes and backslashes taken out of the quotes. */
    method QuoteText(offset: nat) returns (result: string)
      requires Closed(m_data) && offset < |m_data|
      ensures result == QuoteBody(Pointee(m_data, offset))
    {
      hide QuoteChar;
      ghost var arg := Pointee(m_data, offset);
      result := "";
      var p := offset;
      assert "" + QuoteBody(arg) == QuoteBody(arg);
      while m_data[p] != NUL
        invariant offset <= p <= offset + |arg| < |m_data|
        invariant BodyPrinted(arg, p - offset, result)
        decreases offset + |arg| - p
      {
        assert m_data[p] == arg[p - offset];
        BodyPrintedStep(arg, p - offset, result);
        result := result + QuoteChar(m_data[p]);
        p := p + 1;
      }
      assert result + "" == result;
    }
  }

  /** Building a list, printing it and splitting the result builds the list again, exactly if
      no argument is empty. */
  method QuoteAndBuild(args: seq<string>) returns (again: Argz)
    requires forall i :: 0 <= i < |args| ==> NUL !in args[i]
    ensures fresh(again) && again.Valid() && again.Built()
    ensures again.Args() == args <==> "" !in args
  {
    var argz := new Argz();
    argz.BuildList(args);
    assert [] + args == args;
    var command := argz.Quote();
    again := new Argz();
    again.Build(command);
    QuoteNoNul(args, 0);
    TextOfString(command + [NUL], command);
    assert [] + Tokens(command, 0) == Tokens(command, 0);
    RoundTripExactly(args);
  }

  lemma QuoteArgNoNul(arg: string)
    requires NUL !in arg
    ensures NUL !in QuoteArg(arg)
  {
    QuoteBodyNoNul(arg, 0);
  }

  /** Nothing printed contains a NUL. */
  lemma {:induction false} QuoteNoNul(args: seq<string>, k: nat)
    requires k <= |args| && forall i :: 0 <= i < |args| ==> NUL !in args[i]
    ensures NUL !in QuoteFrom(args, k)
    decreases |args| - k
  {
    hide QuoteArg;
    if k < |args| {
      QuoteNoNul(args, k + 1);
      QuoteArgNoNul(args[k]);
    }
  }

  lemma {:induction false} QuoteBodyNoNul(arg: string, n: nat)
    requires n <= |arg| && NUL !in arg
    ensures NUL !in QuoteBodyFrom(arg, n)
    decreases |arg| - n
  {
    if n < |arg| {
      QuoteBodyNoNul(arg, n + 1);
    }
  }
}
