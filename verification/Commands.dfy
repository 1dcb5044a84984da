/** Every way to write a command line: what `Argz` makes of quotes, backslashes and blanks, told from
    the characters of the command. */
module Commands {
  import opened Paths
  import opened Arguments

  /** A character between double quotes: as it is, or behind a backslash. */
  datatype InDouble = Raw(c: char) | Slashed(c: char)

  /** A stretch of a command: a character as it is, one behind a backslash, a backslash with nothing
      behind it, and the two kinds of quotes, which may be left open at the end of the command. */
  datatype Segment =
    | Bare(c: char)
    | Escaped(c: char)
    | Lone
    | Single(text: string, closed: bool)
    | Double(parts: seq<InDouble>, closed: bool)

  /** An argument as it is written, and the blanks behind it. */
  datatype Word = Word(segments: seq<Segment>, gap: string)

  /** Blank, tab, line feed, vertical tab, form feed, carriage return. */
  predicate Blank(c: char) {
    c as int in {32, 9, 10, 11, 12, 13}
  }

  predicate AllBlank(gap: string) {
    forall k :: 0 <= k < |gap| ==> Blank(gap[k])
  }

  // ----- how it is written ---------------------------------------------------------------------------

  function PartWritten(part: InDouble): string {
    match part
    case Raw(c) => [c]
    case Slashed(c) => ['\\', c]
  }

  function PartsWritten(parts: seq<InDouble>, k: nat, closed: bool): string
    requires k <= |parts|
    decreases |parts| - k
  {
    if k == |parts| then if closed then "\"" else ""
    else PartWritten(parts[k]) + PartsWritten(parts, k + 1, closed)
  }

  function Written(seg: Segment): string {
    match seg
    case Bare(c) => [c]
    case Escaped(c) => ['\\', c]
    case Lone => "\\"
    case Single(text, closed) => "'" + text + if closed then "'" else ""
    case Double(parts, closed) => "\"" + PartsWritten(parts, 0, closed)
  }

  function SegmentsWritten(segments: seq<Segment>, k: nat): string
    requires k <= |segments|
    decreases |segments| - k
  {
    if k == |segments| then "" else Written(segments[k]) + SegmentsWritten(segments, k + 1)
  }

  function WordsWritten(words: seq<Word>, k: nat): string
    requires k <= |words|
    decreases |words| - k
  {
    if k == |words| then ""
    else SegmentsWritten(words[k].segments, 0) + (words[k].gap + WordsWritten(words, k + 1))
  }

  // ----- what it means -------------------------------------------------------------------------------

  function PartsMeant(parts: seq<InDouble>, k: nat): string
    requires k <= |parts|
    decreases |parts| - k
  {
    if k == |parts| then "" else [parts[k].c] + PartsMeant(parts, k + 1)
  }

  function Meant(seg: Segment): string {
    match seg
    case Bare(c) => [c]
    case Escaped(c) => [c]
    case Lone => ""
    case Single(text, _) => text
    case Double(parts, _) => PartsMeant(parts, 0)
  }

  function SegmentsMeant(segments: seq<Segment>, k: nat): string
    requires k <= |segments|
    decreases |segments| - k
  {
    if k == |segments| then "" else Meant(segments[k]) + SegmentsMeant(segments, k + 1)
  }

  function WordsMeant(words: seq<Word>, k: nat): seq<string>
    requires k <= |words|
    decreases |words| - k
  {
    if k == |words| then [] else [SegmentsMeant(words[k].segments, 0)] + WordsMeant(words, k + 1)
  }

  // ----- what may be written so ----------------------------------------------------------------------

  /** Between double quotes a backslash stands for itself unless a backslash or the quote follows. */
  predicate PartsFit(parts: seq<InDouble>, k: nat, closed: bool)
    requires k <= |parts|
    decreases |parts| - k
  {
    if k == |parts| then true
    else
      var more := PartsWritten(parts, k + 1, closed);
      && (match parts[k]
          case Raw(c) => c != '"' && (c == '\\' && more != "" ==> more[0] != '"' && more[0] != '\\')
          case Slashed(c) => c == '"' || c == '\\')
      && PartsFit(parts, k + 1, closed)
  }

  predicate Fit(seg: Segment) {
    match seg
    case Bare(c) => !Blank(c) && c != '\'' && c != '"' && c != '\\'
    case Escaped(_) => true
    case Lone => true
    case Single(text, _) => '\'' !in text
    case Double(parts, closed) => PartsFit(parts, 0, closed)
  }

  /** Reaches to the end of the command whatever follows. */
  predicate Open(seg: Segment) {
    seg == Lone || (seg.Single? && !seg.closed) || (seg.Double? && !seg.closed)
  }

  predicate SegmentsFit(segments: seq<Segment>, k: nat, last: bool) {
    forall i :: k <= i < |segments| ==>
      Fit(segments[i]) && (Open(segments[i]) ==> last && i == |segments| - 1)
  }

  /** There is something in every word, and a blank between two of them. */
  predicate WordsFit(words: seq<Word>, k: nat) {
    forall i :: k <= i < |words| ==>
      && words[i].segments != [] && AllBlank(words[i].gap)
      && (words[i].gap == "" ==> i == |words| - 1)
      && SegmentsFit(words[i].segments, 0, words[i].gap == "")
  }

  // ----- one segment ---------------------------------------------------------------------------------

  const DOUBLE := Quoting(false, true, false)
  const SLASHED := Quoting(false, false, true)
  const DOUBLE_SLASHED := Quoting(false, true, true)

  /** Scanning on writes `arg` in front of what is scanned from `e` on. */
  ghost predicate Yields(s: string, i: nat, q: Quoting, arg: string, e: nat) {
    && i <= |s| && e <= |s|
    && Scan(s, i, q) == (arg + Scan(s, e, UNQUOTED).0, Scan(s, e, UNQUOTED).1)
  }

  lemma YieldsNothing(s: string, i: nat)
    requires i <= |s|
    ensures Yields(s, i, UNQUOTED, "", i)
  {
    assert "" + Scan(s, i, UNQUOTED).0 == Scan(s, i, UNQUOTED).0;
  }

  lemma YieldsAtEnd(s: string, q: Quoting)
    ensures Yields(s, |s|, q, "", |s|)
  {
    assert "" + "" == "";
  }

  /** A character that is written, and one that is not. */
  lemma WritesOne(s: string, i: nat, q: Quoting, q': Quoting, arg: string, e: nat)
    requires i < |s| && !EndsArgument(q, s[i]) && q' == NextQuoting(q, s[i], CharAt(s, i + 1))
    requires Writes(q, s[i], CharAt(s, i + 1)) && Yields(s, i + 1, q', arg, e)
    ensures Yields(s, i, q, [s[i]] + arg, e)
  {
    assert [s[i]] + (arg + Scan(s, e, UNQUOTED).0) == ([s[i]] + arg) + Scan(s, e, UNQUOTED).0;
  }

  lemma WritesNone(s: string, i: nat, q: Quoting, q': Quoting, arg: string, e: nat)
    requires i < |s| && !EndsArgument(q, s[i]) && q' == NextQuoting(q, s[i], CharAt(s, i + 1))
    requires !Writes(q, s[i], CharAt(s, i + 1)) && Yields(s, i + 1, q', arg, e)
    ensures Yields(s, i, q, arg, e)
  {
  }

  /** Everything up to the next single quote. */
  lemma {:induction false} ScanSingle(s: string, i: nat, text: string, closed: bool, n: nat)
    requires n <= |text| && '\'' !in text && i + |text| <= |s|
    requires forall k :: 0 <= k < |text| ==> s[i + k] == text[k]
    requires if closed then i + |text| < |s| && s[i + |text|] == '\'' else i + |text| == |s|
    ensures Yields(s, i + n, SINGLE, text[n..], i + |text| + if closed then 1 else 0)
    decreases |text| - n
  {
    hide Yields;
    var e := i + |text| + if closed then 1 else 0;
    if n < |text| {
      ScanSingle(s, i, text, closed, n + 1);
      assert s[i + n] == text[n] && text[n] in text;
      WritesOne(s, i + n, SINGLE, SINGLE, text[n + 1..], e);
      assert [text[n]] + text[n + 1..] == text[n..];
    } else {
      assert text[n..] == "";
      if closed {
        YieldsNothing(s, e);
        WritesNone(s, i + n, SINGLE, UNQUOTED, "", e);
      } else {
        YieldsAtEnd(s, SINGLE);
      }
    }
  }

  lemma HoldsHere(s: string, i: nat, w: string)
    requires Holds(s, i, w) && w != ""
    ensures i < |s| && s[i] == w[0]
    ensures CharAt(s, i + 1) == if |w| > 1 then w[1] else CharAt(s, i + 1)
  {
    HoldsAt(s, i, w, 0);
    if |w| > 1 {
      HoldsAt(s, i, w, 1);
    }
  }

  /** The rest of a double-quoted stretch. */
  lemma {:induction false} ScanDouble(s: string, i: nat, parts: seq<InDouble>, k: nat, closed: bool)
    requires k <= |parts| && PartsFit(parts, k, closed)
    requires Holds(s, i, PartsWritten(parts, k, closed))
    requires !closed ==> i + |PartsWritten(parts, k, closed)| == |s|
    ensures Yields(s, i, DOUBLE, PartsMeant(parts, k), i + |PartsWritten(parts, k, closed)|)
    decreases |parts| - k
  {
    hide Yields, Holds;
    var w := PartsWritten(parts, k, closed);
    var e := i + |w|;
    if k == |parts| {
      if closed {
        HoldsHere(s, i, w);
        HoldsInside(s, i, w);
        YieldsNothing(s, e);
        WritesNone(s, i, DOUBLE, UNQUOTED, "", e);
      } else {
        YieldsAtEnd(s, DOUBLE);
      }
    } else {
      var part, more := PartWritten(parts[k]), PartsWritten(parts, k + 1, closed);
      HoldsBoth(s, i, part, more);
      HoldsHere(s, i, w);
      HoldsInside(s, i, w);
      ScanDouble(s, i + |part|, parts, k + 1, closed);
      var arg := PartsMeant(parts, k + 1);
      match parts[k]
      case Raw(c) =>
        BehindRaw(s, i, c, more, closed);
        WritesOne(s, i, DOUBLE, DOUBLE, arg, e);
      case Slashed(c) =>
        HoldsAt(s, i, w, 1);
        WritesOne(s, i + 1, DOUBLE_SLASHED, DOUBLE, arg, e);
        WritesNone(s, i, DOUBLE, DOUBLE_SLASHED, [c] + arg, e);
    }
  }

  lemma HoldsInside(s: string, i: nat, w: string)
    requires Holds(s, i, w)
    ensures i + |w| <= |s|
  {
  }

  /** A backslash between double quotes that is not one for the quotes. */
  lemma BehindRaw(s: string, i: nat, c: char, more: string, closed: bool)
    requires i < |s| && Holds(s, i + 1, more) && (more == "" ==> i + 1 == |s|)
    requires c == '\\' && more != "" ==> more[0] != '"' && more[0] != '\\'
    ensures c == '\\' ==> CharAt(s, i + 1) != '"' && CharAt(s, i + 1) != '\\'
  {
    if more != "" {
      HoldsAt(s, i + 1, more, 0);
    }
  }

  /** From unquoted text, a segment yields what it means and leaves the text unquoted. */
  lemma ScanSegment(s: string, i: nat, seg: Segment)
    requires Fit(seg) && Holds(s, i, Written(seg)) && (Open(seg) ==> i + |Written(seg)| == |s|)
    ensures Yields(s, i, UNQUOTED, Meant(seg), i + |Written(seg)|)
  {
    hide Yields, Holds;
    var w := Written(seg);
    var e := i + |w|;
    HoldsHere(s, i, w);
    HoldsInside(s, i, w);
    match seg
    case Bare(c) =>
      YieldsNothing(s, e);
      WritesOne(s, i, UNQUOTED, UNQUOTED, "", e);
      assert [c] + "" == [c];
    case Escaped(c) =>
      HoldsAt(s, i, w, 1);
      YieldsNothing(s, e);
      WritesOne(s, i + 1, SLASHED, UNQUOTED, "", e);
      assert [c] + "" == [c];
      WritesNone(s, i, UNQUOTED, SLASHED, [c], e);
    case Lone =>
      YieldsAtEnd(s, SLASHED);
      WritesNone(s, i, UNQUOTED, SLASHED, "", e);
    case Single(text, closed) =>
      forall k | 0 <= k < |w|
        ensures s[i + k] == w[k]
      {
        HoldsAt(s, i, w, k);
      }
      assert forall k :: 0 <= k < |text| ==> text[k] == w[k + 1];
      assert forall k :: 0 <= k < |text| ==> s[i + (k + 1)] == text[k];
      if closed {
        assert s[i + (|text| + 1)] == w[|text| + 1];
      }
      ScanSingle(s, i + 1, text, closed, 0);
      assert text[0..] == text;
      WritesNone(s, i, UNQUOTED, SINGLE, text, e);
    case Double(parts, closed) =>
      HoldsBoth(s, i, "\"", PartsWritten(parts, 0, closed));
      ScanDouble(s, i + 1, parts, 0, closed);
      WritesNone(s, i, UNQUOTED, DOUBLE, PartsMeant(parts, 0), e);
  }

  // ----- one word ------------------------------------------------------------------------------------

  lemma YieldsBoth(s: string, i: nat, m: nat, e: nat, first: string, second: string)
    requires Yields(s, i, UNQUOTED, first, m) && Yields(s, m, UNQUOTED, second, e)
    ensures Yields(s, i, UNQUOTED, first + second, e)
  {
    assert first + (second + Scan(s, e, UNQUOTED).0) == (first + second) + Scan(s, e, UNQUOTED).0;
  }

  lemma {:induction false} ScanSegments(s: string, i: nat, segments: seq<Segment>, k: nat, last: bool)
    requires k <= |segments| && SegmentsFit(segments, k, last)
    requires Holds(s, i, SegmentsWritten(segments, k))
    requires last ==> i + |SegmentsWritten(segments, k)| == |s|
    ensures Yields(s, i, UNQUOTED, SegmentsMeant(segments, k), i + |SegmentsWritten(segments, k)|)
    decreases |segments| - k
  {
    hide Yields, Holds, Fit, Open, Written, Meant;
    HoldsInside(s, i, SegmentsWritten(segments, k));
    if k == |segments| {
      YieldsNothing(s, i);
    } else {
      var seg := segments[k];
      var more := SegmentsWritten(segments, k + 1);
      HoldsBoth(s, i, Written(seg), more);
      if Open(seg) {
        assert more == "";
      }
      ScanSegment(s, i, seg);
      ScanSegments(s, i + |Written(seg)|, segments, k + 1, last);
      YieldsBoth(s, i, i + |Written(seg)|, i + |Written(seg)| + |more|, Meant(seg), SegmentsMeant(segments, k + 1));
    }
  }

  /** However an argument is written, it is scanned as what it means, up to the blank behind it or
      the end of the command. */
  lemma ScanWord(s: string, i: nat, word: Word)
    requires SegmentsFit(word.segments, 0, word.gap == "") && AllBlank(word.gap)
    requires Holds(s, i, SegmentsWritten(word.segments, 0) + word.gap)
    requires word.gap == "" ==> i + |SegmentsWritten(word.segments, 0)| == |s|
    ensures Scan(s, i, UNQUOTED) == (SegmentsMeant(word.segments, 0), i + |SegmentsWritten(word.segments, 0)|)
  {
    hide SegmentsWritten, SegmentsMeant, SegmentsFit, Holds, Yields, Scan, AllBlank, Blank;
    var w := SegmentsWritten(word.segments, 0);
    PartsOfHolds(s, i, w, word.gap);
    HoldsInside(s, i, w);
    ScanSegments(s, i, word.segments, 0, word.gap == "");
    if word.gap != "" {
      GapStarts(s, i + |w|, word.gap);
    }
    StopsThere(s, i, SegmentsMeant(word.segments, 0), i + |w|);
  }

  lemma PartsOfHolds(s: string, i: nat, a: string, b: string)
    requires Holds(s, i, a + b)
    ensures Holds(s, i, a) && Holds(s, i + |a|, b)
  {
    HoldsBoth(s, i, a, b);
  }

  lemma GapStarts(s: string, i: nat, gap: string)
    requires Holds(s, i, gap) && gap != "" && AllBlank(gap)
    ensures i < |s| && Blank(s[i])
  {
    HoldsAt(s, i, gap, 0);
  }

  lemma StopsThere(s: string, i: nat, arg: string, e: nat)
    requires Yields(s, i, UNQUOTED, arg, e) && (e < |s| ==> Blank(s[e]))
    ensures Scan(s, i, UNQUOTED) == (arg, e)
  {
    assert arg + "" == arg;
  }

  // ----- a whole command -----------------------------------------------------------------------------

  lemma {:induction false} SkipGap(s: string, i: nat, gap: string, n: nat)
    requires n <= |gap| && AllBlank(gap) && Holds(s, i, gap)
    requires var e := i + |gap|; e < |s| ==> !Blank(s[e])
    ensures SkipSpace(s, i + n) == i + |gap|
    decreases |gap| - n
  {
    if n < |gap| {
      HoldsAt(s, i, gap, n);
      SkipGap(s, i, gap, n + 1);
    }
  }

  /** A word does not start with a blank. */
  lemma WordStarts(segments: seq<Segment>, last: bool)
    requires segments != [] && SegmentsFit(segments, 0, last)
    ensures SegmentsWritten(segments, 0) != "" && !Blank(SegmentsWritten(segments, 0)[0])
  {
    var w := Written(segments[0]);
    assert w != "" && !Blank(w[0]);
    assert SegmentsWritten(segments, 0)[0] == w[0];
  }

  lemma WordsStart(words: seq<Word>, k: nat)
    requires k <= |words| && WordsFit(words, k) && WordsWritten(words, k) != ""
    ensures !Blank(WordsWritten(words, k)[0])
  {
    WordStarts(words[k].segments, words[k].gap == "");
  }

  lemma NoWordsLeft(words: seq<Word>)
    ensures WordsWritten(words, |words|) == ""
  {
  }

  lemma WordsStep(words: seq<Word>, k: nat)
    requires k < |words|
    ensures WordsWritten(words, k)
         == (SegmentsWritten(words[k].segments, 0) + words[k].gap) + WordsWritten(words, k + 1)
  {
    var w, gap, more := SegmentsWritten(words[k].segments, 0), words[k].gap, WordsWritten(words, k + 1);
    assert w + (gap + more) == (w + gap) + more;
  }

  /** Behind the gap the next word starts, or the command ends. */
  lemma BehindGap(s: string, i: nat, gap: string, words: seq<Word>, k: nat)
    requires k <= |words| && WordsFit(words, k) && AllBlank(gap)
    requires Holds(s, i, gap) && Rest(s, i + |gap|, WordsWritten(words, k))
    ensures SkipSpace(s, i) == i + |gap|
  {
    var more := WordsWritten(words, k);
    if more != "" {
      HoldsAt(s, i + |gap|, more, 0);
      WordsStart(words, k);
    }
    hide WordsWritten;
    SkipGap(s, i, gap, 0);
  }

  lemma TokenStep(s: string, i: nat, arg: string, e: nat, next: nat)
    requires i < |s| && SkipSpace(s, i) == i && Scan(s, i, UNQUOTED) == (arg, e) && SkipSpace(s, e) == next
    ensures Tokens(s, i) == [arg] + Tokens(s, next)
  {
    hide Scan, SkipSpace;
  }

  /** A word, the gap behind it and the words behind that, each at its place. */
  lemma WordPlaced(s: string, i: nat, words: seq<Word>, k: nat)
    requires k < |words| && WordsFit(words, k) && Rest(s, i, WordsWritten(words, k))
    ensures var w, gap := SegmentsWritten(words[k].segments, 0), words[k].gap;
            && Holds(s, i, w + gap) && Holds(s, i, w) && Holds(s, i + |w|, gap)
            && Rest(s, i + |w| + |gap|, WordsWritten(words, k + 1))
            && (gap == "" ==> i + |w| == |s|)
  {
    hide WordsWritten, SegmentsWritten, SegmentsFit, Holds, Rest, AllBlank;
    var w, gap, more := SegmentsWritten(words[k].segments, 0), words[k].gap, WordsWritten(words, k + 1);
    WordsStep(words, k);
    RestBoth(s, i, w + gap, more);
    PartsOfHolds(s, i, w, gap);
    assert |w + gap| == |w| + |gap|;
    if gap == "" {
      assert k + 1 == |words|;
      NoWordsLeft(words);
    }
  }

  lemma WordFits(words: seq<Word>, k: nat)
    requires k < |words| && WordsFit(words, k)
    ensures WordsFit(words, k + 1) && AllBlank(words[k].gap)
    ensures words[k].segments != [] && SegmentsFit(words[k].segments, 0, words[k].gap == "")
  {
    hide SegmentsFit, AllBlank;
  }

  lemma StartsHere(s: string, i: nat, segments: seq<Segment>, last: bool)
    requires segments != [] && SegmentsFit(segments, 0, last) && Holds(s, i, SegmentsWritten(segments, 0))
    ensures i < |s| && SkipSpace(s, i) == i
  {
    hide SegmentsWritten, SegmentsFit, Holds;
    WordStarts(segments, last);
    HoldsHere(s, i, SegmentsWritten(segments, 0));
    NotSkipped(s, i);
  }

  /** The word at `i`, the gap behind it, and where the next word starts. */
  lemma OneWord(s: string, i: nat, words: seq<Word>, k: nat) returns (e: nat, next: nat)
    requires k < |words| && WordsFit(words, k) && Rest(s, i, WordsWritten(words, k))
    ensures i < |s| && SkipSpace(s, i) == i
    ensures Scan(s, i, UNQUOTED) == (SegmentsMeant(words[k].segments, 0), e)
    ensures SkipSpace(s, e) == next && Rest(s, next, WordsWritten(words, k + 1))
  {
    hide WordsWritten, SegmentsWritten, SegmentsMeant, SegmentsFit, WordsFit, Holds, Rest, AllBlank, Scan, SkipSpace;
    var word := words[k];
    e := i + |SegmentsWritten(word.segments, 0)|;
    next := e + |word.gap|;
    WordPlaced(s, i, words, k);
    WordFits(words, k);
    StartsHere(s, i, word.segments, word.gap == "");
    ScanWord(s, i, word);
    BehindGap(s, e, word.gap, words, k + 1);
  }

  lemma {:induction false} TokensOfWords(s: string, i: nat, words: seq<Word>, k: nat)
    requires k <= |words| && WordsFit(words, k) && Rest(s, i, WordsWritten(words, k))
    ensures Tokens(s, i) == WordsMeant(words, k)
    decreases |words| - k
  {
    if k < |words| {
      hide WordsWritten, SegmentsMeant, SegmentsFit, Rest, Tokens, Scan, SkipSpace;
      var e, next := OneWord(s, i, words, k);
      TokenStep(s, i, SegmentsMeant(words[k].segments, 0), e, next);
      TokensOfWords(s, next, words, k + 1);
    } else {
      NoWordsLeft(words);
    }
  }

  lemma NotSkipped(s: string, i: nat)
    requires i < |s| && !Blank(s[i])
    ensures SkipSpace(s, i) == i
  {
  }

  /** A command is split at its blanks, wherever no quote or backslash takes them; every argument is
      what its segments mean, one after the other. */
  lemma TokensOfCommand(lead: string, words: seq<Word>)
    requires AllBlank(lead) && words != [] && WordsFit(words, 0)
    ensures Tokens(lead + WordsWritten(words, 0), 0) == WordsMeant(words, 0)
  {
    var body := WordsWritten(words, 0);
    var s := lead + body;
    assert s[0..|s|] == s;
    HoldsBoth(s, 0, lead, body);
    BehindGap(s, 0, lead, words, 0);
    TokensOfWords(s, |lead|, words, 0);
    WordsStep(words, 0);
    WordStarts(words[0].segments, words[0].gap == "");
    LeadIsSkipped(s, |lead|);
  }

  /** Blanks in front make no difference. */
  lemma LeadIsSkipped(s: string, i: nat)
    requires SkipSpace(s, 0) == i < |s|
    ensures Tokens(s, 0) == Tokens(s, i)
  {
    assert SkipSpace(s, i) == i;
  }

  /** A command of nothing but blanks gives one empty argument. */
  lemma TokensOfBlanks(lead: string)
    requires AllBlank(lead) && lead != ""
    ensures Tokens(lead, 0) == [""]
  {
    assert lead[0..|lead|] == lead;
    SkipGap(lead, 0, lead, 0);
    assert SkipSpace(lead, |lead|) == |lead|;
  }

  // ----- every command is written so -------------------------------------------------------------------

  lemma {:induction false} PartsShift(part: InDouble, parts: seq<InDouble>, k: nat, closed: bool)
    requires k <= |parts|
    ensures PartsWritten([part] + parts, k + 1, closed) == PartsWritten(parts, k, closed)
    ensures PartsFit([part] + parts, k + 1, closed) == PartsFit(parts, k, closed)
    decreases |parts| - k
  {
    hide PartWritten, PartsWritten;
    var all := [part] + parts;
    if k < |parts| {
      PartsStep(all, k + 1, closed);
      PartsStep(parts, k, closed);
      PartsShift(part, parts, k + 1, closed);
      assert all[k + 1] == parts[k];
      assert PartsWritten(all, k + 1, closed) == PartWritten(parts[k]) + PartsWritten(parts, k + 1, closed);
    } else {
      NoPartsLeft(all, closed);
      NoPartsLeft(parts, closed);
    }
  }

  lemma PartsStep(parts: seq<InDouble>, k: nat, closed: bool)
    requires k < |parts|
    ensures PartsWritten(parts, k, closed) == PartWritten(parts[k]) + PartsWritten(parts, k + 1, closed)
  {
  }

  lemma NoPartsLeft(parts: seq<InDouble>, closed: bool)
    ensures PartsWritten(parts, |parts|, closed) == if closed then "\"" else ""
  {
  }

  lemma HoldsCons(s: string, i: nat, a: string, b: string)
    requires Holds(s, i, a) && Holds(s, i + |a|, b)
    ensures Holds(s, i, a + b)
  {
  }

  /** What stands in a double-quoted stretch from `i` on. */
  lemma {:induction false} ReadParts(s: string, i: nat) returns (parts: seq<InDouble>, closed: bool)
    requires i <= |s|
    ensures PartsFit(parts, 0, closed) && Holds(s, i, PartsWritten(parts, 0, closed))
    ensures !closed ==> i + |PartsWritten(parts, 0, closed)| == |s|
    decreases |s| - i
  {
    if i == |s| {
      parts, closed := [], false;
    } else if s[i] == '"' {
      parts, closed := [], true;
    } else {
      var part := if s[i] == '\\' && i + 1 < |s| && (s[i + 1] == '"' || s[i + 1] == '\\')
                  then Slashed(s[i + 1]) else Raw(s[i]);
      assert s[i..i + |PartWritten(part)|] == PartWritten(part);
      var rest;
      rest, closed := ReadParts(s, i + |PartWritten(part)|);
      parts := [part] + rest;
      PartsCons(s, i, part, rest, closed);
    }
  }

  lemma PartsCons(s: string, i: nat, part: InDouble, rest: seq<InDouble>, closed: bool)
    requires Holds(s, i, PartWritten(part)) && PartsFit(rest, 0, closed)
    requires Holds(s, i + |PartWritten(part)|, PartsWritten(rest, 0, closed))
    requires match part
             case Raw(c) => c != '"' && (c == '\\' && i + 1 < |s| ==> s[i + 1] != '"' && s[i + 1] != '\\')
             case Slashed(c) => c == '"' || c == '\\'
    ensures PartsFit([part] + rest, 0, closed)
    ensures PartsWritten([part] + rest, 0, closed) == PartWritten(part) + PartsWritten(rest, 0, closed)
    ensures Holds(s, i, PartsWritten([part] + rest, 0, closed))
  {
    var more := PartsWritten(rest, 0, closed);
    PartsShift(part, rest, 0, closed);
    HoldsCons(s, i, PartWritten(part), more);
    if more != "" {
      HoldsAt(s, i + |PartWritten(part)|, more, 0);
    }
  }

  function NextQuote(s: string, i: nat): (e: nat)
    requires i <= |s|
    ensures i <= e <= |s| && '\'' !in s[i..e] && (e < |s| ==> s[e] == '\'')
    decreases |s| - i
  {
    if i == |s| || s[i] == '\'' then i
    else
      var e := NextQuote(s, i + 1);
      assert s[i..e] == [s[i]] + s[i + 1..e];
      e
  }

  lemma ReadSingle(s: string, i: nat) returns (seg: Segment)
    requires i < |s| && s[i] == '\''
    ensures Fit(seg) && Holds(s, i, Written(seg)) && Written(seg) != ""
    ensures Open(seg) ==> i + |Written(seg)| == |s|
  {
    var e := NextQuote(s, i + 1);
    var text := s[i + 1..e];
    seg := Single(text, e < |s|);
    hide NextQuote;
    if e < |s| {
      assert s[i..e + 1] == "'" + text + "'";
    } else {
      assert s[i..e] == "'" + text + "";
    }
  }

  lemma ReadDouble(s: string, i: nat) returns (seg: Segment)
    requires i < |s| && s[i] == '"'
    ensures Fit(seg) && Holds(s, i, Written(seg)) && Written(seg) != ""
    ensures Open(seg) ==> i + |Written(seg)| == |s|
  {
    hide PartsFit, PartsWritten;
    var parts, closed := ReadParts(s, i + 1);
    seg := Double(parts, closed);
    assert Holds(s, i, "\"");
    HoldsCons(s, i, "\"", PartsWritten(parts, 0, closed));
  }

  /** The segment that starts at `i`. */
  lemma ReadSegment(s: string, i: nat) returns (seg: Segment)
    requires i < |s| && !Blank(s[i])
    ensures Fit(seg) && Holds(s, i, Written(seg)) && Written(seg) != ""
    ensures Open(seg) ==> i + |Written(seg)| == |s|
  {
    hide PartsFit, PartsWritten;
    if s[i] == '\\' {
      seg := if i + 1 < |s| then Escaped(s[i + 1]) else Lone;
    } else if s[i] == '\'' {
      seg := ReadSingle(s, i);
    } else if s[i] == '"' {
      seg := ReadDouble(s, i);
    } else {
      seg := Bare(s[i]);
    }
  }

  lemma {:induction false} SegmentsShift(seg: Segment, segments: seq<Segment>, k: nat)
    requires k <= |segments|
    ensures SegmentsWritten([seg] + segments, k + 1) == SegmentsWritten(segments, k)
    decreases |segments| - k
  {
    hide Written, SegmentsWritten;
    var all := [seg] + segments;
    if k < |segments| {
      SegmentsStep(all, k + 1);
      SegmentsStep(segments, k);
      SegmentsShift(seg, segments, k + 1);
      assert all[k + 1] == segments[k];
      assert SegmentsWritten(all, k + 1) == Written(segments[k]) + SegmentsWritten(segments, k + 1);
    } else {
      NoSegmentsLeft(all);
      NoSegmentsLeft(segments);
    }
  }

  lemma SegmentsStep(segments: seq<Segment>, k: nat)
    requires k < |segments|
    ensures SegmentsWritten(segments, k) == Written(segments[k]) + SegmentsWritten(segments, k + 1)
  {
  }

  lemma NoSegmentsLeft(segments: seq<Segment>)
    ensures SegmentsWritten(segments, |segments|) == ""
  {
  }

  lemma SomethingWritten(segments: seq<Segment>)
    requires segments != []
    ensures SegmentsWritten(segments, 0) != ""
  {
    assert Written(segments[0]) != "";
  }

  lemma SegmentsCons(s: string, i: nat, seg: Segment, rest: seq<Segment>, last: bool)
    requires Fit(seg) && SegmentsFit(rest, 0, last) && (Open(seg) ==> last && rest == [])
    requires Holds(s, i, Written(seg)) && Holds(s, i + |Written(seg)|, SegmentsWritten(rest, 0))
    ensures SegmentsFit([seg] + rest, 0, last)
    ensures SegmentsWritten([seg] + rest, 0) == Written(seg) + SegmentsWritten(rest, 0)
    ensures Holds(s, i, SegmentsWritten([seg] + rest, 0))
  {
    hide Fit, Open, Written;
    SegmentsShift(seg, rest, 0);
    HoldsCons(s, i, Written(seg), SegmentsWritten(rest, 0));
    forall k | 0 <= k < |[seg] + rest|
      ensures Fit(([seg] + rest)[k]) && (Open(([seg] + rest)[k]) ==> last && k == |rest|)
    {
      if k > 0 {
        assert ([seg] + rest)[k] == rest[k - 1];
      }
    }
  }

  /** The segments from `i` on, up to a blank or the end. */
  lemma {:induction false} ReadSegments(s: string, i: nat) returns (segments: seq<Segment>, e: nat)
    requires i <= |s|
    ensures e == i + |SegmentsWritten(segments, 0)| <= |s| && (e < |s| ==> Blank(s[e]))
    ensures SegmentsFit(segments, 0, e == |s|) && Holds(s, i, SegmentsWritten(segments, 0))
    ensures i < |s| && !Blank(s[i]) ==> segments != []
    decreases |s| - i
  {
    if i == |s| || Blank(s[i]) {
      segments, e := [], i;
    } else {
      hide Fit, Open, Written, Holds, SegmentsFit, Blank;
      var seg := ReadSegment(s, i);
      HoldsInside(s, i, Written(seg));
      var rest;
      rest, e := ReadSegments(s, i + |Written(seg)|);
      if Open(seg) {
        NothingWritten(s, i + |Written(seg)|, rest);
      }
      SegmentsCons(s, i, seg, rest, e == |s|);
      segments := [seg] + rest;
    }
  }

  /** At the end of the command there is no segment any more. */
  lemma NothingWritten(s: string, i: nat, segments: seq<Segment>)
    requires i == |s| && Holds(s, i, SegmentsWritten(segments, 0))
    ensures segments == []
  {
    if segments != [] {
      SomethingWritten(segments);
    }
  }

  lemma {:induction false} WordsShift(word: Word, words: seq<Word>, k: nat)
    requires k <= |words|
    ensures WordsWritten([word] + words, k + 1) == WordsWritten(words, k)
    decreases |words| - k
  {
    hide SegmentsWritten, WordsWritten;
    var all := [word] + words;
    if k < |words| {
      WordsStep(all, k + 1);
      WordsStep(words, k);
      WordsShift(word, words, k + 1);
      assert all[k + 1] == words[k];
      assert WordsWritten(all, k + 1)
          == (SegmentsWritten(words[k].segments, 0) + words[k].gap) + WordsWritten(words, k + 1);
    } else {
      NoWordsLeft(all);
      NoWordsLeft(words);
    }
  }

  lemma WordsCons(word: Word, words: seq<Word>)
    requires WordsFit(words, 0) && word.segments != [] && AllBlank(word.gap)
    requires SegmentsFit(word.segments, 0, word.gap == "") && (word.gap == "" ==> words == [])
    ensures WordsFit([word] + words, 0)
    ensures WordsWritten([word] + words, 0)
         == (SegmentsWritten(word.segments, 0) + word.gap) + WordsWritten(words, 0)
  {
    hide SegmentsFit, SegmentsWritten, AllBlank;
    var all := [word] + words;
    WordsShift(word, words, 0);
    WordsStep(all, 0);
    forall i | 0 <= i < |all|
      ensures all[i].segments != [] && AllBlank(all[i].gap) && (all[i].gap == "" ==> i == |all| - 1)
      ensures SegmentsFit(all[i].segments, 0, all[i].gap == "")
    {
      if i > 0 {
        assert all[i] == words[i - 1];
      }
    }
  }

  lemma {:induction false} GapHolds(s: string, i: nat)
    requires i <= |s|
    ensures AllBlank(s[i..SkipSpace(s, i)])
    decreases |s| - i
  {
    if i < |s| && IsSpace(s[i]) {
      GapHolds(s, i + 1);
      assert s[i..SkipSpace(s, i)] == [s[i]] + s[i + 1..SkipSpace(s, i + 1)];
    }
  }

  lemma ReadGap(s: string, e: nat) returns (next: nat)
    requires e <= |s| && (e < |s| ==> Blank(s[e]))
    ensures e <= next <= |s| && (next < |s| ==> !Blank(s[next])) && AllBlank(s[e..next])
    ensures s[e..next] == "" <==> e == |s|
  {
    next := SkipSpace(s, e);
    GapHolds(s, e);
  }

  lemma ThreeParts(s: string, i: nat, e: nat, next: nat)
    requires i <= e <= next <= |s|
    ensures s[i..] == (s[i..e] + s[e..next]) + s[next..]
  {
  }

  /** The words of a command from `i` on. */
  lemma {:induction false} ReadWords(s: string, i: nat) returns (words: seq<Word>)
    requires i <= |s| && (i < |s| ==> !Blank(s[i]))
    ensures WordsFit(words, 0) && s[i..] == WordsWritten(words, 0)
    decreases |s| - i
  {
    if i == |s| {
      words := [];
    } else {
      hide SegmentsFit, SegmentsWritten, AllBlank, WordsFit, Holds, SkipSpace, WordsWritten, Blank;
      var segments, e := ReadSegments(s, i);
      WrittenHere(s, i, segments, e);
      var next := ReadGap(s, e);
      var rest := ReadWords(s, next);
      var word := Word(segments, s[e..next]);
      if e == |s| {
        NoWordsAtEnd(s, rest);
      }
      WordsCons(word, rest);
      words := [word] + rest;
      ThreeParts(s, i, e, next);
    }
  }

  lemma WrittenHere(s: string, i: nat, segments: seq<Segment>, e: nat)
    requires Holds(s, i, SegmentsWritten(segments, 0)) && e == i + |SegmentsWritten(segments, 0)|
    requires segments != []
    ensures i < e <= |s| && s[i..e] == SegmentsWritten(segments, 0)
  {
    assert Written(segments[0]) != "";
  }

  lemma NoWordsAtEnd(s: string, words: seq<Word>)
    requires WordsFit(words, 0) && s[|s|..] == WordsWritten(words, 0)
    ensures words == []
  {
    if words != [] {
      WordsStep(words, 0);
      WordStarts(words[0].segments, words[0].gap == "");
    }
  }

  /** There is no command that is not written so, and so none whose arguments `TokensOfCommand` or
      `TokensOfBlanks` would not tell. */
  lemma EveryCommandIsWritten(s: string) returns (lead: string, words: seq<Word>)
    ensures AllBlank(lead) && WordsFit(words, 0) && s == lead + WordsWritten(words, 0)
    ensures Tokens(s, 0) == if words != [] then WordsMeant(words, 0) else if s != "" then [""] else []
  {
    var start := SkipSpace(s, 0);
    GapHolds(s, 0);
    lead := s[0..start];
    words := ReadWords(s, start);
    assert s == lead + s[start..];
    if words != [] {
      TokensOfCommand(lead, words);
    } else {
      NoWordsLeft(words);
      if s != "" {
        assert s == lead;
        TokensOfBlanks(lead);
      }
    }
  }
}
