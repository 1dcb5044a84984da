/** One open directory, read entry by entry: `UnixDirIterator.cpp` and the loop of `next`. */
module DirStream {
  import opened Wrappers

  /** An open directory: the names in the order the system returns them, how many have been read,
      and how often it was closed. `dots` is what its iterators were opened with. */
  datatype Stream = Stream(entries: seq<string>, dots: bool, pos: nat, closes: nat)

  /** The record iterators share. */
  datatype Record =
    Record(refs: int, valid: bool, last: bool, dots: bool, lastName: Option<string>,
           dir: Option<nat>, dirent: Option<string>)

  /** `.` and `..` are shown only to iterators that asked for them. */
  predicate Shown(name: string, dots: bool) {
    dots || !(|name| > 0 && name[0] == '.' && (|name| == 1 || (name[1] == '.' && |name| == 2)))
  }

  lemma ShownExactly(name: string, dots: bool)
    ensures Shown(name, dots) <==> dots || (name != "." && name != "..")
  {
  }

  /** The shown names among the first `p`. */
  function ShownUpTo(entries: seq<string>, dots: bool, p: nat): seq<string>
    requires p <= |entries|
  {
    if p == 0 then []
    else ShownUpTo(entries, dots, p - 1) + if Shown(entries[p - 1], dots) then [entries[p - 1]] else []
  }

  /** What a client gets to see of a directory. */
  function Visible(stream: Stream): seq<string> {
    ShownUpTo(stream.entries, stream.dots, |stream.entries|)
  }

  /** All names in their order, or those other than `.` and `..`. */
  function WithoutDots(names: seq<string>): seq<string> {
    if names == [] then []
    else WithoutDots(names[..|names| - 1])
         + if names[|names| - 1] == "." || names[|names| - 1] == ".." then [] else [names[|names| - 1]]
  }

  /** What clients see: the whole listing if they asked for it, and else the one without the two. */
  lemma {:induction false} VisibleIs(entries: seq<string>, dots: bool, p: nat)
    requires p <= |entries|
    ensures ShownUpTo(entries, dots, p) == if dots then entries[..p] else WithoutDots(entries[..p])
    decreases p
  {
    if p > 0 {
      VisibleIs(entries, dots, p - 1);
      ShownExactly(entries[p - 1], dots);
      hide Shown;
      assert entries[..p] == entries[..p - 1] + [entries[p - 1]];
      assert entries[..p][..p - 1] == entries[..p - 1];
    }
  }

  lemma {:induction false} ShownIsPrefix(entries: seq<string>, dots: bool, p: nat, q: nat)
    requires p <= q <= |entries|
    ensures ShownUpTo(entries, dots, p) <= ShownUpTo(entries, dots, q)
    decreases q
  {
    if p < q {
      ShownIsPrefix(entries, dots, p, q - 1);
    }
  }

  /** The next entry to stop at. */
  function Seek(entries: seq<string>, dots: bool, p: nat): (q: nat)
    requires p <= |entries|
    ensures p <= q <= |entries|
    ensures q < |entries| ==> Shown(entries[q], dots)
    decreases |entries| - p
  {
    if p < |entries| && !Shown(entries[p], dots) then Seek(entries, dots, p + 1) else p
  }

  lemma {:induction false} SeekSkipsHidden(entries: seq<string>, dots: bool, p: nat)
    requires p <= |entries|
    ensures ShownUpTo(entries, dots, Seek(entries, dots, p)) == ShownUpTo(entries, dots, p)
    decreases |entries| - p
  {
    if p < |entries| && !Shown(entries[p], dots) {
      SeekSkipsHidden(entries, dots, p + 1);
    }
  }

  /** `next` on a record that nobody else shares. */
  function Step(rec: Record, stream: Stream): (Record, Stream)
    requires stream.pos <= |stream.entries|
  {
    var q := Seek(stream.entries, rec.dots, stream.pos);
    if q < |stream.entries| then
      (rec.(dirent := Some(stream.entries[q])), stream.(pos := q + 1))
    else
      (rec.(dirent := None, last := true), stream.(pos := q))
  }

  /** The record has its stream stand on the `k`-th visible entry, or past the last one. */
  predicate Current(rec: Record, stream: Stream, k: nat) {
    var n := |Visible(stream)|;
    && stream.pos <= |stream.entries| && k <= n
    && (rec.last <==> k == n)
    && |ShownUpTo(stream.entries, stream.dots, stream.pos)| == (if k < n then k + 1 else n)
    && (k == n ==> rec.dirent == None)
    && (k < n ==> rec.dirent == Some(Visible(stream)[k]))
  }

  /** Stepping moves on by exactly one visible entry. */
  lemma StepMoves(rec: Record, stream: Stream, k: nat)
    requires stream.pos <= |stream.entries| && rec.dots == stream.dots && !rec.last
    requires |ShownUpTo(stream.entries, stream.dots, stream.pos)| == k
    ensures Current(Step(rec, stream).0, Step(rec, stream).1, k)
    ensures Step(rec, stream).0.last ==> Step(rec, stream).1.pos == |stream.entries|
  {
    hide Shown;
    var (entries, dots) := (stream.entries, stream.dots);
    var q := Seek(entries, dots, stream.pos);
    SeekSkipsHidden(entries, dots, stream.pos);
    ShownIsPrefix(entries, dots, q, |entries|);
    if q < |entries| {
      var upTo := ShownUpTo(entries, dots, q + 1);
      assert upTo == ShownUpTo(entries, dots, q) + [entries[q]];
      ShownIsPrefix(entries, dots, q + 1, |entries|);
      assert upTo[k] == entries[q];
    }
  }

  /** `sysnext`: reads one entry; tells whether to skip it. */
  method ReadEntry(rec: Record, stream: Stream) returns (rec': Record, stream': Stream, skip: bool)
    requires stream.pos <= |stream.entries|
    ensures stream.pos == |stream.entries| ==>
              !skip && rec' == rec.(dirent := None, last := true) && stream' == stream
    ensures stream.pos < |stream.entries| ==>
              var name := stream.entries[stream.pos];
              && rec' == rec.(dirent := Some(name)) && stream' == stream.(pos := stream.pos + 1)
              && skip == !Shown(name, rec.dots) == (!rec.dots && (name == "." || name == ".."))
  {
    if stream.pos == |stream.entries| {
      rec', stream', skip := rec.(dirent := None, last := true), stream, false;
    } else {
      var name := stream.entries[stream.pos];
      rec', stream' := rec.(dirent := Some(name)), stream.(pos := stream.pos + 1);
      ShownExactly(name, rec.dots);
      skip := !rec.dots && name != [] && name[0] == '.' && (|name| == 1 || (name[1] == '.' && |name| == 2));
    }
  }

  /** The loop of `next`. */
  method ReadShown(rec: Record, stream: Stream) returns (rec': Record, stream': Stream)
    requires stream.pos <= |stream.entries| && !rec.last
    ensures (rec', stream') == Step(rec, stream)
  {
    hide Shown;
    var skip;
    rec', stream', skip := ReadEntry(rec, stream);
    while !rec'.last && skip
      invariant stream'.pos <= |stream.entries| && stream' == stream.(pos := stream'.pos)
      invariant !rec'.last && skip ==>
                  && rec' == rec.(dirent := rec'.dirent)
                  && Seek(stream.entries, rec.dots, stream'.pos) == Seek(stream.entries, rec.dots, stream.pos)
      invariant rec'.last || !skip ==> (rec', stream') == Step(rec, stream)
      decreases |stream.entries| - stream'.pos, skip && !rec'.last
    {
      rec', stream', skip := ReadEntry(rec', stream');
    }
  }
}
