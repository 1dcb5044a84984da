/** `DirIterator`: iterators that share records by reference count, and one stream per directory. */
module DirIterators {
  import opened DirStream
  import opened Wrappers

  /** All live iterators with the addresses of their records, the records, and every directory ever
      opened. */
  datatype Store = Store(iters: map<nat, nat>, recs: map<nat, Record>, streams: map<nat, Stream>)

  /** Where an iterator stands: past the end of nothing, on nothing at all, or on the `k`-th visible
      entry of a directory (past the last one if there is no such entry). */
  datatype Cursor = End | Nowhere(origin: nat) | At(dir: nat, k: nat)

  // ----- the pieces of the operations --------------------------------------------------------------

  /** A record gets one more user. */
  function Retain(st: Store, r: nat): Store
    requires r in st.recs
  {
    st.(recs := st.recs[r := st.recs[r].(refs := st.recs[r].refs + 1)])
  }

  function Closed(streams: map<nat, Stream>, rec: Record): map<nat, Stream>
    requires rec.valid && rec.dir.Some? ==> rec.dir.value in streams
  {
    if rec.valid && rec.dir.Some? then
      streams[rec.dir.value := streams[rec.dir.value].(closes := streams[rec.dir.value].closes + 1)]
    else streams
  }

  predicate CanRelease(st: Store, it: nat) {
    && it in st.iters && st.iters[it] in st.recs
    && var rec := st.recs[st.iters[it]];
       rec.valid && rec.dir.Some? ==> rec.dir.value in st.streams
  }

  /** An iterator lets go of its record; the last one closes and deletes it. */
  function LetGo(st: Store, it: nat): Store
    requires CanRelease(st, it)
  {
    var r := st.iters[it];
    var rec := st.recs[r];
    if rec.refs - 1 == 0 then Store(st.iters - {it}, st.recs - {r}, Closed(st.streams, rec))
    else Store(st.iters - {it}, st.recs[r := rec.(refs := rec.refs - 1)], st.streams)
  }

  function Bind(st: Store, it: nat, r: nat): Store {
    st.(iters := st.iters[it := r])
  }

  /** What an iterator's record says it points to. */
  function Deref(rec: Record): Option<string> {
    if rec.valid then rec.dirent else rec.lastName
  }

  /** The iterator about to advance gets a record of its own, at `addr`; the record the
      others keep remembers the current name and can be advanced no more. */
  function Steal(st: Store, it: nat, addr: nat): Store
    requires it in st.iters && st.iters[it] in st.recs
  {
    var r := st.iters[it];
    var rec := st.recs[r];
    if rec.refs > 1 then
      Store(st.iters[it := addr],
            st.recs[r := rec.(lastName := Deref(rec), valid := false, refs := rec.refs - 1)][addr := rec.(refs := 1)],
            st.streams)
    else st
  }

  predicate CanRead(st: Store, r: nat) {
    && r in st.recs && st.recs[r].dir.Some? && st.recs[r].dir.value in st.streams
    && st.streams[st.recs[r].dir.value].pos <= |st.streams[st.recs[r].dir.value].entries|
  }

  /** The record at `r` reads on to the next visible entry. */
  function Read(st: Store, r: nat): Store
    requires CanRead(st, r)
  {
    var h := st.recs[r].dir.value;
    var (rec, stream) := Step(st.recs[r], st.streams[h]);
    st.(recs := st.recs[r := rec], streams := st.streams[h := stream])
  }

  // ----- what holds of every store -----------------------------------------------------------------

  function Sharers(iters: map<nat, nat>, r: nat): set<nat> {
    set it | it in iters && iters[it] == r
  }

  /** References held: by iterators, and by an operation under way. */
  function Uses(iters: map<nat, nat>, pending: Option<nat>, r: nat): nat {
    |Sharers(iters, r)| + if pending == Some(r) then 1 else 0
  }

  /** Every record counts exactly its users, and has one. */
  ghost predicate Counted(st: Store, pending: Option<nat>) {
    && (forall it :: it in st.iters ==> st.iters[it] in st.recs)
    && (pending.Some? ==> pending.value in st.recs)
    && (forall r :: r in st.recs ==> st.recs[r].refs == Uses(st.iters, pending, r) > 0)
  }

  /** A record shows the entry of its cursor, from the stream or from memory. */
  predicate Shows(rec: Record, r: nat, cursor: Cursor, streams: map<nat, Stream>) {
    match cursor
    case End => rec.valid && rec.last && rec.dir == None && rec.dirent == None
    case Nowhere(origin) => origin == r && rec.valid && !rec.last && rec.dir == None && rec.dirent == None
    case At(h, k) =>
      && rec.dir == Some(h) && h in streams && rec.dots == streams[h].dots
      && if rec.valid then Current(rec, streams[h], k)
         else !rec.last && k < |Visible(streams[h])| && rec.lastName == Some(Visible(streams[h])[k])
  }

  ghost predicate AllShow(st: Store, at: map<nat, Cursor>) {
    at.Keys == st.recs.Keys && forall r :: r in st.recs ==> Shows(st.recs[r], r, at[r], st.streams)
  }

  /** Of the records of one directory at most one can still be advanced, and it is ahead of all
      others, which are at different entries. */
  ghost predicate Ordered(st: Store, at: map<nat, Cursor>)
    requires at.Keys == st.recs.Keys
  {
    forall r, s :: r in st.recs && s in st.recs && r != s && at[r].At? && at[s].At? && at[r].dir == at[s].dir ==>
      at[r].k != at[s].k && (st.recs[r].valid ==> at[s].k < at[r].k)
  }

  predicate Holds(rec: Record, h: nat) {
    rec.valid && rec.dir == Some(h)
  }

  /** A directory is open while a record can still be advanced in it, and was closed once after. */
  ghost predicate ClosedOnce(st: Store) {
    forall h :: h in st.streams ==>
      st.streams[h].closes == (if exists r :: r in st.recs && Holds(st.recs[r], h) then 0 else 1)
  }

  ghost predicate Valid(st: Store, at: map<nat, Cursor>, pending: Option<nat>) {
    Counted(st, pending) && AllShow(st, at) && Ordered(st, at) && ClosedOnce(st)
  }

  /** Each iterator's own position. */
  function View(st: Store, at: map<nat, Cursor>): map<nat, Cursor>
    requires forall it :: it in st.iters ==> st.iters[it] in at
  {
    map it | it in st.iters :: at[st.iters[it]]
  }

  // ----- counting ------------------------------------------------------------------------------------

  lemma BindAddsUse(iters: map<nat, nat>, it: nat, r: nat, s: nat)
    requires it !in iters
    ensures Uses(iters[it := r], None, s) == Uses(iters, Some(r), s)
  {
    var before := Sharers(iters, s);
    assert Sharers(iters[it := r], s) == if s == r then before + {it} else before;
  }

  lemma ReleaseDropsUse(iters: map<nat, nat>, it: nat, pending: Option<nat>, s: nat)
    requires it in iters
    ensures Uses(iters - {it}, pending, s) == Uses(iters, pending, s) - if iters[it] == s then 1 else 0
  {
    var before := Sharers(iters, s);
    assert Sharers(iters - {it}, s) == before - {it};
  }

  /** Records that differ in their counts only. */
  predicate SameButCounts(recs: map<nat, Record>, recs': map<nat, Record>) {
    recs'.Keys == recs.Keys && forall r :: r in recs ==> recs'[r] == recs[r].(refs := recs'[r].refs)
  }

  lemma CountsDoNotShow(st: Store, st': Store, at: map<nat, Cursor>)
    requires AllShow(st, at) && Ordered(st, at) && ClosedOnce(st)
    requires st'.streams == st.streams && SameButCounts(st.recs, st'.recs)
    ensures AllShow(st', at) && Ordered(st', at) && ClosedOnce(st')
  {
    hide Current, Shows;
    forall r | r in st'.recs
      ensures Shows(st'.recs[r], r, at[r], st'.streams)
    {
      CountDoesNotShow(st.recs[r], st'.recs[r].refs, r, at[r], st.streams);
    }
    forall h | h in st.streams
      ensures st'.streams[h].closes == if exists r :: r in st'.recs && Holds(st'.recs[r], h) then 0 else 1
    {
      SameHolders(st.recs, st'.recs, h);
    }
  }

  lemma CountDoesNotShow(rec: Record, refs: int, r: nat, cursor: Cursor, streams: map<nat, Stream>)
    ensures Shows(rec.(refs := refs), r, cursor, streams) == Shows(rec, r, cursor, streams)
  {
  }

  lemma SameHolders(recs: map<nat, Record>, recs': map<nat, Record>, h: nat)
    requires recs.Keys == recs'.Keys
    requires forall r :: r in recs ==> Holds(recs[r], h) == Holds(recs'[r], h)
    ensures (exists s :: s in recs' && Holds(recs'[s], h)) <==> exists s :: s in recs && Holds(recs[s], h)
  {
  }

  lemma SoleHolder(st: Store, at: map<nat, Cursor>, r: nat, s: nat, h: nat)
    requires AllShow(st, at) && Ordered(st, at)
    requires r in st.recs && s in st.recs && Holds(st.recs[r], h) && Holds(st.recs[s], h)
    ensures r == s
  {
    hide Current;
  }

  // ----- retaining, binding, releasing -------------------------------------------------------------

  lemma RetainKeeps(st: Store, at: map<nat, Cursor>, r: nat)
    requires Valid(st, at, None) && r in st.recs
    ensures Valid(Retain(st, r), at, Some(r))
  {
    hide Current, Sharers, Shows, Ordered, ClosedOnce;
    CountsDoNotShow(st, Retain(st, r), at);
  }

  lemma BindKeeps(st: Store, at: map<nat, Cursor>, it: nat, r: nat)
    requires Valid(st, at, Some(r)) && it !in st.iters
    ensures Valid(Bind(st, it, r), at, None)
    ensures View(Bind(st, it, r), at) == View(st, at)[it := at[r]]
  {
    hide Current, Sharers, Uses, Shows;
    var st' := Bind(st, it, r);
    forall s | s in st.recs
      ensures st.recs[s].refs == Uses(st'.iters, None, s)
    {
      BindAddsUse(st.iters, it, r, s);
    }
  }

  /** The cursors that are left when a record may have gone. */
  function Left(st: Store, at: map<nat, Cursor>, it: nat): map<nat, Cursor>
    requires CanRelease(st, it)
  {
    if st.recs[st.iters[it]].refs == 1 then at - {st.iters[it]} else at
  }

  lemma ReleaseCounts(st: Store, it: nat, pending: Option<nat>)
    requires Counted(st, pending) && CanRelease(st, it)
    ensures Counted(LetGo(st, it), pending)
  {
    hide Sharers, Uses;
    var r, st' := st.iters[it], LetGo(st, it);
    forall s | s in st'.recs
      ensures st'.recs[s].refs == Uses(st'.iters, pending, s) > 0
    {
      ReleaseDropsUse(st.iters, it, pending, s);
    }
    if st.recs[r].refs == 1 {
      ReleaseDropsUse(st.iters, it, pending, r);
      NoUse(st'.iters, pending, r);
    }
  }

  lemma NoUse(iters: map<nat, nat>, pending: Option<nat>, r: nat)
    requires Uses(iters, pending, r) == 0
    ensures pending != Some(r) && forall it :: it in iters ==> iters[it] != r
  {
    forall it | it in iters
      ensures iters[it] != r
    {
      assert it !in Sharers(iters, r);
    }
  }

  lemma CanAlwaysRelease(st: Store, at: map<nat, Cursor>, it: nat, pending: Option<nat>)
    requires Valid(st, at, pending) && it in st.iters
    ensures CanRelease(st, it)
  {
    hide Current, Uses;
    assert Shows(st.recs[st.iters[it]], st.iters[it], at[st.iters[it]], st.streams);
  }

  /** Releasing keeps everything, and nobody else's position changes. */
  lemma ReleaseKeeps(st: Store, at: map<nat, Cursor>, it: nat, pending: Option<nat>)
    requires Valid(st, at, pending) && it in st.iters
    ensures CanRelease(st, it)
    ensures Valid(LetGo(st, it), Left(st, at, it), pending)
    ensures View(LetGo(st, it), Left(st, at, it)) == View(st, at) - {it}
  {
    hide Current, Sharers, Uses, Shows, Ordered, ClosedOnce;
    CanAlwaysRelease(st, at, it, pending);
    ReleaseCounts(st, it, pending);
    var r, st' := st.iters[it], LetGo(st, it);
    if st.recs[r].refs == 1 {
      DropShows(st, at, r, st');
      DropClosesOnce(st, at, r, st');
    } else {
      CountsDoNotShow(st, st', at);
    }
  }

  lemma DropShows(st: Store, at: map<nat, Cursor>, r: nat, st': Store)
    requires AllShow(st, at) && Ordered(st, at) && r in st.recs
    requires st.recs[r].valid && st.recs[r].dir.Some? ==> st.recs[r].dir.value in st.streams
    requires st'.recs == st.recs - {r} && st'.streams == Closed(st.streams, st.recs[r])
    ensures AllShow(st', at - {r}) && Ordered(st', at - {r})
  {
    hide Current;
    forall s | s in st'.recs
      ensures Shows(st'.recs[s], s, (at - {r})[s], st'.streams)
    {
      assert Shows(st.recs[s], s, at[s], st.streams);
      ClosingDoesNotShow(st.streams, st.recs[r], st.recs[s], s, at[s]);
    }
  }

  lemma ClosingDoesNotShow(streams: map<nat, Stream>, gone: Record, rec: Record, r: nat, cursor: Cursor)
    requires gone.valid && gone.dir.Some? ==> gone.dir.value in streams
    ensures Shows(rec, r, cursor, Closed(streams, gone)) == Shows(rec, r, cursor, streams)
  {
  }

  lemma DropClosesOnce(st: Store, at: map<nat, Cursor>, r: nat, st': Store)
    requires AllShow(st, at) && Ordered(st, at) && ClosedOnce(st) && r in st.recs
    requires st.recs[r].valid && st.recs[r].dir.Some? ==> st.recs[r].dir.value in st.streams
    requires st'.recs == st.recs - {r} && st'.streams == Closed(st.streams, st.recs[r])
    ensures ClosedOnce(st')
  {
    hide AllShow, Ordered;
    forall h | h in st'.streams
      ensures st'.streams[h].closes == if exists s :: s in st'.recs && Holds(st'.recs[s], h) then 0 else 1
    {
      if Holds(st.recs[r], h) {
        forall s | s in st'.recs
          ensures !Holds(st'.recs[s], h)
        {
          if Holds(st.recs[s], h) {
            SoleHolder(st, at, r, s, h);
          }
        }
      } else if s :| s in st.recs && Holds(st.recs[s], h) {
        assert s in st'.recs && Holds(st'.recs[s], h);
      }
    }
  }

  // ----- opening -------------------------------------------------------------------------------------

  /** What a constructor is given: no name, an empty one, one that cannot be opened, or a directory. */
  datatype Source = NoName | EmptyName | Failing | Directory(h: nat, entries: seq<string>)

  /** The record a constructor fills in before anything is read. */
  function NewRecord(source: Source, dots: bool): Record {
    Record(1, true, source == NoName, dots, None, if source.Directory? then Some(source.h) else None, None)
  }

  /** A constructor; if the directory cannot be opened there is no iterator. */
  function Construct(st: Store, it: nat, r: nat, source: Source, dots: bool): Store {
    var made := Store(st.iters[it := r], st.recs[r := NewRecord(source, dots)], st.streams);
    match source
    case NoName => made
    case EmptyName => made
    case Failing => st
    case Directory(h, entries) => Read(made.(streams := st.streams[h := Stream(entries, dots, 0, 0)]), r)
  }

  function FirstCursor(r: nat, source: Source): Cursor {
    if source == NoName then End else if source.Directory? then At(source.h, 0) else Nowhere(r)
  }

  lemma NewCounts(st: Store, it: nat, r: nat, recs: map<nat, Record>, streams: map<nat, Stream>)
    requires Counted(st, None) && it !in st.iters && r !in st.recs
    requires recs.Keys == st.recs.Keys + {r} && recs[r].refs == 1
    requires forall s :: s in st.recs ==> recs[s].refs == st.recs[s].refs
    ensures Counted(Store(st.iters[it := r], recs, streams), None)
  {
    hide Sharers;
    NoSharers(st.iters, r);
    var iters := st.iters[it := r];
    forall s | s in recs
      ensures recs[s].refs == Uses(iters, None, s)
    {
      BindAddsUse(st.iters, it, r, s);
    }
  }

  lemma NoSharers(iters: map<nat, nat>, r: nat)
    requires forall it :: it in iters ==> iters[it] != r
    ensures Sharers(iters, r) == {}
  {
  }

  /** A directory nobody knew before, with its first record. */
  predicate Extends(st: Store, r: nat, rec: Record, cursor: Cursor, st': Store) {
    && r !in st.recs && rec.valid && st'.recs == st.recs[r := rec] && Shows(rec, r, cursor, st'.streams)
    && if cursor.At? then
         && cursor.dir !in st.streams && cursor.dir in st'.streams && st'.streams[cursor.dir].closes == 0
         && st'.streams == st.streams[cursor.dir := st'.streams[cursor.dir]]
       else st'.streams == st.streams
  }

  lemma NewShows(st: Store, at: map<nat, Cursor>, r: nat, rec: Record, cursor: Cursor, st': Store)
    requires AllShow(st, at) && Ordered(st, at) && Extends(st, r, rec, cursor, st')
    ensures AllShow(st', at[r := cursor]) && Ordered(st', at[r := cursor])
  {
    hide Current;
    forall s | s in st.recs
      ensures Shows(st.recs[s], s, at[s], st'.streams) && (at[s].At? ==> at[s].dir in st.streams)
    {
      assert Shows(st.recs[s], s, at[s], st.streams);
    }
    hide Shows;
    assert Ordered(st', at[r := cursor]);
  }

  lemma NewClosesOnce(st: Store, at: map<nat, Cursor>, r: nat, rec: Record, cursor: Cursor, st': Store)
    requires AllShow(st, at) && ClosedOnce(st) && Extends(st, r, rec, cursor, st')
    ensures ClosedOnce(st')
  {
    hide Current;
    forall h | h in st'.streams
      ensures st'.streams[h].closes == if exists s :: s in st'.recs && Holds(st'.recs[s], h) then 0 else 1
    {
      if Holds(rec, h) {
        assert r in st'.recs && Holds(st'.recs[r], h);
      } else if s :| s in st.recs && Holds(st.recs[s], h) {
        assert s in st'.recs && Holds(st'.recs[s], h);
      }
    }
  }

  /** What every directory lists, whoever has read how much of it. */
  function Listings(st: Store): map<nat, seq<string>> {
    map h | h in st.streams :: Visible(st.streams[h])
  }

  lemma NewView(st: Store, at: map<nat, Cursor>, it: nat, r: nat, cursor: Cursor, st': Store)
    requires Counted(st, None) && at.Keys == st.recs.Keys && r !in st.recs && it !in st.iters
    requires st'.iters == st.iters[it := r]
    ensures (forall x :: x in st'.iters ==> st'.iters[x] in at[r := cursor])
    ensures View(st', at[r := cursor]) == View(st, at)[it := cursor]
  {
    hide Uses;
  }

  lemma ConstructPlain(st: Store, at: map<nat, Cursor>, it: nat, r: nat, source: Source, dots: bool)
    requires Valid(st, at, None) && it !in st.iters && r !in st.recs && (source == NoName || source == EmptyName)
    ensures var st', at' := Construct(st, it, r, source, dots), at[r := FirstCursor(r, source)];
            Valid(st', at', None) && Listings(st') == Listings(st)
  {
    hide Current, Sharers, Uses, Visible, Counted, AllShow, Ordered, ClosedOnce;
    var rec := NewRecord(source, dots);
    NewShows(st, at, r, rec, FirstCursor(r, source), Construct(st, it, r, source, dots));
    NewClosesOnce(st, at, r, rec, FirstCursor(r, source), Construct(st, it, r, source, dots));
    NewCounts(st, it, r, st.recs[r := rec], st.streams);
  }

  lemma ConstructDirectory(st: Store, at: map<nat, Cursor>, it: nat, r: nat, source: Source, dots: bool)
    requires Valid(st, at, None) && it !in st.iters && r !in st.recs && source.Directory? && source.h !in st.streams
    ensures var st', at' := Construct(st, it, r, source, dots), at[r := FirstCursor(r, source)];
            && Valid(st', at', None)
            && Listings(st') == Listings(st)[source.h := ShownUpTo(source.entries, dots, |source.entries|)]
  {
    hide Current, Sharers, Uses, Visible, Counted, AllShow, Ordered, ClosedOnce, Step;
    var h, st' := source.h, Construct(st, it, r, source, dots);
    var rec, stream := NewRecord(source, dots), Stream(source.entries, dots, 0, 0);
    var (rec', stream') := Step(rec, stream);
    StepMoves(rec, stream, 0);
    StepSees(rec, stream);
    assert Visible(stream) == ShownUpTo(source.entries, dots, |source.entries|) by { VisibleIs(stream); }
    assert st'.recs == st.recs[r := rec'];
    assert st'.streams == st.streams[h := stream'];
    NewShows(st, at, r, rec', At(h, 0), st');
    NewClosesOnce(st, at, r, rec', At(h, 0), st');
    NewCounts(st, it, r, st'.recs, st'.streams);
  }

  lemma VisibleIs(stream: Stream)
    ensures Visible(stream) == ShownUpTo(stream.entries, stream.dots, |stream.entries|)
  {
  }

  /** A constructor starts an iterator at the first visible entry. */
  lemma ConstructKeeps(st: Store, at: map<nat, Cursor>, it: nat, r: nat, source: Source, dots: bool)
    requires Valid(st, at, None) && it !in st.iters && r !in st.recs && source != Failing
    requires source.Directory? ==> source.h !in st.streams
    ensures var st', at' := Construct(st, it, r, source, dots), at[r := FirstCursor(r, source)];
            && Valid(st', at', None)
            && View(st', at') == View(st, at)[it := FirstCursor(r, source)]
            && Listings(st') == if source.Directory?
                                then Listings(st)[source.h := ShownUpTo(source.entries, dots, |source.entries|)]
                                else Listings(st)
  {
    hide AllShow, Ordered, ClosedOnce, Step, Visible;
    if source.Directory? {
      ConstructDirectory(st, at, it, r, source, dots);
    } else {
      ConstructPlain(st, at, it, r, source, dots);
    }
    ShownAddresses(st, at);
    NewView(st, at, it, r, FirstCursor(r, source), Construct(st, it, r, source, dots));
  }

  lemma ShownAddresses(st: Store, at: map<nat, Cursor>)
    requires AllShow(st, at)
    ensures at.Keys == st.recs.Keys
  {
  }

  /** Reading changes only where a stream stands and what the record holds. */
  lemma StepSees(rec: Record, stream: Stream)
    requires stream.pos <= |stream.entries|
    ensures var (rec', stream') := Step(rec, stream);
            && Visible(stream') == Visible(stream) && stream' == stream.(pos := stream'.pos)
            && rec' == rec.(dirent := rec'.dirent, last := rec'.last) && (rec.last ==> rec'.last)
  {
  }

  // ----- advancing -----------------------------------------------------------------------------------

  /** What the assertions of `operator++` and `next` ask. */
  predicate CanAdvance(st: Store, it: nat) {
    && it in st.iters && st.iters[it] in st.recs
    && var rec := st.recs[st.iters[it]];
       rec.valid && !rec.last && rec.dir.Some?
  }

  lemma StealCounts(st: Store, it: nat, addr: nat)
    requires Counted(st, None) && it in st.iters && addr !in st.recs
    ensures Counted(Steal(st, it, addr), None)
  {
    hide Sharers, Uses;
    var r, st' := st.iters[it], Steal(st, it, addr);
    if st.recs[r].refs > 1 {
      NoSharers(st.iters, addr);
      forall s | s in st'.recs
        ensures st'.recs[s].refs == Uses(st'.iters, None, s) > 0
      {
        MoveUse(st.iters, it, addr, s);
        if s == addr {
          NoUses(st.iters, addr);
        }
      }
    }
  }

  lemma NoUses(iters: map<nat, nat>, r: nat)
    requires Sharers(iters, r) == {}
    ensures Uses(iters, None, r) == 0
  {
  }

  lemma MoveUse(iters: map<nat, nat>, it: nat, addr: nat, s: nat)
    requires it in iters && iters[it] != addr
    ensures Uses(iters[it := addr], None, s) ==
            Uses(iters, None, s) + (if s == addr then 1 else 0) - (if s == iters[it] then 1 else 0)
  {
    ReleaseDropsUse(iters, it, None, s);
    BindAddsUse(iters - {it}, it, addr, s);
    assert (iters - {it})[it := addr] == iters[it := addr];
  }

  /** The record an advancing iterator stands on. */
  lemma Standing(st: Store, at: map<nat, Cursor>, r: nat)
    requires AllShow(st, at) && r in st.recs && st.recs[r].dir.Some? && st.recs[r].valid && !st.recs[r].last
    ensures var h := st.recs[r].dir.value;
            && at[r].At? && at[r].dir == h && h in st.streams && CanRead(st, r)
            && Current(st.recs[r], st.streams[h], at[r].k) && at[r].k < |Visible(st.streams[h])|
            && st.recs[r].dots == st.streams[h].dots
  {
    assert Shows(st.recs[r], r, at[r], st.streams);
  }

  predicate NobodyElse(recs: map<nat, Record>, r: nat, h: nat) {
    forall s :: s in recs && s != r ==> !Holds(recs[s], h)
  }

  /** Reading on in a stream changes nothing for the records that only remember. */
  lemma ReadShows(st: Store, at: map<nat, Cursor>, r: nat)
    requires AllShow(st, at) && r in st.recs && st.recs[r].dir.Some? && st.recs[r].valid && !st.recs[r].last
    requires NobodyElse(st.recs, r, st.recs[r].dir.value)
    ensures CanRead(st, r) && at[r].At?
    ensures AllShow(Read(st, r), at[r := At(at[r].dir, at[r].k + 1)])
    ensures Listings(Read(st, r)) == Listings(st)
  {
    hide Current, Step, Visible;
    Standing(st, at, r);
    var h, k := at[r].dir, at[r].k;
    var rec, stream := st.recs[r], st.streams[h];
    var (rec', stream') := Step(rec, stream);
    CurrentCount(rec, stream, k);
    StepMoves(rec, stream, k + 1);
    StepSees(rec, stream);
    var st' := Read(st, r);
    assert st'.recs == st.recs[r := rec'] && st'.streams == st.streams[h := stream'];
    forall s | s in st.recs && s != r
      ensures Shows(st.recs[s], s, at[s], st'.streams)
    {
      assert Shows(st.recs[s], s, at[s], st.streams);
    }
  }

  lemma CurrentCount(rec: Record, stream: Stream, k: nat)
    requires Current(rec, stream, k) && k < |Visible(stream)|
    ensures stream.pos <= |stream.entries| && |ShownUpTo(stream.entries, stream.dots, stream.pos)| == k + 1
  {
  }

  /** After stealing, the old record still shows its entry, now from memory. */
  lemma StealShows(st: Store, at: map<nat, Cursor>, it: nat, addr: nat)
    requires AllShow(st, at) && CanAdvance(st, it) && addr !in st.recs && st.recs[st.iters[it]].refs > 1
    ensures AllShow(Steal(st, it, addr), at[addr := at[st.iters[it]]])
  {
    hide Visible;
    var r, st' := st.iters[it], Steal(st, it, addr);
    Standing(st, at, r);
    CurrentName(st.recs[r], st.streams[at[r].dir], at[r].k);
    hide Current;
    forall s | s in st.recs
      ensures Shows(st'.recs[s], s, at[s], st.streams)
    {
      assert Shows(st.recs[s], s, at[s], st.streams);
    }
    CountDoesNotShow(st.recs[r], 1, r, at[r], st.streams);
  }

  lemma CurrentName(rec: Record, stream: Stream, k: nat)
    requires Current(rec, stream, k) && k < |Visible(stream)|
    ensures rec.dirent == Some(Visible(stream)[k])
  {
  }

  /** `++` on values. */
  function Advance(st: Store, it: nat, addr: nat): Store
    requires CanAdvance(st, it) && addr !in st.recs && CanRead(Steal(st, it, addr), Steal(st, it, addr).iters[it])
  {
    var st' := Steal(st, it, addr);
    Read(st', st'.iters[it])
  }

  /** The record an iterator advances on. */
  function Own(st: Store, it: nat, addr: nat): nat
    requires it in st.iters && st.iters[it] in st.recs
  {
    if st.recs[st.iters[it]].refs > 1 then addr else st.iters[it]
  }

  function Moved(st: Store, at: map<nat, Cursor>, it: nat, addr: nat): map<nat, Cursor>
    requires it in st.iters && st.iters[it] in st.recs && st.iters[it] in at && at[st.iters[it]].At?
  {
    var cursor := at[st.iters[it]];
    at[Own(st, it, addr) := At(cursor.dir, cursor.k + 1)]
  }

  lemma StealLeavesOneHolder(st: Store, at: map<nat, Cursor>, it: nat, addr: nat)
    requires AllShow(st, at) && Ordered(st, at) && CanAdvance(st, it) && addr !in st.recs
    ensures NobodyElse(Steal(st, it, addr).recs, Own(st, it, addr), st.recs[st.iters[it]].dir.value)
  {
    hide AllShow, Ordered;
    var r := st.iters[it];
    var h := st.recs[r].dir.value;
    forall s | s in st.recs && s != r
      ensures !Holds(st.recs[s], h)
    {
      if Holds(st.recs[s], h) {
        SoleHolder(st, at, r, s, h);
      }
    }
  }

  lemma AdvanceShows(st: Store, at: map<nat, Cursor>, it: nat, addr: nat)
    requires AllShow(st, at) && Ordered(st, at) && CanAdvance(st, it) && addr !in st.recs
    ensures var st' := Steal(st, it, addr); CanRead(st', st'.iters[it])
    ensures st.iters[it] in at && at[st.iters[it]].At?
    ensures AllShow(Advance(st, it, addr), Moved(st, at, it, addr))
    ensures Listings(Advance(st, it, addr)) == Listings(st)
  {
    hide AllShow, Ordered, Current, Visible, Step;
    ShownAddresses(st, at);
    var r, own := st.iters[it], Own(st, it, addr);
    Standing(st, at, r);
    StealLeavesOneHolder(st, at, it, addr);
    if st.recs[r].refs > 1 {
      var stolen := Steal(st, it, addr);
      StealShows(st, at, it, addr);
      ReadShows(stolen, at[addr := at[r]], addr);
      var next := At(at[r].dir, at[r].k + 1);
      assert at[addr := at[r]][addr := next] == at[addr := next];
    } else {
      ReadShows(st, at, r);
    }
  }

  /** The state before and after `++`, with what both of its steps established. */
  ghost predicate Advancing(st: Store, at: map<nat, Cursor>, it: nat, addr: nat) {
    && AllShow(st, at) && Ordered(st, at) && CanAdvance(st, it) && addr !in st.recs
    && CanRead(Steal(st, it, addr), Steal(st, it, addr).iters[it])
    && at[st.iters[it]].At? && at[st.iters[it]].dir == st.recs[st.iters[it]].dir.value
  }

  lemma AdvanceOrdered(st: Store, at: map<nat, Cursor>, it: nat, addr: nat)
    requires Advancing(st, at, it, addr)
    ensures Moved(st, at, it, addr).Keys == Advance(st, it, addr).recs.Keys
    ensures Ordered(Advance(st, it, addr), Moved(st, at, it, addr))
  {
    hide Shows, Step;
    var r, own, st' := st.iters[it], Own(st, it, addr), Advance(st, it, addr);
    var stolen := Steal(st, it, addr);
    StepSees(stolen.recs[own], stolen.streams[at[r].dir]);
    assert st'.recs[own].valid;
    assert forall s :: s in st.recs && s != own ==> st'.recs[s].valid == (st.recs[s].valid && s != r);
  }

  lemma AdvanceClosesOnce(st: Store, at: map<nat, Cursor>, it: nat, addr: nat)
    requires Advancing(st, at, it, addr) && ClosedOnce(st)
    ensures ClosedOnce(Advance(st, it, addr))
  {
    hide Shows, Step, AllShow, Ordered;
    var r, own, st' := st.iters[it], Own(st, it, addr), Advance(st, it, addr);
    var stolen, d := Steal(st, it, addr), st.recs[st.iters[it]].dir.value;
    StepSees(stolen.recs[own], stolen.streams[d]);
    assert Holds(st.recs[r], d) && Holds(st'.recs[own], d);
    forall h | h in st'.streams
      ensures st'.streams[h].closes == if exists s :: s in st'.recs && Holds(st'.recs[s], h) then 0 else 1
    {
      assert st'.streams[h].closes == st.streams[h].closes;
      if h != d {
        if s :| s in st.recs && Holds(st.recs[s], h) {
          assert s in st'.recs && Holds(st'.recs[s], h);
        }
      }
    }
  }

  lemma AdvanceView(st: Store, at: map<nat, Cursor>, it: nat, addr: nat)
    requires Advancing(st, at, it, addr) && Counted(st, None)
    ensures (forall x :: x in Advance(st, it, addr).iters ==> Advance(st, it, addr).iters[x] in Moved(st, at, it, addr))
    ensures var cursor := at[st.iters[it]];
            View(Advance(st, it, addr), Moved(st, at, it, addr)) == View(st, at)[it := At(cursor.dir, cursor.k + 1)]
  {
    hide Shows, Step, Ordered;
    if st.recs[st.iters[it]].refs <= 1 {
      OnlySharer(st, it);
    }
  }

  lemma OnlySharer(st: Store, it: nat)
    requires Counted(st, None) && it in st.iters && st.recs[st.iters[it]].refs <= 1
    ensures forall x :: x in st.iters && st.iters[x] == st.iters[it] ==> x == it
  {
    var sharers := Sharers(st.iters, st.iters[it]);
    assert |sharers| == 1 && it in sharers;
    forall x | x in st.iters && st.iters[x] == st.iters[it]
      ensures x == it
    {
      assert x in sharers;
      assert |sharers - {it}| == 0;
    }
  }

  lemma ReadCounts(st: Store, r: nat)
    requires Counted(st, None) && CanRead(st, r)
    ensures Counted(Read(st, r), None)
  {
    hide Step, Uses;
    var h := st.recs[r].dir.value;
    StepSees(st.recs[r], st.streams[h]);
  }

  /** Advancing moves this iterator on by one visible entry, and no other. */
  lemma AdvanceKeeps(st: Store, at: map<nat, Cursor>, it: nat, addr: nat)
    requires Valid(st, at, None) && CanAdvance(st, it) && addr !in st.recs
    ensures Advancing(st, at, it, addr)
    ensures Valid(Advance(st, it, addr), Moved(st, at, it, addr), None)
    ensures var cursor := at[st.iters[it]];
            View(Advance(st, it, addr), Moved(st, at, it, addr)) == View(st, at)[it := At(cursor.dir, cursor.k + 1)]
    ensures Listings(Advance(st, it, addr)) == Listings(st)
  {
    hide AllShow, Ordered, ClosedOnce, Counted, View, Visible;
    AdvanceShows(st, at, it, addr);
    Standing(st, at, st.iters[it]);
    StealCounts(st, it, addr);
    ReadCounts(Steal(st, it, addr), Steal(st, it, addr).iters[it]);
    AdvanceOrdered(st, at, it, addr);
    AdvanceClosesOnce(st, at, it, addr);
    AdvanceView(st, at, it, addr);
  }

  // ----- every operation, every run ----------------------------------------------------------------

  /** Addresses of new iterators and records, and handles of new directories, are unused. */
  datatype Op =
    | Open(it: nat, r: nat, source: Source, dots: bool)
    | Copy(it: nat, from: nat)
    | Assign(it: nat, from: nat)
    | Increment(it: nat, addr: nat)
    | Destroy(it: nat)

  predicate Allowed(st: Store, op: Op) {
    match op
    case Open(it, r, source, _) =>
      it !in st.iters && r !in st.recs && (source.Directory? ==> source.h !in st.streams)
    case Copy(it, from) => it !in st.iters && from in st.iters
    case Assign(it, from) => it in st.iters && from in st.iters
    case Increment(it, addr) => CanAdvance(st, it) && addr !in st.recs
    case Destroy(it) => it in st.iters
  }

  /** The store with the position of each record. */
  datatype Placed = Placed(st: Store, at: map<nat, Cursor>)

  ghost predicate Good(p: Placed) {
    Valid(p.st, p.at, None)
  }

  ghost function Apply(p: Placed, op: Op): Placed
    requires Good(p) && Allowed(p.st, op)
  {
    var Placed(st, at) := p;
    match op
    case Open(it, r, source, dots) =>
      if source == Failing then p
      else Placed(Construct(st, it, r, source, dots), at[r := FirstCursor(r, source)])
    case Copy(it, from) => Placed(Bind(Retain(st, st.iters[from]), it, st.iters[from]), at)
    case Assign(it, from) =>
      var r := st.iters[from];
      RetainKeeps(st, at, r);
      var held := Retain(st, r);
      ReleaseKeeps(held, at, it, Some(r));
      Placed(Bind(LetGo(held, it), it, r), Left(held, at, it))
    case Increment(it, addr) =>
      AdvanceKeeps(st, at, it, addr);
      Placed(Advance(st, it, addr), Moved(st, at, it, addr))
    case Destroy(it) =>
      ReleaseKeeps(st, at, it, None);
      Placed(LetGo(st, it), Left(st, at, it))
  }

  /** What clients may think of: independent positions in fixed listings. */
  datatype Ideal = Ideal(cursors: map<nat, Cursor>, listings: map<nat, seq<string>>)

  ghost predicate Refines(p: Placed, ideal: Ideal) {
    Good(p) && ideal == Ideal(View(p.st, p.at), Listings(p.st))
  }

  predicate IdealAllowed(ideal: Ideal, op: Op) {
    match op
    case Copy(_, from) => from in ideal.cursors
    case Assign(_, from) => from in ideal.cursors
    case Increment(it, _) => it in ideal.cursors && ideal.cursors[it].At?
    case _ => true
  }

  function IdealApply(ideal: Ideal, op: Op): Ideal
    requires IdealAllowed(ideal, op)
  {
    match op
    case Open(it, r, source, dots) =>
      if source == Failing then ideal
      else
        Ideal(ideal.cursors[it := FirstCursor(r, source)],
              if source.Directory?
              then ideal.listings[source.h := ShownUpTo(source.entries, dots, |source.entries|)]
              else ideal.listings)
    case Copy(it, from) => ideal.(cursors := ideal.cursors[it := ideal.cursors[from]])
    case Assign(it, from) => ideal.(cursors := ideal.cursors[it := ideal.cursors[from]])
    case Increment(it, _) =>
      ideal.(cursors := ideal.cursors[it := At(ideal.cursors[it].dir, ideal.cursors[it].k + 1)])
    case Destroy(it) => ideal.(cursors := ideal.cursors - {it})
  }

  lemma RetainListings(st: Store, r: nat)
    requires r in st.recs
    ensures Listings(Retain(st, r)) == Listings(st)
  {
  }

  lemma ReleaseListings(st: Store, it: nat)
    requires CanRelease(st, it)
    ensures Listings(LetGo(st, it)) == Listings(st)
  {
  }

  lemma CopyRefines(p: Placed, it: nat, from: nat)
    requires Good(p) && Allowed(p.st, Copy(it, from))
    ensures Refines(Apply(p, Copy(it, from)), Ideal(View(p.st, p.at)[it := View(p.st, p.at)[from]], Listings(p.st)))
  {
    hide AllShow, Ordered, ClosedOnce, Visible, Uses;
    var st, at := p.st, p.at;
    ShownAddresses(st, at);
    var r := st.iters[from];
    RetainKeeps(st, at, r);
    RetainListings(st, r);
    BindKeeps(Retain(st, r), at, it, r);
  }

  lemma AssignRefines(p: Placed, it: nat, from: nat)
    requires Good(p) && Allowed(p.st, Assign(it, from))
    ensures Refines(Apply(p, Assign(it, from)), Ideal(View(p.st, p.at)[it := View(p.st, p.at)[from]], Listings(p.st)))
  {
    hide AllShow, Ordered, ClosedOnce, Visible, Uses, Counted;
    var st, at := p.st, p.at;
    var r := st.iters[from];
    FromIsThere(p, from);
    var held := Retain(st, r);
    RetainKeeps(st, at, r);
    RetainListings(st, r);
    ReleaseKeeps(held, at, it, Some(r));
    ReleaseListings(held, it);
    PendingStays(LetGo(held, it), Left(held, at, it), r);
    BindKeeps(LetGo(held, it), Left(held, at, it), it, r);
    RetainView(st, at, r);
    assert (View(st, at) - {it})[it := at[r]] == View(st, at)[it := at[r]];
  }

  lemma RetainView(st: Store, at: map<nat, Cursor>, r: nat)
    requires Valid(st, at, None) && r in st.recs
    ensures (forall it :: it in st.iters ==> st.iters[it] in at) && View(Retain(st, r), at) == View(st, at)
  {
  }

  lemma FromIsThere(p: Placed, from: nat)
    requires Good(p) && from in p.st.iters
    ensures p.st.iters[from] in p.st.recs && p.st.iters[from] in p.at
    ensures View(p.st, p.at)[from] == p.at[p.st.iters[from]]
  {
  }

  lemma PendingStays(st: Store, at: map<nat, Cursor>, r: nat)
    requires Valid(st, at, Some(r))
    ensures r in st.recs && r in at
  {
  }

  /** Every operation does to the positions what it should. */
  lemma ApplyRefines(p: Placed, ideal: Ideal, op: Op)
    requires Refines(p, ideal) && Allowed(p.st, op)
    ensures IdealAllowed(ideal, op) && Refines(Apply(p, op), IdealApply(ideal, op))
  {
    hide Valid, View, Listings, Construct, Advance;
    match op
    case Open(it, r, source, dots) =>
      if source != Failing {
        ConstructKeeps(p.st, p.at, it, r, source, dots);
      }
    case Copy(it, from) =>
      ViewDomain(p, from);
      CopyRefines(p, it, from);
    case Assign(it, from) =>
      ViewDomain(p, from);
      AssignRefines(p, it, from);
    case Increment(it, addr) =>
      ViewDomain(p, it);
      AdvanceKeeps(p.st, p.at, it, addr);
    case Destroy(it) =>
      ReleaseKeeps(p.st, p.at, it, None);
      ReleaseListings(p.st, it);
  }

  lemma OperationKeepsGood(p: Placed, op: Op)
    requires Good(p) && Allowed(p.st, op)
    ensures Good(Apply(p, op))
  {
    hide Apply;
    DomainsAgree(p);
    ApplyRefines(p, Ideal(View(p.st, p.at), Listings(p.st)), op);
  }

  lemma DomainsAgree(p: Placed)
    requires Good(p)
    ensures forall it :: it in p.st.iters ==> p.st.iters[it] in p.st.recs && p.st.iters[it] in p.at
  {
  }

  lemma ViewDomain(p: Placed, it: nat)
    requires Good(p) && it in p.st.iters
    ensures it in View(p.st, p.at) && p.st.iters[it] in p.at && View(p.st, p.at)[it] == p.at[p.st.iters[it]]
  {
  }

  ghost predicate AllowedRun(p: Placed, ops: seq<Op>)
    requires Good(p)
    decreases |ops|
  {
    ops == []
    || (Allowed(p.st, ops[0])
        && (ApplyRefines(p, Ideal(View(p.st, p.at), Listings(p.st)), ops[0]); AllowedRun(Apply(p, ops[0]), ops[1..])))
  }

  ghost function RunOps(p: Placed, ops: seq<Op>): Placed
    requires Good(p) && AllowedRun(p, ops)
    decreases |ops|
  {
    if ops == [] then p
    else ApplyRefines(p, Ideal(View(p.st, p.at), Listings(p.st)), ops[0]); RunOps(Apply(p, ops[0]), ops[1..])
  }

  ghost predicate IdealRuns(ideal: Ideal, ops: seq<Op>)
    decreases |ops|
  {
    ops == [] || (IdealAllowed(ideal, ops[0]) && IdealRuns(IdealApply(ideal, ops[0]), ops[1..]))
  }

  ghost function IdealRun(ideal: Ideal, ops: seq<Op>): Ideal
    requires IdealRuns(ideal, ops)
    decreases |ops|
  {
    if ops == [] then ideal else IdealRun(IdealApply(ideal, ops[0]), ops[1..])
  }

  /** Over every run the iterators behave as independent positions, counts are the numbers of
      sharers, and every directory is closed exactly once. */
  lemma {:induction false} RunRefines(p: Placed, ideal: Ideal, ops: seq<Op>)
    requires Refines(p, ideal) && AllowedRun(p, ops)
    ensures IdealRuns(ideal, ops) && Refines(RunOps(p, ops), IdealRun(ideal, ops))
    decreases |ops|
  {
    hide Valid, View, Listings, Apply, IdealApply;
    if ops != [] {
      ApplyRefines(p, ideal, ops[0]);
      RunRefines(Apply(p, ops[0]), IdealApply(ideal, ops[0]), ops[1..]);
    }
  }

  // ----- what clients see ----------------------------------------------------------------------------

  /** What the assertions of `operator*` ask. */
  predicate CanDeref(rec: Record) {
    !rec.last && (rec.valid || rec.lastName.Some?) && (rec.valid ==> rec.dir.Some?)
  }

  predicate OnEntry(ideal: Ideal, cursor: Cursor) {
    cursor.At? && cursor.dir in ideal.listings && cursor.k < |ideal.listings[cursor.dir]|
  }

  /** A live iterator can be dereferenced exactly if it is on an entry, and gives that entry,
      although the one shared stream may have moved on long since. */
  lemma DerefExactly(p: Placed, ideal: Ideal, it: nat)
    requires Refines(p, ideal) && it in p.st.iters
    ensures it in ideal.cursors && p.st.iters[it] in p.st.recs
    ensures var rec, cursor := p.st.recs[p.st.iters[it]], ideal.cursors[it];
            && (CanDeref(rec) <==> OnEntry(ideal, cursor))
            && (CanDeref(rec) ==> Deref(rec) == Some(ideal.listings[cursor.dir][cursor.k]))
  {
    hide Visible, Ordered, ClosedOnce, Uses;
    var r := p.st.iters[it];
    assert Shows(p.st.recs[r], r, p.at[r], p.st.streams);
  }

  lemma Remembered(p: Placed, it: nat)
    requires Good(p) && it in p.st.iters && p.st.iters[it] in p.st.recs && CanDeref(p.st.recs[p.st.iters[it]])
    ensures p.st.iters[it] in p.at && OnEntry(Ideal(map[], Listings(p.st)), p.at[p.st.iters[it]])
    ensures var rec, cursor := p.st.recs[p.st.iters[it]], p.at[p.st.iters[it]];
            Deref(rec) == Some(Visible(p.st.streams[cursor.dir])[cursor.k])
  {
    DomainsAgree(p);
    DerefExactly(p, Ideal(View(p.st, p.at), Listings(p.st)), it);
  }

  /** `operator==`: both past the last entry, or one record for both. */
  predicate Equal(st: Store, a: nat, b: nat)
    requires a in st.iters && b in st.iters && st.iters[a] in st.recs && st.iters[b] in st.recs
  {
    (st.recs[st.iters[a]].last && st.recs[st.iters[b]].last) || st.iters[a] == st.iters[b]
  }

  predicate AtEnd(ideal: Ideal, cursor: Cursor) {
    cursor == End || (cursor.At? && cursor.dir in ideal.listings && cursor.k == |ideal.listings[cursor.dir]|)
  }

  /** Iterators compare equal exactly if both are at an end or both are at one position. */
  lemma EqualExactly(p: Placed, ideal: Ideal, a: nat, b: nat)
    requires Refines(p, ideal) && a in p.st.iters && b in p.st.iters
    ensures a in ideal.cursors && b in ideal.cursors && p.st.iters[a] in p.st.recs && p.st.iters[b] in p.st.recs
    ensures Equal(p.st, a, b) <==>
            (AtEnd(ideal, ideal.cursors[a]) && AtEnd(ideal, ideal.cursors[b])) || ideal.cursors[a] == ideal.cursors[b]
  {
    hide Visible, ClosedOnce, Uses;
    var r, s := p.st.iters[a], p.st.iters[b];
    assert Shows(p.st.recs[r], r, p.at[r], p.st.streams);
    assert Shows(p.st.recs[s], s, p.at[s], p.st.streams);
  }

  /** Once all iterators are gone, no record is left and every directory was closed, once. */
  lemma AllClosedInTheEnd(p: Placed)
    requires Good(p) && p.st.iters == map[]
    ensures p.st.recs == map[] && forall h :: h in p.st.streams ==> p.st.streams[h].closes == 1
  {
    hide AllShow, Ordered;
    forall r
      ensures r !in p.st.recs
    {
      NoSharers(p.st.iters, r);
    }
  }

  /** Advancing one of several copies makes all the others read-only; the one advanced can go on
      exactly until it is past the last entry. */
  lemma OthersBecomeReadOnly(p: Placed, ideal: Ideal, it: nat, other: nat, addr: nat)
    requires Refines(p, ideal) && CanAdvance(p.st, it) && addr !in p.st.recs
    requires other in p.st.iters && other != it && p.st.iters[other] == p.st.iters[it]
    ensures var p' := Apply(p, Increment(it, addr));
            && !CanAdvance(p'.st, other)
            && it in ideal.cursors && ideal.cursors[it].At? && ideal.cursors[it].dir in ideal.listings
            && (CanAdvance(p'.st, it) <==> ideal.cursors[it].k + 1 < |ideal.listings[ideal.cursors[it].dir]|)
  {
    hide Visible, ClosedOnce, Ordered, Uses, Step;
    var st, r := p.st, p.st.iters[it];
    DomainsAgree(p);
    ApplyRefines(p, ideal, Increment(it, addr));
    AdvanceKeeps(st, p.at, it, addr);
    Standing(st, p.at, r);
    Shared(st, it, other);
    var p' := Apply(p, Increment(it, addr));
    DerefExactly(p', IdealApply(ideal, Increment(it, addr)), it);
    StepSees(Steal(st, it, addr).recs[addr], st.streams[p.at[r].dir]);
  }

  lemma Shared(st: Store, it: nat, other: nat)
    requires Counted(st, None) && it in st.iters && other in st.iters && it != other && st.iters[it] == st.iters[other]
    ensures st.recs[st.iters[it]].refs > 1
  {
    var sharers := Sharers(st.iters, st.iters[it]);
    assert {it, other} <= sharers;
    if |sharers| <= 1 {
      OnlySharer(st, it);
    }
  }

  // ----- in place ------------------------------------------------------------------------------------

  /** The heap the iterators live in: each has an address, and holds the address of its record. */
  class Heap {
    var iters: map<nat, nat>
    var recs: map<nat, Record>
    var streams: map<nat, Stream>
    ghost var at: map<nat, Cursor>

    function State(): Store
      reads this
    {
      Store(iters, recs, streams)
    }

    ghost function Now(): Placed
      reads this
    {
      Placed(State(), at)
    }

    ghost predicate Valid()
      reads this
    {
      Good(Now())
    }

    constructor ()
      ensures Valid() && State() == Store(map[], map[], map[])
    {
      iters, recs, streams, at := map[], map[], map[], map[];
    }

    /** `sysclose`, or dropping the remembered name. */
    method Close(r: nat)
      requires r in recs && (recs[r].valid && recs[r].dir.Some? ==> recs[r].dir.value in streams)
      modifies this`recs, this`streams
      ensures streams == Closed(old(streams), old(recs[r]))
      ensures recs == old(recs)[r := if old(recs)[r].valid then old(recs)[r].(dir := None)
                                     else old(recs)[r].(lastName := None)]
    {
      if recs[r].valid {
        var dir := recs[r].dir;
        recs := recs[r := recs[r].(dir := None)];
        if dir.Some? {
          streams := streams[dir.value := streams[dir.value].(closes := streams[dir.value].closes + 1)];
        }
      } else {
        recs := recs[r := recs[r].(lastName := None)];
      }
    }

    method Release(it: nat)
      requires CanRelease(State(), it)
      modifies this`iters, this`recs, this`streams
      ensures State() == LetGo(old(State()), it)
    {
      var r := iters[it];
      iters := iters - {it};
      recs := recs[r := recs[r].(refs := recs[r].refs - 1)];
      if recs[r].refs == 0 {
        Close(r);
        recs := recs - {r};
        assert recs == old(recs) - {r};
      }
    }

    /** The loop of `next`, on a record nobody shares. */
    method Next(r: nat)
      requires CanRead(State(), r) && !recs[r].last
      modifies this`recs, this`streams
      ensures State() == Read(old(State()), r)
    {
      hide Step;
      var h := recs[r].dir.value;
      var rec, stream := ReadShown(recs[r], streams[h]);
      recs := recs[r := rec];
      streams := streams[h := stream];
    }

    method Construct(it: nat, r: nat, source: Source, dots: bool) returns (result: Result<(), string>)
      requires Valid() && Allowed(State(), Op.Open(it, r, source, dots))
      modifies this
      ensures Valid() && Now() == Apply(old(Now()), Op.Open(it, r, source, dots))
      ensures result.Ok? <==> source != Failing
      ensures source == Failing ==> Now() == old(Now())
    {
      hide Good, View, Listings, Step;
      OperationKeepsGood(Now(), Op.Open(it, r, source, dots));
      var made := Record(1, true, source == NoName, dots, None, None, None);
      match source {
        case Failing =>
          return Err("opendir()");
        case Directory(h, entries) =>
          recs := recs[r := made.(dir := Some(h))];
          streams := streams[h := Stream(entries, dots, 0, 0)];
          Next(r);
        case _ =>
          recs := recs[r := made];
      }
      iters := iters[it := r];
      at := at[r := FirstCursor(r, source)];
      result := Ok(());
    }

    method CopyConstruct(it: nat, from: nat)
      requires Valid() && Allowed(State(), Op.Copy(it, from))
      modifies this
      ensures Valid() && Now() == Apply(old(Now()), Op.Copy(it, from))
    {
      hide Good, View, Listings;
      OperationKeepsGood(Now(), Op.Copy(it, from));
      DomainsAgree(Now());
      var r := iters[from];
      recs := recs[r := recs[r].(refs := recs[r].refs + 1)];
      iters := iters[it := r];
    }

    method Destroy(it: nat)
      requires Valid() && Allowed(State(), Op.Destroy(it))
      modifies this
      ensures Valid() && Now() == Apply(old(Now()), Op.Destroy(it))
    {
      hide View, Listings, Counted, AllShow, Ordered, ClosedOnce;
      OperationKeepsGood(Now(), Op.Destroy(it));
      ReleaseKeeps(State(), at, it, None);
      at := Left(State(), at, it);
      Release(it);
    }

    method Assign(it: nat, from: nat)
      requires Valid() && Allowed(State(), Op.Assign(it, from))
      modifies this
      ensures Valid() && Now() == Apply(old(Now()), Op.Assign(it, from))
    {
      hide View, Listings, Counted, AllShow, Ordered, ClosedOnce;
      OperationKeepsGood(Now(), Op.Assign(it, from));
      DomainsAgree(Now());
      var r := iters[from];
      RetainKeeps(State(), at, r);
      recs := recs[r := recs[r].(refs := recs[r].refs + 1)];
      ReleaseKeeps(State(), at, it, Some(r));
      at := Left(State(), at, it);
      Release(it);
      iters := iters[it := r];
    }

    /** Unshares the record of an iterator about to advance. */
    method TakeOver(it: nat, addr: nat)
      requires it in iters && iters[it] in recs && addr !in recs
      requires recs[iters[it]].valid
      modifies this`iters, this`recs
      ensures State() == Steal(old(State()), it, addr)
    {
      var r := iters[it];
      if recs[r].refs > 1 {
        var data := recs[r];
        recs := recs[r := recs[r].(lastName := recs[r].dirent)];
        recs := recs[r := recs[r].(valid := false)];
        recs := recs[r := recs[r].(refs := recs[r].refs - 1)];
        iters := iters[it := addr];
        recs := recs[addr := data.(refs := 1)];
        var left := data.(lastName := data.dirent, valid := false, refs := data.refs - 1);
        assert recs == old(recs)[r := left][addr := data.(refs := 1)];
      }
    }

    /** Pre-increment. */
    method Increment(it: nat, addr: nat)
      requires Valid() && Allowed(State(), Op.Increment(it, addr))
      modifies this
      ensures Valid() && Now() == Apply(old(Now()), Op.Increment(it, addr))
    {
      hide View, Listings, Counted, AllShow, Ordered, ClosedOnce, Step;
      OperationKeepsGood(Now(), Op.Increment(it, addr));
      DomainsAgree(Now());
      AdvanceKeeps(State(), at, it, addr);
      at := Moved(State(), at, it, addr);
      TakeOver(it, addr);
      Next(iters[it]);
    }

    /** Post-increment: the copy that is returned stays on the entry. */
    method PostIncrement(it: nat, copy: nat, addr: nat)
      requires Valid() && Allowed(State(), Op.Increment(it, addr)) && copy !in iters
      modifies this
      ensures var copied := Apply(old(Now()), Op.Copy(copy, it));
              && Valid() && Good(copied) && Allowed(copied.st, Op.Increment(it, addr))
              && Now() == Apply(copied, Op.Increment(it, addr))
    {
      hide Good, View, Listings, Advance;
      DomainsAgree(Now());
      CopyConstruct(copy, it);
      Increment(it, addr);
    }

    method Dereference(it: nat) returns (name: string)
      requires Valid() && it in iters && iters[it] in recs && CanDeref(recs[iters[it]])
      ensures iters[it] in at && at[iters[it]].At? && at[iters[it]].dir in streams
      ensures at[iters[it]].k < |Visible(streams[at[iters[it]].dir])|
      ensures name == Visible(streams[at[iters[it]].dir])[at[iters[it]].k]
    {
      hide View, Counted, Ordered, ClosedOnce, Visible;
      DomainsAgree(Now());
      Remembered(Now(), it);
      var rec := recs[iters[it]];
      if rec.valid {
        name := rec.dirent.value;
      } else {
        name := rec.lastName.value;
      }
    }
  }
}
