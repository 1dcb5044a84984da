/** `IOSelectKqueue`: changes of interest are logged, and handed to the system by the next `wait`. */
module Kqueue {
  import opened FdMap
  import opened SelectTypes
  import opened Sequences

  datatype Filter = ReadFilter | WriteFilter

  /** A filter of one descriptor. */
  datatype Watch = Watch(fd: nat, filter: Filter)

  /** One element of the log: add and enable the filter, or delete it. */
  datatype Change = Change(watch: Watch, add: bool)

  /** A request needs this filter. */
  predicate Wants(mask: Mask, filter: Filter) {
    match filter
    case ReadFilter => WantsRead(mask)
    case WriteFilter => WantsWrite(mask)
  }

  datatype KqueueState =
    KqueueState(requests: seq<Request>, fd2req: seq<nat>, changes: seq<Change>, kernel: set<Watch>)

  // ----- the log -------------------------------------------------------------------------------------

  /** What the system does with one change; deleting an absent filter does nothing. */
  function Obey(kernel: set<Watch>, change: Change): set<Watch> {
    if change.add then kernel + {change.watch} else kernel - {change.watch}
  }

  function Replay(changes: seq<Change>, kernel: set<Watch>): set<Watch> {
    if changes == [] then kernel
    else Obey(Replay(changes[..|changes| - 1], kernel), changes[|changes| - 1])
  }

  function If(asked: bool, change: Change): seq<Change> {
    if asked then [change] else []
  }

  /** The changes pushed for a descriptor: the same for both filters, each if asked for. */
  function Entries(fd: nat, read: bool, write: bool, add: bool): seq<Change> {
    If(read, Change(Watch(fd, ReadFilter), add)) + If(write, Change(Watch(fd, WriteFilter), add))
  }

  predicate Asked(filter: Filter, read: bool, write: bool) {
    match filter
    case ReadFilter => read
    case WriteFilter => write
  }

  lemma ReplayOneMore(changes: seq<Change>, asked: bool, change: Change, kernel: set<Watch>)
    ensures Replay(changes + If(asked, change), kernel) ==
            if asked then Obey(Replay(changes, kernel), change) else Replay(changes, kernel)
  {
    if asked {
      assert (changes + [change])[..|changes|] == changes;
    } else {
      assert changes + If(asked, change) == changes;
    }
  }

  /** Pushed entries overrule the log before them for their own watches only. */
  lemma ReplayEntries(changes: seq<Change>, kernel: set<Watch>, fd: nat, read: bool, write: bool, add: bool,
                      watch: Watch)
    ensures watch in Replay(changes + Entries(fd, read, write, add), kernel) <==>
            if watch.fd == fd && Asked(watch.filter, read, write) then add else watch in Replay(changes, kernel)
  {
    var r, w := Change(Watch(fd, ReadFilter), add), Change(Watch(fd, WriteFilter), add);
    assert changes + Entries(fd, read, write, add) == (changes + If(read, r)) + If(write, w);
    ReplayOneMore(changes, read, r, kernel);
    ReplayOneMore(changes + If(read, r), write, w, kernel);
    hide Replay, If;
    match watch.filter {
      case ReadFilter => assert watch != w.watch && (watch == r.watch <==> watch.fd == fd);
      case WriteFilter => assert watch != r.watch && (watch == w.watch <==> watch.fd == fd);
    }
  }

  // ----- one operation on values -------------------------------------------------------------------

  /** Adds bits to the mask and pushes additions for them. */
  function SetBits(st: KqueueState, fd: nat, value: Mask): KqueueState
    requires Mapped(st.fd2req, fd) && st.fd2req[fd] < |st.requests|
  {
    var i := st.fd2req[fd];
    st.(requests := st.requests[i := st.requests[i].(mask := Or(st.requests[i].mask, value))],
        changes := st.changes + Entries(fd, WantsRead(value), WantsWrite(value), true))
  }

  /** Keeps only the given bits of the mask; pushes deletions where `value` has no bit of a pair. */
  function ClearBits(st: KqueueState, fd: nat, value: Mask): KqueueState
    requires Mapped(st.fd2req, fd) && st.fd2req[fd] < |st.requests|
  {
    var i := st.fd2req[fd];
    st.(requests := st.requests[i := st.requests[i].(mask := And(st.requests[i].mask, value))],
        changes := st.changes + Entries(fd, !WantsRead(value), !WantsWrite(value), false))
  }

  datatype Call = Register(op: Op) | Wait

  /** What the assertions ask of the caller. */
  predicate Allowed(st: KqueueState, call: Call) {
    match call
    case Wait => true
    case Register(Attach(req)) =>
      !WantsUrgent(req.mask) && !Mapped(st.fd2req, req.fd) && |st.requests| + 1 < UNMAPPED
    case Register(op) => Mapped(st.fd2req, op.fd)
  }

  function Apply(st: KqueueState, call: Call): KqueueState
    requires Allowed(st, call)
    requires call == Wait || call.op.Attach? || st.fd2req[call.op.fd] < |st.requests|
  {
    match call
    case Wait => st.(changes := [], kernel := Replay(st.changes, st.kernel))
    case Register(Attach(req)) =>
      var added := st.(requests := st.requests + [req], fd2req := WithFd(st.fd2req, req.fd, |st.requests|));
      SetBits(added, req.fd, req.mask)
    case Register(Detach(fd)) =>
      var i := st.fd2req[fd];
      var mask := st.requests[i].mask;
      st.(requests := Erased(st.requests, i), fd2req := WithoutFd(st.fd2req, fd),
          changes := st.changes + Entries(fd, WantsRead(mask), WantsWrite(mask), false))
    case Register(SetMask(fd, value)) => ClearBits(SetBits(st, fd, value), fd, value)
    case Register(AndMask(fd, value)) => ClearBits(st, fd, value)
    case Register(OrMask(fd, value)) => SetBits(st, fd, value)
  }

  // ----- what is left behind -------------------------------------------------------------------------

  ghost function View(st: KqueueState): map<nat, Request>
    requires Inverse(st.requests, st.fd2req)
  {
    Table(st.requests, st.fd2req)
  }

  predicate Wanted(m: map<nat, Request>, watch: Watch) {
    watch.fd in m && Wants(m[watch.fd].mask, watch.filter)
  }

  /** The filters the system will have once the log is replayed. */
  function Effective(st: KqueueState): set<Watch> {
    Replay(st.changes, st.kernel)
  }

  /** Filters that stay although no registered mask asks for them. */
  ghost function Leaked(st: KqueueState): set<Watch>
    requires Inverse(st.requests, st.fd2req)
  {
    var m := View(st);
    set watch | watch in Effective(st) && !Wanted(m, watch)
  }

  /** No registered mask is missing a filter. */
  ghost predicate Covered(st: KqueueState)
    requires Inverse(st.requests, st.fd2req)
  {
    var m := View(st);
    forall watch :: Wanted(m, watch) ==> watch in Effective(st)
  }

  /** Clearing forgets a filter: a bit of the pair was set, the operand keeps one, but not the same. */
  predicate Forgets(mask: Mask, value: Mask, filter: Filter) {
    Wants(mask, filter) && Wants(value, filter) && !Wants(And(mask, value), filter)
  }

  /** The call is for a registered descriptor, or makes one. */
  predicate Makes(m: map<nat, Request>, call: Call) {
    call == Wait || call.op.Attach? || call.op.fd in m
  }

  function MapAfter(m: map<nat, Request>, call: Call): map<nat, Request>
    requires Makes(m, call)
  {
    if call == Wait then m else Ideal(m, call.op)
  }

  /** Whether a filter is leaked after a call, told from the plain map and whether it was before. */
  predicate LeakedAfter(was: bool, m: map<nat, Request>, call: Call, watch: Watch)
    requires Makes(m, call)
  {
    match call
    case Wait => was
    case Register(Attach(req)) => was && !(watch.fd == req.fd && Wants(req.mask, watch.filter))
    case Register(Detach(fd)) => was
    case Register(SetMask(fd, value)) => was && watch.fd != fd
    case Register(OrMask(fd, value)) => was && !(watch.fd == fd && Wants(value, watch.filter))
    case Register(AndMask(fd, value)) =>
      if watch.fd == fd
      then Forgets(m[fd].mask, value, watch.filter) || (was && Wants(value, watch.filter))
      else was
  }

  // ----- masks ---------------------------------------------------------------------------------------

  lemma OrOfMasks(a: Mask, b: Mask)
    ensures WantsRead(Or(a, b)) <==> WantsRead(a) || WantsRead(b)
    ensures WantsWrite(Or(a, b)) <==> WantsWrite(a) || WantsWrite(b)
  {
  }

  /** What has no bit of a pair has none after more bits are cut. */
  lemma NoneLeft(a: Mask, b: Mask, pair: Mask)
    requires a & pair == 0
    ensures (a & b) & pair == 0 && (b & a) & pair == 0
  {
    assert (a & b) & pair == (a & pair) & b;
    assert (b & a) & pair == (a & pair) & b;
  }

  lemma AndOfReads(a: Mask, b: Mask)
    ensures WantsRead(And(a, b)) ==> WantsRead(a) && WantsRead(b)
  {
    hide WantsWrite;
    if !WantsRead(a) {
      NoneLeft(a, b, IO_ACCEPT | IO_READ);
    } else if !WantsRead(b) {
      NoneLeft(b, a, IO_ACCEPT | IO_READ);
    }
  }

  lemma AndOfWrites(a: Mask, b: Mask)
    ensures WantsWrite(And(a, b)) ==> WantsWrite(a) && WantsWrite(b)
  {
    hide WantsRead;
    if !WantsWrite(a) {
      NoneLeft(a, b, IO_CONNECT | IO_WRITE);
    } else if !WantsWrite(b) {
      NoneLeft(b, a, IO_CONNECT | IO_WRITE);
    }
  }

  lemma AndOfMasks(a: Mask, b: Mask)
    ensures WantsRead(And(a, b)) ==> WantsRead(a) && WantsRead(b)
    ensures WantsWrite(And(a, b)) ==> WantsWrite(a) && WantsWrite(b)
  {
    hide And, WantsRead, WantsWrite;
    AndOfReads(a, b);
    AndOfWrites(a, b);
  }

  lemma OrWants(a: Mask, b: Mask, filter: Filter)
    ensures Wants(Or(a, b), filter) <==> Wants(a, filter) || Wants(b, filter)
  {
    hide Or, WantsRead, WantsWrite;
    OrOfMasks(a, b);
  }

  lemma AndWants(a: Mask, b: Mask, filter: Filter)
    ensures Wants(And(a, b), filter) ==> Wants(a, filter) && Wants(b, filter)
  {
    hide And, WantsRead, WantsWrite;
    AndOfMasks(a, b);
  }

  lemma OrThenAnd(a: Mask, b: Mask)
    ensures And(Or(a, b), b) == b && Or(b, b) == b
  {
  }

  /** The operand has both bits of each pair, or none. */
  predicate WholePairs(value: Mask) {
    && (WantsRead(value) ==> value & (IO_ACCEPT | IO_READ) == IO_ACCEPT | IO_READ)
    && (WantsWrite(value) ==> value & (IO_CONNECT | IO_WRITE) == IO_CONNECT | IO_WRITE)
  }

  lemma WholePairsForgetNothing(mask: Mask, value: Mask, filter: Filter)
    requires WholePairs(value)
    ensures !Forgets(mask, value, filter)
  {
  }

  /** An operand that splits a pair forgets a filter for some mask. */
  lemma SplitPairsForget(value: Mask)
    requires !WholePairs(value)
    ensures exists mask: Mask, filter :: !WantsUrgent(mask) && Forgets(mask, value, filter)
  {
    if WantsRead(value) && value & (IO_ACCEPT | IO_READ) != IO_ACCEPT | IO_READ {
      var mask := if value & IO_READ == 0 then IO_READ else IO_ACCEPT;
      assert !WantsUrgent(mask) && Forgets(mask, value, ReadFilter);
    } else {
      var mask := if value & IO_WRITE == 0 then IO_WRITE else IO_CONNECT;
      assert !WantsUrgent(mask) && Forgets(mask, value, WriteFilter);
    }
  }

  // ----- what one call does --------------------------------------------------------------------------

  lemma SetEffect(st: KqueueState, fd: nat, value: Mask, watch: Watch)
    requires Inverse(st.requests, st.fd2req) && Mapped(st.fd2req, fd)
    ensures fd in View(st) && st.fd2req[fd] < |st.requests|
    ensures var st' := SetBits(st, fd, value);
            && Inverse(st'.requests, st'.fd2req)
            && View(st') == View(st)[fd := View(st)[fd].(mask := Or(View(st)[fd].mask, value))]
            && (watch in Effective(st') <==> watch in Effective(st) || (watch.fd == fd && Wants(value, watch.filter)))
            && (Wanted(View(st'), watch) <==> Wanted(View(st), watch) || (watch.fd == fd && Wants(value, watch.filter)))
  {
    hide Inverse, Table, Replay, WantsRead, WantsWrite, Or;
    RequestAt(st.requests, st.fd2req, fd);
    UpdateKeepsInverse(st.requests, st.fd2req, fd, Or(View(st)[fd].mask, value));
    ReplayEntries(st.changes, st.kernel, fd, WantsRead(value), WantsWrite(value), true, watch);
    OrWants(View(st)[fd].mask, value, watch.filter);
  }

  lemma ClearEffect(st: KqueueState, fd: nat, value: Mask, watch: Watch)
    requires Inverse(st.requests, st.fd2req) && Mapped(st.fd2req, fd)
    ensures fd in View(st) && st.fd2req[fd] < |st.requests|
    ensures var st' := ClearBits(st, fd, value);
            && Inverse(st'.requests, st'.fd2req)
            && View(st') == View(st)[fd := View(st)[fd].(mask := And(View(st)[fd].mask, value))]
            && (watch in Effective(st') <==> watch in Effective(st) && (watch.fd == fd ==> Wants(value, watch.filter)))
  {
    hide Inverse, Table, Replay, WantsRead, WantsWrite, And;
    RequestAt(st.requests, st.fd2req, fd);
    UpdateKeepsInverse(st.requests, st.fd2req, fd, And(View(st)[fd].mask, value));
    ReplayEntries(st.changes, st.kernel, fd, !WantsRead(value), !WantsWrite(value), false, watch);
  }

  /** What every call has to do to the map, and to each filter. */
  ghost predicate Refines(st: KqueueState, call: Call, st': KqueueState, watch: Watch) {
    && Inverse(st.requests, st.fd2req) && Inverse(st'.requests, st'.fd2req)
    && Makes(View(st), call) && View(st') == MapAfter(View(st), call)
    && ((Wanted(View(st), watch) ==> watch in Effective(st)) ==>
          && (Wanted(View(st'), watch) ==> watch in Effective(st'))
          && (watch in Leaked(st') <==> LeakedAfter(watch in Leaked(st), View(st), call, watch)))
  }

  lemma AttachEffect(st: KqueueState, req: Request, watch: Watch)
    requires Inverse(st.requests, st.fd2req) && Allowed(st, Register(Attach(req)))
    ensures Refines(st, Register(Attach(req)), Apply(st, Register(Attach(req))), watch)
  {
    hide Inverse, Table, Replay, WantsRead, WantsWrite, Or;
    var added := st.(requests := st.requests + [req], fd2req := WithFd(st.fd2req, req.fd, |st.requests|));
    AddKeepsInverse(st.requests, st.fd2req, req);
    assert Mapped(added.fd2req, req.fd);
    SetEffect(added, req.fd, req.mask, watch);
    OrThenAnd(req.mask, req.mask);
    Absent(st, req.fd);
  }

  lemma Absent(st: KqueueState, fd: nat)
    requires Inverse(st.requests, st.fd2req) && !Mapped(st.fd2req, fd)
    ensures fd !in View(st)
  {
  }

  lemma DetachEffect(st: KqueueState, fd: nat, watch: Watch)
    requires Inverse(st.requests, st.fd2req) && Mapped(st.fd2req, fd)
    ensures st.fd2req[fd] < |st.requests|
    ensures Refines(st, Register(Detach(fd)), Apply(st, Register(Detach(fd))), watch)
  {
    hide Inverse, Table, Replay, WantsRead, WantsWrite;
    RequestAt(st.requests, st.fd2req, fd);
    RemoveKeepsInverse(st.requests, st.fd2req, fd);
    var mask := View(st)[fd].mask;
    ReplayEntries(st.changes, st.kernel, fd, WantsRead(mask), WantsWrite(mask), false, watch);
  }

  lemma SetMaskEffect(st: KqueueState, fd: nat, value: Mask, watch: Watch)
    requires Inverse(st.requests, st.fd2req) && Mapped(st.fd2req, fd)
    ensures st.fd2req[fd] < |st.requests|
    ensures Refines(st, Register(SetMask(fd, value)), Apply(st, Register(SetMask(fd, value))), watch)
  {
    hide Inverse, Table, Replay, WantsRead, WantsWrite, And, Or;
    SetEffect(st, fd, value, watch);
    var between := SetBits(st, fd, value);
    ClearEffect(between, fd, value, watch);
    OrThenAnd(View(st)[fd].mask, value);
  }

  lemma AndMaskEffect(st: KqueueState, fd: nat, value: Mask, watch: Watch)
    requires Inverse(st.requests, st.fd2req) && Mapped(st.fd2req, fd)
    ensures st.fd2req[fd] < |st.requests|
    ensures Refines(st, Register(AndMask(fd, value)), Apply(st, Register(AndMask(fd, value))), watch)
  {
    hide Inverse, Table, Replay, WantsRead, WantsWrite, And;
    ClearEffect(st, fd, value, watch);
    AndWants(View(st)[fd].mask, value, watch.filter);
  }

  lemma OrMaskEffect(st: KqueueState, fd: nat, value: Mask, watch: Watch)
    requires Inverse(st.requests, st.fd2req) && Mapped(st.fd2req, fd)
    ensures st.fd2req[fd] < |st.requests|
    ensures Refines(st, Register(OrMask(fd, value)), Apply(st, Register(OrMask(fd, value))), watch)
  {
    hide Inverse, Table, Replay, WantsRead, WantsWrite, Or;
    SetEffect(st, fd, value, watch);
  }

  lemma CallEffect(st: KqueueState, call: Call, watch: Watch)
    requires Inverse(st.requests, st.fd2req) && Allowed(st, call)
    ensures call == Wait || call.op.Attach? || st.fd2req[call.op.fd] < |st.requests|
    ensures Refines(st, call, Apply(st, call), watch)
  {
    match call
    case Wait =>
    case Register(Attach(req)) => AttachEffect(st, req, watch);
    case Register(Detach(fd)) => DetachEffect(st, fd, watch);
    case Register(SetMask(fd, value)) => SetMaskEffect(st, fd, value, watch);
    case Register(AndMask(fd, value)) => AndMaskEffect(st, fd, value, watch);
    case Register(OrMask(fd, value)) => OrMaskEffect(st, fd, value, watch);
  }

  /** Every call keeps the tables, leaves no mask without its filters, and leaks exactly what
      `LeakedAfter` says. */
  lemma CallLeaks(st: KqueueState, call: Call)
    requires Inverse(st.requests, st.fd2req) && Covered(st) && Allowed(st, call)
    ensures Makes(View(st), call)
    ensures call == Wait || call.op.Attach? || st.fd2req[call.op.fd] < |st.requests|
    ensures var st' := Apply(st, call);
            && Inverse(st'.requests, st'.fd2req) && Covered(st') && View(st') == MapAfter(View(st), call)
            && (forall watch :: watch in Leaked(st') <==> LeakedAfter(watch in Leaked(st), View(st), call, watch))
  {
    hide Inverse, Table, Replay, Wanted, LeakedAfter, Leaked;
    CallEffect(st, call, Watch(0, ReadFilter));
    var st' := Apply(st, call);
    forall watch
      ensures Wanted(View(st'), watch) ==> watch in Effective(st')
      ensures watch in Leaked(st') <==> LeakedAfter(watch in Leaked(st), View(st), call, watch)
    {
      CallEffect(st, call, watch);
    }
  }

  // ----- whole runs ----------------------------------------------------------------------------------

  ghost predicate AllowedRun(st: KqueueState, calls: seq<Call>)
    requires Inverse(st.requests, st.fd2req)
    decreases |calls|
  {
    calls == []
    || (Allowed(st, calls[0])
        && (CallEffect(st, calls[0], Watch(0, ReadFilter)); AllowedRun(Apply(st, calls[0]), calls[1..])))
  }

  ghost function RunCalls(st: KqueueState, calls: seq<Call>): KqueueState
    requires Inverse(st.requests, st.fd2req) && AllowedRun(st, calls)
    decreases |calls|
  {
    if calls == [] then st
    else CallEffect(st, calls[0], Watch(0, ReadFilter)); RunCalls(Apply(st, calls[0]), calls[1..])
  }

  predicate KeepsPairs(call: Call) {
    call != Wait && call.op.AndMask? ==> WholePairs(call.op.value)
  }

  /** Replaying the log gives exactly the filters of the registered masks. */
  ghost predicate Exact(st: KqueueState)
    requires Inverse(st.requests, st.fd2req)
  {
    var m := View(st);
    forall watch :: watch in Effective(st) <==> Wanted(m, watch)
  }

  lemma NothingLeaked(st: KqueueState)
    requires Inverse(st.requests, st.fd2req)
    ensures Exact(st) <==> Covered(st) && Leaked(st) == {}
  {
    hide Inverse, Table, Replay, Wanted;
    var m := View(st);
    if Covered(st) && Leaked(st) == {} {
      forall watch
        ensures watch in Effective(st) <==> Wanted(m, watch)
      {
        assert watch !in Leaked(st);
      }
    }
  }

  /** One call from an exact state: only an `andMask` can spoil it, and does exactly when it
      forgets a filter. */
  lemma ExactAfterExactly(st: KqueueState, call: Call)
    requires Inverse(st.requests, st.fd2req) && Exact(st) && Allowed(st, call)
    ensures call == Wait || call.op.Attach? || (call.op.fd in View(st) && st.fd2req[call.op.fd] < |st.requests|)
    ensures Inverse(Apply(st, call).requests, Apply(st, call).fd2req)
    ensures Exact(Apply(st, call)) <==>
            !(call != Wait && call.op.AndMask?
              && exists filter :: Forgets(View(st)[call.op.fd].mask, call.op.value, filter))
  {
    hide Inverse, Table, Replay, Wanted, Forgets, Effective, Leaked, Exact, Covered;
    NothingLeaked(st);
    CallLeaks(st, call);
    var st' := Apply(st, call);
    NothingLeaked(st');
    if call != Wait && call.op.AndMask? {
      forall filter | Forgets(View(st)[call.op.fd].mask, call.op.value, filter)
        ensures Leaked(st') != {}
      {
        var watch := Watch(call.op.fd, filter);
        assert LeakedAfter(watch in Leaked(st), View(st), call, watch);
        assert watch in Leaked(st');
      }
    }
    if Leaked(st') != {} {
      var watch :| watch in Leaked(st');
      assert LeakedAfter(watch in Leaked(st), View(st), call, watch);
    }
  }

  /** Any run whose `andMask` operands keep or drop whole pairs ends exact. */
  lemma {:induction false} RunIsExact(st: KqueueState, calls: seq<Call>)
    requires Inverse(st.requests, st.fd2req) && Exact(st) && AllowedRun(st, calls)
    requires forall i :: 0 <= i < |calls| ==> KeepsPairs(calls[i])
    ensures var st' := RunCalls(st, calls); Inverse(st'.requests, st'.fd2req) && Exact(st')
    decreases |calls|
  {
    hide Exact, Inverse, Apply, Forgets;
    if calls != [] {
      var call := calls[0];
      ExactAfterExactly(st, call);
      if call != Wait && call.op.AndMask? {
        forall filter
          ensures !Forgets(View(st)[call.op.fd].mask, call.op.value, filter)
        {
          WholePairsForgetNothing(View(st)[call.op.fd].mask, call.op.value, filter);
        }
      }
      RunIsExact(Apply(st, call), calls[1..]);
    }
  }

  /** Any run at all leaves every registered mask with all its filters. */
  lemma {:induction false} RunIsCovered(st: KqueueState, calls: seq<Call>)
    requires Inverse(st.requests, st.fd2req) && Covered(st) && AllowedRun(st, calls)
    ensures var st' := RunCalls(st, calls); Inverse(st'.requests, st'.fd2req) && Covered(st')
    decreases |calls|
  {
    hide Covered, Inverse, Apply, LeakedAfter, Leaked;
    if calls != [] {
      CallLeaks(st, calls[0]);
      RunIsCovered(Apply(st, calls[0]), calls[1..]);
    }
  }

  /** The calls are for descriptors registered at the time. */
  predicate MakesAll(m: map<nat, Request>, calls: seq<Call>)
    decreases |calls|
  {
    calls == [] || (Makes(m, calls[0]) && MakesAll(MapAfter(m, calls[0]), calls[1..]))
  }

  /** Whether a filter is leaked after a run, told from the plain map and whether it was before. */
  predicate LeakedAfterRun(was: bool, m: map<nat, Request>, calls: seq<Call>, watch: Watch)
    requires MakesAll(m, calls)
    decreases |calls|
  {
    if calls == [] then was
    else LeakedAfterRun(LeakedAfter(was, m, calls[0], watch), MapAfter(m, calls[0]), calls[1..], watch)
  }

  /** What any run leaks. */
  lemma {:induction false} RunLeaksExactly(st: KqueueState, calls: seq<Call>, watch: Watch)
    requires Inverse(st.requests, st.fd2req) && Covered(st) && AllowedRun(st, calls)
    ensures MakesAll(View(st), calls)
    ensures var st' := RunCalls(st, calls);
            && Inverse(st'.requests, st'.fd2req)
            && (watch in Leaked(st') <==> LeakedAfterRun(watch in Leaked(st), View(st), calls, watch))
    decreases |calls|
  {
    hide Covered, Inverse, Apply, LeakedAfter, Leaked, Makes, MapAfter, Table;
    if calls != [] {
      CallLeaks(st, calls[0]);
      RunLeaksExactly(Apply(st, calls[0]), calls[1..], watch);
    }
  }

  /** A run ends exact exactly if the plain map says of no filter that it is leaked: no `andMask`
      has forgotten it, or a later call has made up for that. */
  lemma RunExactExactly(st: KqueueState, calls: seq<Call>)
    requires Inverse(st.requests, st.fd2req) && Covered(st) && AllowedRun(st, calls)
    ensures MakesAll(View(st), calls)
    ensures var st' := RunCalls(st, calls);
            && Inverse(st'.requests, st'.fd2req)
            && (Exact(st') <==>
                  forall watch :: !LeakedAfterRun(watch in Leaked(st), View(st), calls, watch))
  {
    hide Covered, Inverse, AllowedRun, RunCalls, LeakedAfterRun, MakesAll, Leaked, Exact, Table;
    RunLeaksExactly(st, calls, Watch(0, ReadFilter));
    RunIsCovered(st, calls);
    var st' := RunCalls(st, calls);
    NothingLeaked(st');
    forall watch
      ensures watch in Leaked(st') <==> LeakedAfterRun(watch in Leaked(st), View(st), calls, watch)
    {
      RunLeaksExactly(st, calls, watch);
    }
    NoMembers(Leaked(st'));
  }

  lemma NoMembers(leaked: set<Watch>)
    ensures leaked == {} <==> forall watch :: watch !in leaked
  {
  }

  /** A leaked filter outlives its registration: the system keeps it for a descriptor that no
      request is left for. */
  lemma LeakOutlivesDetach(st: KqueueState, watch: Watch)
    requires Inverse(st.requests, st.fd2req) && Covered(st) && watch in Leaked(st) && Mapped(st.fd2req, watch.fd)
    ensures st.fd2req[watch.fd] < |st.requests|
    ensures var st' := Apply(st, Register(Detach(watch.fd)));
            && Inverse(st'.requests, st'.fd2req) && watch.fd !in View(st')
            && watch in Apply(st', Wait).kernel
  {
    hide Inverse, Table, Replay, Wanted, Covered;
    CallLeaks(st, Register(Detach(watch.fd)));
    assert watch in Leaked(Apply(st, Register(Detach(watch.fd))));
  }

  // ----- the selector --------------------------------------------------------------------------------

  class Selector {
    const base: RequestTable
    var changes: seq<Change>
    /** The size of the result vector, room for two filters per request. */
    var results: nat
    /** The filters the system has; it is not ours to read. */
    ghost var kernel: set<Watch>

    ghost function State(): KqueueState
      reads this, base
    {
      KqueueState(base.requests, base.fd2req, changes, kernel)
    }

    ghost predicate Valid()
      reads this, base
    {
      Inverse(base.requests, base.fd2req) && Covered(State()) && results == 2 * |base.requests|
    }

    constructor ()
      ensures Valid() && fresh(base) && State() == KqueueState([], [], [], {})
    {
      base := new RequestTable();
      changes, results, kernel := [], 0, {};
    }

    method Attach(req: Request)
      requires Valid() && Allowed(State(), Register(Op.Attach(req)))
      modifies this, base
      ensures Valid() && State() == Apply(old(State()), Register(Op.Attach(req)))
    {
      hide Inverse, Covered, Replay, Or, WantsRead, WantsWrite;
      CallLeaks(State(), Register(Op.Attach(req)));
      base.Fdmap(req.fd, |base.requests|);
      base.AddReq(req);
      results := results + 2;
      DoSet(req.fd, req.mask);
    }

    method Detach(req: Request)
      requires Valid() && Allowed(State(), Register(Op.Detach(req.fd)))
      requires base.fd2req[req.fd] < |base.requests|
      requires base.requests[base.fd2req[req.fd]].channel == req.channel
      modifies this, base
      ensures Valid() && State() == Apply(old(State()), Register(Op.Detach(req.fd)))
    {
      hide Inverse, Covered, Replay, WantsRead, WantsWrite;
      CallLeaks(State(), Register(Op.Detach(req.fd)));
      RequestAt(base.requests, base.fd2req, req.fd);
      var mask := base.requests[base.fd2req[req.fd]].mask;
      if WantsRead(mask) {
        changes := changes + [Change(Watch(req.fd, ReadFilter), false)];
      }
      if WantsWrite(mask) {
        changes := changes + [Change(Watch(req.fd, WriteFilter), false)];
      }
      assert changes == old(changes) + Entries(req.fd, WantsRead(mask), WantsWrite(mask), false);
      results := results - 2;
      var index := base.Fdclear(req.fd);
      base.RemoveReq(req, index);
    }

    method DoSet(fd: nat, value: Mask)
      requires Mapped(base.fd2req, fd) && base.fd2req[fd] < |base.requests|
      modifies this`changes, base
      ensures State() == SetBits(old(State()), fd, value)
    {
      hide Or, WantsRead, WantsWrite;
      var i := base.fd2req[fd];
      base.SetRequestMask(i, Or(base.requests[i].mask, value));
      if WantsRead(value) {
        changes := changes + [Change(Watch(fd, ReadFilter), true)];
      }
      if WantsWrite(value) {
        changes := changes + [Change(Watch(fd, WriteFilter), true)];
      }
    }

    method DoClear(fd: nat, value: Mask)
      requires Mapped(base.fd2req, fd) && base.fd2req[fd] < |base.requests|
      modifies this`changes, base
      ensures State() == ClearBits(old(State()), fd, value)
    {
      hide And, WantsRead, WantsWrite;
      var i := base.fd2req[fd];
      base.SetRequestMask(i, And(base.requests[i].mask, value));
      if !WantsRead(value) {
        changes := changes + [Change(Watch(fd, ReadFilter), false)];
      }
      if !WantsWrite(value) {
        changes := changes + [Change(Watch(fd, WriteFilter), false)];
      }
    }

    method SetMask(fd: nat, value: Mask)
      requires Valid() && Allowed(State(), Register(Op.SetMask(fd, value)))
      modifies this, base
      ensures Valid() && State() == Apply(old(State()), Register(Op.SetMask(fd, value)))
    {
      hide Inverse, Covered, Replay, Or, And, WantsRead, WantsWrite;
      CallLeaks(State(), Register(Op.SetMask(fd, value)));
      DoSet(fd, value);
      DoClear(fd, value);
    }

    method AndMask(fd: nat, value: Mask)
      requires Valid() && Allowed(State(), Register(Op.AndMask(fd, value)))
      modifies this, base
      ensures Valid() && State() == Apply(old(State()), Register(Op.AndMask(fd, value)))
    {
      hide Inverse, Covered, Replay, And, WantsRead, WantsWrite;
      CallLeaks(State(), Register(Op.AndMask(fd, value)));
      DoClear(fd, value);
    }

    method OrMask(fd: nat, value: Mask)
      requires Valid() && Allowed(State(), Register(Op.OrMask(fd, value)))
      modifies this, base
      ensures Valid() && State() == Apply(old(State()), Register(Op.OrMask(fd, value)))
    {
      hide Inverse, Covered, Replay, Or, WantsRead, WantsWrite;
      CallLeaks(State(), Register(Op.OrMask(fd, value)));
      DoSet(fd, value);
    }

    /** Hands the whole log to the system and empties it; `found` events come back. */
    method Wait(found: nat) returns (ready: bool)
      requires Valid() && found <= results
      modifies this
      ensures Valid() && State() == Apply(old(State()), Call.Wait) && results == old(results)
      ensures changes == [] && kernel == Replay(old(changes), old(kernel))
      ensures ready == (found > 0)
    {
      hide Inverse, Covered, Replay;
      CallLeaks(State(), Call.Wait);
      var log := changes;
      changes := [];
      kernel := Replay(log, kernel);
      ready := found > 0;
    }
  }
}
