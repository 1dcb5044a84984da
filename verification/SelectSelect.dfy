/** `IOSelectSelect`: descriptor sets for `select`, kept in step with the registered masks. */
module SelectSelect {
  import opened FdMap
  import opened SelectScan
  import opened SelectTypes
  import opened Sequences
  import opened Wrappers

  /** The number of descriptors a set of the system can hold. */
  const FD_SETSIZE: nat := 1024

  datatype Interest = Interest(r: set<nat>, w: set<nat>, e: set<nat>) {
    function All(): set<nat> {
      r + w + e
    }

    predicate Within(sets: Interest) {
      r <= sets.r && w <= sets.w && e <= sets.e
    }

    /** The sets after a descriptor's bits are set or cleared for a mask. */
    function With(fd: nat, mask: Mask): Interest {
      Interest(
        if WantsRead(mask) then r + {fd} else r - {fd},
        if WantsWrite(mask) then w + {fd} else w - {fd},
        if WantsUrgent(mask) then e + {fd} else e - {fd})
    }
  }

  datatype SelectState = SelectState(requests: seq<Request>, fd2req: seq<nat>, maxfd: int, sets: Interest)

  /** The sets are exactly the registered masks, translated. */
  ghost predicate Translated(m: map<nat, Request>, sets: Interest) {
    && (forall fd :: fd in sets.r <==> fd in m && WantsRead(m[fd].mask))
    && (forall fd :: fd in sets.w <==> fd in m && WantsWrite(m[fd].mask))
    && (forall fd :: fd in sets.e <==> fd in m && WantsUrgent(m[fd].mask))
  }

  predicate Bounds(maxfd: int, fds: set<nat>) {
    -1 <= maxfd && forall fd :: fd in fds ==> fd <= maxfd
  }

  ghost predicate Consistent(st: SelectState) {
    && Inverse(st.requests, st.fd2req)
    && Translated(Table(st.requests, st.fd2req), st.sets)
    && Bounds(st.maxfd, st.sets.All())
  }

  ghost function View(st: SelectState): map<nat, Request>
    requires Consistent(st)
  {
    Table(st.requests, st.fd2req)
  }

  // ----- one operation on values -------------------------------------------------------------------

  /** What the assertions ask of the caller. */
  predicate Allowed(st: SelectState, op: Op) {
    match op
    case Attach(req) => req.fd < FD_SETSIZE && !Mapped(st.fd2req, req.fd) && |st.requests| + 1 < UNMAPPED
    case _ => Mapped(st.fd2req, op.fd) && op.fd <= st.maxfd
  }

  function WithMask(st: SelectState, fd: nat, mask: Mask): SelectState
    requires Mapped(st.fd2req, fd) && st.fd2req[fd] < |st.requests|
  {
    var i := st.fd2req[fd];
    st.(requests := st.requests[i := st.requests[i].(mask := mask)], sets := st.sets.With(fd, mask))
  }

  /** The limit lowered to the next member of `fds`, or to -1. */
  function Lower(maxfd: int, fds: set<nat>): (m: int)
    requires -1 <= maxfd
    ensures -1 <= m <= maxfd
  {
    if maxfd >= 0 && maxfd !in fds then Lower(maxfd - 1, fds) else maxfd
  }

  function Apply(st: SelectState, op: Op): SelectState
    requires Allowed(st, op) && -1 <= st.maxfd
    requires op.Attach? || st.fd2req[op.fd] < |st.requests|
  {
    match op
    case Attach(req) =>
      SelectState(st.requests + [req], WithFd(st.fd2req, req.fd, |st.requests|),
                  if req.fd > st.maxfd then req.fd else st.maxfd, st.sets.With(req.fd, req.mask))
    case Detach(fd) =>
      var cleared := WithMask(st, fd, 0);
      SelectState(Erased(cleared.requests, st.fd2req[fd]), WithoutFd(st.fd2req, fd),
                  Lower(st.maxfd, cleared.sets.All()), cleared.sets)
    case SetMask(fd, value) => WithMask(st, fd, value)
    case AndMask(fd, value) => WithMask(st, fd, And(st.requests[st.fd2req[fd]].mask, value))
    case OrMask(fd, value) => WithMask(st, fd, Or(st.requests[st.fd2req[fd]].mask, value))
  }

  /** The limit is the highest descriptor anybody is interested in, or -1. */
  predicate Tight(st: SelectState) {
    Bounds(st.maxfd, st.sets.All()) && (st.maxfd >= 0 ==> st.maxfd in st.sets.All())
  }

  lemma {:induction false} LowerIsHighest(maxfd: int, fds: set<nat>)
    requires Bounds(maxfd, fds)
    ensures Bounds(Lower(maxfd, fds), fds)
    ensures Lower(maxfd, fds) >= 0 ==> Lower(maxfd, fds) in fds
    decreases maxfd
  {
    if maxfd >= 0 && maxfd !in fds {
      LowerIsHighest(maxfd - 1, fds);
    }
  }

  // ----- every operation, every run ----------------------------------------------------------------

  lemma WithKeepsTranslation(m: map<nat, Request>, sets: Interest, req: Request)
    requires Translated(m, sets)
    ensures Translated(m[req.fd := req], sets.With(req.fd, req.mask))
  {
    hide WantsRead, WantsWrite, WantsUrgent;
  }

  lemma WithMaskRefines(st: SelectState, fd: nat, mask: Mask)
    requires Consistent(st) && Mapped(st.fd2req, fd) && fd <= st.maxfd
    ensures Consistent(WithMask(st, fd, mask))
    ensures fd in View(st) && View(WithMask(st, fd, mask)) == View(st)[fd := View(st)[fd].(mask := mask)]
  {
    hide WantsRead, WantsWrite, WantsUrgent, Translated, Inverse, Table;
    RequestAt(st.requests, st.fd2req, fd);
    UpdateKeepsInverse(st.requests, st.fd2req, fd, mask);
    WithKeepsTranslation(View(st), st.sets, View(st)[fd].(mask := mask));
  }

  lemma AttachRefines(st: SelectState, req: Request)
    requires Consistent(st) && Allowed(st, Attach(req))
    ensures var st' := Apply(st, Attach(req)); Consistent(st') && View(st') == View(st)[req.fd := req]
  {
    hide WantsRead, WantsWrite, WantsUrgent, Translated, Inverse, Table;
    AddKeepsInverse(st.requests, st.fd2req, req);
    WithKeepsTranslation(View(st), st.sets, req);
  }

  /** A request whose mask is zero has no bit in the sets, so it can go. */
  lemma SilentGoes(m: map<nat, Request>, sets: Interest, fd: nat)
    requires Translated(m, sets) && fd in m && m[fd].mask == 0
    ensures Translated(m - {fd}, sets)
  {
    assert !WantsRead(0) && !WantsWrite(0) && !WantsUrgent(0);
  }

  /** Detaching leaves the limit at the highest descriptor with interest, or -1. */
  lemma DetachRefines(st: SelectState, fd: nat)
    requires Consistent(st) && Allowed(st, Detach(fd))
    ensures var st' := Apply(st, Detach(fd)); Consistent(st') && Tight(st') && View(st') == View(st) - {fd}
  {
    hide WantsRead, WantsWrite, WantsUrgent, Translated, Inverse, Table;
    RequestAt(st.requests, st.fd2req, fd);
    var cleared := WithMask(st, fd, 0);
    WithMaskRefines(st, fd, 0);
    RemoveKeepsInverse(cleared.requests, cleared.fd2req, fd);
    SilentGoes(View(cleared), cleared.sets, fd);
    LowerIsHighest(st.maxfd, cleared.sets.All());
    assert View(cleared) - {fd} == View(st) - {fd};
  }

  /** Every operation keeps the tables and sets consistent and does to the map what it should. */
  lemma ApplyRefines(st: SelectState, op: Op)
    requires Consistent(st) && Allowed(st, op)
    ensures op.Attach? || (op.fd in View(st) && st.fd2req[op.fd] < |st.requests|)
    ensures Consistent(Apply(st, op)) && View(Apply(st, op)) == Ideal(View(st), op)
  {
    hide WithMask, Inverse, Table, Translated, And, Or;
    if !op.Attach? {
      RequestAt(st.requests, st.fd2req, op.fd);
    }
    match op
    case Attach(req) => AttachRefines(st, req);
    case Detach(fd) => DetachRefines(st, fd);
    case SetMask(fd, value) => WithMaskRefines(st, fd, value);
    case AndMask(fd, value) =>
      var mask := st.requests[st.fd2req[fd]].mask;
      WithMaskRefines(st, fd, And(mask, value));
    case OrMask(fd, value) =>
      var mask := st.requests[st.fd2req[fd]].mask;
      WithMaskRefines(st, fd, Or(mask, value));
  }

  ghost predicate AllowedRun(st: SelectState, ops: seq<Op>)
    requires Consistent(st)
    decreases |ops|
  {
    ops == [] || (Allowed(st, ops[0]) && (ApplyRefines(st, ops[0]); AllowedRun(Apply(st, ops[0]), ops[1..])))
  }

  ghost function RunOps(st: SelectState, ops: seq<Op>): SelectState
    requires Consistent(st) && AllowedRun(st, ops)
    decreases |ops|
  {
    if ops == [] then st else ApplyRefines(st, ops[0]); RunOps(Apply(st, ops[0]), ops[1..])
  }

  /** Over every run the three sets are exactly the translated masks of the plain map. */
  lemma {:induction false} RunRefines(st: SelectState, ops: seq<Op>)
    requires Consistent(st) && AllowedRun(st, ops)
    ensures IdealAllowed(View(st), ops) && Consistent(RunOps(st, ops))
    ensures Translated(IdealRun(View(st), ops), RunOps(st, ops).sets)
    ensures Watched(IdealRun(View(st), ops), RunOps(st, ops).sets)
    decreases |ops|
  {
    if ops != [] {
      ApplyRefines(st, ops[0]);
      RunRefines(Apply(st, ops[0]), ops[1..]);
    }
    TranslatedIsWatched(IdealRun(View(st), ops), RunOps(st, ops).sets);
  }

  /** The same, told from the bits of the masks. */
  ghost predicate Watched(m: map<nat, Request>, sets: Interest) {
    && (forall fd :: fd in sets.r <==> fd in m && (m[fd].mask & 0x01 != 0 || m[fd].mask & 0x08 != 0))
    && (forall fd :: fd in sets.w <==> fd in m && (m[fd].mask & 0x02 != 0 || m[fd].mask & 0x10 != 0))
    && (forall fd :: fd in sets.e <==> fd in m && m[fd].mask & 0x04 != 0)
  }

  lemma TranslatedIsWatched(m: map<nat, Request>, sets: Interest)
    requires Translated(m, sets)
    ensures Watched(m, sets)
  {
    forall fd | fd in m
      ensures WantsRead(m[fd].mask) <==> m[fd].mask & 0x01 != 0 || m[fd].mask & 0x08 != 0
      ensures WantsWrite(m[fd].mask) <==> m[fd].mask & 0x02 != 0 || m[fd].mask & 0x10 != 0
      ensures WantsUrgent(m[fd].mask) <==> m[fd].mask & 0x04 != 0
    {
      InterestBits(m[fd].mask);
    }
    hide WantsRead, WantsWrite, WantsUrgent;
  }

  /** Lowering the limit looks at interest only. A descriptor still registered, but with an empty
      mask, may be left above it, and then the assertion of `setMask` refuses it. */
  lemma StillSettableExactly(st: SelectState, fd: nat, other: nat, value: Mask)
    requires Consistent(st) && Allowed(st, Detach(fd)) && Mapped(st.fd2req, other) && other != fd
    ensures var st' := Apply(st, Detach(fd));
            Allowed(st', SetMask(other, value)) <==> exists x :: x in st.sets.All() && x != fd && x >= other
  {
    hide WantsRead, WantsWrite, WantsUrgent, Translated, Inverse, Table;
    DetachRefines(st, fd);
    RequestAt(st.requests, st.fd2req, fd);
    RequestAt(st.requests, st.fd2req, other);
    var st' := Apply(st, Detach(fd));
    WithoutInterest(st.sets, fd);
    DifferentRequests(st, fd, other);
    assert Mapped(st'.fd2req, other);
    assert st'.sets.All() == st.sets.All() - {fd};
    if other <= st'.maxfd {
      assert st'.maxfd in st.sets.All() && st'.maxfd != fd;
    } else {
      assert forall x :: x in st.sets.All() && x != fd ==> x in st'.sets.All();
    }
  }

  lemma WithoutInterest(sets: Interest, fd: nat)
    ensures sets.With(fd, 0).All() == sets.All() - {fd}
  {
    assert !WantsRead(0) && !WantsWrite(0) && !WantsUrgent(0);
  }

  lemma DifferentRequests(st: SelectState, fd: nat, other: nat)
    requires Consistent(st) && Mapped(st.fd2req, fd) && Mapped(st.fd2req, other) && fd != other
    ensures Mapped(WithoutFd(st.fd2req, fd), other)
  {
  }

  // ----- scanning after a wait ----------------------------------------------------------------------

  /** The scan right after `select` returned the number of bits in `found`. */
  function Fresh(maxfd: int, found: Interest): Scan {
    Scan(maxfd, -1, |found.r| + |found.w| + |found.e|, found.r, found.w, found.e)
  }

  lemma FreshIsCounted(maxfd: int, found: Interest)
    requires Bounds(maxfd, found.All())
    ensures Counted(Fresh(maxfd, found)) && Above(found.All(), -1) == found.All()
    ensures Fresh(maxfd, found).nready > 0 <==> found.All() != {}
  {
    assert Above(found.r, -1) == found.r && Above(found.w, -1) == found.w && Above(found.e, -1) == found.e;
    assert Above(found.All(), -1) == found.All();
    NothingLeftExactly(Fresh(maxfd, found));
  }

  /** What the client gets to see of an event: the bits it registered for. */
  function Masked(m: map<nat, Request>, event: Option<Event>): Option<Event>
    requires event.Some? ==> event.value.fd in m
  {
    if event == None then None else Some(Event(event.value.fd, And(m[event.value.fd].mask, event.value.events)))
  }

  /** The bits a client gets: of those it registered for, the ones the descriptor is ready for. */
  lemma MaskedBits(m: map<nat, Request>, fd: nat, read: bool, write: bool, urgent: bool)
    requires fd in m
    ensures var events := IOEvents(read, write, urgent);
            var seen := Masked(m, Some(Event(fd, events)));
            && seen.Some? && seen.value.fd == fd
            && seen.value.events & 0x01 == (if read then m[fd].mask & 0x01 else 0)
            && seen.value.events & 0x08 == (if read then m[fd].mask & 0x08 else 0)
            && seen.value.events & 0x02 == (if write then m[fd].mask & 0x02 else 0)
            && seen.value.events & 0x10 == (if write then m[fd].mask & 0x10 else 0)
            && seen.value.events & 0x04 == (if urgent then m[fd].mask & 0x04 else 0)
            && seen.value.events & 0xFFFF_FFE0 == 0
  {
    ReportedBits(m[fd].mask, read, write, urgent);
    hide And, IOEvents;
  }

  /** Clearing the bits before setting them makes no difference. */
  lemma ClearedFirst(sets: Interest, fd: nat, mask: Mask)
    ensures Interest(sets.r - {fd}, sets.w - {fd}, sets.e - {fd}).With(fd, mask) == sets.With(fd, mask)
  {
    hide WantsRead, WantsWrite, WantsUrgent;
    assert sets.r - {fd} - {fd} == sets.r - {fd} && sets.r - {fd} + {fd} == sets.r + {fd};
    assert sets.w - {fd} - {fd} == sets.w - {fd} && sets.w - {fd} + {fd} == sets.w + {fd};
    assert sets.e - {fd} - {fd} == sets.e - {fd} && sets.e - {fd} + {fd} == sets.e + {fd};
  }

  /** The events as clients get them. */
  ghost predicate DeliveredAs(m: map<nat, Request>, raw: seq<Event>, events: seq<Event>) {
    && |raw| == |events|
    && forall i :: 0 <= i < |raw| ==> raw[i].fd in m && Some(events[i]) == Masked(m, Some(raw[i]))
  }

  lemma NothingRegistered(st: SelectState)
    requires Consistent(st) && st.requests == []
    ensures st.sets.All() == {}
  {
    hide WantsRead, WantsWrite, WantsUrgent;
    forall fd | fd in st.sets.All()
      ensures false
    {
      InterestIsMapped(st, fd);
    }
  }

  /** Attaching only sets bits; there are none to clear. */
  lemma NotYetThere(st: SelectState, fd: nat)
    requires Consistent(st) && !Mapped(st.fd2req, fd)
    ensures fd !in st.sets.All()
  {
    hide WantsRead, WantsWrite, WantsUrgent;
  }

  lemma InterestIsMapped(st: SelectState, fd: nat)
    requires Consistent(st) && fd in st.sets.All()
    ensures Mapped(st.fd2req, fd) && fd in View(st)
  {
    hide WantsRead, WantsWrite, WantsUrgent;
  }

  method Collect(read: bool, write: bool, urgent: bool) returns (events: Mask)
    ensures events == IOEvents(read, write, urgent)
  {
    events := 0;
    if read {
      events := events | (IO_READ | IO_ACCEPT);
    }
    if write {
      events := events | (IO_WRITE | IO_CONNECT);
    }
    if urgent {
      events := events | IO_URGENT;
    }
  }

  // ----- the selector --------------------------------------------------------------------------------

  class Selector {
    const base: RequestTable
    var sets: Interest
    var status: Interest
    var maxfd: int
    var current: int
    var nready: int

    ghost function State(): SelectState
      reads this, base
    {
      SelectState(base.requests, base.fd2req, maxfd, sets)
    }

    function TheScan(): Scan
      reads this
    {
      Scan(maxfd, current, nready, status.r, status.w, status.e)
    }

    ghost predicate Valid()
      reads this, base
    {
      Consistent(State())
    }

    /** The status sets are those of a `wait` since which nothing was changed. */
    ghost predicate Scanning()
      reads this, base
    {
      Valid() && Counted(TheScan()) && status.Within(sets)
    }

    constructor ()
      ensures Valid() && fresh(base) && State() == SelectState([], [], -1, Interest({}, {}, {}))
    {
      base := new RequestTable();
      sets, status := Interest({}, {}, {}), Interest({}, {}, {});
      maxfd, current, nready := -1, -1, 0;
    }

    /** Sets the bits of a descriptor that has none. */
    method AddInterest(fd: nat, mask: Mask)
      requires fd !in sets.All()
      modifies this`sets
      ensures sets == old(sets).With(fd, mask)
    {
      hide WantsRead, WantsWrite, WantsUrgent;
      if WantsRead(mask) {
        sets := sets.(r := sets.r + {fd});
      }
      if WantsWrite(mask) {
        sets := sets.(w := sets.w + {fd});
      }
      if WantsUrgent(mask) {
        sets := sets.(e := sets.e + {fd});
      }
    }

    method Attach(req: Request)
      requires Valid() && Allowed(State(), Op.Attach(req))
      modifies this, base
      ensures Valid() && State() == Apply(old(State()), Op.Attach(req))
    {
      hide WantsRead, WantsWrite, WantsUrgent, Translated, Inverse, Table;
      ApplyRefines(State(), Op.Attach(req));
      NotYetThere(State(), req.fd);
      if req.fd > maxfd {
        maxfd := req.fd;
      }
      AddInterest(req.fd, req.mask);
      base.Fdmap(req.fd, |base.requests|);
      base.AddReq(req);
    }

    method Detach(req: Request)
      requires Valid() && Allowed(State(), Op.Detach(req.fd))
      requires base.fd2req[req.fd] < |base.requests|
      requires base.requests[base.fd2req[req.fd]].channel == req.channel
      modifies this, base
      ensures Valid() && Tight(State()) && State() == Apply(old(State()), Op.Detach(req.fd))
    {
      hide WantsRead, WantsWrite, WantsUrgent, Translated, Inverse, Table;
      DetachRefines(State(), req.fd);
      RequestAt(base.requests, base.fd2req, req.fd);
      SetMask(req.fd, 0);
      var index := base.Fdclear(req.fd);
      base.RemoveReq(req, index);
      ghost var limit := maxfd;
      while maxfd >= 0 && !(maxfd in sets.r || maxfd in sets.w || maxfd in sets.e)
        invariant -1 <= maxfd <= limit && Lower(limit, sets.All()) == Lower(maxfd, sets.All())
        invariant sets == old(sets.With(req.fd, 0))
        invariant base.requests == Erased(old(WithMask(State(), req.fd, 0).requests), index)
        invariant base.fd2req == old(WithoutFd(base.fd2req, req.fd))
        decreases maxfd
      {
        maxfd := maxfd - 1;
      }
    }

    method SetMask(fd: nat, value: Mask)
      requires Valid() && Allowed(State(), Op.SetMask(fd, value))
      modifies this, base
      ensures Valid() && State() == Apply(old(State()), Op.SetMask(fd, value))
    {
      hide WantsRead, WantsWrite, WantsUrgent, Translated, Inverse, Table;
      ApplyRefines(State(), Op.SetMask(fd, value));
      var index := base.fd2req[fd];
      base.SetRequestMask(index, value);
      ClearedFirst(sets, fd, value);
      sets := sets.(r := sets.r - {fd}, w := sets.w - {fd}, e := sets.e - {fd});
      AddInterest(fd, value);
    }

    method AndMask(fd: nat, value: Mask)
      requires Valid() && Allowed(State(), Op.AndMask(fd, value))
      modifies this, base
      ensures Valid() && State() == Apply(old(State()), Op.AndMask(fd, value))
    {
      RequestAt(base.requests, base.fd2req, fd);
      SetMask(fd, And(base.requests[base.fd2req[fd]].mask, value));
    }

    method OrMask(fd: nat, value: Mask)
      requires Valid() && Allowed(State(), Op.OrMask(fd, value))
      modifies this, base
      ensures Valid() && State() == Apply(old(State()), Op.OrMask(fd, value))
    {
      RequestAt(base.requests, base.fd2req, fd);
      SetMask(fd, Or(base.requests[base.fd2req[fd]].mask, value));
    }

    /** `select` leaves in `found` the descriptors of interest that are ready and returns how many
        bits these are, or fails. */
    method Wait(outcome: Option<Interest>) returns (result: Result<bool, string>)
      requires Valid()
      requires outcome.Some? ==> outcome.value.Within(sets)
      modifies this`status, this`nready, this`current
      ensures State() == old(State())
      ensures outcome.Some? ==>
                Scanning() && TheScan() == Fresh(maxfd, outcome.value) && result == Ok(outcome.value.All() != {})
      ensures outcome == None ==> result.Err? && nready == -1
    {
      hide Inverse, Table, Translated, WantsRead, WantsWrite, WantsUrgent;
      status := sets;
      match outcome
      case None =>
        nready := -1;
        result := Err("select()");
      case Some(found) =>
        status := found;
        nready := |found.r| + |found.w| + |found.e|;
        current := -1;
        FreshIsCounted(maxfd, found);
        result := Ok(nready > 0);
    }

    /** The next ready descriptor, or none. */
    method NextEvent() returns (event: Option<Event>)
      requires Scanning()
      modifies this`current, this`nready
      ensures Scanning() && State() == old(State()) && status == old(status)
      ensures TheScan() == Next(old(TheScan())).0
      ensures var found := Next(old(TheScan())).1;
              && (found.Some? ==> found.value.fd in View(State()))
              && event == Masked(View(State()), found)
    {
      hide IOEvents, Inverse, Table, And, Translated;
      ghost var start := TheScan();
      NextKeepsCount(start);
      if nready < 1 {
        return None;
      }
      var events: Mask := 0;
      while events == 0
        invariant -1 <= current && nready == old(nready)
        invariant events == 0 ==> Stop(current, maxfd, status.All()) == Stop(start.current, maxfd, status.All())
        invariant events != 0 ==>
                    && current == Stop(start.current, maxfd, status.All()) <= maxfd && current in status.All()
                    && events == IOEvents(current in status.r, current in status.w, current in status.e)
        decreases maxfd - current, events == 0
      {
        current := current + 1;
        if current > maxfd {
          break;
        }
        events := Collect(current in status.r, current in status.w, current in status.e);
      }
      if events == 0 {
        return None;
      }
      if And(events, IO_READ) != 0 {
        nready := nready - 1;
      }
      if And(events, IO_WRITE) != 0 {
        nready := nready - 1;
      }
      if And(events, IO_URGENT) != 0 {
        nready := nready - 1;
      }
      InterestIsMapped(State(), current);
      RequestAt(base.requests, base.fd2req, current);
      var req := base.requests[base.fd2req[current]];
      return Some(Event(current, And(req.mask, events)));
    }

    /** The loop of `IOSelector::dispatch` over callbacks that leave the registrations alone. */
    method Dispatch(found: Interest) returns (events: seq<Event>)
      requires Valid() && found.Within(sets)
      modifies this`status, this`nready, this`current
      ensures State() == old(State())
      ensures Counted(Fresh(maxfd, found))
      ensures DeliveredAs(View(State()), Drain(Fresh(maxfd, found)), events)
    {
      hide Inverse, Table, Translated, And, IOEvents, Next, Drain, Counted, BitsAbove;
      FreshIsCounted(maxfd, found);
      events := [];
      ghost var seen, all := [], Drain(Fresh(maxfd, found));
      if |base.requests| == 0 {
        NothingRegistered(State());
        NextKeepsCount(Fresh(maxfd, found));
        DrainOnce(Fresh(maxfd, found));
        return;
      }
      var _ := Wait(Some(found));
      while true
        invariant Scanning() && State() == old(State()) && status == found
        invariant seen + Drain(TheScan()) == all && DeliveredAs(View(State()), seen, events)
        decreases maxfd - current
      {
        ghost var before := TheScan();
        NextKeepsCount(before);
        DrainOnce(before);
        var event := NextEvent();
        if event == None {
          break;
        }
        events := events + [event.value];
        seen := seen + [Next(before).1.value];
      }
    }
  }
}
