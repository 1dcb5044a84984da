/** `IOSelectPoll`: the vector handed to `poll` stays parallel to the requests. */
module SelectPoll {
  import opened SelectTypes
  import opened Sequences
  import opened FdMap

  /** One element of the vector handed to the system. */
  datatype PollFd = PollFd(fd: nat, events: Mask, revents: Mask)

  datatype PollState = PollState(requests: seq<Request>, fd2req: seq<nat>, polls: seq<PollFd>)

  /** Tables inverse to each other, and for every request a poll entry with its translated mask
      at the same place. */
  ghost predicate Consistent(st: PollState) {
    && Inverse(st.requests, st.fd2req)
    && |st.polls| == |st.requests|
    && forall i :: 0 <= i < |st.polls| ==>
         st.polls[i].fd == st.requests[i].fd && st.polls[i].events == PollEvents(st.requests[i].mask)
  }

  // ----- one operation on values -------------------------------------------------------------------

  /** What the assertions ask of the caller: only unused descriptors are attached, and only
      registered ones are changed. */
  predicate Allowed(st: PollState, op: Op) {
    match op
    case Attach(req) => !Mapped(st.fd2req, req.fd) && |st.requests| + 1 < UNMAPPED
    case Detach(fd) => Mapped(st.fd2req, fd)
    case SetMask(fd, _) => Mapped(st.fd2req, fd)
    case AndMask(fd, _) => Mapped(st.fd2req, fd)
    case OrMask(fd, _) => Mapped(st.fd2req, fd)
  }

  function WithMask(st: PollState, fd: nat, mask: Mask): PollState
    requires Mapped(st.fd2req, fd) && st.fd2req[fd] < |st.requests| == |st.polls|
  {
    var i := st.fd2req[fd];
    PollState(st.requests[i := st.requests[i].(mask := mask)], st.fd2req,
              st.polls[i := st.polls[i].(events := PollEvents(mask))])
  }

  function Apply(st: PollState, op: Op): PollState
    requires Allowed(st, op) && |st.requests| == |st.polls|
    requires op.Attach? || st.fd2req[op.fd] < |st.requests|
  {
    match op
    case Attach(req) =>
      PollState(st.requests + [req], WithFd(st.fd2req, req.fd, |st.requests|),
                st.polls + [PollFd(req.fd, PollEvents(req.mask), 0)])
    case Detach(fd) =>
      var i := st.fd2req[fd];
      PollState(Erased(st.requests, i), WithoutFd(st.fd2req, fd), Erased(st.polls, i))
    case SetMask(fd, value) => WithMask(st, fd, value)
    case AndMask(fd, value) => WithMask(st, fd, And(st.requests[st.fd2req[fd]].mask, value))
    case OrMask(fd, value) => WithMask(st, fd, Or(st.requests[st.fd2req[fd]].mask, value))
  }

  ghost function View(st: PollState): map<nat, Request>
    requires Consistent(st)
  {
    Table(st.requests, st.fd2req)
  }

  /** A new mask goes to the request and, translated, to its poll entry. */
  lemma WithMaskRefines(st: PollState, fd: nat, mask: Mask)
    requires Consistent(st) && Mapped(st.fd2req, fd)
    ensures Consistent(WithMask(st, fd, mask)) && fd in View(st)
    ensures View(WithMask(st, fd, mask)) == View(st)[fd := View(st)[fd].(mask := mask)]
  {
    hide PollEvents;
    UpdateKeepsInverse(st.requests, st.fd2req, fd, mask);
  }

  lemma AttachRefines(st: PollState, req: Request)
    requires Consistent(st) && Allowed(st, Attach(req))
    ensures var st' := Apply(st, Attach(req)); Consistent(st') && View(st') == View(st)[req.fd := req]
  {
    hide PollEvents;
    AddKeepsInverse(st.requests, st.fd2req, req);
  }

  lemma DetachRefines(st: PollState, fd: nat)
    requires Consistent(st) && Allowed(st, Detach(fd))
    ensures var st' := Apply(st, Detach(fd)); Consistent(st') && View(st') == View(st) - {fd}
  {
    hide PollEvents;
    RemoveKeepsInverse(st.requests, st.fd2req, fd);
    ErasedParallel(st, st.fd2req[fd]);
  }

  /** Every operation keeps the tables consistent and does to the map what it should. */
  lemma ApplyRefines(st: PollState, op: Op)
    requires Consistent(st) && Allowed(st, op)
    ensures Consistent(Apply(st, op))
    ensures op.Attach? || op.fd in View(st)
    ensures View(Apply(st, op)) == Ideal(View(st), op)
  {
    hide PollEvents, WithMask, Inverse, Table, And, Or;
    if !op.Attach? {
      RequestAt(st.requests, st.fd2req, op.fd);
    }
    match op
    case Attach(req) => AttachRefines(st, req);
    case Detach(fd) => DetachRefines(st, fd);
    case SetMask(fd, value) => WithMaskRefines(st, fd, value);
    case AndMask(fd, value) =>
      var mask := st.requests[st.fd2req[fd]].mask;
      WithMaskRefines(st, fd, And(mask, value));
    case OrMask(fd, value) =>
      var mask := st.requests[st.fd2req[fd]].mask;
      WithMaskRefines(st, fd, Or(mask, value));
  }

  lemma ErasedParallel(st: PollState, index: nat)
    requires Consistent(st) && index < |st.polls|
    ensures var polls, requests := Erased(st.polls, index), Erased(st.requests, index);
            |polls| == |requests| && forall i :: 0 <= i < |polls| ==>
              polls[i].fd == requests[i].fd && polls[i].events == PollEvents(requests[i].mask)
  {
    var polls, requests := Erased(st.polls, index), Erased(st.requests, index);
    forall i | 0 <= i < |polls|
      ensures polls[i].fd == requests[i].fd && polls[i].events == PollEvents(requests[i].mask)
    {
      var j := if i < index then i else i + 1;
      assert polls[i] == st.polls[j] && requests[i] == st.requests[j];
    }
  }

  // ----- whole runs ----------------------------------------------------------------------------------

  ghost predicate AllowedRun(st: PollState, ops: seq<Op>)
    requires Consistent(st)
    decreases |ops|
  {
    ops == [] || (Allowed(st, ops[0]) && (ApplyRefines(st, ops[0]); AllowedRun(Apply(st, ops[0]), ops[1..])))
  }

  ghost function RunOps(st: PollState, ops: seq<Op>): PollState
    requires Consistent(st) && AllowedRun(st, ops)
    decreases |ops|
  {
    if ops == [] then st else ApplyRefines(st, ops[0]); RunOps(Apply(st, ops[0]), ops[1..])
  }

  /** Over every run the tables stay consistent and together are the plain map. */
  lemma {:induction false} RunRefines(st: PollState, ops: seq<Op>)
    requires Consistent(st) && AllowedRun(st, ops)
    ensures Consistent(RunOps(st, ops)) && IdealAllowed(View(st), ops)
    ensures View(RunOps(st, ops)) == IdealRun(View(st), ops)
    ensures Polled(RunOps(st, ops).polls, IdealRun(View(st), ops))
    decreases |ops|
  {
    if ops != [] {
      ApplyRefines(st, ops[0]);
      RunRefines(Apply(st, ops[0]), ops[1..]);
    }
    ConsistentIsPolled(RunOps(st, ops));
  }

  ghost predicate PolledAt(polls: seq<PollFd>, m: map<nat, Request>, i: nat)
    requires i < |polls|
  {
    polls[i].fd in m && AsksFor(polls[i].events, m[polls[i].fd].mask)
  }

  ghost predicate HasEntry(polls: seq<PollFd>, fd: nat) {
    exists i :: 0 <= i < |polls| && polls[i].fd == fd
  }

  /** The system is asked about every registered descriptor once, and about no other, and for what
      its mask says. */
  ghost predicate Polled(polls: seq<PollFd>, m: map<nat, Request>) {
    && (forall i :: 0 <= i < |polls| ==> PolledAt(polls, m, i))
    && (forall i, j :: 0 <= i < j < |polls| ==> polls[i].fd != polls[j].fd)
    && (forall fd :: fd in m ==> HasEntry(polls, fd))
  }

  lemma ConsistentIsPolled(st: PollState)
    requires Consistent(st)
    ensures Polled(st.polls, View(st))
  {
    hide PollEvents, AsksFor;
    forall i | 0 <= i < |st.polls|
      ensures PolledAt(st.polls, View(st), i)
    {
      PollEventsAsk(st.requests[i].mask);
    }
    forall fd | fd in View(st)
      ensures HasEntry(st.polls, fd)
    {
      RequestAt(st.requests, st.fd2req, fd);
      assert st.polls[st.fd2req[fd]].fd == fd;
    }
  }

  /** The descriptor table never shrinks, so the last assertion of `detach`, that it is empty
      together with the poll vector, holds exactly while another registration is left. */
  lemma DetachAssertionExactly(st: PollState, fd: nat)
    requires Consistent(st) && Mapped(st.fd2req, fd)
    ensures var st' := Apply(st, Detach(fd));
            (st'.polls == [] <==> st'.fd2req == []) <==> |st.polls| > 1
  {
  }

  // ----- the selector --------------------------------------------------------------------------------

  class Selector {
    const base: RequestTable
    var polls: seq<PollFd>

    ghost function State(): PollState
      reads this, base
    {
      PollState(base.requests, base.fd2req, polls)
    }

    ghost predicate Valid()
      reads this, base
    {
      Consistent(State())
    }

    constructor ()
      ensures Valid() && fresh(base) && State() == PollState([], [], [])
    {
      base := new RequestTable();
      polls := [];
    }

    method Attach(req: Request)
      requires Valid() && Allowed(State(), Op.Attach(req))
      modifies this, base
      ensures Valid() && State() == Apply(old(State()), Op.Attach(req))
    {
      ApplyRefines(State(), Op.Attach(req));
      polls := polls + [PollFd(req.fd, PollEvents(req.mask), 0)];
      base.Fdmap(req.fd, |base.requests|);
      base.AddReq(req);
    }

    /** Erases the registration of the request's descriptor. */
    method Detach(req: Request)
      requires Valid() && Mapped(base.fd2req, req.fd)
      requires base.requests[base.fd2req[req.fd]].channel == req.channel
      modifies this, base
      ensures Valid() && State() == Apply(old(State()), Op.Detach(req.fd))
    {
      ApplyRefines(State(), Op.Detach(req.fd));
      var index := base.fd2req[req.fd];
      polls := polls[..index] + polls[index + 1..];
      var cleared := base.Fdclear(req.fd);
      base.RemoveReq(req, cleared);
    }

    method SetMask(fd: nat, value: Mask)
      requires Valid() && Mapped(base.fd2req, fd)
      modifies this, base
      ensures Valid() && State() == Apply(old(State()), Op.SetMask(fd, value))
    {
      ApplyRefines(State(), Op.SetMask(fd, value));
      var index := base.fd2req[fd];
      base.SetRequestMask(index, value);
      polls := polls[index := polls[index].(events := PollEvents(value))];
    }

    method AndMask(fd: nat, value: Mask)
      requires Valid() && Mapped(base.fd2req, fd)
      modifies this, base
      ensures Valid() && State() == Apply(old(State()), Op.AndMask(fd, value))
    {
      SetMask(fd, And(base.requests[base.fd2req[fd]].mask, value));
    }

    method OrMask(fd: nat, value: Mask)
      requires Valid() && Mapped(base.fd2req, fd)
      modifies this, base
      ensures Valid() && State() == Apply(old(State()), Op.OrMask(fd, value))
    {
      SetMask(fd, Or(base.requests[base.fd2req[fd]].mask, value));
    }
  }
}
