/** `IOSelectSig`: which descriptors are listed as ready, over every run of the selector. */
module ReadyList {
  import opened ReadyLinks
  import opened SelectTypes
  import opened Sequences
  import opened Wrappers

  const POLL_ERR: Mask := 0x08
  const POLL_HUP: Mask := 0x10
  const POLL_NVAL: Mask := 0x20

  datatype SigState = SigState(links: Links, nfds: int)

  /** How the system calls of an `attach` end. */
  datatype Outcome = FcntlFailed | PollFailed | Polled(revents: Mask)

  datatype Op =
    | Attach(fd: nat, mask: Mask, outcome: Outcome)
    | Detach(fd: nat, failed: bool)
    | SetMask(fd: nat, value: Mask)
    | Notify(fd: nat, band: Mask)
    | Resync(fd: nat, events: Mask)
    | Next

  // ----- the bits ------------------------------------------------------------------------------------

  predicate Meets(mask: Mask, ready: Mask) {
    ready & mask != 0
  }

  predicate Invalid(ready: Mask) {
    ready & POLL_NVAL != 0
  }

  /** The ready bits after a queued signal told of `band`. */
  function Told(ready: Mask, band: Mask): Mask {
    ready | (band & (POLL_IN | POLL_PRI | POLL_OUT | POLL_ERR | POLL_HUP | POLL_NVAL))
  }

  // ----- one operation on values -------------------------------------------------------------------

  const NOBODY := Item(UNUSED, UNUSED, 0, 0)

  /** The table without the unused entries at its end. */
  function Trimmed(fds: seq<Item>): seq<Item> {
    if fds != [] && fds[|fds| - 1].next == UNUSED then Trimmed(fds[..|fds| - 1]) else fds
  }

  predicate Used(fds: seq<Item>, fd: nat) {
    fd < |fds| && fds[fd].next != UNUSED
  }

  /** `updateReady`. */
  function Update(l: Links, fd: nat): Links
    requires fd < |l.fds| && (if l.fds[fd].next >= 0 then CanDelete(l, fd) else CanAdd(l, fd))
  {
    var item := l.fds[fd];
    if item.next >= 0 then
      if !Meets(item.mask, item.ready) then Delete(l, fd) else l
    else
      if Meets(item.mask, item.ready) then Add(l, fd) else l
  }

  /** A descriptor's events replaced, before its place on the list is looked at. */
  function WithItem(l: Links, fd: nat, mask: Mask, ready: Mask): Links
    requires fd < |l.fds|
  {
    l.(fds := l.fds[fd := l.fds[fd].(mask := mask, ready := ready)])
  }

  // ----- the queue and the interests ---------------------------------------------------------------

  datatype Status = Status(mask: Mask, ready: Mask)

  /** What a client may think of: a FIFO queue, the attached descriptors with what they want and
      what they are ready for, and how many attaches were lost to a failing poll. */
  datatype Ideal = Ideal(queue: seq<nat>, items: map<nat, Status>, lost: nat)

  /** The queue without a descriptor. */
  function Without(q: seq<nat>, fd: nat): seq<nat> {
    if q == [] then [] else if q[0] == fd then q[1..] else [q[0]] + Without(q[1..], fd)
  }

  /** Listed exactly if wanted and ready events meet; newly ready ones come last. */
  function Sync(ideal: Ideal, fd: nat, status: Status): Ideal {
    ideal.(items := ideal.items[fd := status],
           queue := if !Meets(status.mask, status.ready) then Without(ideal.queue, fd)
                    else if fd in ideal.queue then ideal.queue
                    else ideal.queue + [fd])
  }

  function IdealApply(ideal: Ideal, op: Op): Ideal
    requires op.SetMask? ==> op.fd in ideal.items
  {
    match op
    case Attach(fd, mask, outcome) =>
      if outcome == FcntlFailed then ideal
      else if outcome == PollFailed || Invalid(outcome.revents) then ideal.(lost := ideal.lost + 1)
      else ideal.(items := ideal.items[fd := Status(PollEvents(mask), outcome.revents)], queue := ideal.queue + [fd])
    case Detach(fd, failed) =>
      if failed then ideal else ideal.(items := ideal.items - {fd}, queue := Without(ideal.queue, fd))
    case SetMask(fd, value) =>
      Sync(ideal, fd, Status(PollEvents(value), ideal.items[fd].ready))
    case Notify(fd, band) =>
      if fd !in ideal.items then ideal
      else Sync(ideal, fd, Status(ideal.items[fd].mask, Told(ideal.items[fd].ready, band)))
    case Resync(fd, events) =>
      if fd !in ideal.items || ideal.items[fd].ready == PollEvents(events) then ideal
      else Sync(ideal, fd, Status(ideal.items[fd].mask, PollEvents(events)))
    case Next =>
      if ideal.queue == [] || ideal.queue[0] !in ideal.items || Invalid(ideal.items[ideal.queue[0]].ready) then ideal
      else ideal.(queue := ideal.queue[1..])
  }

  /** The items hold the interests, and only the queued descriptors are linked. */
  ghost predicate Tells(l: Links, ideal: Ideal) {
    && Represents(l, ideal.queue) && OthersMarked(l, ideal.queue)
    && (forall fd :: fd in ideal.items <==> Used(l.fds, fd))
    && (forall fd :: fd in ideal.items ==> ideal.items[fd] == Status(l.fds[fd].mask, l.fds[fd].ready))
  }

  ghost predicate Refines(st: SigState, ideal: Ideal) {
    Tells(st.links, ideal) && st.nfds == |ideal.items| + ideal.lost
  }

  /** What the assertions and indexing ask of the caller. */
  predicate Allowed(ideal: Ideal, op: Op) {
    match op
    case Attach(fd, _, _) => fd !in ideal.items
    case Detach(fd, _) => fd in ideal.items
    case SetMask(fd, _) => fd in ideal.items
    case _ => true
  }

  // ----- the bits of an event ------------------------------------------------------------------------

  /** A signal adds what it tells of input, priority data, output, errors, hang-ups and invalid
      requests, and nothing else. */
  lemma ToldBits(ready: Mask, band: Mask)
    ensures Told(ready, band) & 0x3F == (ready & 0x3F) | (band & 0x3F)
    ensures Told(ready, band) & 0xFFFF_FFC0 == ready & 0xFFFF_FFC0
  {
  }

  /** Wanted and ready events meet, told from the bits of the interest mask. */
  lemma MeetsExactly(mask: Mask, ready: Mask)
    ensures Meets(PollEvents(mask), ready) <==>
            || (ready & 0x01 != 0 && (mask & 0x01 != 0 || mask & 0x08 != 0))
            || (ready & 0x04 != 0 && (mask & 0x02 != 0 || mask & 0x10 != 0))
            || (ready & 0x02 != 0 && mask & 0x04 != 0)
    ensures Invalid(ready) <==> ready & 0x20 != 0
  {
    InterestBits(mask);
    hide WantsRead, WantsWrite, WantsUrgent;
    CommonBits(WantsRead(mask), WantsWrite(mask), WantsUrgent(mask), ready);
  }

  lemma CommonBits(read: bool, write: bool, urgent: bool, ready: Mask)
    ensures ready & PollBits(read, write, urgent) != 0 <==>
            (read && ready & 0x01 != 0) || (write && ready & 0x04 != 0) || (urgent && ready & 0x02 != 0)
  {
    EitherBit(ready, 0x01, 0x04);
    EitherBit(ready, 0x01, 0x02);
    EitherBit(ready, 0x04, 0x02);
    EitherBit(ready, 0x05, 0x02);
  }

  /** What the operations do to the status of a descriptor. */
  lemma StatusAfter(ideal: Ideal, op: Op)
    requires Allowed(ideal, op)
    ensures var items, items' := ideal.items, IdealApply(ideal, op).items;
            match op
            case Attach(fd, mask, outcome) =>
              if outcome.Polled? && outcome.revents & 0x20 == 0 then
                && items' == items[fd := Status(items'[fd].mask, outcome.revents)]
                && AsksFor(items'[fd].mask, mask)
              else items' == items
            case Detach(fd, failed) => items' == if failed then items else items - {fd}
            case SetMask(fd, value) =>
              && items' == items[fd := Status(items'[fd].mask, items[fd].ready)]
              && AsksFor(items'[fd].mask, value)
            case Notify(fd, band) =>
              if fd !in items then items' == items
              else
                && items' == items[fd := Status(items[fd].mask, items'[fd].ready)]
                && items'[fd].ready & 0x3F == (items[fd].ready & 0x3F) | (band & 0x3F)
                && items'[fd].ready & 0xFFFF_FFC0 == items[fd].ready & 0xFFFF_FFC0
            case Resync(fd, events) =>
              if fd !in items then items' == items
              else
                && items' == items[fd := Status(items[fd].mask, items'[fd].ready)]
                && AsksFor(items'[fd].ready, events)
            case Next => items' == items
  {
    hide PollEvents, AsksFor, Told, Meets, Without;
    match op
    case Attach(_, mask, outcome) => PollEventsAsk(mask);
    case SetMask(_, value) => PollEventsAsk(value);
    case Notify(fd, band) =>
      if fd in ideal.items {
        ToldBits(ideal.items[fd].ready, band);
      }
    case Resync(_, events) => PollEventsAsk(events);
    case _ =>
  }

  // ----- the queue -----------------------------------------------------------------------------------

  lemma {:induction false} WithoutMember(q: seq<nat>, k: nat)
    requires Distinct(q) && k < |q|
    ensures Without(q, q[k]) == Erased(q, k)
  {
    if k > 0 {
      var fd := q[k];
      var rest := q[1..];
      assert q[0] != fd;
      assert Distinct(rest) && rest[k - 1] == fd;
      WithoutMember(rest, k - 1);
      assert Erased(q, k) == [q[0]] + Erased(rest, k - 1);
    }
  }

  lemma {:induction false} WithoutStranger(q: seq<nat>, fd: nat)
    requires fd !in q
    ensures Without(q, fd) == q
  {
    if q != [] {
      WithoutStranger(q[1..], fd);
    }
  }

  /** Queued descriptors have links, all others have none. */
  lemma QueuedExactly(l: Links, q: seq<nat>, fd: nat)
    requires Represents(l, q) && OthersMarked(l, q) && fd < |l.fds|
    ensures l.fds[fd].next >= 0 <==> fd in q
  {
    if fd in q {
      var k :| 0 <= k < |q| && q[k] == fd;
      assert Linked(l.fds, q, k);
    }
  }

  lemma QueuedAreUsed(l: Links, q: seq<nat>)
    requires Represents(l, q)
    ensures forall fd :: fd in q ==> Used(l.fds, fd)
  {
    forall fd | fd in q
      ensures Used(l.fds, fd)
    {
      var k :| 0 <= k < |q| && q[k] == fd;
      assert Linked(l.fds, q, k);
    }
  }

  lemma ErasedMembers(q: seq<nat>, k: nat)
    requires Distinct(q) && k < |q|
    ensures forall fd :: fd in Erased(q, k) <==> fd in q && fd != q[k]
  {
    forall fd | fd in q && fd != q[k]
      ensures fd in Erased(q, k)
    {
      var i :| 0 <= i < |q| && q[i] == fd;
      assert Erased(q, k)[if i < k then i else i - 1] == fd;
    }
  }

  /** A change of links that keeps masks, and leaves everybody off the list as before. */
  lemma RelinkTells(l: Links, l': Links, ideal: Ideal, q: seq<nat>)
    requires Tells(l, ideal) && Represents(l', q) && SameMasks(l.fds, l'.fds)
    requires forall fd :: fd in q ==> fd in ideal.items
    requires forall fd :: 0 <= fd < |l.fds| && fd !in q ==>
               if fd in ideal.queue then l'.fds[fd].next == UNLINKED && l'.fds[fd].prev == UNLINKED
               else l'.fds[fd] == l.fds[fd]
    ensures Tells(l', ideal.(queue := q))
  {
    hide Represents;
    QueuedAreUsed(l, ideal.queue);
    QueuedAreUsed(l', q);
    forall fd | 0 <= fd < |l.fds|
      ensures Used(l'.fds, fd) <==> Used(l.fds, fd)
    {
      assert fd in ideal.items <==> Used(l.fds, fd);
    }
  }

  lemma DistinctQueue(l: Links, q: seq<nat>)
    requires Represents(l, q)
    ensures Distinct(q)
  {
  }

  /** Deleting a queued descriptor. */
  lemma DeleteTells(l: Links, ideal: Ideal, fd: nat)
    requires Tells(l, ideal) && fd in ideal.queue
    ensures fd in ideal.items && CanDelete(l, fd)
    ensures Tells(Delete(l, fd), ideal.(queue := Without(ideal.queue, fd)))
  {
    var q := ideal.queue;
    var k :| 0 <= k < |q| && q[k] == fd;
    QueuedAreUsed(l, q);
    MemberCanGo(l, q, k);
    hide Represents, OthersMarked, Delete, Without, Erased, Distinct, Linked, CanDelete, SameMasks;
    DeleteDrops(l, q, k);
    DeleteFrame(l, q, k);
    DistinctQueue(l, q);
    WithoutMember(q, k);
    ErasedMembers(q, k);
    RelinkTells(l, Delete(l, fd), ideal, Erased(q, k));
  }

  /** Adding an attached descriptor that is not queued. */
  lemma AddTells(l: Links, ideal: Ideal, fd: nat)
    requires Tells(l, ideal) && fd in ideal.items && fd !in ideal.queue
    ensures CanAdd(l, fd) && Tells(Add(l, fd), ideal.(queue := ideal.queue + [fd]))
  {
    hide Represents, OthersMarked, Add;
    QueuedAreUsed(l, ideal.queue);
    AddAppends(l, ideal.queue, fd);
    AddFrame(l, ideal.queue, fd);
    RelinkTells(l, Add(l, fd), ideal, ideal.queue + [fd]);
  }

  lemma WithItemTells(l: Links, ideal: Ideal, fd: nat, status: Status)
    requires Tells(l, ideal) && fd in ideal.items
    ensures Tells(WithItem(l, fd, status.mask, status.ready), ideal.(items := ideal.items[fd := status]))
  {
    var l' := WithItem(l, fd, status.mask, status.ready);
    forall i | 0 <= i < |ideal.queue|
      ensures Linked(l'.fds, ideal.queue, i)
    {
      assert Linked(l.fds, ideal.queue, i);
    }
  }

  /** After `updateReady` a descriptor is listed exactly if its ready and interest bits meet. */
  lemma UpdateTells(l: Links, ideal: Ideal, fd: nat)
    requires Tells(l, ideal) && fd in ideal.items
    ensures fd < |l.fds| && (if l.fds[fd].next >= 0 then CanDelete(l, fd) else CanAdd(l, fd))
    ensures Tells(Update(l, fd), Sync(ideal, fd, ideal.items[fd]))
  {
    hide Represents, OthersMarked, Meets, Delete, Add;
    QueuedExactly(l, ideal.queue, fd);
    assert ideal.items[fd := ideal.items[fd]] == ideal.items;
    if fd in ideal.queue {
      DeleteTells(l, ideal, fd);
    } else {
      AddTells(l, ideal, fd);
      WithoutStranger(ideal.queue, fd);
    }
  }

  // ----- attaching and detaching -------------------------------------------------------------------

  lemma GrownTells(l: Links, ideal: Ideal, fd: nat)
    requires Tells(l, ideal)
    ensures Tells(l.(fds := Grown(l.fds, fd, NOBODY)), ideal)
  {
    var l' := l.(fds := Grown(l.fds, fd, NOBODY));
    forall i | 0 <= i < |ideal.queue|
      ensures Linked(l'.fds, ideal.queue, i)
    {
      assert Linked(l.fds, ideal.queue, i);
    }
  }

  predicate CanPlace(l: Links, fd: nat) {
    fd < |l.fds| && (l.nready > 0 ==> l.head != fd) && CanAdd(l, fd)
  }

  /** The entry of a new descriptor: only `m_next` is marked, twice, before the list takes it. */
  function Placed(l: Links, fd: nat, status: Status): Links
    requires CanPlace(l, fd)
  {
    Add(l.(fds := l.fds[fd := Item(UNLINKED, l.fds[fd].prev, status.mask, status.ready)]), fd)
  }

  lemma MarkedTells(l: Links, ideal: Ideal, fd: nat, status: Status)
    requires Tells(l, ideal) && fd < |l.fds| && fd !in ideal.items
    ensures Tells(l.(fds := l.fds[fd := Item(UNLINKED, UNLINKED, status.mask, status.ready)]),
                  ideal.(items := ideal.items[fd := status]))
    ensures fd !in ideal.queue
  {
    QueuedAreUsed(l, ideal.queue);
    var l' := l.(fds := l.fds[fd := Item(UNLINKED, UNLINKED, status.mask, status.ready)]);
    forall i | 0 <= i < |ideal.queue|
      ensures Linked(l'.fds, ideal.queue, i)
    {
      assert Linked(l.fds, ideal.queue, i);
    }
  }

  /** The mark missing in `m_prev` does no harm: the list overwrites both links. */
  lemma PlacedTells(l: Links, ideal: Ideal, fd: nat, status: Status)
    requires Tells(l, ideal) && fd < |l.fds| && fd !in ideal.items
    ensures CanPlace(l, fd)
    ensures Tells(Placed(l, fd, status), ideal.(items := ideal.items[fd := status], queue := ideal.queue + [fd]))
  {
    hide Marked;
    var marked := l.(fds := l.fds[fd := Item(UNLINKED, UNLINKED, status.mask, status.ready)]);
    MarkedTells(l, ideal, fd, status);
    AddTells(marked, ideal.(items := ideal.items[fd := status]), fd);
    if ideal.queue != [] {
      assert Linked(l.fds, ideal.queue, 0);
    }
    SamePlace(l, marked, fd, status);
  }

  lemma SamePlace(l: Links, marked: Links, fd: nat, status: Status)
    requires CanPlace(l, fd)
    requires marked == l.(fds := l.fds[fd := Item(UNLINKED, UNLINKED, status.mask, status.ready)])
    ensures CanAdd(marked, fd) && Add(marked, fd) == Placed(l, fd, status)
  {
  }

  /** The array ends with an entry in use, or is empty. */
  lemma {:induction false} TrimmedIsTight(fds: seq<Item>)
    ensures Trimmed(fds) <= fds && (Trimmed(fds) == [] || Used(Trimmed(fds), |Trimmed(fds)| - 1))
    ensures forall fd: nat :: Used(fds, fd) ==> fd < |Trimmed(fds)|
    decreases |fds|
  {
    if fds != [] && fds[|fds| - 1].next == UNUSED {
      TrimmedIsTight(fds[..|fds| - 1]);
      forall fd: nat | Used(fds, fd)
        ensures fd < |Trimmed(fds)|
      {
        assert Used(fds[..|fds| - 1], fd);
      }
    }
  }

  /** Shrinking the array drops no descriptor in use. */
  lemma {:induction false} TrimmedTells(l: Links, ideal: Ideal)
    requires Tells(l, ideal)
    ensures Tells(l.(fds := Trimmed(l.fds)), ideal)
    decreases |l.fds|
  {
    if l.fds != [] && l.fds[|l.fds| - 1].next == UNUSED {
      var l' := l.(fds := l.fds[..|l.fds| - 1]);
      QueuedAreUsed(l, ideal.queue);
      forall i | 0 <= i < |ideal.queue|
        ensures Linked(l'.fds, ideal.queue, i)
      {
        assert Linked(l.fds, ideal.queue, i);
        assert ideal.queue[i] in ideal.queue;
      }
      TrimmedTells(l', ideal);
    }
  }

  lemma ClearedTells(l: Links, ideal: Ideal, fd: nat)
    requires Tells(l, ideal) && fd in ideal.items && fd !in ideal.queue
    ensures Tells(l.(fds := l.fds[fd := NOBODY]), ideal.(items := ideal.items - {fd}))
  {
    var l' := l.(fds := l.fds[fd := NOBODY]);
    forall i | 0 <= i < |ideal.queue|
      ensures Linked(l'.fds, ideal.queue, i)
    {
      assert Linked(l.fds, ideal.queue, i);
    }
  }

  /** `detach` after the system call. */
  function Gone(l: Links, fd: nat): Links
    requires fd < |l.fds| && (l.fds[fd].next >= 0 ==> CanDelete(l, fd))
  {
    var out := if l.fds[fd].next >= 0 then Delete(l, fd) else l;
    out.(fds := Trimmed(out.fds[fd := NOBODY]))
  }

  lemma GoneTells(l: Links, ideal: Ideal, fd: nat)
    requires Tells(l, ideal) && fd in ideal.items
    ensures fd < |l.fds| && (l.fds[fd].next >= 0 ==> CanDelete(l, fd))
    ensures Tells(Gone(l, fd), ideal.(items := ideal.items - {fd}, queue := Without(ideal.queue, fd)))
  {
    hide Represents, OthersMarked, Delete, Trimmed;
    QueuedExactly(l, ideal.queue, fd);
    var out, left := l, ideal;
    if fd in ideal.queue {
      DeleteTells(l, ideal, fd);
      out, left := Delete(l, fd), ideal.(queue := Without(ideal.queue, fd));
      NoLonger(l, ideal.queue, fd);
    } else {
      WithoutStranger(ideal.queue, fd);
    }
    ClearedTells(out, left, fd);
    TrimmedTells(out.(fds := out.fds[fd := NOBODY]), left.(items := left.items - {fd}));
  }

  lemma NoLonger(l: Links, q: seq<nat>, fd: nat)
    requires Represents(l, q) && fd in q
    ensures fd !in Without(q, fd)
  {
    var k :| 0 <= k < |q| && q[k] == fd;
    WithoutMember(q, k);
    ErasedMembers(q, k);
  }

  // ----- every operation, every run ----------------------------------------------------------------

  /** `setMask` and the two reactions to readiness: new events, then `updateReady`. */
  lemma ChangedTells(l: Links, ideal: Ideal, fd: nat, status: Status)
    requires Tells(l, ideal) && fd in ideal.items
    ensures fd < |l.fds|
    ensures var l' := WithItem(l, fd, status.mask, status.ready);
            && (if l'.fds[fd].next >= 0 then CanDelete(l', fd) else CanAdd(l', fd))
            && Tells(Update(l', fd), Sync(ideal, fd, status))
  {
    hide Represents, OthersMarked, Update, Meets;
    var l' := WithItem(l, fd, status.mask, status.ready);
    var ideal' := ideal.(items := ideal.items[fd := status]);
    WithItemTells(l, ideal, fd, status);
    UpdateTells(l', ideal', fd);
    assert Sync(ideal, fd, status) == Sync(ideal', fd, status);
  }

  /** One operation of the source on values. */
  ghost function Apply(st: SigState, ideal: Ideal, op: Op): SigState
    requires Refines(st, ideal) && Allowed(ideal, op)
  {
    var l := st.links;
    match op
    case Attach(fd, mask, outcome) =>
      GrownTells(l, ideal, fd);
      var grown := l.(fds := Grown(l.fds, fd, NOBODY));
      if outcome == FcntlFailed then st.(links := grown)
      else if outcome == PollFailed || Invalid(outcome.revents) then SigState(grown, st.nfds + 1)
      else
        var status := Status(PollEvents(mask), outcome.revents);
        PlacedTells(grown, ideal, fd, status);
        SigState(Placed(grown, fd, status), st.nfds + 1)
    case Detach(fd, failed) =>
      GoneTells(l, ideal, fd);
      if failed then st else SigState(Gone(l, fd), st.nfds - 1)
    case SetMask(fd, value) => Changed(st, ideal, fd, Status(PollEvents(value), l.fds[fd].ready))
    case Notify(fd, band) =>
      if !Used(l.fds, fd) then st
      else Changed(st, ideal, fd, Status(l.fds[fd].mask, Told(l.fds[fd].ready, band)))
    case Resync(fd, events) =>
      if !Used(l.fds, fd) || l.fds[fd].ready == PollEvents(events) then st
      else Changed(st, ideal, fd, Status(l.fds[fd].mask, PollEvents(events)))
    case Next =>
      if l.nready == 0 then st
      else
        HeadTells(l, ideal);
        if Invalid(l.fds[l.head].ready) then st else st.(links := Delete(l, l.head))
  }

  ghost function Changed(st: SigState, ideal: Ideal, fd: nat, status: Status): SigState
    requires Refines(st, ideal) && fd in ideal.items
  {
    ChangedTells(st.links, ideal, fd, status);
    st.(links := Update(WithItem(st.links, fd, status.mask, status.ready), fd))
  }

  /** The head of the list is the first of the queue. */
  lemma HeadTells(l: Links, ideal: Ideal)
    requires Tells(l, ideal) && l.nready > 0
    ensures ideal.queue != [] && 0 <= l.head == ideal.queue[0] < |l.fds| && ideal.queue[0] in ideal.items
    ensures CanDelete(l, l.head) && Tells(Delete(l, l.head), ideal.(queue := ideal.queue[1..]))
  {
    var fd := ideal.queue[0];
    assert fd in ideal.queue;
    DeleteTells(l, ideal, fd);
    QueuedAreUsed(l, ideal.queue);
    assert Without(ideal.queue, fd) == ideal.queue[1..];
  }

  lemma SameLength(l: Links, fd: nat)
    requires CanDelete(l, fd)
    ensures |Delete(l, fd).fds| == |l.fds|
  {
  }

  lemma BothLinksOrNone(l: Links, ideal: Ideal, fd: nat)
    requires Tells(l, ideal) && fd in ideal.items
    ensures fd < |l.fds| && (l.fds[fd].next < 0 ==> l.fds[fd].prev < 0)
  {
    QueuedAreUsed(l, ideal.queue);
    QueuedExactly(l, ideal.queue, fd);
  }

  lemma UnusedHasNoLinks(l: Links, ideal: Ideal, fd: nat)
    requires Tells(l, ideal) && fd < |l.fds| && fd !in ideal.items
    ensures l.fds[fd].next < 0 && l.fds[fd].prev < 0
  {
    QueuedAreUsed(l, ideal.queue);
  }

  /** Whatever becomes of the system calls, the table has a place for the descriptor afterwards. */
  lemma AttachGrows(st: SigState, ideal: Ideal, fd: nat, mask: Mask, outcome: Outcome)
    requires Refines(st, ideal) && fd !in ideal.items
    ensures var n := |st.links.fds|;
            |Apply(st, ideal, Attach(fd, mask, outcome)).links.fds| == if fd < n then n else fd + 1
  {
    hide Represents, OthersMarked, Invalid, PollEvents;
    var grown := st.links.(fds := Grown(st.links.fds, fd, NOBODY));
    GrownTells(st.links, ideal, fd);
    PlacedTells(grown, ideal, fd, Status(PollEvents(mask), if outcome.Polled? then outcome.revents else 0));
  }

  lemma AttachRefines(st: SigState, ideal: Ideal, fd: nat, mask: Mask, outcome: Outcome)
    requires Refines(st, ideal) && fd !in ideal.items
    ensures var op := Attach(fd, mask, outcome); Refines(Apply(st, ideal, op), IdealApply(ideal, op))
  {
    hide Represents, OthersMarked, Placed, Invalid, PollEvents;
    var l := st.links;
    GrownTells(l, ideal, fd);
    if outcome.Polled? && !Invalid(outcome.revents) {
      PlacedTells(l.(fds := Grown(l.fds, fd, NOBODY)), ideal, fd, Status(PollEvents(mask), outcome.revents));
      OneMore(ideal.items, fd, Status(PollEvents(mask), outcome.revents));
    }
  }

  lemma OneMore(items: map<nat, Status>, fd: nat, status: Status)
    requires fd !in items
    ensures |items[fd := status]| == |items| + 1
  {
    assert items[fd := status].Keys == items.Keys + {fd};
    assert |items[fd := status]| == |items[fd := status].Keys| && |items| == |items.Keys|;
  }

  lemma DetachRefines(st: SigState, ideal: Ideal, fd: nat, failed: bool)
    requires Refines(st, ideal) && fd in ideal.items
    ensures var op := Detach(fd, failed); Refines(Apply(st, ideal, op), IdealApply(ideal, op))
  {
    hide Represents, OthersMarked, Gone, Tells;
    GoneTells(st.links, ideal, fd);
  }

  lemma ChangedRefines(st: SigState, ideal: Ideal, fd: nat, status: Status)
    requires Refines(st, ideal) && fd in ideal.items
    ensures Refines(Changed(st, ideal, fd, status), Sync(ideal, fd, status))
  {
    hide Represents, OthersMarked, Update, WithItem, Tells;
    ChangedTells(st.links, ideal, fd, status);
    assert ideal.items[fd := status].Keys == ideal.items.Keys;
    SameSize(ideal.items, fd, status);
  }

  lemma SameSize(items: map<nat, Status>, fd: nat, status: Status)
    requires fd in items
    ensures |items[fd := status]| == |items|
  {
    assert items[fd := status].Keys == items.Keys;
    assert |items[fd := status]| == |items[fd := status].Keys| && |items| == |items.Keys|;
  }

  lemma NextRefines(st: SigState, ideal: Ideal)
    requires Refines(st, ideal)
    ensures Refines(Apply(st, ideal, Next), IdealApply(ideal, Next))
  {
    hide Represents, OthersMarked, Delete, Invalid;
    Empty(st.links, ideal.queue);
    if st.links.nready > 0 {
      HeadTells(st.links, ideal);
      var fd := ideal.queue[0];
      assert ideal.items[fd] == Status(st.links.fds[fd].mask, st.links.fds[fd].ready);
      if Invalid(ideal.items[fd].ready) {
        assert Apply(st, ideal, Next) == st;
      } else {
        assert Apply(st, ideal, Next) == st.(links := Delete(st.links, fd));
      }
    }
  }

  lemma Empty(l: Links, q: seq<nat>)
    requires Represents(l, q)
    ensures l.nready == 0 <==> q == []
  {
  }

  /** Every operation does to the queue and the interests what `IdealApply` says, and `m_nfds` is
      the number of attached descriptors, plus the attaches lost to a failing poll. */
  lemma ApplyRefines(st: SigState, ideal: Ideal, op: Op)
    requires Refines(st, ideal) && Allowed(ideal, op)
    ensures Refines(Apply(st, ideal, op), IdealApply(ideal, op))
  {
    hide Represents, OthersMarked, Update, Sync, Invalid, Told, PollEvents, Changed, Without;
    match op
    case Attach(fd, mask, outcome) => AttachRefines(st, ideal, fd, mask, outcome);
    case Detach(fd, failed) => DetachRefines(st, ideal, fd, failed);
    case SetMask(fd, value) =>
      ChangedRefines(st, ideal, fd, Status(PollEvents(value), ideal.items[fd].ready));
    case Notify(fd, band) =>
      if fd in ideal.items {
        ChangedRefines(st, ideal, fd, Status(ideal.items[fd].mask, Told(ideal.items[fd].ready, band)));
      }
    case Resync(fd, events) =>
      if fd in ideal.items {
        ChangedRefines(st, ideal, fd, Status(ideal.items[fd].mask, PollEvents(events)));
      }
    case Next => NextRefines(st, ideal);
  }

  ghost predicate AllowedRun(ideal: Ideal, ops: seq<Op>)
    decreases |ops|
  {
    ops == [] || (Allowed(ideal, ops[0]) && AllowedRun(IdealApply(ideal, ops[0]), ops[1..]))
  }

  ghost function IdealRun(ideal: Ideal, ops: seq<Op>): Ideal
    requires AllowedRun(ideal, ops)
    decreases |ops|
  {
    if ops == [] then ideal else IdealRun(IdealApply(ideal, ops[0]), ops[1..])
  }

  ghost function RunOps(st: SigState, ideal: Ideal, ops: seq<Op>): SigState
    requires Refines(st, ideal) && AllowedRun(ideal, ops)
    decreases |ops|
  {
    if ops == [] then st
    else
      ApplyRefines(st, ideal, ops[0]);
      RunOps(Apply(st, ideal, ops[0]), IdealApply(ideal, ops[0]), ops[1..])
  }

  /** Over every run the links are one circle through the queue, without duplicates, of length
      `m_nready`, headed by `m_readylist`, and everything off it is marked. */
  lemma {:induction false} RunRefines(st: SigState, ideal: Ideal, ops: seq<Op>)
    requires Refines(st, ideal) && AllowedRun(ideal, ops)
    ensures Refines(RunOps(st, ideal, ops), IdealRun(ideal, ops))
    decreases |ops|
  {
    hide Refines, Apply, IdealApply;
    if ops != [] {
      ApplyRefines(st, ideal, ops[0]);
      RunRefines(Apply(st, ideal, ops[0]), IdealApply(ideal, ops[0]), ops[1..]);
    }
  }

  /** After an update a descriptor is listed exactly if its ready and interest bits meet; all
      others keep their places among themselves. */
  lemma SyncListsExactly(ideal: Ideal, fd: nat, status: Status)
    requires Distinct(ideal.queue)
    ensures var queue := Sync(ideal, fd, status).queue;
            && (fd in queue <==> Meets(status.mask, status.ready))
            && Without(queue, fd) == Without(ideal.queue, fd)
  {
    hide Meets;
    var q := ideal.queue;
    if fd in q {
      var k :| 0 <= k < |q| && q[k] == fd;
      WithoutMember(q, k);
      ErasedMembers(q, k);
      WithoutStranger(Without(q, fd), fd);
    } else {
      WithoutStranger(q, fd);
      assert Distinct(q + [fd]) && (q + [fd])[|q|] == fd;
      WithoutMember(q + [fd], |q|);
      assert Erased(q + [fd], |q|) == q;
    }
  }

  // ----- nothing is forgotten ------------------------------------------------------------------------

  /** Who was handed out by `next` and has had no news since. */
  function Served(ideal: Ideal, served: set<nat>, op: Op): set<nat>
    requires Allowed(ideal, op)
  {
    var ideal' := IdealApply(ideal, op);
    if op.Next? then if ideal'.queue == ideal.queue then served else served + {ideal.queue[0]}
    else if ideal' == ideal then served
    else served - {op.fd}
  }

  /** Every attached descriptor that is ready for something it waits for is queued, or was handed
      out and has had no news since; and only attached ones are queued. */
  ghost predicate NoneForgotten(ideal: Ideal, served: set<nat>) {
    && (forall fd :: fd in ideal.items && Meets(ideal.items[fd].mask, ideal.items[fd].ready) ==>
          fd in ideal.queue || fd in served)
    && (forall fd :: fd in ideal.queue ==> fd in ideal.items)
    && Distinct(ideal.queue)
  }

  lemma StepForgetsNone(ideal: Ideal, served: set<nat>, op: Op)
    requires NoneForgotten(ideal, served) && Allowed(ideal, op)
    ensures NoneForgotten(IdealApply(ideal, op), Served(ideal, served, op))
  {
    hide Meets, Told, Invalid, PollEvents, Without, Distinct;
    match op
    case Attach(fd, _, _) => DistinctSnoc(ideal.queue, fd);
    case Detach(fd, _) => WithoutTells(ideal.queue, fd);
    case SetMask(fd, value) => SyncForgetsNone(ideal, served, fd, Status(PollEvents(value), ideal.items[fd].ready));
    case Notify(fd, band) =>
      if fd in ideal.items {
        SyncForgetsNone(ideal, served, fd, Status(ideal.items[fd].mask, Told(ideal.items[fd].ready, band)));
      }
    case Resync(fd, events) =>
      if fd in ideal.items {
        SyncForgetsNone(ideal, served, fd, Status(ideal.items[fd].mask, PollEvents(events)));
      }
    case Next =>
      if ideal.queue != [] {
        FirstLeaves(ideal.queue);
      }
  }

  lemma SyncForgetsNone(ideal: Ideal, served: set<nat>, fd: nat, status: Status)
    requires NoneForgotten(ideal, served) && fd in ideal.items
    ensures NoneForgotten(Sync(ideal, fd, status), served - {fd})
    ensures NoneForgotten(Sync(ideal, fd, status), served)
  {
    hide Meets, Without, Distinct;
    WithoutTells(ideal.queue, fd);
    DistinctSnoc(ideal.queue, fd);
  }

  lemma DistinctSnoc(q: seq<nat>, fd: nat)
    requires Distinct(q)
    ensures fd !in q ==> Distinct(q + [fd])
  {
  }

  lemma FirstLeaves(q: seq<nat>)
    requires Distinct(q) && q != []
    ensures Distinct(q[1..]) && forall fd :: fd in q <==> fd == q[0] || fd in q[1..]
  {
    assert q == [q[0]] + q[1..];
  }

  lemma WithoutTells(q: seq<nat>, fd: nat)
    requires Distinct(q)
    ensures Distinct(Without(q, fd)) && forall x :: x in Without(q, fd) <==> x in q && x != fd
  {
    if fd in q {
      var k :| 0 <= k < |q| && q[k] == fd;
      WithoutMember(q, k);
      ErasedMembers(q, k);
      assert Distinct(Erased(q, k));
    } else {
      WithoutStranger(q, fd);
    }
  }

  ghost function ServedAfter(ideal: Ideal, served: set<nat>, ops: seq<Op>): set<nat>
    requires AllowedRun(ideal, ops)
    decreases |ops|
  {
    if ops == [] then served
    else ServedAfter(IdealApply(ideal, ops[0]), Served(ideal, served, ops[0]), ops[1..])
  }

  /** Over every run. */
  lemma {:induction false} RunForgetsNone(ideal: Ideal, served: set<nat>, ops: seq<Op>)
    requires NoneForgotten(ideal, served) && AllowedRun(ideal, ops)
    ensures NoneForgotten(IdealRun(ideal, ops), ServedAfter(ideal, served, ops))
    decreases |ops|
  {
    hide NoneForgotten, IdealApply, Served;
    if ops != [] {
      StepForgetsNone(ideal, served, ops[0]);
      RunForgetsNone(IdealApply(ideal, ops[0]), Served(ideal, served, ops[0]), ops[1..]);
    }
  }

  // ----- the index of the request --------------------------------------------------------------------

  /** `detach` erases the request but leaves the indices remembered for the others as they are: one
      of them still finds its own request exactly if it was registered earlier. */
  lemma IndexStillRightExactly(requests: seq<Request>, index: map<nat, nat>, fd: nat, other: nat)
    requires forall x :: x in index ==> index[x] < |requests| && requests[index[x]].fd == x
    requires forall i, j :: 0 <= i < j < |requests| ==> requests[i].fd != requests[j].fd
    requires fd in index && other in index && fd != other
    ensures var left := Erased(requests, index[fd]);
            (index[other] < |left| && left[index[other]].fd == other) <==> index[other] < index[fd]
  {
    var i := index[other];
    var left := Erased(requests, index[fd]);
    if index[fd] < i < |left| {
      assert left[i] == requests[i + 1];
    }
  }

  // ----- the selector --------------------------------------------------------------------------------

  class Selector {
    var fds: seq<Item>
    var readylist: int
    var nready: nat
    var nfds: int
    ghost var ideal: Ideal

    function TheLinks(): Links
      reads this
    {
      Links(fds, readylist, nready)
    }

    function State(): SigState
      reads this
    {
      SigState(TheLinks(), nfds)
    }

    ghost predicate Valid()
      reads this
    {
      Refines(State(), ideal)
    }

    constructor ()
      ensures Valid() && ideal == Ideal([], map[], 0)
    {
      fds, readylist, nready, nfds := [], UNLINKED, 0, 0;
      ideal := Ideal([], map[], 0);
    }

    method SetLinks(fd: nat, next: int, prev: int)
      requires fd < |fds|
      modifies this`fds
      ensures fds == WithPrev(WithNext(old(fds), fd, next), fd, prev)
    {
      fds := fds[fd := fds[fd].(next := next, prev := prev)];
    }

    /** Makes `fd` the last of the list, just before the head. */
    method AddReady(fd: nat)
      requires CanAdd(TheLinks(), fd) && fds[fd].next < 0 && fds[fd].prev < 0
      modifies this`fds, this`readylist, this`nready
      ensures TheLinks() == Add(old(TheLinks()), fd)
    {
      nready := nready + 1;
      if nready == 1 {
        SetLinks(fd, fd, fd);
        readylist := fd;
      } else {
        var prev := fds[readylist].prev;
        fds := fds[fd := fds[fd].(prev := prev)];
        fds := fds[fd := fds[fd].(next := readylist)];
        fds := fds[prev := fds[prev].(next := fd)];
        fds := fds[readylist := fds[readylist].(prev := fd)];
      }
    }

    method DelReady(fd: nat)
      requires CanDelete(TheLinks(), fd)
      modifies this`fds, this`readylist, this`nready
      ensures TheLinks() == Delete(old(TheLinks()), fd)
    {
      var next, prev := fds[fd].next, fds[fd].prev;
      if nready == 1 {
        readylist := UNLINKED;
      } else {
        if readylist == fd {
          readylist := next;
        }
        fds := fds[prev := fds[prev].(next := next)];
        fds := fds[next := fds[next].(prev := prev)];
      }
      SetLinks(fd, UNLINKED, UNLINKED);
      nready := nready - 1;
    }

    method UpdateReady(fd: nat)
      requires fd < |fds| && (if fds[fd].next >= 0 then CanDelete(TheLinks(), fd) else CanAdd(TheLinks(), fd))
      requires fds[fd].next < 0 ==> fds[fd].prev < 0
      modifies this`fds, this`readylist, this`nready
      ensures TheLinks() == Update(old(TheLinks()), fd)
    {
      hide Meets;
      if fds[fd].next >= 0 {
        if !Meets(fds[fd].mask, fds[fd].ready) {
          DelReady(fd);
        }
      } else {
        if Meets(fds[fd].mask, fds[fd].ready) {
          AddReady(fd);
        }
      }
    }

    /** The entry of a descriptor whose system calls all went well. */
    method Place(fd: nat, mask: Mask, ready: Mask)
      requires CanPlace(TheLinks(), fd) && fds[fd].prev < 0
      modifies this`fds, this`readylist, this`nready
      ensures TheLinks() == Placed(old(TheLinks()), fd, Status(mask, ready))
    {
      hide Add;
      fds := fds[fd := fds[fd].(next := UNLINKED)];
      fds := fds[fd := fds[fd].(ready := ready)];
      fds := fds[fd := fds[fd].(mask := mask)];
      assert fds == old(fds)[fd := Item(UNLINKED, old(fds)[fd].prev, mask, ready)];
      AddReady(fd);
    }

    method Attach(fd: nat, mask: Mask, outcome: Outcome) returns (result: Result<(), string>)
      requires Valid() && Allowed(ideal, Op.Attach(fd, mask, outcome))
      modifies this
      ensures Valid() && ideal == IdealApply(old(ideal), Op.Attach(fd, mask, outcome))
      ensures State() == old(Apply(State(), ideal, Op.Attach(fd, mask, outcome)))
      ensures result.Ok? <==> outcome.Polled? && !Invalid(outcome.revents)
    {
      hide Represents, OthersMarked, PollEvents, Invalid, Placed, Tells;
      var op := Op.Attach(fd, mask, outcome);
      ApplyRefines(State(), ideal, op);
      GrownTells(TheLinks(), ideal, fd);
      if fd >= |fds| {
        fds := fds + Repeated(NOBODY, fd + 1 - |fds|);
      }
      ideal := IdealApply(ideal, op);
      if outcome == FcntlFailed {
        return Err("fcntl()");
      }
      nfds := nfds + 1;
      if outcome == PollFailed || Invalid(outcome.revents) {
        return Err("poll()");
      }
      PlacedTells(TheLinks(), old(ideal), fd, Status(PollEvents(mask), outcome.revents));
      UnusedHasNoLinks(TheLinks(), old(ideal), fd);
      Place(fd, PollEvents(mask), outcome.revents);
      result := Ok(());
    }

    /** Off the list, marked unused, and unused entries popped from the end. */
    method TakeAway(fd: nat)
      requires fd < |fds| && (fds[fd].next >= 0 ==> CanDelete(TheLinks(), fd))
      modifies this`fds, this`readylist, this`nready
      ensures TheLinks() == Gone(old(TheLinks()), fd)
    {
      hide Delete;
      if fds[fd].next >= 0 {
        DelReady(fd);
        SameLength(old(TheLinks()), fd);
      }
      ghost var out := TheLinks();
      SetLinks(fd, UNUSED, UNUSED);
      fds := fds[fd := fds[fd].(mask := 0, ready := 0)];
      assert fds == out.fds[fd := NOBODY];
      while fds != [] && fds[|fds| - 1].next == UNUSED
        invariant Trimmed(fds) == Trimmed(out.fds[fd := NOBODY])
        invariant readylist == out.head && nready == out.nready
      {
        fds := fds[..|fds| - 1];
      }
    }

    method Detach(fd: nat, failed: bool) returns (result: Result<(), string>)
      requires Valid() && Allowed(ideal, Op.Detach(fd, failed))
      modifies this
      ensures Valid() && ideal == IdealApply(old(ideal), Op.Detach(fd, failed))
      ensures State() == old(Apply(State(), ideal, Op.Detach(fd, failed)))
      ensures result.Ok? <==> !failed
    {
      hide Represents, OthersMarked, Gone, Tells;
      var op := Op.Detach(fd, failed);
      ApplyRefines(State(), ideal, op);
      GoneTells(TheLinks(), ideal, fd);
      ideal := IdealApply(ideal, op);
      if failed {
        return Err("fcntl()");
      }
      TakeAway(fd);
      nfds := nfds - 1;
      result := Ok(());
    }

    /** New events for a descriptor in use. */
    method Change(fd: nat, mask: Mask, ready: Mask)
      requires Valid() && fd in ideal.items
      modifies this`fds, this`readylist, this`nready, this`ideal
      ensures Valid() && ideal == Sync(old(ideal), fd, Status(mask, ready))
      ensures State() == old(Changed(State(), ideal, fd, Status(mask, ready)))
    {
      hide Represents, OthersMarked, Update, Tells, Sync;
      ChangedRefines(State(), ideal, fd, Status(mask, ready));
      ChangedTells(TheLinks(), ideal, fd, Status(mask, ready));
      BothLinksOrNone(TheLinks(), ideal, fd);
      ideal := Sync(ideal, fd, Status(mask, ready));
      fds := fds[fd := fds[fd].(mask := mask, ready := ready)];
      UpdateReady(fd);
    }

    method SetMask(fd: nat, value: Mask)
      requires Valid() && Allowed(ideal, Op.SetMask(fd, value))
      modifies this
      ensures Valid() && ideal == IdealApply(old(ideal), Op.SetMask(fd, value))
      ensures State() == old(Apply(State(), ideal, Op.SetMask(fd, value)))
    {
      hide Represents, OthersMarked, Changed, Sync, PollEvents;
      Change(fd, PollEvents(value), fds[fd].ready);
    }

    /** A queued signal: it may be for a descriptor detached since. */
    method Notify(fd: nat, band: Mask)
      requires Valid()
      modifies this
      ensures Valid() && ideal == IdealApply(old(ideal), Op.Notify(fd, band))
      ensures State() == old(Apply(State(), ideal, Op.Notify(fd, band)))
    {
      hide Represents, OthersMarked, Changed, Sync, Told;
      if fd >= |fds| || fds[fd].next == UNUSED {
        return;
      }
      Change(fd, fds[fd].mask, Told(fds[fd].ready, band));
    }

    /** What the fallback selector reports after the signal queue overflowed. */
    method Resync(fd: nat, events: Mask)
      requires Valid()
      modifies this
      ensures Valid() && ideal == IdealApply(old(ideal), Op.Resync(fd, events))
      ensures State() == old(Apply(State(), ideal, Op.Resync(fd, events)))
    {
      hide Represents, OthersMarked, Changed, Sync, PollEvents;
      if fd >= |fds| || fds[fd].next == UNUSED || fds[fd].ready == PollEvents(events) {
        return;
      }
      Change(fd, fds[fd].mask, PollEvents(events));
    }

    /** The first of the queue, with what it is ready for, or none. */
    method NextReady() returns (result: Result<Option<(nat, Mask)>, string>)
      requires Valid()
      modifies this
      ensures Valid() && ideal == IdealApply(old(ideal), Op.Next)
      ensures State() == old(Apply(State(), ideal, Op.Next))
      ensures old(ideal).queue == [] ==> result == Ok(None)
      ensures old(ideal).queue != [] ==>
                var fd := old(ideal).queue[0];
                && fd in old(ideal).items
                && result == if Invalid(old(ideal).items[fd].ready) then Err("poll()")
                             else Ok(Some((fd, old(ideal).items[fd].ready)))
    {
      hide Represents, OthersMarked, Invalid, Delete;
      ApplyRefines(State(), ideal, Op.Next);
      Empty(TheLinks(), ideal.queue);
      if nready == 0 {
        return Ok(None);
      }
      HeadTells(TheLinks(), ideal);
      ideal := IdealApply(ideal, Op.Next);
      var fd := readylist;
      var events := fds[fd].ready;
      if Invalid(events) {
        return Err("poll()");
      }
      DelReady(fd);
      result := Ok(Some((fd, events)));
    }
  }
}
