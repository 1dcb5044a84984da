/** How `IOSelectSelect::next` walks the status sets that `select` filled in. */
module SelectScan {
  import opened SelectTypes
  import opened Wrappers

  /** The scan position and count, and the three status sets. */
  datatype Scan = Scan(maxfd: int, current: int, nready: int, r: set<nat>, w: set<nat>, e: set<nat>)

  /** A descriptor found ready, with everything it is ready for. */
  datatype Event = Event(fd: nat, events: Mask)

  function Ready(sc: Scan): set<nat> {
    sc.r + sc.w + sc.e
  }

  function Above(s: set<nat>, fd: int): set<nat> {
    set x | x in s && x > fd
  }

  /** The status bits the scan has still to come to. */
  function BitsAbove(sc: Scan): nat {
    |Above(sc.r, sc.current)| + |Above(sc.w, sc.current)| + |Above(sc.e, sc.current)|
  }

  /** What `select` promises and every call of `next` keeps. */
  ghost predicate Counted(sc: Scan) {
    && -1 <= sc.current
    && sc.nready == BitsAbove(sc)
    && forall fd :: fd in Ready(sc) ==> fd <= sc.maxfd
  }

  // ----- one call ------------------------------------------------------------------------------------

  /** Where the loop stops: at the next member of `ready`, or just past the limit. */
  function Stop(current: int, maxfd: int, ready: set<nat>): (c: int)
    requires -1 <= current
    ensures c > current
    decreases maxfd - current
  {
    if current < maxfd && current + 1 !in ready then Stop(current + 1, maxfd, ready) else current + 1
  }

  function Bit(s: set<nat>, fd: nat): nat {
    if fd in s then 1 else 0
  }

  /** `next` on values: the new scan, and the event if there is one. */
  function Next(sc: Scan): (Scan, Option<Event>)
    requires -1 <= sc.current
  {
    if sc.nready < 1 then (sc, None)
    else
      var c := Stop(sc.current, sc.maxfd, Ready(sc));
      if c <= sc.maxfd && c in Ready(sc) then
        (sc.(current := c, nready := sc.nready - Bit(sc.r, c) - Bit(sc.w, c) - Bit(sc.e, c)),
         Some(Event(c, IOEvents(c in sc.r, c in sc.w, c in sc.e))))
      else (sc.(current := c), None)
  }

  /** The loop stops at the least ready descriptor, if one is left. */
  lemma {:induction false} StopIsLeast(current: int, maxfd: int, ready: set<nat>)
    requires -1 <= current
    ensures var c := Stop(current, maxfd, ready);
            && (forall x :: x in ready && current < x <= maxfd ==> c <= x)
            && (c <= maxfd ==> c in ready)
    decreases maxfd - current
  {
    if current < maxfd && current + 1 !in ready {
      StopIsLeast(current + 1, maxfd, ready);
    }
  }

  /** Passing one descriptor takes its bit off the count. */
  lemma PassOne(s: set<nat>, from: int, c: nat)
    requires from < c && forall x :: x in s && x > from ==> c <= x
    ensures |Above(s, c)| + Bit(s, c) == |Above(s, from)|
  {
    if c in s {
      assert Above(s, from) == Above(s, c) + {c};
    } else {
      assert Above(s, from) == Above(s, c);
    }
  }

  /** Every call keeps the count equal to the status bits above the position; it finds the least
      ready descriptor above the old position, and nothing exactly when no bit is left. */
  lemma NextKeepsCount(sc: Scan)
    requires Counted(sc)
    ensures var (sc', event) := Next(sc);
            && Counted(sc') && (sc'.r, sc'.w, sc'.e, sc'.maxfd) == (sc.r, sc.w, sc.e, sc.maxfd)
            && (event == None <==> Above(Ready(sc), sc.current) == {})
            && (event == None <==> sc.nready == 0)
            && (event.Some? ==>
                  && sc.current < event.value.fd == sc'.current && event.value.fd in Ready(sc)
                  && (forall x :: x in Above(Ready(sc), sc.current) ==> event.value.fd <= x))
  {
    var ready := Ready(sc);
    NothingLeftExactly(sc);
    if sc.nready >= 1 {
      assert Above(ready, sc.current) != {};
      var c := Stop(sc.current, sc.maxfd, ready);
      StopIsLeast(sc.current, sc.maxfd, ready);
      PassOne(sc.r, sc.current, c);
      PassOne(sc.w, sc.current, c);
      PassOne(sc.e, sc.current, c);
    }
  }

  lemma NothingLeftExactly(sc: Scan)
    ensures BitsAbove(sc) == 0 <==> Above(Ready(sc), sc.current) == {}
  {
    var r, w, e := Above(sc.r, sc.current), Above(sc.w, sc.current), Above(sc.e, sc.current);
    assert Above(Ready(sc), sc.current) == r + w + e;
    assert r + w + e == {} <==> r == {} && w == {} && e == {};
  }

  // ----- calling it until nothing is left -----------------------------------------------------------

  /** The events of repeated calls, up to the one that finds nothing. */
  ghost function Drain(sc: Scan): seq<Event>
    requires Counted(sc)
    decreases sc.maxfd - sc.current
  {
    NextKeepsCount(sc);
    var (sc', event) := Next(sc);
    if event == None then [] else [event.value] + Drain(sc')
  }

  lemma DrainOnce(sc: Scan)
    requires Counted(sc)
    ensures Counted(Next(sc).0)
    ensures Drain(sc) == if Next(sc).1 == None then [] else [Next(sc).1.value] + Drain(Next(sc).0)
  {
    NextKeepsCount(sc);
  }

  /** An event a scan still has to deliver. */
  predicate Due(sc: Scan, event: Event) {
    var fd := event.fd;
    fd in Above(Ready(sc), sc.current) && event.events == IOEvents(fd in sc.r, fd in sc.w, fd in sc.e)
  }

  /** Every ready descriptor above the position exactly once, in increasing order, each with
      exactly what it is ready for. */
  ghost predicate Covers(sc: Scan, events: seq<Event>) {
    && (forall i, j :: 0 <= i < j < |events| ==> events[i].fd < events[j].fd)
    && (forall i :: 0 <= i < |events| ==> Due(sc, events[i]))
    && (forall fd :: fd in Above(Ready(sc), sc.current) ==> Delivered(events, fd))
  }

  ghost predicate Delivered(events: seq<Event>, fd: nat) {
    exists i :: 0 <= i < |events| && events[i].fd == fd
  }

  /** The calls deliver what the status sets ask for. */
  lemma {:induction false} DrainVisitsEachOnce(sc: Scan)
    requires Counted(sc)
    ensures Covers(sc, Drain(sc))
    decreases sc.maxfd - sc.current
  {
    NextKeepsCount(sc);
    var (sc', event) := Next(sc);
    if event.Some? {
      DrainVisitsEachOnce(sc');
      CoverOneMore(sc, Drain(sc'));
    }
  }

  lemma CoverOneMore(sc: Scan, rest: seq<Event>)
    requires Counted(sc) && Next(sc).1.Some? && Covers(Next(sc).0, rest)
    ensures Covers(sc, [Next(sc).1.value] + rest)
  {
    NextKeepsCount(sc);
    var (sc', event) := Next(sc);
    var events := [event.value] + rest;
    forall i | 0 <= i < |events|
      ensures Due(sc, events[i]) && (i > 0 ==> events[0].fd < events[i].fd)
    {
      if i > 0 {
        LaterDue(sc, rest[i - 1]);
      }
    }
    forall fd | fd in Above(Ready(sc), sc.current)
      ensures Delivered(events, fd)
    {
      if fd == event.value.fd {
        assert events[0].fd == fd;
      } else {
        assert fd in Above(Ready(sc'), sc'.current);
        var i :| 0 <= i < |rest| && rest[i].fd == fd;
        assert events[i + 1].fd == fd;
      }
    }
  }

  lemma LaterDue(sc: Scan, event: Event)
    requires Counted(sc) && Next(sc).1.Some? && Due(Next(sc).0, event)
    ensures Due(sc, event) && Next(sc).1.value.fd < event.fd
  {
    NextKeepsCount(sc);
  }
}
