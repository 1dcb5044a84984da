/** What all selectors share: event masks and client requests. */
module SelectTypes {

  /** Event masks are unsigned ints; the bits are those of `IOMask`. */
  type Mask = bv32

  const IO_READ: Mask := 0x01
  const IO_WRITE: Mask := 0x02
  const IO_URGENT: Mask := 0x04
  const IO_ACCEPT: Mask := 0x08
  const IO_CONNECT: Mask := 0x10

  const POLL_IN: Mask := 0x01
  const POLL_PRI: Mask := 0x02
  const POLL_OUT: Mask := 0x04

  function And(mask: Mask, value: Mask): Mask {
    mask & value
  }

  function Or(mask: Mask, value: Mask): Mask {
    mask | value
  }

  predicate WantsRead(mask: Mask) {
    mask & (IO_ACCEPT | IO_READ) != 0
  }

  predicate WantsWrite(mask: Mask) {
    mask & (IO_CONNECT | IO_WRITE) != 0
  }

  predicate WantsUrgent(mask: Mask) {
    mask & IO_URGENT != 0
  }

  function PollBits(read: bool, write: bool, urgent: bool): (events: Mask)
    ensures events & POLL_IN != 0 <==> read
    ensures events & POLL_OUT != 0 <==> write
    ensures events & POLL_PRI != 0 <==> urgent
    ensures events & !(POLL_IN | POLL_OUT | POLL_PRI) == 0
  {
    (if read then POLL_IN else 0) | (if write then POLL_OUT else 0) | (if urgent then POLL_PRI else 0)
  }

  /** The poll() bits for an interest mask. */
  function PollEvents(mask: Mask): Mask {
    PollBits(WantsRead(mask), WantsWrite(mask), WantsUrgent(mask))
  }

  /** The events `poll` is asked for, told from the bits of the interest mask: input for reading and
      accepting, output for writing and connecting, priority data for urgent data. */
  predicate AsksFor(events: Mask, mask: Mask) {
    && (events & 0x01 != 0 <==> mask & 0x01 != 0 || mask & 0x08 != 0)
    && (events & 0x04 != 0 <==> mask & 0x02 != 0 || mask & 0x10 != 0)
    && (events & 0x02 != 0 <==> mask & 0x04 != 0)
    && events & 0xFFFF_FFF8 == 0
  }

  lemma PollEventsAsk(mask: Mask)
    ensures AsksFor(PollEvents(mask), mask)
  {
    hide PollBits;
    InterestBits(mask);
  }

  /** Reading and accepting are one interest, and so are writing and connecting. */
  lemma InterestBits(mask: Mask)
    ensures WantsRead(mask) <==> mask & 0x01 != 0 || mask & 0x08 != 0
    ensures WantsWrite(mask) <==> mask & 0x02 != 0 || mask & 0x10 != 0
    ensures WantsUrgent(mask) <==> mask & 0x04 != 0
  {
    EitherBit(mask, 0x08, 0x01);
    EitherBit(mask, 0x10, 0x02);
  }

  lemma EitherBit(mask: Mask, a: Mask, b: Mask)
    ensures mask & (a | b) != 0 <==> mask & a != 0 || mask & b != 0
  {
    assert mask & (a | b) == (mask & a) | (mask & b);
    NoBitLeft(mask & a, mask & b);
  }

  lemma NoBitLeft(a: Mask, b: Mask)
    ensures a | b == 0 <==> a == 0 && b == 0
  {
  }

  /** The interest bits a selector reports for what a descriptor is ready for. */
  function IOEvents(read: bool, write: bool, urgent: bool): (events: Mask)
    ensures And(events, IO_READ) != 0 <==> read
    ensures And(events, IO_WRITE) != 0 <==> write
    ensures And(events, IO_URGENT) != 0 <==> urgent
    ensures events != 0 <==> read || write || urgent
  {
    (if read then IO_READ | IO_ACCEPT else 0)
    | (if write then IO_WRITE | IO_CONNECT else 0)
    | (if urgent then IO_URGENT else 0)
  }

  /** Of a mask and what a descriptor is ready for, the client gets each bit it registered for. */
  lemma ReportedBits(mask: Mask, read: bool, write: bool, urgent: bool)
    ensures var events := And(mask, IOEvents(read, write, urgent));
            && events & 0x01 == (if read then mask & 0x01 else 0)
            && events & 0x08 == (if read then mask & 0x08 else 0)
            && events & 0x02 == (if write then mask & 0x02 else 0)
            && events & 0x10 == (if write then mask & 0x10 else 0)
            && events & 0x04 == (if urgent then mask & 0x04 else 0)
            && events & 0xFFFF_FFE0 == 0
  {
  }

  /** A client request; the channel and the callback are only passed on. */
  datatype Request = Request(fd: nat, channel: int, mask: Mask, cb: int)
}
