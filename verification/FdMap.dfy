/** `IOSelectMethod` and `IOSelectFdMap`: the dense vector of requests, and the table that finds
    the request of a descriptor although erasing a request moves the ones behind it. */
module FdMap {
  import opened SelectTypes
  import opened Sequences

  /** `~0ul`: the descriptor has no request. */
  const UNMAPPED: nat := 0xFFFF_FFFF_FFFF_FFFF

  /** The two tables are inverse to each other. */
  ghost predicate Inverse(requests: seq<Request>, fd2req: seq<nat>) {
    && |requests| < UNMAPPED
    && (forall i :: 0 <= i < |requests| ==> requests[i].fd < |fd2req| && fd2req[requests[i].fd] == i)
    && (forall fd :: 0 <= fd < |fd2req| && fd2req[fd] != UNMAPPED ==>
          fd2req[fd] < |requests| && requests[fd2req[fd]].fd == fd)
  }

  predicate Mapped(fd2req: seq<nat>, fd: nat) {
    fd < |fd2req| && fd2req[fd] != UNMAPPED
  }

  /** The plain map from descriptors to requests that the tables stand for. */
  ghost function Table(requests: seq<Request>, fd2req: seq<nat>): map<nat, Request>
    requires Inverse(requests, fd2req)
  {
    map fd: nat | fd < |fd2req| && fd2req[fd] != UNMAPPED :: requests[fd2req[fd]]
  }

  function WithFd(fd2req: seq<nat>, fd: nat, index: nat): seq<nat> {
    Grown(fd2req, fd, UNMAPPED)[fd := index]
  }

  /** An index after the request at `index` is gone. */
  function Lowered(r: nat, index: nat): nat {
    if r != UNMAPPED && r > index then r - 1 else r
  }

  /** The table after `fd` is cleared: every larger index is one less. */
  function WithoutFd(fd2req: seq<nat>, fd: nat): (s: seq<nat>)
    requires fd < |fd2req|
    ensures |s| == |fd2req|
  {
    seq(|fd2req|, i requires 0 <= i < |fd2req| => if i == fd then UNMAPPED else Lowered(fd2req[i], fd2req[fd]))
  }

  /** A mapped descriptor finds its own request. */
  lemma RequestAt(requests: seq<Request>, fd2req: seq<nat>, fd: nat)
    requires Inverse(requests, fd2req) && Mapped(fd2req, fd)
    ensures fd2req[fd] < |requests| && fd in Table(requests, fd2req)
    ensures Table(requests, fd2req)[fd] == requests[fd2req[fd]] && requests[fd2req[fd]].fd == fd
  {
  }

  /** Appending a request for an unused descriptor. */
  lemma AddKeepsInverse(requests: seq<Request>, fd2req: seq<nat>, req: Request)
    requires Inverse(requests, fd2req) && !Mapped(fd2req, req.fd) && |requests| + 1 < UNMAPPED
    ensures var requests', fd2req' := requests + [req], WithFd(fd2req, req.fd, |requests|);
            && Inverse(requests', fd2req')
            && Table(requests', fd2req') == Table(requests, fd2req)[req.fd := req]
  {
  }

  /** Erasing a request: the indices behind it move down with the requests. */
  lemma RemoveKeepsInverse(requests: seq<Request>, fd2req: seq<nat>, fd: nat)
    requires Inverse(requests, fd2req) && Mapped(fd2req, fd)
    ensures var requests', fd2req' := Erased(requests, fd2req[fd]), WithoutFd(fd2req, fd);
            && Inverse(requests', fd2req')
            && Table(requests', fd2req') == Table(requests, fd2req) - {fd}
  {
    var index := fd2req[fd];
    var requests', fd2req' := Erased(requests, index), WithoutFd(fd2req, fd);
    forall i | 0 <= i < |requests'|
      ensures requests'[i].fd < |fd2req'| && fd2req'[requests'[i].fd] == i
    {
      var j := if i < index then i else i + 1;
      assert requests'[i] == requests[j];
    }
    forall g | 0 <= g < |fd2req'| && fd2req'[g] != UNMAPPED
      ensures fd2req'[g] < |requests'| && requests'[fd2req'[g]] == requests[fd2req[g]] && requests[fd2req[g]].fd == g
    {
      assert fd2req[g] != index;
    }
  }

  /** Changing the mask of a request in place. */
  lemma UpdateKeepsInverse(requests: seq<Request>, fd2req: seq<nat>, fd: nat, mask: Mask)
    requires Inverse(requests, fd2req) && Mapped(fd2req, fd)
    ensures var index := fd2req[fd];
            var req' := requests[index].(mask := mask);
            && Inverse(requests[index := req'], fd2req)
            && Table(requests[index := req'], fd2req) == Table(requests, fd2req)[fd := req']
  {
  }

  // ----- what the clients ask for, on the plain map -------------------------------------------------

  datatype Op =
    | Attach(req: Request)
    | Detach(fd: nat)
    | SetMask(fd: nat, value: Mask)
    | AndMask(fd: nat, value: Mask)
    | OrMask(fd: nat, value: Mask)

  /** What clients think of: a map from descriptors to requests. */
  function Ideal(m: map<nat, Request>, op: Op): map<nat, Request>
    requires op.Attach? || op.fd in m
  {
    match op
    case Attach(req) => m[req.fd := req]
    case Detach(fd) => m - {fd}
    case SetMask(fd, value) => m[fd := m[fd].(mask := value)]
    case AndMask(fd, value) => m[fd := m[fd].(mask := And(m[fd].mask, value))]
    case OrMask(fd, value) => m[fd := m[fd].(mask := Or(m[fd].mask, value))]
  }

  /** What becomes of one descriptor's mask, and that the others keep theirs. */
  lemma MaskAfter(m: map<nat, Request>, op: Op, fd: nat)
    requires op.Attach? || op.fd in m
    ensures var m' := Ideal(m, op);
            match op
            case Attach(req) => req.fd in m' && m'[req.fd] == req && (fd != req.fd ==> SameAt(m, m', fd))
            case Detach(gone) => gone !in m' && (fd != gone ==> SameAt(m, m', fd))
            case SetMask(at, value) =>
              at in m' && m'[at] == m[at].(mask := value) && (fd != at ==> SameAt(m, m', fd))
            case AndMask(at, value) =>
              at in m' && m'[at] == m[at].(mask := m[at].mask & value) && (fd != at ==> SameAt(m, m', fd))
            case OrMask(at, value) =>
              at in m' && m'[at] == m[at].(mask := m[at].mask | value) && (fd != at ==> SameAt(m, m', fd))
  {
  }

  predicate SameAt(m: map<nat, Request>, m': map<nat, Request>, fd: nat) {
    (fd in m' <==> fd in m) && (fd in m ==> m'[fd] == m[fd])
  }

  ghost predicate IdealAllowed(m: map<nat, Request>, ops: seq<Op>)
    decreases |ops|
  {
    ops == [] || ((ops[0].Attach? || ops[0].fd in m) && IdealAllowed(Ideal(m, ops[0]), ops[1..]))
  }

  ghost function IdealRun(m: map<nat, Request>, ops: seq<Op>): map<nat, Request>
    requires IdealAllowed(m, ops)
    decreases |ops|
  {
    if ops == [] then m else IdealRun(Ideal(m, ops[0]), ops[1..])
  }

  // ----- the tables in place ------------------------------------------------------------------------

  /** The members of both base classes. */
  class RequestTable {
    var requests: seq<Request>
    var fd2req: seq<nat>

    ghost predicate Valid()
      reads this
    {
      Inverse(requests, fd2req)
    }

    constructor ()
      ensures Valid() && requests == [] && fd2req == []
    {
      requests, fd2req := [], [];
    }

    /** Enters an unused descriptor, growing the table if it is new. */
    method Fdmap(fd: nat, index: nat)
      requires !Mapped(fd2req, fd)
      modifies this`fd2req
      ensures fd2req == WithFd(old(fd2req), fd, index)
    {
      if fd >= |fd2req| {
        var growth := fd + 1 - |fd2req|;
        fd2req := fd2req + Repeated(UNMAPPED, growth);
      }
      fd2req := fd2req[fd := index];
    }

    /** Clears a descriptor and moves all larger indices down; returns the index it had. */
    method Fdclear(fd: nat) returns (index: nat)
      requires fd < |fd2req|
      modifies this`fd2req
      ensures index == old(fd2req)[fd] && fd2req == WithoutFd(old(fd2req), fd)
    {
      index := fd2req[fd];
      fd2req := fd2req[fd := UNMAPPED];
      ghost var before := fd2req;
      var i := 0;
      while i < |fd2req|
        invariant i <= |fd2req| == |before|
        invariant forall j :: 0 <= j < i ==> fd2req[j] == Lowered(before[j], index)
        invariant forall j :: i <= j < |fd2req| ==> fd2req[j] == before[j]
      {
        if fd2req[i] != UNMAPPED && fd2req[i] > index {
          fd2req := fd2req[i := fd2req[i] - 1];
        }
        i := i + 1;
      }
    }

    method AddReq(req: Request)
      modifies this`requests
      ensures requests == old(requests) + [req]
    {
      requests := requests + [req];
    }

    method RemoveReq(req: Request, index: nat)
      requires index < |requests| && requests[index].fd == req.fd && requests[index].channel == req.channel
      modifies this`requests
      ensures requests == Erased(old(requests), index)
    {
      requests := requests[..index] + requests[index + 1..];
    }

    method SetRequestMask(index: nat, mask: Mask)
      requires index < |requests|
      modifies this`requests
      ensures requests == old(requests)[index := old(requests)[index].(mask := mask)]
    {
      requests := requests[index := requests[index].(mask := mask)];
    }
  }
}
