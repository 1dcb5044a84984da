/** The circular, doubly linked ready list of `IOSelectSig`, kept in an array indexed by descriptor. */
module ReadyLinks {
  import opened SelectTypes
  import opened Sequences

  /** Link values that are not descriptors. */
  const UNUSED: int := -2
  const UNLINKED: int := -1

  datatype Item = Item(next: int, prev: int, mask: Mask, ready: Mask)

  /** The list: the items, the head, and the count. */
  datatype Links = Links(fds: seq<Item>, head: int, nready: nat)

  // ----- the queue it stands for ---------------------------------------------------------------------

  function Succ(q: seq<nat>, i: nat): nat
    requires i < |q|
  {
    if i + 1 < |q| then q[i + 1] else q[0]
  }

  function Pred(q: seq<nat>, i: nat): nat
    requires i < |q|
  {
    if i > 0 then q[i - 1] else q[|q| - 1]
  }

  predicate Distinct(q: seq<nat>) {
    forall i, j :: 0 <= i < j < |q| ==> q[i] != q[j]
  }

  predicate Linked(fds: seq<Item>, q: seq<nat>, i: nat)
    requires i < |q|
  {
    q[i] < |fds| && fds[q[i]].next == Succ(q, i) && fds[q[i]].prev == Pred(q, i)
  }

  /** The links form one circle through exactly the members of `q`, in that order from the head. */
  ghost predicate Represents(l: Links, q: seq<nat>) {
    && l.nready == |q| && Distinct(q)
    && l.head == (if q == [] then UNLINKED else q[0])
    && forall i :: 0 <= i < |q| ==> Linked(l.fds, q, i)
  }

  /** Items off the list carry the same mark in both links. */
  predicate Marked(item: Item) {
    item.next == item.prev && (item.next == UNUSED || item.next == UNLINKED)
  }

  ghost predicate OthersMarked(l: Links, q: seq<nat>) {
    forall fd :: 0 <= fd < |l.fds| && fd !in q ==> Marked(l.fds[fd])
  }

  /** The queue can be read off the links: they represent no other one. */
  lemma {:induction false} SameQueueUpTo(l: Links, q: seq<nat>, r: seq<nat>, n: nat)
    requires Represents(l, q) && Represents(l, r) && n <= |q|
    ensures q[..n] == r[..n]
  {
    if n > 1 {
      SameQueueUpTo(l, q, r, n - 1);
      assert q[..n - 1][n - 2] == r[..n - 1][n - 2];
      assert Linked(l.fds, q, n - 2) && Linked(l.fds, r, n - 2);
      assert q[..n] == q[..n - 1] + [q[n - 1]] && r[..n] == r[..n - 1] + [r[n - 1]];
    }
  }

  lemma QueueIsUnique(l: Links, q: seq<nat>, r: seq<nat>)
    requires Represents(l, q) && Represents(l, r)
    ensures q == r
  {
    SameQueueUpTo(l, q, r, |q|);
    assert q[..|q|] == q && r[..|r|] == r;
  }

  // ----- adding --------------------------------------------------------------------------------------

  function WithNext(fds: seq<Item>, fd: nat, next: int): seq<Item>
    requires fd < |fds|
  {
    fds[fd := fds[fd].(next := next)]
  }

  function WithPrev(fds: seq<Item>, fd: nat, prev: int): seq<Item>
    requires fd < |fds|
  {
    fds[fd := fds[fd].(prev := prev)]
  }

  /** What the assertions and indexing of `addReady` need. */
  predicate CanAdd(l: Links, fd: nat) {
    && fd < |l.fds|
    && (l.nready > 0 ==> 0 <= l.head < |l.fds| && 0 <= l.fds[l.head].prev < |l.fds|)
  }

  function Add(l: Links, fd: nat): Links
    requires CanAdd(l, fd)
  {
    if l.nready == 0 then
      Links(WithPrev(WithNext(l.fds, fd, fd), fd, fd), fd, 1)
    else
      var prev := l.fds[l.head].prev;
      var placed := WithNext(WithPrev(l.fds, fd, prev), fd, l.head);
      Links(WithPrev(WithNext(placed, prev, fd), l.head, fd), l.head, l.nready + 1)
  }

  /** Adding puts a new descriptor at the end of the queue. */
  lemma AddAppends(l: Links, q: seq<nat>, fd: nat)
    requires Represents(l, q) && fd < |l.fds| && fd !in q
    ensures CanAdd(l, fd) && Represents(Add(l, fd), q + [fd])
  {
    var q' := q + [fd];
    if q != [] {
      assert Linked(l.fds, q, 0);
      assert Linked(l.fds, q, |q| - 1);
      var l' := Add(l, fd);
      forall i | 0 <= i < |q'|
        ensures Linked(l'.fds, q', i)
      {
        if i < |q| {
          assert Linked(l.fds, q, i);
        }
      }
    }
  }

  /** Items off the list, and everybody's event masks, are left alone. */
  predicate SameMasks(fds: seq<Item>, fds': seq<Item>) {
    && |fds'| == |fds|
    && forall fd :: 0 <= fd < |fds| ==> fds'[fd].mask == fds[fd].mask && fds'[fd].ready == fds[fd].ready
  }

  lemma AddFrame(l: Links, q: seq<nat>, fd: nat)
    requires Represents(l, q) && fd < |l.fds| && fd !in q
    ensures CanAdd(l, fd) && SameMasks(l.fds, Add(l, fd).fds)
    ensures forall g :: 0 <= g < |l.fds| && g !in q && g != fd ==> Add(l, fd).fds[g] == l.fds[g]
  {
    if q != [] {
      assert Linked(l.fds, q, 0);
      assert Linked(l.fds, q, |q| - 1);
    }
  }

  // ----- deleting ------------------------------------------------------------------------------------

  /** What the assertions and indexing of `delReady` need. */
  predicate CanDelete(l: Links, fd: nat) {
    && fd < |l.fds| && l.nready > 0
    && 0 <= l.fds[fd].next < |l.fds| && 0 <= l.fds[fd].prev < |l.fds|
  }

  function Delete(l: Links, fd: nat): Links
    requires CanDelete(l, fd)
  {
    var next, prev := l.fds[fd].next, l.fds[fd].prev;
    var closed := if l.nready == 1 then l.fds else WithPrev(WithNext(l.fds, prev, next), next, prev);
    Links(WithPrev(WithNext(closed, fd, UNLINKED), fd, UNLINKED),
          if l.nready == 1 then UNLINKED else if l.head == fd then next else l.head,
          l.nready - 1)
  }

  lemma MemberCanGo(l: Links, q: seq<nat>, k: nat)
    requires Represents(l, q) && k < |q|
    ensures CanDelete(l, q[k]) && l.fds[q[k]].next == Succ(q, k) && l.fds[q[k]].prev == Pred(q, k)
  {
    assert Linked(l.fds, q, k);
    assert Linked(l.fds, q, if k + 1 < |q| then k + 1 else 0);
    assert Linked(l.fds, q, if k > 0 then k - 1 else |q| - 1);
  }

  /** Deleting the member at `k` closes the gap. */
  lemma DeleteDrops(l: Links, q: seq<nat>, k: nat)
    requires Represents(l, q) && k < |q|
    ensures CanDelete(l, q[k]) && Represents(Delete(l, q[k]), Erased(q, k))
  {
    var q' := Erased(q, k);
    var fd := q[k];
    MemberCanGo(l, q, k);
    if |q| > 1 {
      var l' := Delete(l, fd);
      forall i | 0 <= i < |q'|
        ensures Linked(l'.fds, q', i)
      {
        DeleteLink(l, q, k, i);
      }
      assert Linked(l.fds, q, 0);
    }
  }

  lemma DeleteLink(l: Links, q: seq<nat>, k: nat, i: nat)
    requires Represents(l, q) && k < |q| && i < |q| - 1
    ensures CanDelete(l, q[k]) && Linked(Delete(l, q[k]).fds, Erased(q, k), i)
  {
    var j := if i < k then i else i + 1;
    MemberCanGo(l, q, k);
    assert Linked(l.fds, q, j);
  }

  lemma DeleteFrame(l: Links, q: seq<nat>, k: nat)
    requires Represents(l, q) && k < |q|
    ensures CanDelete(l, q[k]) && SameMasks(l.fds, Delete(l, q[k]).fds)
    ensures forall g :: 0 <= g < |l.fds| && g !in q ==> Delete(l, q[k]).fds[g] == l.fds[g]
    ensures Delete(l, q[k]).fds[q[k]].next == UNLINKED && Delete(l, q[k]).fds[q[k]].prev == UNLINKED
  {
    MemberCanGo(l, q, k);
  }
}
