/** Vectors that lose a member or grow by fillers, as `std::vector` does in `erase` and `resize`. */
module Sequences {

  function Erased<T>(s: seq<T>, index: nat): seq<T>
    requires index < |s|
  {
    s[..index] + s[index + 1..]
  }

  function Repeated<T>(filler: T, n: nat): (s: seq<T>)
    ensures |s| == n && forall i :: 0 <= i < n ==> s[i] == filler
  {
    if n == 0 then [] else Repeated(filler, n - 1) + [filler]
  }

  /** The vector grown so that it has a place `index`. */
  function Grown<T>(s: seq<T>, index: nat, filler: T): (r: seq<T>)
    ensures |r| == if index < |s| then |s| else index + 1
    ensures forall i :: 0 <= i < |r| ==> r[i] == if i < |s| then s[i] else filler
  {
    if index < |s| then s else s + Repeated(filler, index + 1 - |s|)
  }
}
