/** Positions of a sequence that a test selects, used to say which inputs a loop kept, and a
    fact about concatenation the loop proofs share. */
module Positions {

  /** The positions at which `marks` holds, in increasing order. */
  function Where(marks: seq<bool>): (r: seq<nat>)
    ensures |r| <= |marks|
    ensures forall k :: 0 <= k < |r| ==> r[k] < |marks| && marks[r[k]]
    decreases |marks|
  {
    if marks == [] then []
    else Where(marks[..|marks| - 1]) + (if marks[|marks| - 1] then [|marks| - 1] else [])
  }

  /** `Where` lists the marked positions in strictly increasing order, and every marked position
      is listed. */
  lemma {:induction false} WhereShape(marks: seq<bool>)
    ensures forall k, l :: 0 <= k < l < |Where(marks)| ==> Where(marks)[k] < Where(marks)[l]
    ensures forall j :: 0 <= j < |marks| && marks[j] ==> j in Where(marks)
    decreases |marks|
  {
    if marks != [] {
      var n := |marks| - 1;
      WhereShape(marks[..n]);
      assert forall j :: 0 <= j < n ==> marks[..n][j] == marks[j];
    }
  }

  /** When every position is marked, `Where` lists them all: position `k` is the `k`-th entry. */
  lemma {:induction false} WhereAll(marks: seq<bool>)
    requires forall j :: 0 <= j < |marks| ==> marks[j]
    ensures |Where(marks)| == |marks|
    ensures forall k :: 0 <= k < |marks| ==> Where(marks)[k] == k
    decreases |marks|
  {
    if marks != [] {
      WhereAll(marks[..|marks| - 1]);
    }
  }

  /** Concatenation is associative; stated once so the loop proofs need not rediscover it. */
  lemma AppendAssoc<T>(a: seq<T>, b: seq<T>, c: seq<T>)
    ensures (a + b) + c == a + (b + c)
  {
  }
}
