/**
 * The flow values of the liveness instance: an LLVM `BitVector`, seen as a
 * sequence of booleans in which bit `i` stands for the value that the index
 * map numbers `i`.
 */
module BitVectors {

  /** An all-false vector of `n` bits, as `BitVector(n, false)` builds it. */
  function Falses(n: nat): (r: seq<bool>)
    ensures |r| == n
    ensures forall i :: 0 <= i < n ==> !r[i]
  {
    seq(n, _ => false)
  }

  /** Bit `i` of `v`; a position past the end reads as clear. */
  predicate Bit(v: seq<bool>, i: int)
  {
    0 <= i < |v| && v[i]
  }

  /** Every bit set in `a` is set in `b`. */
  predicate Subset(a: seq<bool>, b: seq<bool>)
  {
    forall i :: 0 <= i < |a| && a[i] ==> Bit(b, i)
  }

  /**
   * `a |= b`: the receiver first grows to the length of `b` if it is the
   * shorter one, then takes the bitwise OR. The result is the least vector
   * that holds both operands.
   */
  function Union(a: seq<bool>, b: seq<bool>): (r: seq<bool>)
    ensures |r| == if |a| < |b| then |b| else |a|
    ensures Subset(a, r) && Subset(b, r)
    ensures forall i :: 0 <= i < |r| && r[i] ==> Bit(a, i) || Bit(b, i)
  {
    seq(if |a| < |b| then |b| else |a|, i => Bit(a, i) || Bit(b, i))
  }

  /** Between vectors of one length, union is the bitwise OR and keeps the length. */
  lemma UnionSameLength(a: seq<bool>, b: seq<bool>)
    requires |a| == |b|
    ensures |Union(a, b)| == |a|
    ensures forall i :: 0 <= i < |a| ==> Union(a, b)[i] == (a[i] || b[i])
  {
  }

  /** Meeting a vector with itself leaves it as it was. */
  lemma UnionIdempotent(a: seq<bool>)
    ensures Union(a, a) == a
  {
    assert forall i :: 0 <= i < |a| ==> Union(a, a)[i] == a[i];
  }

  /** The order of the operands of a meet does not matter. */
  lemma UnionCommutative(a: seq<bool>, b: seq<bool>)
    ensures Union(a, b) == Union(b, a)
  {
    assert forall i :: 0 <= i < |Union(a, b)| ==> Union(a, b)[i] == Union(b, a)[i];
  }

  /** Union is monotone in each operand. */
  lemma UnionMonotone(a: seq<bool>, a': seq<bool>, b: seq<bool>)
    requires Subset(a, a')
    ensures Subset(Union(a, b), Union(a', b))
  {
  }

  /**
   * A heap-allocated bit vector: the object that the dataflow hooks receive
   * by pointer and update in place.
   */
  class BitVector {
    var bits: seq<bool>

    /** `new BitVector(n, false)`. */
    constructor (n: nat)
      ensures bits == Falses(n)
    {
      bits := Falses(n);
    }
  }
}
