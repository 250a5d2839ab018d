/**
 * The part of the host intermediate representation that the liveness pass
 * reads, as an arena: instructions are numbered by the position of their
 * record in `insts`, and a basic block lists the numbers of its instructions
 * in order.
 */
module IR {

  type InstId = nat
  type BlockId = nat

  /** A value that can receive a bit: a formal argument or an instruction. */
  datatype Value = ArgVal(arg: nat) | InstVal(inst: InstId)

  /**
   * An operand as the pass sees it: an `Instruction` or an `Argument`
   * (tracked), or anything else (a constant, a global, a block label).
   */
  datatype Operand = Tracked(v: Value) | Untracked

  /** One `(incoming value, incoming block)` pair of a phi node. */
  datatype Incoming = Incoming(value: Operand, from: BlockId)

  /** An instruction: a phi node with its incoming pairs, or any other instruction. */
  datatype Instr =
    | Phi(incoming: seq<Incoming>)
    | Op(operands: seq<Operand>, isTerminator: bool)

  datatype Function = Function(numArgs: nat, insts: seq<Instr>, blocks: seq<seq<InstId>>)

  /** The instructions of consecutive blocks, concatenated. */
  function Flatten(bs: seq<seq<InstId>>): (r: seq<InstId>)
  {
    if |bs| == 0 then [] else bs[0] + Flatten(bs[1..])
  }

  /** Every instruction of `f`, block after block, as an instruction iterator visits them. */
  function ProgramOrder(f: Function): (r: seq<InstId>)
  {
    Flatten(f.blocks)
  }

  predicate Distinct<T(==)>(s: seq<T>)
  {
    forall i, j :: 0 <= i < j < |s| ==> s[i] != s[j]
  }

  /** Instruction `id` sits in some block of `f`. */
  predicate InFunction(f: Function, id: InstId)
  {
    exists b :: 0 <= b < |f.blocks| && id in f.blocks[b]
  }

  /** `v` is an argument or an instruction of `f`. */
  predicate ValueOk(f: Function, v: Value)
  {
    match v
    case ArgVal(a) => a < f.numArgs
    case InstVal(id) => InFunction(f, id)
  }

  predicate OperandOk(f: Function, o: Operand)
  {
    o.Tracked? ==> ValueOk(f, o.v)
  }

  /** Every tracked operand (or incoming value) of `inst` belongs to `f`. */
  predicate RefsOk(f: Function, inst: Instr)
  {
    match inst
    case Phi(inc) => forall j :: 0 <= j < |inc| ==> OperandOk(f, inc[j].value)
    case Op(ops, _) => forall j :: 0 <= j < |ops| ==> OperandOk(f, ops[j])
  }

  /**
   * What the host IR guarantees of a function: blocks are non-empty, each
   * instruction sits in exactly one block once, and operands that are
   * instructions or arguments belong to the same function.
   */
  ghost predicate WellFormed(f: Function)
  {
    && (forall b :: 0 <= b < |f.blocks| ==> |f.blocks[b]| > 0)
    && (forall id: InstId :: InFunction(f, id) ==> id < |f.insts| && RefsOk(f, f.insts[id]))
    && Distinct(ProgramOrder(f))
  }

  /** An instruction is in program order exactly when it sits in one of the blocks. */
  lemma {:induction false} FlattenMembers(bs: seq<seq<InstId>>, id: InstId)
    ensures id in Flatten(bs) <==> exists b :: 0 <= b < |bs| && id in bs[b]
  {
    if |bs| > 0 {
      FlattenMembers(bs[1..], id);
      if id in Flatten(bs[1..]) {
        var b :| 0 <= b < |bs[1..]| && id in bs[1..][b];
        assert id in bs[b + 1];
      }
      if exists b :: 0 <= b < |bs| && id in bs[b] {
        var b :| 0 <= b < |bs| && id in bs[b];
        if b > 0 {
          assert id in bs[1..][b - 1];
        }
      }
    }
  }

  lemma InFunctionInOrder(f: Function, id: InstId)
    ensures InFunction(f, id) <==> id in ProgramOrder(f)
  {
    FlattenMembers(f.blocks, id);
  }

  lemma DistinctConcat<T>(a: seq<T>, b: seq<T>)
    requires Distinct(a + b)
    ensures Distinct(a) && Distinct(b)
  {
    forall i, j | 0 <= i < j < |b| ensures b[i] != b[j] {
      assert (a + b)[|a| + i] == b[i] && (a + b)[|a| + j] == b[j];
    }
    forall i, j | 0 <= i < j < |a| ensures a[i] != a[j] {
      assert (a + b)[i] == a[i] && (a + b)[j] == a[j];
    }
  }

  /** No instruction appears twice in one block of a well-formed function. */
  lemma {:induction false} FlattenBlockDistinct(bs: seq<seq<InstId>>, b: nat)
    requires Distinct(Flatten(bs)) && b < |bs|
    ensures Distinct(bs[b])
  {
    DistinctConcat(bs[0], Flatten(bs[1..]));
    if b > 0 {
      FlattenBlockDistinct(bs[1..], b - 1);
    }
  }

  lemma BlockDistinct(f: Function, b: BlockId)
    requires WellFormed(f) && b < |f.blocks|
    ensures Distinct(f.blocks[b])
  {
    FlattenBlockDistinct(f.blocks, b);
  }
}
