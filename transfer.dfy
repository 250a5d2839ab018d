/**
 * What `transferFn` computes, stated as functions of the block, the index
 * map and the block's OUT set: the per-instruction entries it leaves in the
 * table, the IN set it returns and the phi side table it extends. Beside
 * them, the classic GEN and KILL sets of the block, and the proof that the
 * backward walk computes IN = GEN ∪ (OUT − KILL).
 */
module Transfer {
  import opened BitVectors
  import opened IR
  import opened Indexing

  /**
   * `isDefinition`: an instruction counts as a definition, and so kills its
   * own bit, whenever it is not a terminator, whether or not it produces a
   * usable value (a store is killed too).
   */
  predicate IsDefinition(inst: Instr)
  {
    !(inst.Op? && inst.isTerminator)
  }

  /** Operand `o` is tracked and its index is `i`. */
  predicate OperandBit(o: Operand, idx: map<Value, int>, i: int)
  {
    o.Tracked? && o.v in idx && idx[o.v] == i
  }

  /** Every tracked operand in `ops` has an index below `n`. */
  predicate OperandsIndexed(ops: seq<Operand>, idx: map<Value, int>, n: nat)
  {
    forall j :: 0 <= j < |ops| && ops[j].Tracked? ==> ops[j].v in idx && 0 <= idx[ops[j].v] < n
  }

  /** The gen step: walk the operands in order and set the bit of each tracked one. */
  function GenOps(s: seq<bool>, ops: seq<Operand>, idx: map<Value, int>): (r: seq<bool>)
    requires OperandsIndexed(ops, idx, |s|)
    ensures |r| == |s|
    decreases |ops|
  {
    if ops == [] then s
    else
      var r0 := GenOps(s, ops[..|ops| - 1], idx);
      var o := ops[|ops| - 1];
      if o.Tracked? then r0[idx[o.v] := true] else r0
  }

  /** After the gen step a bit is set iff it was set before or some tracked operand has that index. */
  lemma {:induction false} GenOpsAt(s: seq<bool>, ops: seq<Operand>, idx: map<Value, int>, i: int)
    requires OperandsIndexed(ops, idx, |s|) && 0 <= i < |s|
    ensures GenOps(s, ops, idx)[i] == (s[i] || exists j :: 0 <= j < |ops| && OperandBit(ops[j], idx, i))
    decreases |ops|
  {
    if ops != [] {
      var init := ops[..|ops| - 1];
      GenOpsAt(s, init, idx, i);
      assert forall j :: 0 <= j < |init| ==> init[j] == ops[j];
      if exists j :: 0 <= j < |ops| && OperandBit(ops[j], idx, i) {
        var j :| 0 <= j < |ops| && OperandBit(ops[j], idx, i);
        if j < |init| {
          assert OperandBit(init[j], idx, i);
        }
      }
    }
  }

  /** Operands that are neither instructions nor arguments set no bit. */
  lemma {:induction false} GenOpsUntracked(s: seq<bool>, ops: seq<Operand>, idx: map<Value, int>)
    requires forall j :: 0 <= j < |ops| ==> ops[j] == Untracked
    ensures GenOps(s, ops, idx) == s
    decreases |ops|
  {
    if ops != [] {
      GenOpsUntracked(s, ops[..|ops| - 1], idx);
    }
  }

  /** Instruction `id` is an ordinary (non-phi) instruction with a tracked operand of index `i`. */
  predicate UsesAt(f: Function, idx: map<Value, int>, id: InstId, i: int)
  {
    && id < |f.insts|
    && f.insts[id].Op?
    && exists j :: 0 <= j < |f.insts[id].operands| && OperandBit(f.insts[id].operands[j], idx, i)
  }

  /** Instruction `id` is a definition and its own index is `i`. */
  predicate KillsAt(f: Function, idx: map<Value, int>, id: InstId, i: int)
  {
    && id < |f.insts|
    && IsDefinition(f.insts[id])
    && InstVal(id) in idx && idx[InstVal(id)] == i
  }

  /**
   * What the walk needs of the index map for instruction `id`: the
   * instruction and every tracked operand or incoming value it has carry an
   * index below `n`.
   */
  predicate InstrCovered(f: Function, idx: map<Value, int>, n: nat, id: InstId)
  {
    && id < |f.insts|
    && InstVal(id) in idx && 0 <= idx[InstVal(id)] < n
    && match f.insts[id]
       case Phi(inc) => IncomingIndexed(inc, idx, n)
       case Op(ops, _) => OperandsIndexed(ops, idx, n)
  }

  /** Every instruction of block `b` is covered by the index map. */
  predicate BlockCovered(f: Function, idx: map<Value, int>, n: nat, b: BlockId)
  {
    && b < |f.blocks|
    && forall id :: id in f.blocks[b] ==> InstrCovered(f, idx, n, id)
  }

  /** A map that covers the function covers each of its blocks. */
  lemma CoversBlock(f: Function, idx: map<Value, int>, n: nat, b: BlockId)
    requires Covers(f, idx, n) && b < |f.blocks|
    ensures BlockCovered(f, idx, n, b)
  {
    forall id | id in f.blocks[b] ensures InstrCovered(f, idx, n, id) {
      assert ValueOk(f, InstVal(id));
      match f.insts[id]
      case Phi(inc) =>
        forall j | 0 <= j < |inc| && inc[j].value.Tracked?
          ensures inc[j].value.v in idx && 0 <= idx[inc[j].value.v] < n
        {
          assert OperandOk(f, inc[j].value);
        }
      case Op(ops, _) =>
        forall j | 0 <= j < |ops| && ops[j].Tracked?
          ensures ops[j].v in idx && 0 <= idx[ops[j].v] < n
        {
          assert OperandOk(f, ops[j]);
        }
    }
  }

  /**
   * One instruction of the backward walk, applied to the running set `s`:
   * clear the instruction's own bit if it is a definition, then, unless it
   * is a phi node, set the bits of its tracked operands. Gen follows kill.
   */
  function Step(f: Function, idx: map<Value, int>, n: nat, id: InstId, s: seq<bool>): (r: seq<bool>)
    requires InstrCovered(f, idx, n, id) && |s| == n
    ensures |r| == n
  {
    var inst := f.insts[id];
    var killed := if IsDefinition(inst) then s[idx[InstVal(id)] := false] else s;
    if inst.Phi? then killed else GenOps(killed, inst.operands, idx)
  }

  /** A bit survives the step iff the instruction uses it, or it was set and is not the one killed. */
  lemma StepAt(f: Function, idx: map<Value, int>, n: nat, id: InstId, s: seq<bool>, i: int)
    requires InstrCovered(f, idx, n, id) && |s| == n && 0 <= i < n
    ensures Step(f, idx, n, id, s)[i] == (UsesAt(f, idx, id, i) || (s[i] && !KillsAt(f, idx, id, i)))
  {
    var inst := f.insts[id];
    var killed := if IsDefinition(inst) then s[idx[InstVal(id)] := false] else s;
    assert killed[i] == (s[i] && !KillsAt(f, idx, id, i));
    if inst.Op? {
      GenOpsAt(killed, inst.operands, idx, i);
    }
  }

  /**
   * The entry the walk stores for the `k`-th instruction of block `b`: the
   * step applied to the entry of the instruction after it, or to OUT for the
   * last instruction.
   */
  function InAt(f: Function, idx: map<Value, int>, n: nat, b: BlockId, out: seq<bool>, k: nat): (r: seq<bool>)
    requires BlockCovered(f, idx, n, b) && k < |f.blocks[b]| && |out| == n
    ensures |r| == n
    decreases |f.blocks[b]| - k
  {
    var next := if k == |f.blocks[b]| - 1 then out else InAt(f, idx, n, b, out, k + 1);
    Step(f, idx, n, f.blocks[b][k], next)
  }

  /** The IN set of block `b`: the entry of its first instruction. */
  function BlockIn(f: Function, idx: map<Value, int>, n: nat, b: BlockId, out: seq<bool>): (r: seq<bool>)
    requires BlockCovered(f, idx, n, b) && |f.blocks[b]| > 0 && |out| == n
    ensures |r| == n
  {
    InAt(f, idx, n, b, out, 0)
  }

  /** The entries of all the instructions of block `b`, in block order: entry `k` is `InAt(.., k)`. */
  function Entries(f: Function, idx: map<Value, int>, n: nat, b: BlockId, out: seq<bool>): (r: seq<seq<bool>>)
    requires BlockCovered(f, idx, n, b) && |out| == n
    ensures |r| == |f.blocks[b]|
  {
    seq(|f.blocks[b]|, k requires 0 <= k < |f.blocks[b]| => InAt(f, idx, n, b, out, k))
  }

  /** KILL of the instructions of block `b` from position `lo` on. */
  predicate BlockKill(f: Function, idx: map<Value, int>, b: BlockId, lo: nat, i: int)
    requires b < |f.blocks|
  {
    exists k :: lo <= k < |f.blocks[b]| && KillsAt(f, idx, f.blocks[b][k], i)
  }

  /**
   * GEN of the instructions of block `b` from position `lo` on: some
   * ordinary instruction uses bit `i` and no instruction before it (from
   * `lo`) kills it.
   */
  predicate BlockGen(f: Function, idx: map<Value, int>, b: BlockId, lo: nat, i: int)
    requires b < |f.blocks|
  {
    exists k :: lo <= k < |f.blocks[b]| && UsesAt(f, idx, f.blocks[b][k], i) &&
      forall j :: lo <= j < k ==> !KillsAt(f, idx, f.blocks[b][j], i)
  }

  lemma BlockKillUnfold(f: Function, idx: map<Value, int>, b: BlockId, k: nat, i: int)
    requires b < |f.blocks| && k < |f.blocks[b]|
    ensures BlockKill(f, idx, b, k, i) <==> KillsAt(f, idx, f.blocks[b][k], i) || BlockKill(f, idx, b, k + 1, i)
  {
  }

  lemma BlockGenUnfold(f: Function, idx: map<Value, int>, b: BlockId, k: nat, i: int)
    requires b < |f.blocks| && k < |f.blocks[b]|
    ensures BlockGen(f, idx, b, k, i) <==>
      UsesAt(f, idx, f.blocks[b][k], i) || (!KillsAt(f, idx, f.blocks[b][k], i) && BlockGen(f, idx, b, k + 1, i))
  {
    var blk := f.blocks[b];
    if BlockGen(f, idx, b, k, i) && !UsesAt(f, idx, blk[k], i) {
      var k0 :| k <= k0 < |blk| && UsesAt(f, idx, blk[k0], i) &&
        forall j :: k <= j < k0 ==> !KillsAt(f, idx, blk[j], i);
      assert k0 != k;
      assert !KillsAt(f, idx, blk[k], i);
      assert BlockGen(f, idx, b, k + 1, i);
    }
    if !KillsAt(f, idx, blk[k], i) && BlockGen(f, idx, b, k + 1, i) {
      var k0 :| k + 1 <= k0 < |blk| && UsesAt(f, idx, blk[k0], i) &&
        forall j :: k + 1 <= j < k0 ==> !KillsAt(f, idx, blk[j], i);
      assert forall j :: k <= j < k0 ==> !KillsAt(f, idx, blk[j], i);
    }
  }

  /**
   * The entry stored for the `k`-th instruction is GEN ∪ (OUT − KILL) of the
   * instructions from `k` to the end of the block.
   */
  lemma {:induction false} InAtGenKill(f: Function, idx: map<Value, int>, n: nat, b: BlockId, out: seq<bool>, k: nat)
    requires BlockCovered(f, idx, n, b) && k < |f.blocks[b]| && |out| == n
    ensures forall i :: 0 <= i < n ==>
      InAt(f, idx, n, b, out, k)[i] == (BlockGen(f, idx, b, k, i) || (out[i] && !BlockKill(f, idx, b, k, i)))
    decreases |f.blocks[b]| - k
  {
    var blk := f.blocks[b];
    var next := if k == |blk| - 1 then out else InAt(f, idx, n, b, out, k + 1);
    if k < |blk| - 1 {
      InAtGenKill(f, idx, n, b, out, k + 1);
    }
    forall i | 0 <= i < n
      ensures InAt(f, idx, n, b, out, k)[i] == (BlockGen(f, idx, b, k, i) || (out[i] && !BlockKill(f, idx, b, k, i)))
    {
      StepAt(f, idx, n, blk[k], next, i);
      BlockGenUnfold(f, idx, b, k, i);
      BlockKillUnfold(f, idx, b, k, i);
    }
  }

  /** IN[b] = GEN[b] ∪ (OUT[b] − KILL[b]). */
  lemma BlockInGenKill(f: Function, idx: map<Value, int>, n: nat, b: BlockId, out: seq<bool>)
    requires BlockCovered(f, idx, n, b) && |f.blocks[b]| > 0 && |out| == n
    ensures forall i :: 0 <= i < n ==>
      BlockIn(f, idx, n, b, out)[i] == (BlockGen(f, idx, b, 0, i) || (out[i] && !BlockKill(f, idx, b, 0, i)))
  {
    InAtGenKill(f, idx, n, b, out, 0);
  }

  /** A larger OUT never gives a smaller IN. */
  lemma BlockInMonotone(f: Function, idx: map<Value, int>, n: nat, b: BlockId, out1: seq<bool>, out2: seq<bool>)
    requires BlockCovered(f, idx, n, b) && |f.blocks[b]| > 0 && |out1| == n && |out2| == n
    requires Subset(out1, out2)
    ensures Subset(BlockIn(f, idx, n, b, out1), BlockIn(f, idx, n, b, out2))
  {
    BlockInGenKill(f, idx, n, b, out1);
    BlockInGenKill(f, idx, n, b, out2);
  }

  /**
   * Gen after kill: an ordinary instruction that reads its own result keeps
   * its own bit set in the entry stored for it.
   */
  lemma SelfUseLive(f: Function, idx: map<Value, int>, n: nat, b: BlockId, out: seq<bool>, k: nat, j: nat)
    requires BlockCovered(f, idx, n, b) && k < |f.blocks[b]| && |out| == n
    requires f.blocks[b][k] < |f.insts| && f.insts[f.blocks[b][k]].Op?
    requires j < |f.insts[f.blocks[b][k]].operands|
    requires f.insts[f.blocks[b][k]].operands[j] == Tracked(InstVal(f.blocks[b][k]))
    ensures InstVal(f.blocks[b][k]) in idx && 0 <= idx[InstVal(f.blocks[b][k])] < n
    ensures InAt(f, idx, n, b, out, k)[idx[InstVal(f.blocks[b][k])]]
  {
    var id := f.blocks[b][k];
    assert id in f.blocks[b];
    var next := if k == |f.blocks[b]| - 1 then out else InAt(f, idx, n, b, out, k + 1);
    StepAt(f, idx, n, id, next, idx[InstVal(id)]);
    assert OperandBit(f.insts[id].operands[j], idx, idx[InstVal(id)]);
  }

  /*
   * The phi side table: for each predecessor block, the values that the
   * phi nodes of the analysed block take along the edge from it.
   */

  /** Every entry of the side table has `n` bits. */
  predicate Sized(t: map<BlockId, seq<bool>>, n: nat)
  {
    forall B :: B in t ==> |t[B]| == n
  }

  predicate IncomingIndexed(inc: seq<Incoming>, idx: map<Value, int>, n: nat)
  {
    forall j :: 0 <= j < |inc| && inc[j].value.Tracked? ==> inc[j].value.v in idx && 0 <= idx[inc[j].value.v] < n
  }

  /**
   * Record one incoming pair: if its value is tracked, create the entry of
   * its block all-false when missing, then set the value's bit in it.
   */
  function AddEdge(t: map<BlockId, seq<bool>>, e: Incoming, idx: map<Value, int>, n: nat): (r: map<BlockId, seq<bool>>)
    requires Sized(t, n)
    requires e.value.Tracked? ==> e.value.v in idx && 0 <= idx[e.value.v] < n
    ensures Sized(r, n)
  {
    if e.value.Tracked? then
      var row := if e.from in t then t[e.from] else Falses(n);
      t[e.from := row[idx[e.value.v] := true]]
    else t
  }

  /** Record the incoming pairs of one phi node, first to last. */
  function AddIncoming(t: map<BlockId, seq<bool>>, inc: seq<Incoming>, idx: map<Value, int>, n: nat): (r: map<BlockId, seq<bool>>)
    requires Sized(t, n) && IncomingIndexed(inc, idx, n)
    ensures Sized(r, n)
    decreases |inc|
  {
    if inc == [] then t
    else AddEdge(AddIncoming(t, inc[..|inc| - 1], idx, n), inc[|inc| - 1], idx, n)
  }

  /** Some pair of `inc` carries a tracked value from block `B`. */
  predicate IncomingFrom(inc: seq<Incoming>, B: BlockId)
  {
    exists j :: 0 <= j < |inc| && inc[j].from == B && inc[j].value.Tracked?
  }

  /** Some pair of `inc` carries, from block `B`, a tracked value of index `i`. */
  predicate IncomingBit(inc: seq<Incoming>, idx: map<Value, int>, B: BlockId, i: int)
  {
    exists j :: 0 <= j < |inc| && inc[j].from == B && OperandBit(inc[j].value, idx, i)
  }

  /**
   * After recording a phi's pairs, an entry exists exactly for the blocks
   * that had one or that carry a tracked value, and a bit is set in it
   * exactly when it was set before or an incoming value from that block has
   * that index.
   */
  lemma {:induction false} AddIncomingAt(t: map<BlockId, seq<bool>>, inc: seq<Incoming>, idx: map<Value, int>, n: nat)
    requires Sized(t, n) && IncomingIndexed(inc, idx, n)
    ensures forall B :: B in AddIncoming(t, inc, idx, n) <==> B in t || IncomingFrom(inc, B)
    ensures forall B, i :: B in AddIncoming(t, inc, idx, n) && 0 <= i < n ==>
      (AddIncoming(t, inc, idx, n)[B][i] <==> (B in t && t[B][i]) || IncomingBit(inc, idx, B, i))
    decreases |inc|
  {
    if inc != [] {
      var init, e := inc[..|inc| - 1], inc[|inc| - 1];
      AddIncomingAt(t, init, idx, n);
      var t0 := AddIncoming(t, init, idx, n);
      assert forall j :: 0 <= j < |init| ==> init[j] == inc[j];
      forall B ensures B in AddIncoming(t, inc, idx, n) <==> B in t || IncomingFrom(inc, B) {
        if IncomingFrom(inc, B) {
          var j :| 0 <= j < |inc| && inc[j].from == B && inc[j].value.Tracked?;
          if j < |init| {
            assert IncomingFrom(init, B);
          }
        }
        if IncomingFrom(init, B) {
          var j :| 0 <= j < |init| && init[j].from == B && init[j].value.Tracked?;
          assert inc[j] == init[j];
        }
      }
      forall B, i | B in AddIncoming(t, inc, idx, n) && 0 <= i < n
        ensures AddIncoming(t, inc, idx, n)[B][i] <==> (B in t && t[B][i]) || IncomingBit(inc, idx, B, i)
      {
        if IncomingBit(inc, idx, B, i) {
          var j :| 0 <= j < |inc| && inc[j].from == B && OperandBit(inc[j].value, idx, i);
          if j < |init| {
            assert IncomingBit(init, idx, B, i);
          }
        }
        if IncomingBit(init, idx, B, i) {
          var j :| 0 <= j < |init| && init[j].from == B && OperandBit(init[j].value, idx, i);
          assert inc[j] == init[j];
        }
      }
    }
  }

  /**
   * The side table after the walk has processed the instructions of block
   * `b` from the last one down to position `k`.
   */
  function SideAfter(f: Function, idx: map<Value, int>, n: nat, b: BlockId, t: map<BlockId, seq<bool>>, k: nat): (r: map<BlockId, seq<bool>>)
    requires BlockCovered(f, idx, n, b) && k <= |f.blocks[b]| && Sized(t, n)
    ensures Sized(r, n)
    decreases |f.blocks[b]| - k
  {
    if k == |f.blocks[b]| then t
    else SideStep(f, idx, n, f.blocks[b][k], SideAfter(f, idx, n, b, t, k + 1))
  }

  /** What one instruction of the walk does to the side table: a phi node adds its incoming values. */
  function SideStep(f: Function, idx: map<Value, int>, n: nat, id: InstId, t: map<BlockId, seq<bool>>): (r: map<BlockId, seq<bool>>)
    requires InstrCovered(f, idx, n, id) && Sized(t, n)
    ensures Sized(r, n)
  {
    match f.insts[id]
    case Phi(inc) => AddIncoming(t, inc, idx, n)
    case Op(_, _) => t
  }

  /** Instruction `id` is a phi node with a tracked incoming value from block `B`. */
  predicate PhiFrom(f: Function, id: InstId, B: BlockId)
  {
    id < |f.insts| && f.insts[id].Phi? && IncomingFrom(f.insts[id].incoming, B)
  }

  /** Instruction `id` is a phi node taking, from block `B`, a tracked value of index `i`. */
  predicate PhiBit(f: Function, idx: map<Value, int>, id: InstId, B: BlockId, i: int)
  {
    id < |f.insts| && f.insts[id].Phi? && IncomingBit(f.insts[id].incoming, idx, B, i)
  }

  /** Some phi of block `b` at position `lo` or later has a tracked incoming value from `B`. */
  predicate BlockPhiFrom(f: Function, b: BlockId, lo: nat, B: BlockId)
    requires b < |f.blocks|
  {
    exists k :: lo <= k < |f.blocks[b]| && PhiFrom(f, f.blocks[b][k], B)
  }

  /** Some phi of block `b` at position `lo` or later takes the value of index `i` from `B`. */
  predicate BlockPhiBit(f: Function, idx: map<Value, int>, b: BlockId, lo: nat, B: BlockId, i: int)
    requires b < |f.blocks|
  {
    exists k :: lo <= k < |f.blocks[b]| && PhiBit(f, idx, f.blocks[b][k], B, i)
  }

  /**
   * The side table after the walk from the end down to position `k`: entries
   * are created only for blocks that carry a tracked phi value, and a bit is
   * set exactly when it was set before or a phi takes that value from that
   * block.
   */
  lemma {:induction false} SideAfterAt(f: Function, idx: map<Value, int>, n: nat, b: BlockId, t: map<BlockId, seq<bool>>, k: nat)
    requires BlockCovered(f, idx, n, b) && k <= |f.blocks[b]| && Sized(t, n)
    ensures forall B :: B in SideAfter(f, idx, n, b, t, k) <==> B in t || BlockPhiFrom(f, b, k, B)
    ensures forall B, i :: B in SideAfter(f, idx, n, b, t, k) && 0 <= i < n ==>
      (SideAfter(f, idx, n, b, t, k)[B][i] <==> (B in t && t[B][i]) || BlockPhiBit(f, idx, b, k, B, i))
    decreases |f.blocks[b]| - k
  {
    var blk := f.blocks[b];
    if k < |blk| {
      SideAfterAt(f, idx, n, b, t, k + 1);
      var t0 := SideAfter(f, idx, n, b, t, k + 1);
      var id := blk[k];
      assert id in blk;
      if f.insts[id].Phi? {
        AddIncomingAt(t0, f.insts[id].incoming, idx, n);
      }
      forall B ensures BlockPhiFrom(f, b, k, B) <==> PhiFrom(f, id, B) || BlockPhiFrom(f, b, k + 1, B) {
        if BlockPhiFrom(f, b, k, B) && !PhiFrom(f, id, B) {
          var k0 :| k <= k0 < |blk| && PhiFrom(f, blk[k0], B);
          assert k0 != k;
        }
      }
      forall B, i ensures BlockPhiBit(f, idx, b, k, B, i) <==> PhiBit(f, idx, id, B, i) || BlockPhiBit(f, idx, b, k + 1, B, i) {
        if BlockPhiBit(f, idx, b, k, B, i) && !PhiBit(f, idx, id, B, i) {
          var k0 :| k <= k0 < |blk| && PhiBit(f, idx, blk[k0], B, i);
          assert k0 != k;
        }
      }
    }
  }

  /** The walk over block `b` leaves existing side-table entries only with more bits. */
  lemma SideTableGrows(f: Function, idx: map<Value, int>, n: nat, b: BlockId, t: map<BlockId, seq<bool>>)
    requires BlockCovered(f, idx, n, b) && Sized(t, n)
    ensures forall B :: B in t ==> B in SideAfter(f, idx, n, b, t, 0) && Subset(t[B], SideAfter(f, idx, n, b, t, 0)[B])
  {
    SideAfterAt(f, idx, n, b, t, 0);
  }

  /**
   * Every tracked incoming value of every phi in block `b` ends up set in the
   * side-table entry of its incoming block.
   */
  lemma PhiRecorded(f: Function, idx: map<Value, int>, n: nat, b: BlockId, t: map<BlockId, seq<bool>>, k: nat, j: nat)
    requires BlockCovered(f, idx, n, b) && Sized(t, n)
    requires k < |f.blocks[b]| && f.blocks[b][k] < |f.insts| && f.insts[f.blocks[b][k]].Phi?
    requires j < |f.insts[f.blocks[b][k]].incoming| && f.insts[f.blocks[b][k]].incoming[j].value.Tracked?
    ensures var e := f.insts[f.blocks[b][k]].incoming[j];
      e.value.v in idx &&
      e.from in SideAfter(f, idx, n, b, t, 0) &&
      Bit(SideAfter(f, idx, n, b, t, 0)[e.from], idx[e.value.v])
  {
    var id := f.blocks[b][k];
    assert id in f.blocks[b];
    var e := f.insts[id].incoming[j];
    SideAfterAt(f, idx, n, b, t, 0);
    assert IncomingFrom(f.insts[id].incoming, e.from);
    assert PhiFrom(f, id, e.from);
    assert IncomingBit(f.insts[id].incoming, idx, e.from, idx[e.value.v]);
    assert PhiBit(f, idx, id, e.from, idx[e.value.v]);
  }

  /**
   * Phi isolation: a value that no ordinary instruction of the block reads
   * is in IN only if it is live in OUT and not killed in the block, however
   * many phi nodes of the block take it along an edge.
   */
  lemma PhiIsolation(f: Function, idx: map<Value, int>, n: nat, b: BlockId, out: seq<bool>, i: nat)
    requires BlockCovered(f, idx, n, b) && |f.blocks[b]| > 0 && |out| == n && i < n
    requires forall k :: 0 <= k < |f.blocks[b]| ==> !UsesAt(f, idx, f.blocks[b][k], i)
    ensures BlockIn(f, idx, n, b, out)[i] == (out[i] && !BlockKill(f, idx, b, 0, i))
  {
    BlockInGenKill(f, idx, n, b, out);
  }
}
