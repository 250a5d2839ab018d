/**
 * The liveness pass object: the state it keeps for one function and the
 * hooks it hands to the backward dataflow engine (boundary condition,
 * initial flow value, meet and transfer function), with the index
 * construction that `runOnFunction` performs before the engine runs.
 */
module Liveness {
  import opened BitVectors
  import opened IR
  import opened Indexing
  import opened Transfer

  class Live {
    /** The values that own a bit, in bit order. */
    var domain: seq<Value>
    /** Bit index to value; the same list as `domain`. */
    var bvIndexToInstrArg: seq<Value>
    /** Value to bit index. */
    var valueToBitVectorIndex: map<Value, int>
    /** The live-in set of each instruction, finer than the per-block sets. */
    var instrInSet: map<InstId, seq<bool>>
    var domainSize: nat
    /** OUT of each block: the engine's state, as it holds it when it calls the transfer function. */
    var out: map<BlockId, seq<bool>>
    /** Per predecessor block, the values that phi nodes take along the edge from it: the engine's state too. */
    var neighbourSpecificValues: map<BlockId, seq<bool>>

    /**
     * The pass object starts with empty index containers and an empty table.
     * `out` and `neighbourSpecificValues` belong to the dataflow engine, which
     * sets them up itself; nothing is promised about them here.
     */
    constructor ()
      ensures bvIndexToInstrArg == [] && valueToBitVectorIndex == map[] && instrInSet == map[]
      ensures domain == []
    {
      domain := [];
      bvIndexToInstrArg := [];
      valueToBitVectorIndex := map[];
      instrInSet := map[];
    }

    /**
     * The state `runOnFunction` leaves for `f`: the domain and both
     * directions of the index map describe `f`, and every instruction of `f`
     * has a table entry.
     */
    ghost predicate Indexed(f: Function)
      reads this
    {
      && WellFormed(f)
      && domain == DomainOf(f)
      && bvIndexToInstrArg == domain
      && domainSize == |domain|
      && IndexesDomain(valueToBitVectorIndex, domain)
      && (forall id :: InFunction(f, id) ==> id in instrInSet)
    }

    /**
     * Number the arguments of `f` in declaration order, then every
     * instruction in program order, and give every instruction an all-false
     * table entry of `domainSize` bits.
     */
    method RunOnFunction(f: Function)
      requires WellFormed(f)
      modifies this`domain, this`bvIndexToInstrArg, this`valueToBitVectorIndex, this`instrInSet, this`domainSize
      ensures Indexed(f)
      ensures domainSize == f.numArgs + |ProgramOrder(f)|
      ensures forall id :: id in instrInSet <==> InFunction(f, id)
      ensures forall id :: id in instrInSet ==> instrInSet[id] == Falses(domainSize)
    {
      domain := [];
      bvIndexToInstrArg := [];
      valueToBitVectorIndex := map[];
      instrInSet := map[];

      var index := 0;
      var a := 0;
      while a < f.numArgs
        modifies this`domain, this`bvIndexToInstrArg, this`valueToBitVectorIndex
        invariant a <= f.numArgs && index == a
        invariant domain == ArgValues(a) && bvIndexToInstrArg == domain
        invariant IndexesDomain(valueToBitVectorIndex, domain)
      {
        assert ArgValues(a + 1) == domain + [ArgVal(a)];
        IndexesDomainSnoc(valueToBitVectorIndex, domain, ArgVal(a));
        domain := domain + [ArgVal(a)];
        bvIndexToInstrArg := bvIndexToInstrArg + [ArgVal(a)];
        valueToBitVectorIndex := valueToBitVectorIndex[ArgVal(a) := index];
        index := index + 1;
        a := a + 1;
      }

      var order := ProgramOrder(f);
      var k := 0;
      while k < |order|
        modifies this`domain, this`bvIndexToInstrArg, this`valueToBitVectorIndex
        invariant k <= |order| && index == f.numArgs + k
        invariant domain == ArgValues(f.numArgs) + InstValues(order[..k]) && bvIndexToInstrArg == domain
        invariant IndexesDomain(valueToBitVectorIndex, domain)
      {
        var id := order[k];
        NextInstFresh(f.numArgs, order, k);
        IndexesDomainSnoc(valueToBitVectorIndex, domain, InstVal(id));
        domain := domain + [InstVal(id)];
        bvIndexToInstrArg := bvIndexToInstrArg + [InstVal(id)];
        valueToBitVectorIndex := valueToBitVectorIndex[InstVal(id) := index];
        index := index + 1;
        k := k + 1;
      }
      assert order[..|order|] == order;

      domainSize := |domain|;

      k := 0;
      while k < |order|
        modifies this`instrInSet
        invariant k <= |order|
        invariant forall id :: id in instrInSet <==> id in order[..k]
        invariant forall id :: id in instrInSet ==> instrInSet[id] == Falses(domainSize)
      {
        assert order[..k + 1] == order[..k] + [order[k]];
        instrInSet := instrInSet[order[k] := Falses(domainSize)];
        k := k + 1;
      }
      assert order[..|order|] == order;
      forall id ensures id in instrInSet <==> InFunction(f, id) {
        InFunctionInOrder(f, id);
      }
    }

    /** What `runOnFunction` leaves behind is what the transfer function needs. */
    lemma IndexedReady(f: Function)
      requires Indexed(f)
      ensures Covers(f, valueToBitVectorIndex, domainSize)
      ensures forall b :: 0 <= b < |f.blocks| ==>
        && BlockCovered(f, valueToBitVectorIndex, domainSize, b)
        && |f.blocks[b]| > 0 && Distinct(f.blocks[b])
      ensures forall b, k :: 0 <= b < |f.blocks| && 0 <= k < |f.blocks[b]| ==> f.blocks[b][k] in instrInSet
    {
      DomainCovers(f, valueToBitVectorIndex);
      forall b | 0 <= b < |f.blocks|
        ensures BlockCovered(f, valueToBitVectorIndex, domainSize, b) && Distinct(f.blocks[b])
      {
        CoversBlock(f, valueToBitVectorIndex, domainSize, b);
        BlockDistinct(f, b);
      }
      forall b, k | 0 <= b < |f.blocks| && 0 <= k < |f.blocks[b]| ensures f.blocks[b][k] in instrInSet {
        assert f.blocks[b][k] in f.blocks[b];
      }
    }

    /** After indexing, reading the domain at a value's bit gives the value back. */
    lemma IndexedRoundTrip(f: Function, v: Value)
      requires Indexed(f) && ValueOk(f, v)
      ensures v in valueToBitVectorIndex && 0 <= valueToBitVectorIndex[v] < domainSize
      ensures bvIndexToInstrArg[valueToBitVectorIndex[v]] == v
    {
      DomainCovers(f, valueToBitVectorIndex);
      IndexRoundTrip(valueToBitVectorIndex, domain, v);
    }

    /** After indexing, two values with the same bit are the same value. */
    lemma IndexedInjective(f: Function, u: Value, v: Value)
      requires Indexed(f) && ValueOk(f, u) && ValueOk(f, v)
      ensures u in valueToBitVectorIndex && v in valueToBitVectorIndex
      ensures valueToBitVectorIndex[u] == valueToBitVectorIndex[v] ==> u == v
    {
      DomainCovers(f, valueToBitVectorIndex);
      if valueToBitVectorIndex[u] == valueToBitVectorIndex[v] {
        IndexInjective(valueToBitVectorIndex, domain, u, v);
      }
    }

    /** `setBoundaryCondition`: nothing is live past an exit block. */
    method SetBoundaryCondition(blockBoundary: BitVector)
      modifies blockBoundary
      ensures blockBoundary.bits == Falses(domainSize)
    {
      blockBoundary.bits := Falses(domainSize);
    }

    /** `meetOp`: `lhs |= rhs`, in place; `rhs` is left as it was, even when it is `lhs`. */
    method MeetOp(lhs: BitVector, rhs: BitVector)
      modifies lhs
      ensures lhs.bits == Union(old(lhs.bits), old(rhs.bits))
      ensures rhs.bits == old(rhs.bits)
      ensures |old(lhs.bits)| == |old(rhs.bits)| ==>
        && |lhs.bits| == |old(lhs.bits)|
        && forall i :: 0 <= i < |lhs.bits| ==> lhs.bits[i] == (old(lhs.bits)[i] || old(rhs.bits)[i])
    {
      UnionIdempotent(lhs.bits);
      if |lhs.bits| == |rhs.bits| {
        UnionSameLength(lhs.bits, rhs.bits);
      }
      lhs.bits := Union(lhs.bits, rhs.bits);
    }

    /** `initializeFlowValue`: a fresh empty set of `domainSize` bits. */
    method InitializeFlowValue() returns (r: BitVector)
      ensures fresh(r) && r.bits == Falses(domainSize)
    {
      r := new BitVector(domainSize);
    }

    /**
     * `transferFn`: walk the instructions of block `b` from last to first
     * over a copy of OUT[b], store each instruction's live-in set in the
     * table, record phi incoming values in the side table, and return the
     * entry of the first instruction, which is IN[b].
     */
    method TransferFn(f: Function, b: BlockId) returns (r: seq<bool>)
      requires BlockCovered(f, valueToBitVectorIndex, domainSize, b)
      requires |f.blocks[b]| > 0 && Distinct(f.blocks[b])
      requires forall k :: 0 <= k < |f.blocks[b]| ==> f.blocks[b][k] in instrInSet
      requires b in out && |out[b]| == domainSize
      requires Sized(neighbourSpecificValues, domainSize)
      modifies this`instrInSet, this`neighbourSpecificValues
      ensures out == old(out)
      ensures r == BlockIn(f, valueToBitVectorIndex, domainSize, b, out[b])
      ensures Filled(f.blocks[b], Entries(f, valueToBitVectorIndex, domainSize, b, out[b]), old(instrInSet), instrInSet, 0)
      ensures r == instrInSet[f.blocks[b][0]]
      ensures neighbourSpecificValues == SideAfter(f, valueToBitVectorIndex, domainSize, b, old(neighbourSpecificValues), 0)
    {
      ghost var idx, n, t0, tbl0 := valueToBitVectorIndex, domainSize, neighbourSpecificValues, instrInSet;
      var blk := f.blocks[b];
      ghost var outB := out[b];
      ghost var entries := Entries(f, idx, n, b, outB);

      // a copy: OUT[b] itself is never written
      var outNowIn := out[b];
      var immIn := outNowIn;
      var ii := |blk|;
      while ii > 0
        invariant 0 <= ii <= |blk|
        invariant immIn == if ii == |blk| then outB else entries[ii]
        invariant Filled(blk, entries, tbl0, instrInSet, ii)
        invariant Sized(neighbourSpecificValues, n)
        invariant neighbourSpecificValues == SideAfter(f, idx, n, b, t0, ii)
      {
        ii := ii - 1;
        var id := blk[ii];
        assert InstrCovered(f, idx, n, id);
        // inherit the set of the next instruction (or OUT[b]) and apply this one
        outNowIn := immIn;
        immIn := VisitInstruction(f, id, outNowIn);

        // the table entry of this instruction is the running set
        assert entries[ii] == Step(f, idx, n, id, outNowIn);
        FilledStep(blk, entries, tbl0, instrInSet, ii + 1);
        instrInSet := instrInSet[id := immIn];
      }
      r := immIn;
    }

    /**
     * The body of the walk of `transferFn` for instruction `id`: a definition
     * kills its own bit; then a phi node records its tracked incoming values
     * in the side table, and any other instruction sets the bits of its
     * tracked operands.
     */
    method VisitInstruction(f: Function, id: InstId, s: seq<bool>) returns (r: seq<bool>)
      requires InstrCovered(f, valueToBitVectorIndex, domainSize, id) && |s| == domainSize
      requires Sized(neighbourSpecificValues, domainSize)
      modifies this`neighbourSpecificValues
      ensures r == Step(f, valueToBitVectorIndex, domainSize, id, s)
      ensures neighbourSpecificValues == SideStep(f, valueToBitVectorIndex, domainSize, id, old(neighbourSpecificValues))
    {
      var inst := f.insts[id];
      r := s;

      // a definition kills its own bit
      if IsDefinition(inst) {
        r := r[valueToBitVectorIndex[InstVal(id)] := false];
      }

      if !inst.Phi? {
        // gen: the bits of tracked operands
        r := GenOperands(r, inst.operands);
      } else {
        // a phi node sets no bit here; it records each tracked incoming
        // value in the side-table entry of its incoming block
        RecordIncoming(inst.incoming);
      }
    }

    /** The operand loop of `transferFn`: set the bit of every tracked operand. */
    method GenOperands(s: seq<bool>, ops: seq<Operand>) returns (r: seq<bool>)
      requires OperandsIndexed(ops, valueToBitVectorIndex, |s|)
      ensures r == GenOps(s, ops, valueToBitVectorIndex)
    {
      r := s;
      var j := 0;
      while j < |ops|
        invariant 0 <= j <= |ops|
        invariant r == GenOps(s, ops[..j], valueToBitVectorIndex)
      {
        assert ops[..j + 1][..j] == ops[..j];
        if ops[j].Tracked? {
          r := r[valueToBitVectorIndex[ops[j].v] := true];
        }
        j := j + 1;
      }
      assert ops[..|ops|] == ops;
    }

    /**
     * The incoming-value loop of `transferFn` for a phi node: for each
     * tracked value, create the entry of its incoming block all-false when
     * missing, then set the value's bit in it.
     */
    method RecordIncoming(inc: seq<Incoming>)
      requires Sized(neighbourSpecificValues, domainSize)
      requires IncomingIndexed(inc, valueToBitVectorIndex, domainSize)
      modifies this`neighbourSpecificValues
      ensures neighbourSpecificValues == AddIncoming(old(neighbourSpecificValues), inc, valueToBitVectorIndex, domainSize)
    {
      ghost var t := neighbourSpecificValues;
      var j := 0;
      while j < |inc|
        invariant 0 <= j <= |inc|
        invariant neighbourSpecificValues == AddIncoming(t, inc[..j], valueToBitVectorIndex, domainSize)
      {
        assert inc[..j + 1][..j] == inc[..j];
        var val, incomingBlock := inc[j].value, inc[j].from;
        if val.Tracked? {
          var valIdx := valueToBitVectorIndex[val.v];
          if incomingBlock !in neighbourSpecificValues {
            neighbourSpecificValues := neighbourSpecificValues[incomingBlock := Falses(domainSize)];
          }
          neighbourSpecificValues := neighbourSpecificValues[incomingBlock := neighbourSpecificValues[incomingBlock][valIdx := true]];
        }
        j := j + 1;
      }
      assert inc[..|inc|] == inc;
    }
  }

  /**
   * The table `tbl` during the walk of `transferFn` over the instructions
   * `blk` of a block, once positions `k` and later are processed: their
   * entries hold `vals`, and every other entry is as it was in `tbl0`.
   */
  ghost predicate Filled(blk: seq<InstId>, vals: seq<seq<bool>>, tbl0: map<InstId, seq<bool>>, tbl: map<InstId, seq<bool>>, k: nat)
    requires |vals| == |blk| && k <= |blk|
  {
    && tbl.Keys == tbl0.Keys
    && (forall j :: k <= j < |blk| ==> blk[j] in tbl && tbl[blk[j]] == vals[j])
    && (forall id :: id in tbl && id !in blk[k..] ==> tbl[id] == tbl0[id])
  }

  /** Storing the entry of position `k - 1` extends the processed suffix by one. */
  lemma FilledStep(blk: seq<InstId>, vals: seq<seq<bool>>, tbl0: map<InstId, seq<bool>>, tbl: map<InstId, seq<bool>>, k: nat)
    requires |vals| == |blk| && 0 < k <= |blk| && Distinct(blk) && blk[k - 1] in tbl
    requires Filled(blk, vals, tbl0, tbl, k)
    ensures Filled(blk, vals, tbl0, tbl[blk[k - 1] := vals[k - 1]], k - 1)
  {
    var tbl' := tbl[blk[k - 1] := vals[k - 1]];
    forall j | k - 1 <= j < |blk| ensures blk[j] in tbl' && tbl'[blk[j]] == vals[j] {
      if j >= k {
        assert blk[j] != blk[k - 1];
      }
    }
    assert blk[k - 1..] == [blk[k - 1]] + blk[k..];
  }
}
