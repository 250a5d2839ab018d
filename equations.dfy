/**
 * The liveness equations that the dataflow engine solves:
 *   OUT[n] = ∪ { IN[s] | s a successor of n }
 *   IN[n]  = GEN[n] ∪ (OUT[n] − KILL[n])
 * stated as a predicate that an assignment of IN and OUT sets to the blocks
 * may satisfy. The engine that searches for such an assignment is not part
 * of this model.
 */
module Equations {
  import opened BitVectors
  import opened IR
  import opened Indexing
  import opened Transfer

  /** The meet over a list of vectors: their union, the empty set when there are none. */
  function UnionAll(vs: seq<seq<bool>>, n: nat): (r: seq<bool>)
    requires forall j :: 0 <= j < |vs| ==> |vs[j]| == n
    ensures |r| == n
    decreases |vs|
  {
    if vs == [] then Falses(n) else Union(UnionAll(vs[..|vs| - 1], n), vs[|vs| - 1])
  }

  /** A bit of the meet is set iff it is set in one of the vectors met. */
  lemma {:induction false} UnionAllAt(vs: seq<seq<bool>>, n: nat, i: int)
    requires forall j :: 0 <= j < |vs| ==> |vs[j]| == n
    requires 0 <= i < n
    ensures UnionAll(vs, n)[i] <==> exists j :: 0 <= j < |vs| && vs[j][i]
    decreases |vs|
  {
    if vs != [] {
      var init := vs[..|vs| - 1];
      UnionAllAt(init, n, i);
      UnionSameLength(UnionAll(init, n), vs[|vs| - 1]);
      if exists j :: 0 <= j < |vs| && vs[j][i] {
        var j :| 0 <= j < |vs| && vs[j][i];
        if j < |init| {
          assert init[j] == vs[j];
        }
      }
      if exists j :: 0 <= j < |init| && init[j][i] {
        var j :| 0 <= j < |init| && init[j][i];
        assert vs[j] == init[j];
      }
    }
  }

  /** The IN sets of a block's successors. */
  function SuccIns(ins: seq<seq<bool>>, succs: seq<BlockId>): (r: seq<seq<bool>>)
    requires forall j :: 0 <= j < |succs| ==> succs[j] < |ins|
  {
    seq(|succs|, j requires 0 <= j < |succs| => ins[succs[j]])
  }

  /** One IN and one OUT set of `n` bits per block, and successor lists that name blocks. */
  ghost predicate Shaped(f: Function, n: nat, succ: seq<seq<BlockId>>, ins: seq<seq<bool>>, outs: seq<seq<bool>>)
  {
    && |succ| == |f.blocks| && |ins| == |f.blocks| && |outs| == |f.blocks|
    && (forall b, j :: 0 <= b < |succ| && 0 <= j < |succ[b]| ==> succ[b][j] < |f.blocks|)
    && (forall b :: 0 <= b < |f.blocks| ==> |ins[b]| == n && |outs[b]| == n)
  }

  /**
   * `ins` and `outs` solve the liveness equations of `f` over the CFG whose
   * successor lists are `succ`: each OUT is the meet of the successors' IN
   * (the empty boundary set for a block without successors), and each IN is
   * what the transfer function computes from that OUT.
   */
  ghost predicate Solution(f: Function, idx: map<Value, int>, n: nat, succ: seq<seq<BlockId>>, ins: seq<seq<bool>>, outs: seq<seq<bool>>)
  {
    && Covers(f, idx, n)
    && (forall b :: 0 <= b < |f.blocks| ==> BlockCovered(f, idx, n, b))
    && Shaped(f, n, succ, ins, outs)
    && forall b :: 0 <= b < |f.blocks| ==>
         && outs[b] == UnionAll(SuccIns(ins, succ[b]), n)
         && ins[b] == BlockIn(f, idx, n, b, outs[b])
  }

  /** In a solution a value is live out of a block iff it is live into one of its successors. */
  lemma SolutionOut(f: Function, idx: map<Value, int>, n: nat, succ: seq<seq<BlockId>>, ins: seq<seq<bool>>, outs: seq<seq<bool>>, b: BlockId, i: int)
    requires Solution(f, idx, n, succ, ins, outs) && b < |f.blocks| && 0 <= i < n
    ensures outs[b][i] <==> exists j :: 0 <= j < |succ[b]| && ins[succ[b][j]][i]
  {
    var vs := SuccIns(ins, succ[b]);
    UnionAllAt(vs, n, i);
    if exists j :: 0 <= j < |vs| && vs[j][i] {
      var j :| 0 <= j < |vs| && vs[j][i];
      assert ins[succ[b][j]][i];
    }
    if exists j :: 0 <= j < |succ[b]| && ins[succ[b][j]][i] {
      var j :| 0 <= j < |succ[b]| && ins[succ[b][j]][i];
      assert vs[j][i];
    }
  }

  /** In a solution the IN of every successor is contained in the OUT of its predecessor. */
  lemma SolutionSuccessor(f: Function, idx: map<Value, int>, n: nat, succ: seq<seq<BlockId>>, ins: seq<seq<bool>>, outs: seq<seq<bool>>, b: BlockId, j: nat)
    requires Solution(f, idx, n, succ, ins, outs) && b < |f.blocks| && j < |succ[b]|
    ensures Subset(ins[succ[b][j]], outs[b])
  {
    forall i | 0 <= i < |ins[succ[b][j]]| && ins[succ[b][j]][i] ensures Bit(outs[b], i) {
      SolutionOut(f, idx, n, succ, ins, outs, b, i);
    }
  }

  /**
   * In a solution, IN[b] = GEN[b] ∪ ((∪ IN[s]) − KILL[b]): a value is live
   * into a block iff the block reads it before redefining it, or it is live
   * into a successor and the block does not redefine it.
   */
  lemma SolutionIn(f: Function, idx: map<Value, int>, n: nat, succ: seq<seq<BlockId>>, ins: seq<seq<bool>>, outs: seq<seq<bool>>, b: BlockId, i: int)
    requires Solution(f, idx, n, succ, ins, outs) && b < |f.blocks| && 0 <= i < n
    ensures ins[b][i] <==>
      BlockGen(f, idx, b, 0, i) ||
      ((exists j :: 0 <= j < |succ[b]| && ins[succ[b][j]][i]) && !BlockKill(f, idx, b, 0, i))
  {
    SolutionOut(f, idx, n, succ, ins, outs, b, i);
    BlockInGenKill(f, idx, n, b, outs[b]);
  }

  /**
   * Boundary: in a solution a block without successors has the empty OUT
   * set, so its IN is exactly its GEN.
   */
  lemma SolutionExit(f: Function, idx: map<Value, int>, n: nat, succ: seq<seq<BlockId>>, ins: seq<seq<bool>>, outs: seq<seq<bool>>, b: BlockId)
    requires Solution(f, idx, n, succ, ins, outs) && b < |f.blocks| && succ[b] == []
    ensures outs[b] == Falses(n)
    ensures forall i :: 0 <= i < n ==> (ins[b][i] <==> BlockGen(f, idx, b, 0, i))
  {
    assert SuccIns(ins, succ[b]) == [];
    BlockInGenKill(f, idx, n, b, outs[b]);
  }
}
