/**
 * Two small functions worked through the model: a straight-line block and
 * a diamond whose join block starts with a phi node.
 */
module Scenarios {
  import opened BitVectors
  import opened IR
  import opened Indexing
  import opened Transfer
  import opened Equations

  /*
   * define i32 @f(i32 %a, i32 %b) {
   *   %t1 = add i32 %a, %b
   *   ret i32 %t1
   * }
   */
  function StraightLine(): (f: Function)
  {
    Function(2,
      [ Op([Tracked(ArgVal(0)), Tracked(ArgVal(1))], false),
        Op([Tracked(InstVal(0))], true) ],
      [[0, 1]])
  }

  /** The index map of `StraightLine`: a, b, t1, and the `ret` too. */
  function StraightLineIndex(): (m: map<Value, int>)
  {
    map[ArgVal(0) := 0, ArgVal(1) := 1, InstVal(0) := 2, InstVal(1) := 3]
  }

  /** The arguments take bits 0 and 1, `t1` bit 2 and the `ret` bit 3. */
  lemma StraightLineIndexed()
    ensures WellFormed(StraightLine())
    ensures DomainOf(StraightLine()) == [ArgVal(0), ArgVal(1), InstVal(0), InstVal(1)]
    ensures IndexesDomain(StraightLineIndex(), DomainOf(StraightLine()))
  {
    var f, idx := StraightLine(), StraightLineIndex();
    assert ProgramOrder(f) == [0, 1] by {
      assert Flatten(f.blocks[1..]) == [];
    }
    forall id: InstId | InFunction(f, id) ensures id < |f.insts| && RefsOk(f, f.insts[id]) {
      assert id in f.blocks[0];
      assert InFunction(f, 0);
      assert OperandOk(f, Tracked(InstVal(0)));
    }
    assert DomainOf(f) == [ArgVal(0), ArgVal(1), InstVal(0), InstVal(1)] by {
      assert ArgValues(2) == [ArgVal(0), ArgVal(1)];
      assert InstValues([0, 1]) == [InstVal(0), InstVal(1)];
    }
  }

  /** Every operand of the block has a bit below 4. */
  lemma StraightLineCovered()
    ensures BlockCovered(StraightLine(), StraightLineIndex(), 4, 0)
  {
    var f, idx := StraightLine(), StraightLineIndex();
    forall id | id in f.blocks[0] ensures InstrCovered(f, idx, 4, id) {
      assert id == 0 || id == 1;
    }
  }

  /**
   * With nothing live after the `ret`, its entry is {t1} (it is a
   * terminator, so it kills nothing) and the entry of the `add` is {a, b}:
   * `t1` is killed by its own definition.
   */
  lemma StraightLineEntries()
    ensures BlockCovered(StraightLine(), StraightLineIndex(), 4, 0)
    ensures InAt(StraightLine(), StraightLineIndex(), 4, 0, Falses(4), 1) == [false, false, true, false]
    ensures BlockIn(StraightLine(), StraightLineIndex(), 4, 0, Falses(4)) == [true, true, false, false]
  {
    var f, idx := StraightLine(), StraightLineIndex();
    StraightLineCovered();
    assert Falses(4) == [false, false, false, false];
    var e1 := InAt(f, idx, 4, 0, Falses(4), 1);
    assert e1 == Step(f, idx, 4, 1, Falses(4));
    assert e1 == [false, false, true, false];
    assert InAt(f, idx, 4, 0, Falses(4), 0) == Step(f, idx, 4, 0, e1);
    var ops := f.insts[0].operands;
    assert ops[..1] == [Tracked(ArgVal(0))];
    assert GenOps(Falses(4), ops[..1], idx) == [true, false, false, false];
    assert GenOps(Falses(4), ops, idx) == [true, true, false, false];
    assert e1[2 := false] == Falses(4);
    assert Step(f, idx, 4, 0, e1) == GenOps(e1[2 := false], ops, idx);
  }

  /** The block has no successor: the empty OUT and IN = {a, b} solve the equations. */
  lemma StraightLineSolution()
    ensures Solution(StraightLine(), StraightLineIndex(), 4, [[]], [[true, true, false, false]], [Falses(4)])
  {
    var f, idx := StraightLine(), StraightLineIndex();
    StraightLineIndexed();
    StraightLineEntries();
    DomainCovers(f, idx);
    CoversBlock(f, idx, 4, 0);
    assert UnionAll(SuccIns([[true, true, false, false]], []), 4) == Falses(4);
  }

  /*
   * entry:  br i1 undef, label %L, label %R
   * L:      %x = call i32 @g()
   *         br label %M
   * R:      %y = call i32 @h()
   *         br label %M
   * M:      %p = phi i32 [ %x, %L ], [ %y, %R ]
   *         ret i32 %p
   *
   * Operands that set no bit (labels, `undef`, callees) are left out.
   */
  function Diamond(): (f: Function)
  {
    Function(0,
      [ Op([], true),
        Op([], false),
        Op([], true),
        Op([], false),
        Op([], true),
        Phi([Incoming(Tracked(InstVal(1)), 1), Incoming(Tracked(InstVal(3)), 2)]),
        Op([Tracked(InstVal(5))], true) ],
      [[0], [1, 2], [3, 4], [5, 6]])
  }

  /** Instruction `k` takes bit `k`: the function has no arguments. */
  function DiamondIndex(): (m: map<Value, int>)
  {
    map k | 0 <= k < 7 :: InstVal(k) := k
  }

  /** Program order visits the blocks in turn: the instructions come out as 0 to 6. */
  lemma DiamondOrder()
    ensures ProgramOrder(Diamond()) == [0, 1, 2, 3, 4, 5, 6]
  {
    var bs := Diamond().blocks;
    assert Flatten(bs[3..][1..]) == [];
    assert Flatten(bs[3..]) == [5, 6];
    assert bs[2..][1..] == bs[3..];
    assert Flatten(bs[2..]) == [3, 4, 5, 6];
    assert bs[1..][1..] == bs[2..];
    assert Flatten(bs[1..]) == [1, 2, 3, 4, 5, 6];
  }

  /** The operands of each instruction of `Diamond` belong to it: `%x`, `%y` and `%p` sit in its blocks. */
  lemma DiamondRefs(id: InstId)
    requires InFunction(Diamond(), id)
    ensures id < |Diamond().insts| && RefsOk(Diamond(), Diamond().insts[id])
  {
    var f := Diamond();
    var b :| 0 <= b < |f.blocks| && id in f.blocks[b];
    assert id in [0, 1, 2, 3, 4, 5, 6];
    if id == 5 {
      assert 1 in f.blocks[1] && 3 in f.blocks[2];
      assert OperandOk(f, Tracked(InstVal(1))) && OperandOk(f, Tracked(InstVal(3)));
    } else if id == 6 {
      assert 5 in f.blocks[3];
      assert OperandOk(f, Tracked(InstVal(5)));
    } else {
      assert f.insts[id].Op? && f.insts[id].operands == [];
    }
  }

  /** `Diamond` is well formed: each instruction sits once in one block, and its operands belong to it. */
  lemma DiamondWellFormed()
    ensures WellFormed(Diamond())
  {
    var f := Diamond();
    forall id: InstId | InFunction(f, id) ensures id < |f.insts| && RefsOk(f, f.insts[id]) {
      DiamondRefs(id);
    }
    DiamondOrder();
    var order := ProgramOrder(f);
    assert forall k :: 0 <= k < |order| ==> order[k] == k;
  }

  /** The index map is the one `runOnFunction` builds for `Diamond`. */
  lemma DiamondIndexed()
    ensures IndexesDomain(DiamondIndex(), DomainOf(Diamond()))
  {
    var f, idx := Diamond(), DiamondIndex();
    DiamondOrder();
    var d := DomainOf(f);
    assert |d| == 7 && forall k :: 0 <= k < 7 ==> d[k] == InstVal(k);
    forall v ensures v in idx <==> v in d {
      if v in d {
        var k :| 0 <= k < |d| && d[k] == v;
      }
      if v in idx {
        assert d[v.inst] == v;
      }
    }
  }

  /** Every operand and incoming value of the join block has a bit below 7. */
  lemma DiamondCovered()
    ensures BlockCovered(Diamond(), DiamondIndex(), 7, 3)
  {
    var f, idx := Diamond(), DiamondIndex();
    forall id | id in f.blocks[3] ensures InstrCovered(f, idx, 7, id) {
      assert id == 5 || id == 6;
    }
  }

  /**
   * Walking the join block from an empty OUT: the `ret` makes `%p` live,
   * the phi kills it and adds nothing, so IN of the join block is empty and
   * neither `%x` nor `%y` is live into it.
   */
  lemma DiamondJoinIn()
    ensures BlockCovered(Diamond(), DiamondIndex(), 7, 3)
    ensures InAt(Diamond(), DiamondIndex(), 7, 3, Falses(7), 1) == Falses(7)[5 := true]
    ensures BlockIn(Diamond(), DiamondIndex(), 7, 3, Falses(7)) == Falses(7)
  {
    var f, idx := Diamond(), DiamondIndex();
    DiamondCovered();
    var e1 := InAt(f, idx, 7, 3, Falses(7), 1);
    assert e1 == Step(f, idx, 7, 6, Falses(7));
    var ops := f.insts[6].operands;
    assert ops[..0] == [];
    assert e1 == Falses(7)[5 := true];
    assert Step(f, idx, 7, 5, e1) == e1[5 := false];
    assert e1[5 := false] == Falses(7);
  }

  /**
   * The side table after the walk of the join block, started empty: the
   * edge from `L` carries `%x` and the edge from `R` carries `%y`.
   */
  lemma DiamondSideTable()
    ensures BlockCovered(Diamond(), DiamondIndex(), 7, 3)
    ensures SideAfter(Diamond(), DiamondIndex(), 7, 3, map[], 0) ==
      map[1 := Falses(7)[1 := true], 2 := Falses(7)[3 := true]]
  {
    var f, idx := Diamond(), DiamondIndex();
    DiamondCovered();
    var inc := f.insts[5].incoming;
    assert SideAfter(f, idx, 7, 3, map[], 1) == map[];
    assert inc[..1] == [inc[0]] && inc[..1][..0] == [];
    assert AddIncoming(map[], inc[..1], idx, 7) == map[1 := Falses(7)[1 := true]];
  }
}
