# Liveness as a backward bit-vector dataflow problem

This project models the liveness pass in `Liveness/Liveness.cpp`, an LLVM function
pass. Its flow values are bit vectors with one bit per function argument and one
per instruction. The pass supplies four things to a generic backward dataflow engine:

- a boundary value (the empty set);
- an initial flow value (the empty set);
- a meet (an in-place union);
- a per-block transfer function. It walks the block from its last instruction to
  its first and stores each instruction's live-in set in a per-instruction table.
  It also records the values that phi nodes take along each incoming edge in a
  per-predecessor side table.

Before the engine runs, `runOnFunction` numbers the values. It numbers the
arguments first, then every instruction in program order. It gives every
instruction an all-false table entry.

The host IR is an arena (`ir.dfy`). An instruction is a phi node with
`(value, block)` pairs, or any other instruction with an operand list and a
terminator flag. An operand is `Tracked` when it is an instruction or an
argument, and `Untracked` otherwise (a constant, a global, a label). A block is
a list of instruction numbers. Bit vectors are `seq<bool>` (`bitvectors.dfy`).
The objects that the hooks update through a pointer are `BitVector` objects with
a `bits` field. The pass object is the class `Liveness.Live`. It holds the
fields that the pass declares, and two that it inherits from the dataflow engine:

- `domain`, `bvIndexToInstrArg` and `valueToBitVectorIndex`, declared by the pass;
- `instrInSet` and `domainSize`, declared by the pass;
- the engine's `out` map, which the transfer function reads;
- the engine's `neighbourSpecificValues` side table, which the transfer function extends.

The methods update these fields in place. `transfer.dfy` holds the value-level
specification of the walk:

- `Step` is one instruction of the walk.
- `InAt` is the entry of the k-th instruction, and `BlockIn` is the IN set of the block.
- `SideAfter` is the side table after the walk.
- `BlockGen` and `BlockKill` are the classic GEN and KILL sets. `InAtGenKill` and
  `BlockInGenKill` prove `IN = GEN ∪ (OUT − KILL)`.

`equations.dfy` states the liveness equations `OUT[n] = ∪ IN[s]` and
`IN[n] = GEN[n] ∪ (OUT[n] − KILL[n])` as a predicate that an assignment of sets
to blocks may satisfy. `scenarios.dfy` works two small functions through the model.

The model follows the code on these points:

- Every instruction receives a bit, including stores and terminators (`Liveness/Liveness.cpp:214-219`).
  The comment on the `domain` field (`Liveness/Liveness.cpp:72`) speaks of "all the definitions and
  function arguments"; the loop indexes every instruction, definition or not. A block
  `%t1 = add %a, %b; ret %t1` therefore has a domain of four values (`Scenarios.StraightLineIndexed`).
- `isDefinition` counts every non-terminator as a definition, so every non-terminator
  kills its own bit, whether or not it produces a value (`Liveness/Liveness.cpp:193-195`).
- The table entry of an instruction is the running set after that instruction's kill
  and gen steps, that is, its live-in set. The walk overwrites the entry in place and
  then continues from it (`Liveness/Liveness.cpp:153-183`).
- `|=` on two vectors of different lengths grows the receiver to the longer length
  (`BitVectors.Union`). Between vectors of `domainSize` bits it is the bitwise OR.

## Model

| member | source | states |
|---|---|---|
| BitVectors.Falses | Liveness/Liveness.cpp:124 | `BitVector(n, false)` has n bits, all clear |
| BitVectors.Union | Liveness/Liveness.cpp:128-130 | the in-place OR of a and b has the longer length, holds every bit of both operands and no other bit |
| BitVectors.UnionSameLength | Liveness/Liveness.cpp:129 | between vectors of one length the meet keeps the length and is the bitwise OR |
| BitVectors.UnionIdempotent | Liveness/Liveness.cpp:128-130 | meeting a vector with itself leaves it unchanged |
| BitVectors.UnionCommutative | Liveness/Liveness.cpp:17 | the meet does not depend on the order of its operands |
| BitVectors.UnionMonotone | Liveness/Liveness.cpp:17 | a larger operand never gives a smaller meet |
| BitVectors.BitVector.constructor | Liveness/Liveness.cpp:134 | a fresh vector of n bits is all clear |
| IR.InFunctionInOrder | Liveness/Liveness.cpp:214 | the instruction iterator visits exactly the instructions that sit in some block |
| IR.ProgramOrder | Liveness/Liveness.cpp:214 | the order in which `inst_iterator` visits the instructions: the instructions of each block, block after block |
| IR.BlockDistinct | Liveness/Liveness.cpp:148-188 | in a well-formed function no instruction appears twice in one block, so the walk visits each once |
| Indexing.DomainLayout | Liveness/Liveness.cpp:206-219 | the domain has numArgs + #instructions values: argument a at position a, the k-th instruction in program order at numArgs + k |
| Indexing.DomainDistinct | Liveness/Liveness.cpp:206-219 | no value gets two positions in the domain of a well-formed function |
| Indexing.IndexesDomainDistinct | Liveness/Liveness.cpp:206-219 | a map that sends each domain value to its position forces the domain to be repetition-free |
| Indexing.IndexInjective | Liveness/Liveness.cpp:206-219 | the value-to-index map is injective |
| Indexing.IndexRoundTrip | Liveness/Liveness.cpp:206-219 | reading the domain at a value's index gives the value back |
| Indexing.IndexLayout | Liveness/Liveness.cpp:206-219 | argument a has index a; the k-th instruction in program order has index numArgs + k |
| Indexing.DomainCovers | Liveness/Liveness.cpp:206-221 | the map knows exactly the arguments and instructions of the function, and every index is below domainSize |
| Indexing.DomainOf | Liveness/Liveness.cpp:206-219 | the list the two counter loops build: every argument in declaration order, then every instruction in program order |
| Liveness.Live.constructor | Liveness/Liveness.cpp:66-70 | the pass starts with empty index containers and an empty table |
| Liveness.Live.RunOnFunction | Liveness/Liveness.cpp:200-226 | after the three loops: domain and index vector list the arguments and then the instructions in program order; the map indexes that list exactly; domainSize is #args + #instructions; the table has an all-false entry of domainSize bits for exactly the function's instructions |
| Liveness.Live.IndexedReady | Liveness/Liveness.cpp:200-226 | the state `runOnFunction` leaves gives every operand, incoming value and instruction of every block a bit below domainSize, and a table entry to every instruction |
| Liveness.Live.IndexedRoundTrip | Liveness/Liveness.cpp:206-221 | after indexing, `bvIndexToInstrArg[valueToBitVectorIndex[v]] == v` for every argument and instruction v, with the index below domainSize |
| Liveness.Live.IndexedInjective | Liveness/Liveness.cpp:206-221 | after indexing, two values with the same bit are the same value |
| Liveness.Live.SetBoundaryCondition | Liveness/Liveness.cpp:123-125 | the boundary vector becomes domainSize clear bits |
| Liveness.Live.MeetOp | Liveness/Liveness.cpp:128-130 | `lhs` becomes the union of old `lhs` and `rhs`, in place; `rhs` is unchanged; at equal lengths the length stays and each bit is the OR |
| Liveness.Live.InitializeFlowValue | Liveness/Liveness.cpp:133-135 | a fresh vector of domainSize clear bits |
| Liveness.Live.TransferFn | Liveness/Liveness.cpp:141-191 | OUT is not written; the result is IN of the block; each instruction's table entry is its live-in set from the walk; every other entry is untouched and no entry is added; the result is the first instruction's entry; the side table is the one the walk's phi nodes produce |
| Liveness.Live.VisitInstruction | Liveness/Liveness.cpp:152-181 | one iteration of the walk: the running set becomes the kill-then-gen step of the instruction, and the side table gets the phi's incoming values |
| Liveness.Live.GenOperands | Liveness/Liveness.cpp:162-168 | the operand loop sets the bit of every tracked operand and nothing else |
| Liveness.Live.RecordIncoming | Liveness/Liveness.cpp:169-181 | the incoming loop of a phi leaves the side table with each tracked value recorded under its incoming block |
| Liveness.FilledStep | Liveness/Liveness.cpp:153-154 | overwriting one instruction's table entry extends the part already written by the walk and changes no other entry |
| Transfer.GenOpsAt | Liveness/Liveness.cpp:163-168 | after the gen step a bit is set iff it was set before or some tracked operand has that index |
| Transfer.GenOps | Liveness/Liveness.cpp:162-168 | the operand loop as a value: the operands in order, each tracked one setting its bit in the running set |
| Transfer.GenOpsUntracked | Liveness/Liveness.cpp:165 | a list with no instruction or argument operand sets no bit |
| Transfer.CoversBlock | Liveness/Liveness.cpp:158-174 | a map that covers the function gives every lookup of the walk over any block a bit below domainSize |
| Transfer.IsDefinition | Liveness/Liveness.cpp:193-195 | every instruction except a terminator is a definition, including phi nodes and stores |
| Transfer.Step | Liveness/Liveness.cpp:152-168 | one instruction of the walk: clear its own bit if it is a definition, then, unless it is a phi node, set the bits of its tracked operands |
| Transfer.StepAt | Liveness/Liveness.cpp:153-168 | after one instruction a bit is set iff the (non-phi) instruction uses it, or it was set and is not the instruction's own bit killed as a definition |
| Transfer.BlockKillUnfold | Liveness/Liveness.cpp:157-159 | KILL of a block suffix is the kill of its first instruction or KILL of the rest |
| Transfer.BlockGenUnfold | Liveness/Liveness.cpp:157-168 | GEN of a block suffix is the first instruction's uses, or GEN of the rest when the first does not kill the bit |
| Transfer.BlockKill | Liveness/Liveness.cpp:139 | DEF of a block suffix: some instruction from the given position on is a definition whose own bit is the bit in question |
| Transfer.BlockGen | Liveness/Liveness.cpp:139 | USE of a block suffix: some ordinary instruction reads the bit and no instruction before it in the suffix kills it |
| Transfer.InAt | Liveness/Liveness.cpp:148-190 | the entry the walk stores for the k-th instruction: the step applied to the next instruction's entry, or to OUT for the last one |
| Transfer.Entries | Liveness/Liveness.cpp:153-154 | the entries of all the instructions of the block, in block order |
| Transfer.BlockIn | Liveness/Liveness.cpp:183-190 | the value `transferFn` returns: the entry of the first instruction |
| Transfer.InAtGenKill | Liveness/Liveness.cpp:148-190 | the entry stored for the k-th instruction is GEN ∪ (OUT − KILL) of the instructions from k to the end |
| Transfer.BlockInGenKill | Liveness/Liveness.cpp:18 | the block's IN is GEN[n] ∪ (OUT[n] − KILL[n]) |
| Transfer.BlockInMonotone | Liveness/Liveness.cpp:18 | a larger OUT never gives a smaller IN |
| Transfer.SelfUseLive | Liveness/Liveness.cpp:156-168 | gen follows kill: an instruction that reads its own result keeps its own bit in its entry |
| Transfer.AddEdge | Liveness/Liveness.cpp:173-178 | one incoming pair: for a tracked value, the row of its block is created all clear when missing, then the value's bit is set in it |
| Transfer.AddIncoming | Liveness/Liveness.cpp:169-180 | the incoming loop of one phi as a value: its pairs recorded first to last |
| Transfer.AddIncomingAt | Liveness/Liveness.cpp:171-180 | after a phi's pairs: entries exist for the blocks that had one or carry a tracked value, and a bit is set iff it was set or a value from that block has that index |
| Transfer.SideAfterAt | Liveness/Liveness.cpp:148-188 | after the walk down to position k, the side table gained entries only for blocks that a phi takes a tracked value from, and exactly those values' bits |
| Transfer.SideTableGrows | Liveness/Liveness.cpp:176-178 | existing side-table entries are kept and only gain bits |
| Transfer.SideStep | Liveness/Liveness.cpp:169-181 | what one instruction of the walk does to the side table: a phi node records its pairs, any other instruction leaves it alone |
| Transfer.SideAfter | Liveness/Liveness.cpp:148-188 | the side table after the walk has processed the block from its last instruction down to a given position |
| Transfer.PhiRecorded | Liveness/Liveness.cpp:169-180 | every tracked incoming value of every phi of the block is set in its incoming block's side-table entry |
| Transfer.PhiIsolation | Liveness/Liveness.cpp:161-169 | a value that no ordinary instruction reads is in IN only when it is in OUT and not killed, whatever the phi nodes take |
| Equations.UnionAll | Liveness/Liveness.cpp:17 | the meet over a list of vectors of n bits: their union, the empty set when there are none; the result has n bits |
| Equations.Solution | Liveness/Liveness.cpp:17-18 | an assignment of IN and OUT sets to blocks solves the equations: each OUT is the union of its successors' IN, and each IN is what the walk returns from that OUT |
| Equations.UnionAllAt | Liveness/Liveness.cpp:17 | a bit of the meet over the successors is set iff it is set in one of them |
| Equations.SolutionOut | Liveness/Liveness.cpp:17 | in a solution a value is live out of a block iff it is live into a successor |
| Equations.SolutionSuccessor | Liveness/Liveness.cpp:17 | in a solution IN of each successor is contained in OUT of the block |
| Equations.SolutionIn | Liveness/Liveness.cpp:17-18 | in a solution a value is live into a block iff the block reads it before redefining it, or a successor has it live-in and the block does not kill it |
| Equations.SolutionExit | Liveness/Liveness.cpp:23 | a block without successors has the empty OUT, so its IN is exactly its GEN |
| Scenarios.StraightLineIndexed | Liveness/Liveness.cpp:206-219 | for `add`/`ret` over two arguments the domain is a, b, t1, ret: the `ret` takes a bit too |
| Scenarios.StraightLineEntries | Liveness/Liveness.cpp:148-190 | from an empty OUT the `ret` entry is {t1} and IN of the block is {a, b} |
| Scenarios.StraightLineSolution | Liveness/Liveness.cpp:17-23 | the empty OUT and IN = {a, b} solve the equations of the one-block function |
| Scenarios.DiamondOrder | Liveness/Liveness.cpp:214 | program order of the diamond visits its seven instructions block by block |
| Scenarios.DiamondWellFormed | Liveness/Liveness.cpp:214-219 | the diamond function is well formed |
| Scenarios.DiamondIndexed | Liveness/Liveness.cpp:206-219 | instruction k of the diamond takes bit k |
| Scenarios.DiamondJoinIn | Liveness/Liveness.cpp:157-168 | in the join block the `ret` makes the phi live, the phi kills it and gens nothing, so IN of the join block is empty |
| Scenarios.DiamondSideTable | Liveness/Liveness.cpp:169-180 | after walking the join block the edge from L carries %x and the edge from R carries %y |

## Left out

- The dataflow engine `DataFlow<BitVector>::runOnFunction` (`Liveness/Liveness.cpp:229`) lives in `Dataflow.h`, which is not part of this model. The equations it solves are stated as the predicate `Equations.Solution`, without a solver. The model holds `out` as a field that the engine would fill.
- Printing and annotation (`emitBasicBlockStartAnnot`, `emitInstructionAnnot`, `F.print`, lines 87-115 and 230) are output only.
- Pass registration and `getAnalysisUsage` (lines 234-259) are host-tool glue.
- Heap management: the repeated `new` and the leaks at lines 202-204 and 225 have no counterpart. The containers are values held in fields.
- Liveness.Live.TransferFn: returns the IN set as a value. The source returns a pointer to the first instruction's table entry, which aliases it; the model states instead that the returned value equals that entry.
- Liveness.Live.TransferFn: the source's `while (true)` loop with `break` at `begin()` is a loop over the positions from the last down to the first. Its body is `VisitInstruction`, with the operand and incoming loops as `GenOperands` and `RecordIncoming`.
- Liveness.Live.TransferFn: requires a non-empty block. `--(bb.end())` is undefined on an empty block. It also requires that the index map cover the block, which `runOnFunction` guarantees (`Liveness.Live.IndexedReady`). `ValueMap::operator[]`'s insertion of a default 0 for an unknown value therefore never happens and is not modelled.
- Liveness.Live.TransferFn: OUT and the phi side table are the engine's per-function state. The model assumes they hold only `domainSize`-bit rows for the function being analysed. A block number stands for a block pointer within that one function. The source keys the side table by `BasicBlock*`, so rows of different functions never collide. The model does not capture a pass object reused across functions: there, the side table would keep the first function's rows under the second function's block numbers.
- Liveness.Live.constructor: promises nothing about `out` and `neighbourSpecificValues`. The engine's constructor, which sets them up, is not part of this model.
- Liveness.Live.InitializeFlowValue: drops the block and set-type parameters, which the source ignores.
- Liveness.Live.RunOnFunction: does not run the engine or print; it ends with the table initialised. It returns no value; the source always returns `false`.
- Liveness.Live.RunOnFunction: counts with unbounded integers. The source's `int domainSize` (line 81), `int index` (line 206) and the `(int)` casts (lines 91, 106, 171) are 32-bit signed, so they would wrap past 2^31 − 1 values. The model does not capture that overflow, which no realistic function reaches.
- The unused fields `numArgs` and `numInstr` (lines 82-83) are not modelled.
- Instruction kinds other than phi and terminator, operand types, and values outside the function (globals, constants, labels) are collapsed into `Untracked` operands.
