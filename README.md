# Triton's distributed code generator and the flat-array expression tree

This project models two pieces of the Triton compiler in Dafny and proves
properties of the models.

**The selection generator** (`lib/codegen/selection/generator.cc`) lowers a
tile program to LLVM IR for one GPU thread. A tile value is spread over the
threads of a block: every thread materializes a list of index tuples
(`idxs_`), and for each tuple the value table (`vals_`) holds the LLVM value
of that element. All decisions underneath the IR builder are integer, index
or string arithmetic:

- which tuples a thread owns (`init_idx`, `visit_layout_scanline`);
- how each instruction fills its table from its operands' tables (splat,
  broadcast, cat, reshape, elementwise, compare and cast rules);
- how loads and stores are vectorized and packed into inline-assembly words;
- shared-memory offsets (`shared_off`) and the XOR swizzle;
- the rotating buffers of software-pipelined loops;
- reductions within a thread, a warp and a block;
- the bf16 and fp8 conversions.

Here an LLVM value is a term (`Ir.Val`) over what it was built from. Index
coordinates are the integers that one fixed thread sees. The generator
state is a class (`CodeGenerator.Generator`) whose map fields the visitors
update in place.

**The expression tree** (`lib/symbolic/expression.cpp`) stores a symbolic
expression as an array of nodes. Each node has a left child, an operator
and a right child. A child slot is a leaf (loop index, array, scalar,
invalid) or a COMPOSITE index pointing at another node of the same array.
The constructors concatenate their operands' arrays, shift the right
operand's composite indices past the left one, and append a new root.
`lhs_most` walks composite left children to the leftmost leaf.

Module map:

- `ir.dfy`: the tile program and the LLVM value terms.
- `generator.dfy`: the generator class and its visitors.
- `index_materializer.dfy`: `init_idx`'s loop nests.
- `scanline.dfy`: thread-id delinearization and per-axis coordinates.
- `shared_offset.dfy`: `shared_off`.
- `swizzle.dfy`: the swizzled addresses of async and copy-to-shared stores.
- `memory_access.dfy`: the load/store vector plans, the inline-assembly text
  and its constraint string.
- `shared_buffers.dfy`: N-stage and double buffering.
- `reductions.dfy`: the reductions.
- `narrow_formats.dfy`: bf16 and fp8.
- `expression_tree.dfy`: the expression tree.
- Support modules:
  - `mixed_radix.dfy`: mixed-radix digits;
  - `permutation.dfy`: permutations, sums and products;
  - `machine_int.dfy`: 32-bit wrap-around, powers of two and XOR;
  - `text_format.dfy`: numbers as text, and joining and splitting strings;
  - `wrappers.dfy`: the `Result` and `Option` types.

A thrown `std::runtime_error` or `std::out_of_range` (from `.at`, including
the key-row lookups of the two swizzled copies) becomes an `Err` result.

## Model

| member | source | states |
|---|---|---|
| CodeGenerator.Generator.constructor | lib/codegen/selection/generator.cc:63-73 | a fresh generator has empty tables, no indices, no axes, nothing seen, and records whether the target has the bf16 conversion instruction (`sm() >= 80`, generator.cc:337) |
| CodeGenerator.ValuesAlong | lib/codegen/selection/generator.cc:473 | the operand values read along an index list, entry by entry, with never-written entries reading as the null value |
| CodeGenerator.LookupElsewhere | lib/codegen/selection/generator.cc:683 | writing one value's table leaves every other value's entries unchanged |
| CodeGenerator.AssignOutside | lib/codegen/selection/generator.cc:150-151 | an index the loop never writes keeps its old entry, and is present exactly when it was |
| CodeGenerator.AssignLast | lib/codegen/selection/generator.cc:150-151 | of repeated writes to one index, the last one stays |
| CodeGenerator.AssignRule | lib/codegen/selection/generator.cc:681-682 | when each written value depends only on the index it goes to, every written index ends with that value |
| CodeGenerator.AssignDistinct | lib/codegen/selection/generator.cc:671-673 | writes into distinct indices all stay |
| CodeGenerator.Generator.Store | lib/codegen/selection/generator.cc:150-151 | the table-filling loop leaves exactly the sequential-update table for x and changes nothing else |
| CodeGenerator.Generator.StoreRule | lib/codegen/selection/generator.cc:681-682 | a pointwise rule gives every written index its rule value and leaves all other entries alone |
| CodeGenerator.Generator.VisitSplat | lib/codegen/selection/generator.cc:680-683 | fails exactly when x has no indices; otherwise every element of x is the operand's scalar and other entries are unchanged |
| CodeGenerator.BroadcastIndex | lib/codegen/selection/generator.cc:692-694 | the operand index keeps the rank, is 0 where the operand extent is 1, and copies the output coordinate elsewhere |
| CodeGenerator.BroadcastReadsOperand | lib/codegen/selection/generator.cc:688-696 | every output element reads an index the operand actually materialized, when both index lists are the products init_idx builds |
| CodeGenerator.Generator.VisitBroadcast | lib/codegen/selection/generator.cc:688-699 | fails exactly when x has no indices; otherwise each element reads the operand at its broadcast index |
| CodeGenerator.Generator.VisitElementwise | lib/codegen/selection/generator.cc:185-196 | the binary, icmp and fcmp rules: each element combines the operands' elements at the same index; fails exactly when x has no indices |
| CodeGenerator.Generator.VisitCat | lib/codegen/selection/generator.cc:650-662 | the first elements of x are the lhs elements then the rhs elements, in materialization order; fails exactly when a list is missing or x has too few indices |
| CodeGenerator.Generator.VisitReshape | lib/codegen/selection/generator.cc:669-675 | element i of x, in materialization order, is element i of the operand; fails exactly when x has no list, or when x has at least one index and the operand's list is missing or shorter; an empty list for x succeeds and changes nothing |
| CodeGenerator.Generator.VisitPhi | lib/codegen/selection/generator.cc:148-152 | one fresh phi per element of x, and x's other entries unchanged; fails exactly when x has no indices |
| CodeGenerator.Generator.VisitConstant | lib/codegen/selection/generator.cc:1439-1455 | the undef, integer and float constants: every element is that constant, and x's other entries unchanged; fails exactly when x has no indices |
| CodeGenerator.Fp8Group | lib/codegen/selection/generator.cc:364-370 | converting a group of four gives four values, and succeeds exactly for fp32 to fp8 with four zero constants or for fp8 to fp16 |
| CodeGenerator.ConvertGroups | lib/codegen/selection/generator.cc:371-379 | the `i += 4` loop succeeds exactly when every group converts, and then holds each group's conversion in place |
| CodeGenerator.ConvertedStep | lib/codegen/selection/generator.cc:371-379 | one more converted group keeps the loop invariant |
| CodeGenerator.GroupsKept | lib/codegen/selection/generator.cc:371-379 | appending a group keeps the groups already converted |
| CodeGenerator.Generator.VisitCast | lib/codegen/selection/generator.cc:348-422 | a generic cast maps each element; fp32 to bf16 and bf16 to fp32 map element k of the operand list to element k of x; outside fp8, with both lists present, the cast succeeds exactly when it is not a bf16/fp32 conversion whose operand list is shorter than x's; a bf16 cast with no fp32 side leaves the table unchanged; an fp8 cast fails when its vector guard fails, and otherwise succeeds exactly when x's list is a multiple of four no longer than the operand's and every group of four operand values converts, element k of x then being lane k mod 4 of group k/4's conversion; a missing list fails; on success x's entries outside its list are unchanged |
| CodeGenerator.GroupElements | lib/codegen/selection/generator.cc:371-379 | when every group's conversion is stored at its four positions, element k is lane k mod 4 of group k/4's conversion |
| CodeGenerator.Generator.ConvertFp8 | lib/codegen/selection/generator.cc:371-379 | the `i += 4` loop succeeds exactly when x's list is a multiple of four no longer than the operand's and every group converts; then element k of x is lane k mod 4 of group k/4's conversion, and only x's table changes, at the positions of x's list; a failure changes nothing |
| CodeGenerator.Generator.StoreMapped | lib/codegen/selection/generator.cc:386-392 | with distinct target indices, element k of x is the conversion of element k of the operand; entries of x outside the target list are unchanged |
| CodeGenerator.Generator.Accept | lib/codegen/selection/generator.cc:135-137 | dispatching to the defining instruction's rule changes only x's table |
| CodeGenerator.SortKeys | lib/codegen/selection/generator.cc:1772-1784 | the comparison keys of a laid-out value's dimensions form a permutation of 0..rank-1 |
| CodeGenerator.AxisValues | lib/codegen/selection/generator.cc:1761-1770 | one coordinate list per dimension of the value |
| CodeGenerator.Generator.CoordinateListsOf | lib/codegen/selection/generator.cc:1761-1770 | fails exactly when a dimension of extent above 1 has no axis; otherwise gives each dimension's coordinate list (`[0]` for extent 1) |
| CodeGenerator.Generator.InitIdx | lib/codegen/selection/generator.cc:1748-1808 | fails exactly when an axis is missing; a shared block gets no tuples; on success a scalar gets one empty tuple and a distributed block an order that is a permutation of its dimensions sorted by the layout keys and, for ranks 1 to 3, the ordered product of its coordinate lists; other ranks get nothing |
| CodeGenerator.Generator.VisitLayoutScanline | lib/codegen/selection/generator.cc:1644-1679 | stores one axis per layout axis id, touching no other id; the axes' thread ids are the mixed-radix digits of the thread id, and each axis owns the coordinates of the per-axis loop |
| CodeGenerator.AxesAt | lib/codegen/selection/generator.cc:1677 | the axes stored under a list of ids, in order |
| CodeGenerator.Generator.StoreAxes | lib/codegen/selection/generator.cc:1664-1678 | after the loop every id maps to its created axis when ids are distinct; other ids are unchanged |
| CodeGenerator.Generator.VisitLayoutShared | lib/codegen/selection/generator.cc:1681-1733 | records the buffer's pointers and phis and changes nothing else |
| CodeGenerator.Generator.VisitValue | lib/codegen/selection/generator.cc:79-146 | a value already seen changes nothing; otherwise the value is marked seen, a shared block gets the pointer and offset of its buffer choice, and on success its operands are seen (only the constant ones for a phi) and its indices are as InitIdx builds them; the pointers of earlier-seen values never change |
| CodeGenerator.Generator.VisitUnseen | lib/codegen/selection/generator.cc:82-137 | the first visit of a value marks it seen, gives a shared block the pointer and offset of its buffer choice, and on success leaves every operand seen (only the constant ones for a phi) and the value's indices as InitIdx builds them; the pointers of values seen before never change |
| CodeGenerator.Generator.VisitOperands | lib/codegen/selection/generator.cc:122-127 | on success every operand visited (only the constants of a phi) is seen; earlier entries are kept |
| CodeGenerator.RestrictUpdate | lib/codegen/selection/generator.cc:117-119 | setting the pointer of a newly seen value keeps the pointers of values seen before |
| CodeGenerator.RestrictSmaller | lib/codegen/selection/generator.cc:80-81 | agreement on the seen values carries over to any subset of them |
| CodeGenerator.RestrictPoint | lib/codegen/selection/generator.cc:117-119 | agreement on the seen values gives agreement at each of them |
| Ir.ICmpCode | lib/codegen/selection/generator.cc:214-231 | each integer predicate maps to its LLVM code between 32 and 41 |
| Ir.FCmpCode | lib/codegen/selection/generator.cc:245-268 | each floating predicate maps to its LLVM code between 0 and 15 |
| Ir.ICmpCodeInjective | lib/codegen/selection/generator.cc:214-231 | two predicates share a code only when one is a range marker |
| Ir.FCmpCodeInjective | lib/codegen/selection/generator.cc:245-268 | two predicates share a code only when one is a range marker |
| Ir.CmpCodesOnto | lib/codegen/selection/generator.cc:214-268 | every code in each range is produced by some predicate |
| IndexMaterializer.IndexOf | lib/codegen/selection/generator.cc:1775-1779 | the first position that holds x |
| IndexMaterializer.Sizes | lib/codegen/selection/generator.cc:1786-1807 | the list lengths in loop order |
| IndexMaterializer.TupleAt | lib/codegen/selection/generator.cc:1786-1807 | the k-th product tuple has one coordinate per dimension |
| IndexMaterializer.TupleAtOrd | lib/codegen/selection/generator.cc:1786-1807 | the coordinate of dimension `ord[j]` is entry digit j of k in its list; `ord[0]` varies fastest |
| IndexMaterializer.SortDims | lib/codegen/selection/generator.cc:1772-1784 | the sort returns a permutation of the dimensions with strictly increasing keys |
| IndexMaterializer.DimKeys | lib/codegen/selection/generator.cc:1772-1779 | the keys form a permutation when the layout order is one |
| IndexMaterializer.CoordinateLists | lib/codegen/selection/generator.cc:1761-1770 | each dimension's list is its axis's coordinates, or `[0]` for extent 1 |
| IndexMaterializer.Product1 | lib/codegen/selection/generator.cc:1786-1790 | the rank-1 loop pushes the ordered product |
| IndexMaterializer.Product2 | lib/codegen/selection/generator.cc:1791-1796 | the rank-2 nest, `ord[1]` outer, pushes the ordered product |
| IndexMaterializer.Grid2At | lib/codegen/selection/generator.cc:1791-1796 | position k of the rank-2 nest holds the pair of inner position `k % n0` and outer position `k / n0` |
| IndexMaterializer.Product3 | lib/codegen/selection/generator.cc:1797-1807 | the rank-3 nest pushes the ordered product |
| IndexMaterializer.Cube3At | lib/codegen/selection/generator.cc:1797-1807 | position `(i2*n1+i1)*n0+i0` of the rank-3 nest holds the triple `(i0, i1, i2)` |
| IndexMaterializer.Cube3Product | lib/codegen/selection/generator.cc:1797-1807 | what the rank-3 nest pushes is the ordered product |
| IndexMaterializer.Materialize | lib/codegen/selection/generator.cc:1786-1807 | ranks 1 to 3 give the ordered product; other ranks give nothing |
| IndexMaterializer.ProductLength | lib/codegen/selection/generator.cc:1786-1807 | the number of tuples is the product of the list lengths |
| IndexMaterializer.ProductMembership | lib/codegen/selection/generator.cc:1786-1807 | a tuple is materialized exactly when each coordinate is in its dimension's list |
| IndexMaterializer.ProductDistinct | lib/codegen/selection/generator.cc:1786-1807 | when no list repeats a coordinate, no tuple is pushed twice |
| Scanline.FullThreadId | lib/codegen/selection/generator.cc:1645-1652 | warp*32 + lane rebuilds the thread id |
| Scanline.Delinearize | lib/codegen/selection/generator.cc:1654-1662 | `thread_id[order[k]]` is digit k of the thread id in radices `mts[order[..]]`, with the last one unreduced |
| Scanline.QuotientIsDivision | lib/codegen/selection/generator.cc:1656-1661 | after k turns the running id is the id divided by the product of the first k radices |
| Scanline.DelinearizeStep | lib/codegen/selection/generator.cc:1658-1660 | each remainder is the next digit |
| Scanline.FinishDelinearize | lib/codegen/selection/generator.cc:1662 | the last dimension in the order receives the unreduced quotient |
| Scanline.DelinearizeInverse | lib/codegen/selection/generator.cc:1654-1662 | recomposing the coordinates gives the thread id back, and below the thread count each coordinate is below its `mts` |
| Scanline.AxisCoordinates | lib/codegen/selection/generator.cc:1665-1676 | `per_thread = nts*shape/per_cta` coordinates, the n-th being `thread_id*nts + n/nts*per_cta + n%nts` |
| Scanline.RunOffsetIncreasing | lib/codegen/selection/generator.cc:1674 | with `nts <= per_cta` the offsets increase strictly |
| Scanline.CoordinatesInBounds | lib/codegen/selection/generator.cc:1671-1675 | when `per_cta` divides the extent the offsets are below it, and so are the coordinates of a thread whose run fits |
| Scanline.ThreadIds | lib/codegen/selection/generator.cc:1677 | the thread ids of the axes, in order |
| Scanline.ScanlineAxes | lib/codegen/selection/generator.cc:1644-1679 | one axis per dimension, owning that dimension's coordinates, with the delinearized thread ids |
| SharedOffset.Strides | lib/codegen/selection/generator.cc:933-937 | the stride of `order[j]` is the product of the extents of `order[0..j)` |
| SharedOffset.Dot | lib/codegen/selection/generator.cc:939-941 | the sum of coordinate times stride |
| SharedOffset.SharedOff | lib/codegen/selection/generator.cc:932-943 | the offset is the index read as a mixed-radix number in the layout order |
| SharedOffset.DotIsOffset | lib/codegen/selection/generator.cc:932-943 | summing over dimensions in any order gives the mixed-radix offset |
| SharedOffset.ZeroIndexAtZero | lib/codegen/selection/generator.cc:932-943 | the all-zero index is at offset 0 |
| SharedOffset.OffsetBijective | lib/codegen/selection/generator.cc:932-943 | in-bounds indices land below the product of the extents, and distinct ones at distinct offsets |
| Swizzle.MinVec | lib/codegen/selection/generator.cc:1205-1206 | `min_vec` is at most either vector width and at least 1 |
| Swizzle.GroupSize | lib/codegen/selection/generator.cc:1207 | the group size is at least 1 |
| Swizzle.Phase | lib/codegen/selection/generator.cc:1235 | the phase is below `max_phase` |
| Swizzle.SwizzleGroup | lib/codegen/selection/generator.cc:1238-1239 | the swizzled column group, `(grp / s XOR phase) * s + grp % s`; its properties are the lemmas below |
| Swizzle.SwizzleParts | lib/codegen/selection/generator.cc:1236-1240 | the swizzle XORs the high part of the column group with the phase and keeps the low part |
| Swizzle.SwizzleInvolution | lib/codegen/selection/generator.cc:1236-1240 | swizzling twice with one phase gives the group back |
| Swizzle.SwizzleInjective | lib/codegen/selection/generator.cc:1236-1240 | in one row distinct column groups stay distinct |
| Swizzle.SwizzleInRow | lib/codegen/selection/generator.cc:1236-1240 | with a power-of-two number of high parts covering every phase the swizzled group stays in the row |
| Swizzle.SwizzlePhaseZero | lib/codegen/selection/generator.cc:1236-1240 | phase 0 leaves the column unchanged |
| Swizzle.SwizzledColumn | lib/codegen/selection/generator.cc:1237-1240 | the swizzled column in elements: the group of the column, swizzled by its row's phase, times `min_vec`; SwizzledColumnGroup, SwizzledColumnAligned and SwizzledColumnInjective state what it is |
| Swizzle.SwizzledColumnGroup | lib/codegen/selection/generator.cc:1237-1240 | the vector a swizzled column starts is the swizzled group of the column's vector |
| Swizzle.SwizzledColumnAligned | lib/codegen/selection/generator.cc:1241 | swizzled columns are multiples of `min_vec` |
| Swizzle.SwizzledColumnInjective | lib/codegen/selection/generator.cc:1234-1241 | two columns of one row share a swizzled column only within one vector |
| Swizzle.TileOffset | lib/codegen/selection/generator.cc:1234-1242 | a tile pointer's element offset for an index of any rank: the swizzled column of the key row's `in_order[0]` coordinate, moved by `key.second * out_vec`, plus its `in_order[1]` coordinate times the row length |
| Swizzle.Place | lib/codegen/selection/generator.cc:1222-1233 | the tile key of a vector is within the tile counts |
| Swizzle.AsyncAddresses | lib/codegen/selection/generator.cc:1222-1248 | the first loop of the async load fails exactly when some element's key row `key.first*in_ld` is past the end of the indices (`.at` throws); otherwise, memoizing tile pointers by key, it gives every element the address computed from its own tile key: the swizzled tile pointer plus the static offset |
| Swizzle.VectorAt | lib/codegen/selection/generator.cc:1318-1347 | vector k holds values k*min_vec to k*min_vec+min_vec-1, stored at the address of its last element |
| Swizzle.CopyToSharedStores | lib/codegen/selection/generator.cc:1310-1347 | the copy loop fails exactly when the last element of some complete vector has its key row past the end of the indices (`.at` throws); otherwise it emits `|idxs|/min_vec` vector stores, store k being vector k |
| Swizzle.VectorSharesAddress | lib/codegen/selection/generator.cc:1310-1347 | all elements of one vector have the same tile key, so their key rows are in range together and they lie at the same tile address |
| Swizzle.CopyPathsAgree | lib/codegen/selection/generator.cc:1330-1337 | the copy-to-shared path writes element t of vector k where the async path addresses it |
| Swizzle.AsyncIndexedCopyIndexed | lib/codegen/selection/generator.cc:1232 | when the async copy finds every key row, the copy to shared memory does too |
| Swizzle.KeyRowPastEnd | lib/codegen/selection/generator.cc:1225-1232 | a geometry (`in_ld = 6`, `min_vec = 4`, two shared rows, six indices) for which the async copy's key row is past the end while the copy to shared memory's is not |
| MemoryAccess.LoadVec | lib/codegen/selection/generator.cc:458-467 | 1 unless a block with a scanline layout; then `min(nts, alignment)` |
| MemoryAccess.StoreVec | lib/codegen/selection/generator.cc:607-613 | 1 for a scalar; for a block, the minimum of the contiguous run and the alignment |
| MemoryAccess.PlanWords | lib/codegen/selection/generator.cc:489-496 | the word width is the smaller of the vector's bits and `max(32, nbits)`; there is at least one word, and the words hold no more bits than the vector or one word |
| MemoryAccess.PlanWordsPow2 | lib/codegen/selection/generator.cc:489-496 | for power-of-two element widths and vector lengths, width and word count are powers of two with known exponents |
| MemoryAccess.WordsCover | lib/codegen/selection/generator.cc:489-496 | for 8- to 64-bit elements the words hold exactly the vector: a whole number of lanes per word, and words times lanes equals `vec` |
| MemoryAccess.OddVectorUncovered | lib/codegen/selection/generator.cc:489-496 | with three 16-bit lanes one 32-bit word holds only two lanes |
| MemoryAccess.Chunks | lib/codegen/selection/generator.cc:521-527 | the loop splits a list into consecutive runs of `size` elements |
| MemoryAccess.ExtractChunk | lib/codegen/selection/generator.cc:584-586 | element ii is lane `ii % size` of word `ii / size` |
| MemoryAccess.ChunksCover | lib/codegen/selection/generator.cc:584-586 | the runs, concatenated, are the list's prefix |
| MemoryAccess.VectorsCoverAll | lib/codegen/selection/generator.cc:470 | with the index count a multiple of the vector width, the vectors cover every index once, in order |
| MemoryAccess.PackBits | lib/codegen/selection/generator.cc:528 | the bit-cast word of `nbits`-bit lanes fits in `nbits*lanes` bits |
| MemoryAccess.LaneOfPacked | lib/codegen/selection/generator.cc:528 | each lane is recovered from the packed word |
| MemoryAccess.SExt | lib/codegen/selection/generator.cc:534 | the sign-extended value is in the signed range and congruent to the bits |
| MemoryAccess.Unsigned64 | lib/codegen/selection/generator.cc:534 | the printed hex value is the two's-complement 64-bit pattern |
| MemoryAccess.ImmediateLowBits | lib/codegen/selection/generator.cc:533-534 | the immediate's low `width` bits are the word's bits |
| MemoryAccess.ClassifyWord | lib/codegen/selection/generator.cc:523-537 | a word is a constant exactly when the `bit_cast` of its lanes folds to a `ConstantInt` (the folder's outcome is a parameter); its immediate is then the sign-extended value, whose printed 64-bit pattern keeps the word's bits; otherwise it is a run-time word carrying its lanes |
| MemoryAccess.CountRuntime | lib/codegen/selection/generator.cc:537 | the number of run-time words is at most the number of words |
| MemoryAccess.RuntimeOperands | lib/codegen/selection/generator.cc:537 | `others` has one entry per run-time word |
| MemoryAccess.FallbackMovsAsWritten | lib/codegen/selection/generator.cc:521-541 | the loop as written: one mov per word into `$ii`, a constant as an immediate, a run-time word from `$n_words+2+ii` |
| MemoryAccess.FallbackMovs | lib/codegen/selection/generator.cc:521-541 | the corrected loop: a run-time word reads the operand of its position among the run-time words |
| MemoryAccess.RuntimeOperandAt | lib/codegen/selection/generator.cc:537 | the position among run-time words indexes that word's entry in `others` |
| MemoryAccess.MovsReadTheirWord | lib/codegen/selection/generator.cc:536-537 | in the corrected numbering every run-time mov reads an existing operand that holds its own word |
| MemoryAccess.AsWrittenMisnumbered | lib/codegen/selection/generator.cc:536-537 | with the numbering FallbackMovsAsWritten promises, a run-time word after a constant word reads a later operand than the one carrying it, and one past the end of the operand list when no run-time word follows it |
| MemoryAccess.AsWrittenOperandPastEnd | lib/codegen/selection/generator.cc:536 | from FallbackMovsAsWritten's numbering for two words, constant then run-time: the second mov reads `$5` while only `$0` to `$4` exist |
| MemoryAccess.AllRuntimeNumbering | lib/codegen/selection/generator.cc:536 | without constant words both numberings agree |
| MemoryAccess.RegCode | lib/codegen/selection/generator.cc:557 | the register class letter: `l` for 64-bit words, `r` for 32-bit and `c` otherwise; ConstraintItems and ConstraintsPerOperand state where it appears |
| MemoryAccess.ConstraintItems | lib/codegen/selection/generator.cc:554-563 | `n_words` outputs `=l`/`=r`/`=c` for width 64/32/other, then `b` and `l`, then one input per run-time word |
| MemoryAccess.ConstraintString | lib/codegen/selection/generator.cc:554-563 | the three loops build the comma-joined constraint list |
| MemoryAccess.OutputConstraints | lib/codegen/selection/generator.cc:555-558 | the first loop joins the output constraints |
| MemoryAccess.InputConstraints | lib/codegen/selection/generator.cc:560-563 | the last loop appends one input each |
| MemoryAccess.ConstraintsPerOperand | lib/codegen/selection/generator.cc:554-571 | the string splits into one constraint per call operand, the predicate `$n_words` being `b` and the pointer `$n_words+1` being `l` |
| MemoryAccess.Registers | lib/codegen/selection/generator.cc:509-512 | the register names `$0` to `$n-1` |
| MemoryAccess.RegisterList | lib/codegen/selection/generator.cc:509-512 | the loop joins the output registers with commas |
| MemoryAccess.OutputRegisters | lib/codegen/selection/generator.cc:509-512 | the output list names `$0` to `$n_words-1`, one per word |
| MemoryAccess.CacheSuffix | lib/codegen/selection/generator.cc:503-504 | the load's cache modifier: `.ca`, `.cg`, or nothing |
| MemoryAccess.LoadLine | lib/codegen/selection/generator.cc:500-515 | the load line: guarded by predicate `$n_words`, the cache and vector suffixes, the word size, the outputs `$0` to `$n_words-1` and the address `$n_words+1` plus the constant offset; RenderLoadLine is proved to build exactly this text |
| MemoryAccess.MovText | lib/codegen/selection/generator.cc:529-540 | one fallback line: under the negated predicate, a `mov` of the word's width into its output register from a hex immediate or a run-time operand register; MovLines and RenderLoad are proved to emit one per word |
| MemoryAccess.MovLines | lib/codegen/selection/generator.cc:529-540 | one text line per mov |
| MemoryAccess.RenderLoadLine | lib/codegen/selection/generator.cc:500-515 | the predicated load line: `@$n_words`, cache suffix, `.v<n>` only for several words, `.b<width>`, outputs, `[ $n_words+1 + in_off]` |
| MemoryAccess.AppendLines | lib/codegen/selection/generator.cc:529-540 | the lines appended in order |
| MemoryAccess.RenderLoad | lib/codegen/selection/generator.cc:500-541 | the whole template: the load line then the mov lines |
| MemoryAccess.FoldConstantOffset | lib/codegen/selection/generator.cc:477-486 | a constant first GEP index becomes a byte offset below 2^64 |
| MemoryAccess.FoldKeepsAddress | lib/codegen/selection/generator.cc:477-486 | folding keeps the byte address modulo 2^64 |
| SharedBuffers.Step | lib/codegen/selection/generator.cc:1815-1832 | the index update: 0 after `stages-1`, else one more, so `(idx+1) mod stages` in range |
| SharedBuffers.IndexAt | lib/codegen/selection/generator.cc:1837-1839 | a stage-index phi in iteration t: the seed on the header edge, one cyclic step per latch edge; IndexAtClosedForm and IndexBoundedPeriodic state its closed form `(seed + t) mod stages`, its range and its period |
| SharedBuffers.NextOffsetAt | lib/codegen/selection/generator.cc:1860-1870 | `shared_next_ptr_` in iteration t: one stage on the header edge, the read index of the previous iteration times the stage size on the loop edge; CurrentStage states it is stage `(t + 1) mod stages` |
| SharedBuffers.CurrOffsetAt | lib/codegen/selection/generator.cc:1852-1856 | `shared_ptr_` in iteration t: the pre-pointer on the header edge, the previous next pointer on the loop edge; CurrentStage states it is stage `t mod stages` |
| SharedBuffers.IndexAtClosedForm | lib/codegen/selection/generator.cc:1837-1839 | from a seed in range, iteration t holds `(seed+t) mod stages` |
| SharedBuffers.IndexBoundedPeriodic | lib/codegen/selection/generator.cc:1837-1839 | the index stays in `[0, stages)` and repeats every `stages` iterations |
| SharedBuffers.CurrentStage | lib/codegen/selection/generator.cc:1844-1870 | with read seed 2, iteration t works on stage `t mod stages` and prefetches stage `t+1 mod stages` |
| SharedBuffers.WriteStageLag | lib/codegen/selection/generator.cc:1846 | the write index seeded at `stages-1` writes the stage read `stages-1` iterations later and none read in between |
| SharedBuffers.CurrStageIsNextOfWrite | lib/codegen/selection/generator.cc:1844-1870 | the current stage is the step after the write stage, and differs from it |
| SharedBuffers.StageRotation.constructor | lib/codegen/selection/generator.cc:1845-1866 | on entry the read index is 2, the write index `stages-1`, the current pointer the base and the next pointer base plus one stage |
| SharedBuffers.StageRotation.Latch | lib/codegen/selection/generator.cc:1837-1870 | the latch edge steps both indices, makes the next pointer current and sets the next to base plus read index times stage size |
| SharedBuffers.StageRotation.CurrStage | lib/codegen/selection/generator.cc:1854-1870 | the current pointer addresses a stage in range, never the write stage |
| SharedBuffers.HalfBuffer | lib/codegen/selection/generator.cc:1887 | `size/(2*bytes)`: the largest count of elements whose double fits the buffer |
| SharedBuffers.DoubleOffsetAt | lib/codegen/selection/generator.cc:1880-1887 | the offset phi of a double buffer in iteration t: half the buffer on the entry edge, negated on each latch edge; DoubleBufferAlternates states it is `+half` on even and `-half` on odd iterations |
| SharedBuffers.DoublePtrAt | lib/codegen/selection/generator.cc:1876-1891 | the pointer phi of a double buffer in iteration t: the pre-pointer on the entry edge, pointer plus offset on each latch edge; DoubleBufferAlternates states it alternates between the two halves |
| SharedBuffers.DoubleBufferAlternates | lib/codegen/selection/generator.cc:1876-1891 | the offset alternates in sign and the pointer between the two halves, next pointer on the other half |
| SharedBuffers.PingPong.constructor | lib/codegen/selection/generator.cc:1885-1891 | on entry the pointer is the pre-pointer and the offset half the buffer |
| SharedBuffers.PingPong.Latch | lib/codegen/selection/generator.cc:1880-1883 | the latch pointer is pointer plus offset and the offset is negated |
| SharedBuffers.PingPong.Half | lib/codegen/selection/generator.cc:1876-1891 | the pointer is on half 0 or 1, and pointer plus offset on the other |
| SharedBuffers.LayoutPointers | lib/codegen/selection/generator.cc:1681-1733 | buffered layouts get the pre-pointer at the allocation offset; a single buffer's pointer is that same cast pointer, with no pre-pointer; a double buffer's next pointer is pointer plus offset |
| SharedBuffers.ChooseBufferPointer | lib/codegen/selection/generator.cc:82-120 | fails exactly for an N-stage first without a stage; only a double buffer's phi gets an offset; a single buffer uses the layout pointer |
| SharedBuffers.PrePointerAddress | lib/codegen/selection/generator.cc:1686-1687 | the pre-pointer addresses arena plus allocation offset |
| SharedBuffers.NBufferPointers | lib/codegen/selection/generator.cc:92-107 | in iteration t, a first addresses its stage, the latch the stage it writes, every other value the current stage |
| SharedBuffers.DoubleBufferPointers | lib/codegen/selection/generator.cc:108-115 | in iteration t the latch addresses half `t+1 mod 2`, the first the pre-pointer, others half `t mod 2`; only the phi has an offset, which is the alternating offset |
| SharedBuffers.FinalizeDoubleBuffer | lib/codegen/selection/generator.cc:1871-1891 | one incoming per edge with that edge's pointer; the offset is negated exactly on the latch edge and seeded with half the buffer elsewhere |
| Reductions.NeutralOf | lib/codegen/selection/generator.cc:1097-1108 | 0 for ADD/SUB, INT32_MIN for MAX, INT32_MAX for MIN, +0.0, -inf and +inf for the float ops; integer exactly for the integer ops |
| Reductions.DoAcc | lib/codegen/selection/generator.cc:1083-1095 | ADD and SUB wrap to i32; MAX and MIN pick an operand that bounds both |
| Reductions.WrapAdd | lib/codegen/selection/generator.cc:1085 | adding wrapped values is wrapping the exact sum |
| Reductions.NeutralIsIdentity | lib/codegen/selection/generator.cc:1097-1108 | for ADD, MAX and MIN the neutral element is a two-sided identity on i32 |
| Reductions.SubNeutralRightOnly | lib/codegen/selection/generator.cc:1099 | for SUB it is an identity on the right only |
| Reductions.Fold1 | lib/codegen/selection/generator.cc:970-973 | the left fold seeded with the first value, as the in-thread loop accumulates; FoldInThread is proved to compute it and FoldFromNeutral to equal the fold from the neutral element |
| Reductions.FoldFrom | lib/codegen/selection/generator.cc:970-973 | the left fold from a given seed, the reference the neutral-element and sum lemmas compare against |
| Reductions.FoldInThread | lib/codegen/selection/generator.cc:970-973 | the in-thread loop gives nothing for no inputs and the left fold seeded with the first input otherwise |
| Reductions.FoldFromNeutral | lib/codegen/selection/generator.cc:970-973 | for ADD, MAX and MIN seeding with the first element equals seeding with the neutral element |
| Reductions.SubFoldSeedMatters | lib/codegen/selection/generator.cc:970-973 | for SUB the two seeds differ: `[5]` gives 5, not -5 |
| Reductions.FoldAddIsSum | lib/codegen/selection/generator.cc:970-973 | the ADD fold is the wrapped sum |
| Reductions.FoldMaxMin | lib/codegen/selection/generator.cc:970-973 | the MAX fold is an input at least every input, and MIN symmetrically |
| Reductions.Zeroed | lib/codegen/selection/generator.cc:1023-1024 | the index with the reduced axis set to 0, other coordinates kept |
| Reductions.Members | lib/codegen/selection/generator.cc:1022-1028 | the inputs of one group, in materialization order |
| Reductions.MembersExact | lib/codegen/selection/generator.cc:1022-1028 | an index is in a group exactly when it is an input with that zeroed index |
| Reductions.GroupPartials | lib/codegen/selection/generator.cc:1021-1028 | one accumulator per non-empty group, holding the left fold of that group's inputs |
| Reductions.GroupedStep | lib/codegen/selection/generator.cc:1022-1028 | one more input keeps the grouping invariant |
| Reductions.GroupStep | lib/codegen/selection/generator.cc:1022-1028 | one more input extends only its own group |
| Reductions.Partner | lib/codegen/selection/generator.cc:945-958 | the shuffle partner `lane xor d` is a lane |
| Reductions.Exchange | lib/codegen/selection/generator.cc:975-976 | one butterfly round: each lane combines with its partner |
| Reductions.Halvings | lib/codegen/selection/generator.cc:975 | the distances from i down to 1, halving |
| Reductions.Butterfly | lib/codegen/selection/generator.cc:975-976 | the shuffle loop performs the rounds of the halving schedule |
| Reductions.WarpSchedule | lib/codegen/selection/generator.cc:975 | the warp distances are exactly 16, 8, 4, 2, 1 |
| Reductions.ButterflyStages | lib/codegen/selection/generator.cc:975-976 | the invariant of the rounds: each lane holds the sum over its class of lanes |
| Reductions.ExchangeStage | lib/codegen/selection/generator.cc:975-976 | one round merges the classes of a lane and its partner |
| Reductions.WarpAllReduce | lib/codegen/selection/generator.cc:975-976 | after the warp rounds every lane holds the wrapped sum of all 32 lanes |
| Reductions.SharedSlots | lib/codegen/selection/generator.cc:983-987 | slot l holds warp l's result, or the neutral element past the warps |
| Reductions.CrossWarpAsWritten | lib/codegen/selection/generator.cc:996-1002 | the cross-warp loop as written, starting at `(num_warps+1)/2` |
| Reductions.CrossWarpAsWrittenPow2 | lib/codegen/selection/generator.cc:999-1002 | as written it is correct when `(num_warps+1)/2` is a power of two |
| Reductions.CrossWarpAsWrittenSixWarps | lib/codegen/selection/generator.cc:999-1002 | with six warps of 1 the loop as written gives 4, not 6 |
| Reductions.CrossWarp | lib/codegen/selection/generator.cc:996-1002 | the corrected loop, from distance 16 |
| Reductions.CrossWarpTotal | lib/codegen/selection/generator.cc:983-1009 | corrected, slot 0 holds the wrapped sum of all warp results, for any 1 to 32 warps |
| Reductions.PaddedSum | lib/codegen/selection/generator.cc:985 | neutral padding does not change the sum |
| Reductions.TreeRound | lib/codegen/selection/generator.cc:1053-1061 | one tree round: lanes below i add the slot i further, the others re-add their own slot |
| Reductions.TreeRounds | lib/codegen/selection/generator.cc:1051-1062 | the rounds keep the slot count |
| Reductions.TreeReduce | lib/codegen/selection/generator.cc:1051-1062 | the tree loop runs the rounds from `shape[axis]/2` down to 1, halving |
| Reductions.TreeStep | lib/codegen/selection/generator.cc:1053-1061 | one round merges lane l's residue class with that of lane `l+i` |
| Reductions.TreeStages | lib/codegen/selection/generator.cc:1051-1062 | the invariant of the rounds |
| Reductions.TreeSum | lib/codegen/selection/generator.cc:1051-1062 | for a power-of-two extent slot 0 ends with the wrapped sum of all slots |
| NarrowFormats.InsertElt | lib/codegen/selection/generator.cc:331-332 | inserting sets one lane and keeps the other |
| NarrowFormats.BitCastRoundTrip | lib/codegen/selection/generator.cc:333 | the two bit casts between `<2 x i16>` and i32 are inverse |
| NarrowFormats.Bf16ToFp32 | lib/codegen/selection/generator.cc:329-334 | the bf16 bits become the upper half of the fp32, the lower half is zero |
| NarrowFormats.Fp32ToBf16Fallback | lib/codegen/selection/generator.cc:342 | the fallback takes the upper 16 bits |
| NarrowFormats.Bf16RoundTrip | lib/codegen/selection/generator.cc:329-343 | widening a bf16 and narrowing it back gives the original bits |
| NarrowFormats.Bf16Truncates | lib/codegen/selection/generator.cc:329-343 | narrowing then widening clears the 16 low mantissa bits |
| NarrowFormats.ZeroPatterns | lib/codegen/selection/generator.cc:280-281 | a float equal to zero is exactly +0.0 or -0.0 |
| NarrowFormats.Fp32ToFp8 | lib/codegen/selection/generator.cc:279-284 | succeeds exactly for a zero float constant, giving byte 0 |
| NarrowFormats.Fp32x4ToFp8x4 | lib/codegen/selection/generator.cc:278-286 | succeeds exactly when all four are zero constants, giving four zero bytes |
| NarrowFormats.Fp8Guard | lib/codegen/selection/generator.cc:358-361 | passes exactly when the contiguous run is a multiple of 4 |
| ExpressionTree.Fill | lib/symbolic/expression.cpp:11-43 | reading the slot back gives exactly the filled payload with its element type; the tag is COMPOSITE exactly for a node index; with the node modelled as a struct, the other payload fields keep their contents |
| ExpressionTree.FillOverwrites | lib/symbolic/expression.cpp:11-43 | after refilling, nothing of the earlier payload can be read |
| ExpressionTree.Shift | lib/symbolic/expression.cpp:120-121 | a composite child's index moves by k; any other child reads back unchanged |
| ExpressionTree.CopyInto | lib/symbolic/expression.cpp:114-115 | the positions from `at` hold the source, the rest is unchanged |
| ExpressionTree.FillRoot | lib/symbolic/expression.cpp:116-118 | only the root position changes; its children read back as given, with the operator |
| ExpressionTree.ShiftRange | lib/symbolic/expression.cpp:119-122 | every node in the range has its composite children shifted, the rest untouched |
| ExpressionTree.LeafLeaf | lib/symbolic/expression.cpp:81-88 | one node at root 0 holding both leaves and the operator; well formed |
| ExpressionTree.IndexPair | lib/symbolic/expression.cpp:52-58 | the two-loop-index constructor builds one root node holding both indices and the operator, with no context, shape `[1]` and the invalid numeric type |
| ExpressionTree.Unbound | lib/symbolic/expression.cpp:60-74 | the loop-index/scalar constructors, either way round, build one root node holding both leaves and the operator, with no context, shape `[1]` and the given numeric type |
| ExpressionTree.TreeLeaf | lib/symbolic/expression.cpp:90-98 | the left operand copied unchanged, then a root pointing at its root with the leaf on the right; well-formedness kept; same left spine |
| ExpressionTree.LeafTree | lib/symbolic/expression.cpp:100-108 | the right operand copied unchanged, then a root with the leaf on the left and its root on the right; well-formedness kept; the root is its own leftmost node |
| ExpressionTree.ExtendedRanges | lib/symbolic/expression.cpp:90-108 | appending a node whose children point below it keeps every index in range and children before parents |
| ExpressionTree.TreeTree | lib/symbolic/expression.cpp:110-124 | `|lhs|+|rhs|+1` nodes with the root last; lhs copied exactly; rhs nodes with composite children shifted by `lsize`; the root points at `lhs.root` and `lsize+rhs.root`; well-formedness kept; same left spine as lhs |
| ExpressionTree.MergedRanges | lib/symbolic/expression.cpp:110-124 | the merged array is in range, and ordered, when both operands are |
| ExpressionTree.SpineOfMerged | lib/symbolic/expression.cpp:110-124 | a root whose left child is the left operand's root leads to the same leftmost node |
| ExpressionTree.Minus | lib/symbolic/expression.cpp:171-172 | one unary SUB root over the tree and an invalid right child, keeping type, shape and context |
| ExpressionTree.Not | lib/symbolic/expression.cpp:174-175 | the same with NEGATE and the integer type |
| ExpressionTree.AssignScalar | lib/symbolic/expression.cpp:191 | a one-node binary ASSIGN of the loop index and the scalar, typed by the scalar |
| ExpressionTree.AssignTree | lib/symbolic/expression.cpp:192 | a binary ASSIGN root with the loop index left and the tree right, with the tree's context, type and shape |
| ExpressionTree.Follow | lib/symbolic/expression.cpp:179-185 | following composite left children ends at the start node or an array node whose left child is not composite |
| ExpressionTree.LhsMost | lib/symbolic/expression.cpp:179-185 | the pointer loop returns that node |
| ExpressionTree.LhsMostAt | lib/symbolic/expression.cpp:187-188 | the walk from the node at `root` |
| ExpressionTree.FollowExtended | lib/symbolic/expression.cpp:179-185 | appending nodes to an ordered array does not change where a walk ends |
| MixedRadix.DigitsInRange | lib/codegen/selection/generator.cc:1656-1661 | every digit is below its radix |
| MixedRadix.RecomposeDigits | lib/codegen/selection/generator.cc:1656-1661 | a number below the product of the radices is the recomposition of its digits |
| MixedRadix.DigitsOfRecompose | lib/codegen/selection/generator.cc:1786-1807 | in-range digit tuples and numbers below the product correspond one to one |
| MixedRadix.TopUnreducedRecomposes | lib/codegen/selection/generator.cc:1654-1662 | digits with the top one unreduced recompose to the number, and equal the digits below the product |
| Permutation.SumPermuted | lib/codegen/selection/generator.cc:939-941 | a sum does not depend on the order of its terms |
| Permutation.ProductPermuted | lib/codegen/selection/generator.cc:1786-1807 | nor does a product |
| MachineInt.Wrap32 | lib/codegen/selection/generator.cc:1085-1086 | i32 wrap-around: in range, congruent modulo 2^32, identity on i32 |
| MachineInt.XorInvolution | lib/codegen/selection/generator.cc:1236-1240 | XOR twice with one value is the identity |
| MachineInt.XorBound | lib/codegen/selection/generator.cc:1236-1240 | XOR stays within the operands' bit width |
| TextFormat.NatToString | lib/codegen/selection/generator.cc:501-515 | numbers are printed as nonempty digit strings without leading zeros |
| TextFormat.ParsePrinted | lib/codegen/selection/generator.cc:501-515 | parsing the printed number gives it back |
| TextFormat.PrintedInjective | lib/codegen/selection/generator.cc:501-515 | distinct numbers print differently |
| TextFormat.SplitJoin | lib/codegen/selection/generator.cc:554-563 | splitting a joined list gives the list back |

## Left out

- LLVM IR emission is not modelled: builder calls, block splitting, phi wiring, `InlineAsm` objects and the type tables. The model keeps only the terms, integers and strings the generator feeds them.
- `fp8x4_to_fp16x4` (generator.cc:299-327) is left out: its meaning rests on PTX `prmt`/`lop3` semantics that are not in the source.
- Floating-point arithmetic is not interpreted: FADD/FSUB/FMAX/FMIN reductions, float casts and float constants are opaque terms. The reduction sum lemmas are about the integer ops.
- Run-time concurrency is not modelled: barriers, atomics, async-copy completion, and the warp-0 branch of the cross-warp step. Each warp and lane is a position in a sequence.
- `visit_prefetch_s_inst`, `visit_getelementptr_inst` and the visitors for dot, atomics, masked stores and transcendental functions are left out. They do not feed the modelled decisions.
- MemoryAccess.ClassifyWord: LLVM's constant folding of `bit_cast(v, iN)` is not modelled; whether a fallback word folds to a `ConstantInt`, and to which bits, is a parameter. The model does not decide which lane vectors fold.
- The analyses the generator queries (axes, layouts, alignment, allocation, swizzle parameters) are inputs. They are fields of `Ir.Value` or method parameters.
- The thread id is a parameter; `get_local_id` is not modelled.
- The load itself, its call and the extraction into `vals_` are not run through `CodeGenerator.Generator`. `MemoryAccess` states the plan, the text and the lane extraction.
- Reads past the end of a vector with `operator[]` are undefined behaviour in the source, not a throw. The model returns `Err` for them and promises nothing about what the source would do. This covers `VisitCat` (generator.cc:654-659), `VisitReshape` (generator.cc:671-673) and the fp8 and bf16 cast loops in `VisitCast`, `ConvertFp8` and `StoreMapped` (generator.cc:371-379, 386-392). It applies wherever a loop would read past an index list: an operand with fewer indices than the result, a concatenation whose result has fewer indices than both operands together, or an fp8 result whose index count is not a multiple of four.
- CodeGenerator.Generator.Accept: states only that nothing but x's table changes. Each rule's contract is on the `Visit…` method it dispatches to, and instructions outside the modelled rules leave the table alone.
- CodeGenerator.Generator.VisitElementwise: the binary operator's `Add`/`Mul`/other split and its conversion table are one symbolic `Bin` term.
- CodeGenerator.Generator.VisitCast: a bf16 cast whose other side is not fp32 fills nothing, because the source has two independent ifs. The contract states that it leaves the table unchanged; it says nothing about values such a cast would need.
- CodeGenerator.Generator.InitIdx: the sort comparator's branch for an axis missing from its layout order is left out. Every axis is taken to be found, as the layout analysis guarantees.
- CodeGenerator.Generator.InitIdx: ranks other than 1 to 3 push no tuple, because the source has only three loop nests. This is modelled as written.
- CodeGenerator.Generator.VisitValue: after an error the model's table is either unspecified or the old one, and it need not match the source's. For example, ConvertFp8 fails before storing any group, while the source has already stored every group before the failing one. The source abandons the generator after a throw, so nothing reads that state.
- SharedBuffers.StageRotation.constructor: requires at least three stages. The read index is seeded at 2, which is out of range for two stages; the layout analysis only builds N-buffers with more.
- SharedBuffers.CurrentStage, SharedBuffers.WriteStageLag and SharedBuffers.NBufferPointers: these also require at least three stages, for the same reason.
- SharedBuffers.HalfBuffer: requires an element of at least 8 bits, because the source divides by the byte size.
- NarrowFormats.Fp8Guard: requires a run of at least 1, because a layout's `nts` is positive.
- ExpressionTree.Minus, ExpressionTree.Not and ExpressionTree.AssignTree: require a context. The source dereferences the context pointer, so a tree without one is undefined behaviour there.
- ExpressionTree.Follow, ExpressionTree.LhsMost and ExpressionTree.LhsMostAt: require children to come before their parents. On a cyclic array the source loops forever; every constructor keeps that order.
- The `for_idx_t` compound assignments (expression.cpp:194-197) are left out. They use `operator+` and friends, which are defined outside this file.
- The expression-tree accessors `tree`, `root`, `context`, `dtype`, `shape` and `dim` (expression.cpp:150-169) read a field, so they are the fields of `ExpressionTree.Expr`.
- Context pointers are integer handles.
- The explicit template instantiations (expression.cpp:126-148) are covered by the leaf requirement of the constructors.
- ExpressionTree.Fill: the declaration of `tree_node` (isaac/symbolic/expression.h) is not part of this model. The node is modelled as a struct with one field per payload kind, so Fill's clauses that the other payload fields keep their contents hold for the model only; if the source's payload is a union, those fields are indeterminate after a fill. No operation reads a payload that does not match its tag.
- `shape_(1)` in the context-free constructors is read as the one-element shape `[1]`.
- A freshly sized node array holds unspecified nodes. The model fills it with a fixed blank node that the constructors overwrite or copy over.
- Reductions.NeutralOf and Reductions.DoAcc: integer reductions are modelled on i32 elements only, and so are the lemmas built on them (NeutralIsIdentity, FoldFromNeutral, FoldAddIsSum, WarpAllReduce, PaddedSum, CrossWarpTotal, TreeSum). For other widths `ConstantInt::get(ty, INT32_MIN)` and `ConstantInt::get(ty, INT32_MAX)` (generator.cc:1101-1102) are truncated or sign-extended. For i8 and i16, MAX then pads with 0 and MIN pads with -1. For i64 they give -2^31 and 2^31-1, and ADD and SUB wrap at 64 bits. The padding slots are read at generator.cc:985, so those widths can give other results than the model's.
- The write-back of `reducend` (generator.cc:1064-1072) is not modelled. It loads each result from the shared slot of its index with 0 inserted at `axis`. The model stops at the tree's slot contents.
- The broadcast at the end of `reduce1d` (generator.cc:1005-1009), which stores the value loaded from slot 0 into every `vals_[x][idx]`, is not modelled. The model stops at slot 0.
- Reductions.TreeRound: lane l reads slot `l+i`. In the source it reads its own write pointer moved by `shared_off` of the index that is `i` at `axis` and 0 elsewhere (generator.cc:1044-1057). That is lane `l+i`'s slot only because `shared_off` is linear, and the model does not prove this link to `SharedOffset.SharedOff`.
- Integer coordinates are unbounded in the model. Wrap-around is modelled where the source's results depend on it: i32 reductions, sign extension and the 64-bit hex immediate.

## Findings

| source | as written | input that shows it | evidently intended | confidence | as-written member | corrected member |
|---|---|---|---|---|---|---|
| lib/codegen/selection/generator.cc:536 | the `mov` for run-time word `ii` reads operand `$n_words+2+ii`, but `others` only holds the run-time words | `n_words = 2`, words `[constant, run-time]`: the mov reads `$5`, while the call has only `$0` to `$4` | number the operand by the word's position among the run-time words | not executed | MemoryAccess.AsWrittenOperandPastEnd | MemoryAccess.MovsReadTheirWord |
| lib/codegen/selection/generator.cc:999 | the cross-warp butterfly starts at distance `(num_warps_+1)/2` | `num_warps = 6`: distances 3 and 1, so slot 0 combines warps 0 to 3 only and six warps of 1 give 4 | start at a power of two covering every warp, such as 16 | not executed | Reductions.CrossWarpAsWrittenSixWarps | Reductions.CrossWarpTotal |
