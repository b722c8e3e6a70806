# Verified models of the Synlig lowering passes

Synlig turns SystemVerilog into the AST of Yosys and rewrites that AST until only simple
statements and plain bit ranges are left. This project models the rewrites whose
correctness is not visible in any one function, and proves what they promise:

* `break` and `continue` become flags, and loops become straight-line blocks, without
  changing the meaning of the program (`Procedural` is the language, with a big-step
  semantics; `JumpLowering`, `JumpLoweringMeaning`, `LeakedVariables`, `ProgramLowering`,
  `Unrolling`, `UnrollingMeaning`, `FoldWidth`, `LoopCompilation`, `LoopTermination`,
  `ProgramTermination`, `UnrollingSuccess`; `LoopPasses` holds the passes as they work in place).
* Memory writes become ports whose priority masks give the effect of the writes in program
  order (`MemoryPorts`); writes to part of a word become data and enable vectors
  (`SubwordWrites`), and both together commit what the assignments say (`SubwordMemory`).
* Assignments to a variable select become mask-and-shift or a case block (`LvalueShift`);
  constant case statements lose dead branches (`CasePruning`); the analysis behind automatic
  `nosync` is sound (`DefiniteAssignment`).
* Packed structs and unions, and access paths into them, use a row-major layout
  (`Dimensions`, `PackedLayout`, `ScalarLayout`, `IndexSelects`, `StructPaths`,
  `StructAccess`, `AccessFailures`). The ways of flattening indices agree on the order of the
  dimensions, but only selects within a struct respect the direction of ascending ones; ranges
  of other wires, memory addresses and the selects of a struct wire ignore it.
* Integer literals denote their numbers and the hexadecimal printer of the EDIF backend is
  their inverse (`Numerals`, `Literals`, `LiteralTexts`).
* EDIF names are injective, stable and legal (`EdifNames`); modules are sorted by dependency, or
  a cycle is reported (`ModuleOrder`).
* Shell command templates survive printing and lexing, and yield the words that they are
  written from (`ShellTemplate`, `ShellWords`).

Loops and objects of the source are loops, methods and classes here; each method equals a
specification function, and the theorems are about those functions. `Arithmetic` holds the
facts about products and powers of two, `BitVectors` and `Wrappers` the shared datatypes.

## Where the code does not do what it seems to promise

Each item is a lemma, with the exact condition under which the code is right.

* After a jumping branch of a case, later branches are not transformed, and neither are jumps
  in branches of `casex` and `casez`: `JumpLowering.JumpFreeIffSupported`,
  `JumpLowering.SecondJumpingArmIsMissed`.
* The step of a `for` loop keeps running after a break. A variable declared outside the loop
  then agrees with the original exactly when no break was taken, and the rewritten loop ends
  exactly when the original does and the control of the loop alone ends, too:
  `LoopTermination.OuterVariableAgreesIff`, `ProgramLowering.BreakMovesOuterVariable`,
  `LoopTermination.EndlessControlIsLowered`. Programs that do not read such a variable before
  assigning it again keep their meaning on all others: `ProgramLowering.LowerAllSim`.
* The unroller evaluates the control of a loop in the width of its expressions, 32 bits for
  literals without a size, and not in that of the variable. As long as nothing overflows that
  width (`FoldWidth.WithinFoldsAlike`, `FoldWidth.CountingFoldsIff`) it computes with unbounded
  numbers, which are the values of the variable exactly when they fit it:
  `UnrollingMeaning.IndicesAgreeIffFit`, `UnrollingMeaning.CountingFitsIff`,
  `UnrollingMeaning.WrappingLoopIsUnrolled`. A signed variable of that very width is always
  counted right: `FoldWidth.FullWidthIsStored`.
* Three of the four flattenings ignore that a dimension is ascending. They reach the declared
  element exactly when no index into an ascending dimension is off its middle:
  `Dimensions.DirectionIff`, `Dimensions.RangeDirectionIff`, `StructAccess.RangeIsRightIff`,
  with `Dimensions.AscendingMissed` and `AccessFailures.AscendingWireMissed` as inputs. A part
  select has its width only from the upper bound to the lower one: `Dimensions.RangeWidthIff`.
  A memory is only renumbered, which no access can tell: `Dimensions.RenumberingIsInjective`.
* A select on a member without recorded dimensions subtracts the member's own position:
  `StructAccess.RangeIsRightIff`, `AccessFailures.BareMemberMissed`.
* Symbolic two-bound selects need the left bound to be at least the right one, also in
  ascending dimensions: `IndexSelects.TraverseDimensions`, `IndexSelects.SymbolicWidthIff`,
  `IndexSelects.BackwardsSelectMissed`. Constant ones may come in either order, but both
  bounds must lie on the same side of position 0: `IndexSelects.ConstWidthIff`.
* The two layout passes differ on arrays of structs, and following first members down to an
  item misses the top then: `ScalarLayout.RangesAgreeIffScalar`,
  `ScalarLayout.PassesAgreeIffScalar`, `ScalarLayout.ArrayOfStructsMissed`,
  `PackedLayout.FirstLeafIsTopIff`.
* A select beyond the dimensions of a wire is scaled by the first stride:
  `Dimensions.SurplusSelectRightIff`.
* Mask-and-shift and the constant form of memory writes extend a signed value with zeros:
  `LvalueShift.MaskAndShiftAssignsIff`, `SubwordWrites.FormsAgreeIff`.
* The case block misses selects that hang over the low end, and its ranges are cut off at the
  width: `LvalueShift.CaseAssignsIff`, `LvalueShift.RangesRightIff`.
* A variable index below the data range wraps around: `SubwordWrites.BelowRangeIff`.
* The definite-assignment analysis does not look at right-hand sides:
  `DefiniteAssignment.AssignedIff`, `DefiniteAssignment.NotReferencedIff`. It asks for a sync
  only where some run needs one (`DefiniteAssignment.SomeRunReadsIff`), except after an
  assignment to a concatenation (`DefiniteAssignment.ConcatenationIsUse`) and after the default
  of a `casez` (`DefiniteAssignment.WildDefaultIsMissed`).
* The empty id gets the empty EDIF name: `EdifNames.NamesAreIdentifiers`.
* The written size of a literal is used only below 2^31: `LiteralTexts.SizeObeyedIff`.
* A line break after a backslash goes into the argument, where a shell drops both:
  `ShellWords.CommandArguments`.
* The module named in the cycle error may not be on a cycle: `ModuleOrder.ReportIsOnCycleIff`,
  `ModuleOrder.ReportsAlwaysOnCycleIff`, `ModuleOrder.MisleadingReport`.
* The hexadecimal printer writes x and z as 0: `Literals.HexRoundTrip`.

## Model

| member | source | states |
|---|---|---|
| JumpLowering.JumpFreeIffSupported | src/frontends/systemverilog/uhdm_ast.cc:1885-1950 | the transformed block has no jump left exactly when each case has at most one jumping branch and it is an ordinary one |
| JumpLowering.SecondJumpingArmIsMissed | src/frontends/systemverilog/uhdm_ast.cc:1916-1927 | a concrete case statement whose second break survives, because of the short circuit |
| JumpLowering.NoJumpOutcome | src/frontends/systemverilog/uhdm_ast.cc:1885-1950 | a block without jump nodes never ends in a break or continue |
| JumpLoweringMeaning.LowerStmtsSim | src/frontends/systemverilog/uhdm_ast.cc:1885-1950 | flagged code and original code leave the same state but for the flags, and the flags say how the original ended |
| JumpLoweringMeaning.WhileSim | src/frontends/systemverilog/uhdm_ast.cc:1952-1983 | a while loop with flags and its original end in the same state but for the flags |
| JumpLoweringMeaning.RepeatSim | src/frontends/systemverilog/uhdm_ast.cc:1952-1983 | the same for repeat loops, whose remaining rounds idle after a break |
| JumpLoweringMeaning.ForSim | src/frontends/systemverilog/uhdm_ast.cc:1952-1983 | the same for for loops, except for the loop variable after a break |
| JumpLoweringMeaning.LowerLoopSim | src/frontends/systemverilog/uhdm_ast.cc:1867-1984 | the declaration block around a rewritten loop and the loop itself have the same outcome; the flags stay inside |
| ProgramLowering.LowerAllSim | src/frontends/systemverilog/uhdm_ast.cc:4383-4427 | lowering every loop of a program, inner loops first, keeps the outcome of every run that ends and its state on all variables but the leaked ones, for programs that read no variable while it may differ |
| ProgramTermination.StmtFollows | src/frontends/systemverilog/uhdm_ast.cc:4383-4427 | whenever a program ends, its lowered form ends with the same outcome and the same state outside the leaked variables, given k more steps, if every for loop with a break has a control that its body keeps and that ends alone within k steps |
| ProgramTermination.ProgramEndsIff | src/frontends/systemverilog/uhdm_ast.cc:4383-4427 | under the same condition the lowered program ends exactly when the original does, for while, repeat and for loops in any nesting |
| ProgramTermination.CountingEndsAlone | src/frontends/systemverilog/uhdm_ast.cc:1952-1983 | the control of a counting loop meets that condition if its variable can hold every value that it may reach, up to one step beyond the bound |
| UnrollingSuccess.CompileSucceeds | src/mods/yosys_ast/synlig_simplify.cc:2094-2275 | a program is compiled if its jumps belong to supported loops, every control is known from the indices around it, and every for loop runs out within the limit and keeps its variable; if the values fit their variables the end-to-end theorem applies |
| UnrollingSuccess.CompiledMeans | src/mods/yosys_ast/synlig_simplify.cc:2094-2275 | end to end with all conditions on the program itself: it is compiled to straight-line code that ends in its state, but for leaked loop variables |
| LeakedVariables.AfterStmtBound | src/frontends/systemverilog/uhdm_ast.cc:1952-1983 | the set of variables that may differ grows only by variables of for loops with a break that are declared outside the loop |
| LeakedVariables.NothingLeaksStmt | src/frontends/systemverilog/uhdm_ast.cc:1952-1983 | code whose for loops with a break declare their variables leaks nothing and meets the condition of the whole-program theorem |
| ProgramLowering.LowerAllJumps | src/frontends/systemverilog/uhdm_ast.cc:1867-1984 | lowering inner loops first changes neither the jumps an outer loop sees nor whether its body is supported |
| ProgramLowering.BreakMovesOuterVariable | src/frontends/systemverilog/uhdm_ast.cc:1952-1983 | a concrete for loop over an outer variable that ends at 0 before and at 4 after the rewrite |
| LoopTermination.OuterVariableAgreesIff | src/frontends/systemverilog/uhdm_ast.cc:1952-1983 | for every control whose variables the body keeps: a rewritten for loop with a break ends exactly when the original does and the loop with an empty body would, and an outer variable then agrees exactly when the loop ended by its condition |
| LoopPasses.JumpPass.TransformBlock | src/frontends/systemverilog/uhdm_ast.cc:1885-1950 | the in-place pass over a block yields the specified code, reports jumps, and records which flags are used |
| LoopPasses.JumpPass.TransformArms | src/frontends/systemverilog/uhdm_ast.cc:1916-1927 | branches of a case are transformed up to and including the first jumping one |
| LoopPasses.JumpPass.TransformBreaksContinues | src/frontends/systemverilog/uhdm_ast.cc:1867-1984 | the whole rewrite of one loop equals its specification, with the flags that were used declared and reset |
| Unrolling.SubstMeans | src/mods/yosys_ast/synlig_simplify.cc:2116-2275 | replacing the loop variable by its value does not change what a body does in a state where it has that value |
| UnrollingMeaning.IndicesAgreeIffFit | src/mods/yosys_ast/synlig_simplify.cc:2116-2275 | evaluating the control with unbounded values visits the iterations that the stored variable visits exactly when every value fits the variable |
| UnrollingMeaning.CountingFitsIff | src/mods/yosys_ast/synlig_simplify.cc:2116-2275 | for a counting loop, from start, bound, step and width alone: when it is unrolled, and when its indices fit |
| FoldWidth.WithinFoldsAlike | src/mods/yosys_ast/synlig_simplify.cc:2161-2275 | a control that never outgrows the width of its expressions is unrolled as with unbounded integers |
| FoldWidth.ArithmeticIff | src/mods/yosys_ast/synlig_simplify.cc:2161-2275 | a sum or product folded in a width is right exactly when its result fits, whatever its parts do |
| FoldWidth.CountingFoldsIff | src/mods/yosys_ast/synlig_simplify.cc:2161-2275 | a counting loop is unrolled as with unbounded integers exactly when the first value from its bound on fits the width |
| FoldWidth.FittingFoldsAlike | src/mods/yosys_ast/synlig_simplify.cc:2161-2275 | so a counting loop whose indices fit a variable within the width is unrolled as with unbounded integers |
| FoldWidth.FullWidthIsStored | src/mods/yosys_ast/synlig_simplify.cc:2161-2275 | a counting loop over a signed variable of the folded width visits what the stored variable visits, overflow included |
| UnrollingMeaning.UnrollSim | src/mods/yosys_ast/synlig_simplify.cc:2094-2275 | the unrolled program and the original end in the same state, for any nesting of loops |
| UnrollingMeaning.ForCopiesSim | src/mods/yosys_ast/synlig_simplify.cc:2116-2275 | the body copies with the final assignment of the loop variable have the effect of the loop |
| UnrollingMeaning.RepeatCopiesSim | src/mods/yosys_ast/synlig_simplify.cc:2094-2114 | n body copies have the effect of repeating the body n times |
| UnrollingMeaning.UnrollStraight | src/mods/yosys_ast/synlig_simplify.cc:2094-2275 | unrolling leaves no loop |
| UnrollingSuccess.UnrollIff | src/mods/yosys_ast/synlig_simplify.cc:2094-2275 | unrolling succeeds, with or without indices that fit, exactly on code without jumps and while loops whose controls are known where they are needed, whose for loops run out within the limit, and whose loop variables no body assigns |
| UnrollingSuccess.CountingRunsOut | src/mods/yosys_ast/synlig_simplify.cc:2161-2275 | a counting loop runs out exactly when the limit covers its way and, if asked for, its values fit |
| UnrollingSuccess.KeepsIff | src/mods/yosys_ast/synlig_simplify.cc:2116-2160 | the check on the body passes exactly for variables that it does not assign |
| UnrollingMeaning.WrappingLoopIsUnrolled | src/mods/yosys_ast/synlig_simplify.cc:2116-2275 | a loop over a two-bit variable up to 4 is unrolled four times although no run of it ends |
| UnrollingMeaning.WrappingLoopNeverEnds | src/mods/yosys_ast/synlig_simplify.cc:2116-2275 | that loop does not end from any state with the variable in range, however long it runs |
| LoopPasses.UnrollFor | src/mods/yosys_ast/synlig_simplify.cc:2116-2275 | the unrolling loop emits the specified copies, and succeeds exactly on the loops that expand |
| LoopCompilation.LoweringRemovesAllJumps | src/frontends/systemverilog/uhdm_ast.cc:1867-1984 | after lowering every loop no break or continue is left anywhere |
| LoopCompilation.CompileCorrect | src/mods/yosys_ast/synlig_simplify.cc:2094-2275 | end to end: lowering jumps and then unrolling gives straight-line code that ends in the state of the original program with its jumps, but for leaked loop variables |
| LoopCompilation.CompileExact | src/mods/yosys_ast/synlig_simplify.cc:2094-2275 | the states are equal if every for loop with a break declares its variable |
| LoopTermination.LoweredForEnds | src/frontends/systemverilog/uhdm_ast.cc:1952-1983 | from any point of such a loop: the rewritten loop ends exactly when the original and the control alone end, with the variable agreeing exactly when no break was taken |
| LoopTermination.AloneIffStored | src/frontends/systemverilog/uhdm_ast.cc:1952-1983 | a control over the loop variable alone ends exactly when the values that the variable takes run out |
| LoopTermination.EndlessControlIsLowered | src/frontends/systemverilog/uhdm_ast.cc:1952-1983 | a for loop without end condition that breaks at once ends, but its rewritten form never does |
| MemoryPorts.RunOrdered | src/mods/yosys_ast/synlig_simplify.cc:1462-1468 | in every run of an always block the mask of a port contains all ports written before it in the run |
| MemoryPorts.PriorityIffSomeRun | src/mods/yosys_ast/synlig_simplify.cc:1537-1555 | port j has priority over port i if and only if some run writes i and later j |
| MemoryPorts.BranchesUnordered | src/mods/yosys_ast/synlig_simplify.cc:1537-1555 | two ports of one case statement are ordered only if they belong to the same branch |
| MemoryPorts.MaskIsEarlier | src/mods/yosys_ast/synlig_simplify.cc:3117-3124 | masks name earlier ports only, so they fit their width |
| MemoryPorts.PortsRefineWrites | src/mods/yosys_ast/synlig_simplify.cc:3117-3130 | the enabled ports under their masks leave exactly one memory, that of the writes in program order |
| SubwordMemory.SubwordPortsRefineAssignments | src/mods/yosys_ast/synlig_simplify.cc:3036-3130 | in every run whose ports carry data and enable vectors of sub-word assignments, the ports under their masks commit exactly the memory that the assignments leave in program order |
| SubwordMemory.UpdatesExactly | src/mods/yosys_ast/synlig_simplify.cc:3036-3092 | vectors that change every word as an assignment does enable exactly its bits, with its values |
| MemoryPorts.WritePortPass.AddPort | src/mods/yosys_ast/synlig_simplify.cc:3115-3127 | a new port gets the next id and a mask bit for each visible port |
| MemoryPorts.WritePortPass.SimplifyCase | src/mods/yosys_ast/synlig_simplify.cc:1537-1555 | branches start from the visibility before the case and their results are united after it |
| MemoryPorts.WritePortPass.EndAlways | src/mods/yosys_ast/synlig_simplify.cc:1549-1552 | after an always block the tables are those before the first block, and its ports are handed out |
| MemoryPorts.WritePortPass.SimplifyAlways | src/mods/yosys_ast/synlig_simplify.cc:1549-1552 | every always block of a sequence gets the masks that it has on its own |
| SubwordWrites.ConstWrite | src/mods/yosys_ast/synlig_simplify.cc:3036-3055 | data and enable of a constant range change exactly the bits of the range, relative to the data offset, in every word |
| SubwordWrites.DynamicWrite | src/mods/yosys_ast/synlig_simplify.cc:3056-3092 | data and enable of a variable range are the shifted vectors, and change exactly the selected bits of every word if the index is not below the data range |
| SubwordWrites.DynamicWriteExact | src/mods/yosys_ast/synlig_simplify.cc:3056-3092 | a variable range at or above the data range changes exactly the selected bits, clipped at the top |
| SubwordWrites.BelowRangeIff | src/mods/yosys_ast/synlig_simplify.cc:3064-3089 | below the data range the write is right exactly when nothing is selected and the wrapped shift enables nothing |
| SubwordWrites.FormsAgreeIff | src/mods/yosys_ast/synlig_simplify.cc:3036-3092 | constant and dynamic form agree on all enabled bits exactly when the concatenation loses no sign bits |
| LvalueShift.MaskAndShiftUpdates | src/mods/yosys_ast/synlig_simplify.cc:2645-2751 | the emitted block changes exactly the bits with declared indices idx .. idx+n-1 that exist, for any index, offset and direction |
| LvalueShift.MaskAndShiftAssignsIff | src/mods/yosys_ast/synlig_simplify.cc:2732-2750 | it is the assignment itself exactly when no sign bit of a narrow value is lost inside the wire |
| LvalueShift.CaseItems | src/mods/yosys_ast/synlig_simplify.cc:2626-2644 | the loop builds one item for every start bit of the wire |
| LvalueShift.CaseUpdates | src/mods/yosys_ast/synlig_simplify.cc:2626-2644 | for zero-based descending wires and any non-negative index the case block is the assignment, past the top too |
| LvalueShift.CaseAssignsIff | src/mods/yosys_ast/synlig_simplify.cc:2626-2644 | over all indices it is the assignment exactly when the select does not hang over the low end |
| LvalueShift.FormsAgree | src/mods/yosys_ast/synlig_simplify.cc:2569-2754 | the two forms store the same exactly when the value keeps its sign |
| LvalueShift.RangesRightIff | src/mods/yosys_ast/synlig_simplify.cc:2631-2633 | the branch ranges are the clipped selects exactly for zero-based wires, or single bits of negative offsets |
| CasePruning.Prune | src/mods/yosys_ast/synlig_simplify.cc:1420-1460 | the loop over branches and items keeps the specified list |
| CasePruning.PrunedTakesSame | src/mods/yosys_ast/synlig_simplify.cc:1429-1458 | the pruned statement takes the branch of the original one for all outcomes of the open comparisons, wherever the default stands |
| CasePruning.PruningIsComplete | src/mods/yosys_ast/synlig_simplify.cc:1429-1458 | pruning again changes nothing, and only the last kept branch can match for certain |
| CasePruning.KeptForAReason | src/mods/yosys_ast/synlig_simplify.cc:1432-1454 | every kept branch is a default or can match |
| CasePruning.EqualIff | src/mods/yosys_ast/synlig_simplify.cc:1442-1446 | selector and item are compared as numbers, signed or not, in the common width |
| CasePruning.OneBranch | src/mods/yosys_ast/synlig_simplify.cc:1432-1454 | a branch alone goes exactly if all its items are constants that differ from the selector |
| CasePruning.PrunedSplits | src/mods/yosys_ast/synlig_simplify.cc:1429-1458 | branches are kept one by one, up to the first one that has an equal constant after nothing but unequal constants; everything after it goes |
| DefiniteAssignment.AlwaysAsgnBeforeUse | src/mods/yosys_ast/synlig_simplify.cc:394-440 | the recursive search computes the specified verdict |
| DefiniteAssignment.AssignedIff | src/mods/yosys_ast/synlig_simplify.cc:394-440 | with the verdict Assigned every run writes the variable before reading it, exactly when the assignments that can come first are whole and do not read it |
| DefiniteAssignment.NotReferencedIff | src/mods/yosys_ast/synlig_simplify.cc:394-440 | with the verdict NotReferenced no run reads the variable before writing it, exactly under the same condition |
| DefiniteAssignment.RunIsSafe | src/mods/yosys_ast/synlig_simplify.cc:394-440 | the soundness half for one run, for any nesting of blocks and cases |
| DefiniteAssignment.ReadingRun | src/mods/yosys_ast/synlig_simplify.cc:428-431 | otherwise some run reads the variable first |
| DefiniteAssignment.SomeRunReadsIff | src/mods/yosys_ast/synlig_simplify.cc:394-440 | for plain branches and without concatenations that write the variable: some run reads it before writing it exactly when a sync is required or a first assignment is not clean |
| DefiniteAssignment.AssignedIffTouched | src/mods/yosys_ast/synlig_simplify.cc:394-440 | for plain branches, where no sync is required, the verdict is Assigned exactly when every run touches the variable |
| DefiniteAssignment.ConcatenationIsUse | src/mods/yosys_ast/synlig_simplify.cc:425-437 | an assignment to a concatenation writes the variable in every run, but the verdict is that a sync is required |
| DefiniteAssignment.WildDefaultIsMissed | src/mods/yosys_ast/synlig_simplify.cc:407-423 | a variable that the default of a casez assigns is read only after that in every run, but the verdict is the same |
| Dimensions.RowMajorInjective | src/frontends/systemverilog/uhdm_ast.cc:915-923 | different index tuples in range denote different elements |
| Dimensions.RowMajorOnto | src/frontends/systemverilog/uhdm_ast.cc:915-923 | every element number below the product of the widths is denoted by a tuple in range |
| Dimensions.RowMajorBounds | src/frontends/systemverilog/uhdm_ast.cc:915-923 | tuples in range denote numbers below the product of the widths |
| Dimensions.DirectionIff | src/frontends/systemverilog/uhdm_ast.cc:915-959 | numbering elements without directions gives the declared element exactly when no index into an ascending dimension is off its middle |
| Dimensions.RenumberingIsInjective | src/mods/yosys_ast/synlig_simplify.cc:1849-1906 | without directions different elements still have different numbers below the size, so that a memory is only renumbered |
| Dimensions.PartialIndexIsBlock | src/frontends/systemverilog/uhdm_ast.cc:915-923 | a partial tuple denotes exactly the elements of all its completions, which are contiguous |
| Dimensions.MemoryAddress | src/mods/yosys_ast/synlig_simplify.cc:1849-1906 | the Horner fold of a memory access is the row-major number of its indices |
| Dimensions.ConvertRange | src/frontends/systemverilog/uhdm_ast.cc:396-521 | the stride form gives the row-major position, counted without directions, times the block size, and the width of the selected blocks; surplus selects add multiples of the first stride |
| Dimensions.RangeDirectionIff | src/frontends/systemverilog/uhdm_ast.cc:447-505 | single indices reach the block that they declare exactly when no index into an ascending dimension is off its middle |
| Dimensions.RangeWidthIff | src/frontends/systemverilog/uhdm_ast.cc:447-505 | a part select has the width of its elements exactly when its left bound is at least its right one |
| Dimensions.AscendingMissed | src/frontends/systemverilog/uhdm_ast.cc:447-505 | element 0 of a wire [0:1] is the upper one, but the computed range is the lower one |
| Dimensions.SurplusSelectRightIff | src/frontends/systemverilog/uhdm_ast.cc:500-505 | a surplus select reaches the bit it names only for bit 0 or a first stride of one bit |
| Dimensions.StrideIsInnerSize | src/frontends/systemverilog/uhdm_ast.cc:396-521 | strides from successive division are the sizes of the inner dimensions |
| Dimensions.ElementsAreDisjoint | src/frontends/systemverilog/uhdm_ast.cc:396-521 | the ranges of different elements do not overlap |
| PackedLayout.StructPass.SimplifyStruct | src/frontends/systemverilog/uhdm_ast.cc:1223-1314 | the pass writes the specified ranges into all nodes, returns the width, and fails exactly when members of a union differ in width |
| PackedLayout.StructPass.LayMember | src/frontends/systemverilog/uhdm_ast.cc:1241-1300 | one member is sized, with its dimensions, and placed |
| PackedLayout.StructMembersTile | src/frontends/systemverilog/uhdm_ast.cc:1223-1314 | the members of a struct fill an element from the top down, each directly above the next |
| PackedLayout.BitBelongsToOneMember | src/frontends/systemverilog/uhdm_ast.cc:1223-1314 | every bit of a struct belongs to exactly one member |
| PackedLayout.MembersInside | src/frontends/systemverilog/uhdm_ast.cc:1223-1314 | members lie inside their parent, and union members span it |
| PackedLayout.UnionsDisagreeIff | src/frontends/systemverilog/uhdm_ast.cc:1292-1302 | a tree is refused exactly for a union in it with two members of different widths |
| PackedLayout.MemberPlaced | src/frontends/systemverilog/uhdm_ast.cc:1223-1314 | the written ranges are those of the layout at every depth; for an array of structs they are those of element 0 |
| PackedLayout.GetMaxOffsetStruct | src/frontends/systemverilog/uhdm_ast.cc:312-321 | the walk to the first node with a range gives the top bit of an element, with or without arrays |
| PackedLayout.GetMaxOffset | src/mods/yosys_ast/synlig_simplify.cc:304-313 | the walk to the first item gives the top of that item |
| PackedLayout.FirstLeafIsTopIff | src/mods/yosys_ast/synlig_simplify.cc:304-313 | that is the top of the element exactly when no struct on the way is an array |
| ScalarLayout.ScalarPass.SizePackedStruct | src/mods/yosys_ast/synlig_simplify.cc:158-276 | the second pass writes the specified ranges, returns the width, and fails exactly when it finds union members of different widths |
| ScalarLayout.ScalarIsFlat | src/mods/yosys_ast/synlig_simplify.cc:158-276 | on every tree the second pass computes the width, errors and ranges of the first pass on the tree without the dimensions of nested structs and unions |
| ScalarLayout.PassesAgreeIffScalar | src/mods/yosys_ast/synlig_simplify.cc:158-276 | it accepts a tree that the first pass accepts and computes the same width exactly when no nested struct is an array |
| ScalarLayout.RangesAgreeIffScalar | src/mods/yosys_ast/synlig_simplify.cc:158-276 | it accepts the tree and writes the same range into every node exactly under the same condition |
| ScalarLayout.ArrayOfStructsMissed | src/mods/yosys_ast/synlig_simplify.cc:158-276 | a struct around an array of two one-bit structs has width 2 in the first pass and 1 in the second |
| IndexSelects.TraverseDimensions | src/frontends/systemverilog/uhdm_ast.cc:906-1080 | for constant and symbolic indices alike the offset and width evaluate to those of the selected elements, modulo 2^32, if the bounds of the last select are in order, or, all constant, on the same side of position 0; with symbolic bounds the width does so only then |
| StructAccess.SearchStructAccess | src/frontends/systemverilog/uhdm_ast.cc:851-904 | the answer lists, for each name of the path, the first member of that name in the member before it, with its selects; it is an error exactly if some name leads to no member |
| StructAccess.FoundIffLeads | src/frontends/systemverilog/uhdm_ast.cc:851-904 | the names lead all the way, or they stop at a struct in which no member has the next name, and never both |
| StructAccess.LeadsOneWay | src/frontends/systemverilog/uhdm_ast.cc:866-868 | there is at most one way that the names lead |
| StructAccess.NamesDenoteRange | src/frontends/systemverilog/uhdm_ast.cc:1082-1175 | a path of names alone denotes the range that the layout recorded for the member they lead to |
| StructAccess.ConvertDot | src/frontends/systemverilog/uhdm_ast.cc:1082-1175 | the range expression evaluates to the bits of the declared sub-object, but for the skew of a select without recorded dimensions and the distance to the element that is reached when ascending wire dimensions are ignored |
| StructAccess.RangeExact | src/frontends/systemverilog/uhdm_ast.cc:1082-1175 | with in-range indices and neither of the two, the 32-bit bounds are exactly those of the declared sub-object and lie inside the wire |
| StructAccess.RangeIsRightIff | src/frontends/systemverilog/uhdm_ast.cc:1117-1140 | a path is converted correctly exactly when the two cancel out; on a wire that starts at bit 0, or for a path without skew, exactly when it has no skew and no index into an ascending wire dimension is off its middle |
| AccessFailures.BareMemberMissed | src/frontends/systemverilog/uhdm_ast.cc:1124-1140 | for struct { x; y } of two four-bit items without recorded dimensions, the range of x[1] is not that of its bit |
| AccessFailures.AscendingWireMissed | src/frontends/systemverilog/uhdm_ast.cc:1117 | for a wire [0:1] of that struct, the range of the member y of element 0 is not that of the declared bits |
| StructAccess.WirePathsDisjoint | src/frontends/systemverilog/uhdm_ast.cc:1082-1175 | paths to different elements, or that part at a struct member or at an index, denote disjoint bits of the wire |
| StructAccess.RangesDisjoint | src/frontends/systemverilog/uhdm_ast.cc:1082-1175 | the 32-bit ranges that are returned for such paths do not overlap |
| StructPaths.LocateInside | src/frontends/systemverilog/uhdm_ast.cc:1082-1175 | a sub-object lies inside the objects on its path |
| StructPaths.PartedPathsDisjoint | src/frontends/systemverilog/uhdm_ast.cc:1082-1175 | inside one struct, paths that part denote disjoint bits at any depth |
| IndexSelects.SymbolicWidthIff | src/frontends/systemverilog/uhdm_ast.cc:1016-1060 | the symbolic width is that of the constant path exactly when the left bound is at least the right one |
| IndexSelects.ConstWidthIff | src/frontends/systemverilog/uhdm_ast.cc:1016-1034 | width and offset of constant bounds in either order are right exactly when both lie on the same side of position 0 |
| IndexSelects.BackwardsSelectMissed | src/frontends/systemverilog/uhdm_ast.cc:1016-1060 | x[i:j] with i = 0 and j = 3 selects four bits of [3:0], but its width is not 4 |
| Literals.DigitVector.DivByTwo | src/mods/yosys_ast/synlig_const2ast.cc:53-67 | one in-place division satisfies old value = 2 * new value + carry and shortens the digits |
| Literals.ConvertString | src/mods/yosys_ast/synlig_const2ast.cc:80-153 | the conversion yields the specified bits or the specified error |
| Literals.DecimalBitsMean | src/mods/yosys_ast/synlig_const2ast.cc:103-105 | the bits of a decimal literal denote its number, with no superfluous zero at the top |
| Literals.PowerBitsMean | src/mods/yosys_ast/synlig_const2ast.cc:106-122 | the bits of a binary, octal or hexadecimal literal denote its number |
| Literals.SizedMeans | src/mods/yosys_ast/synlig_const2ast.cc:124-152 | a sized literal has its size, its number modulo the power of two, and a top x or z repeated |
| Literals.SizedDecimal | src/mods/yosys_ast/synlig_const2ast.cc:189-231 | reading a sized decimal text yields its number modulo the power of two |
| Literals.PlainNumber | src/mods/yosys_ast/synlig_const2ast.cc:189-196 | a plain number becomes a signed constant of its value that never reads as negative and is no longer than needed |
| LiteralTexts.SizedNumber | src/mods/yosys_ast/synlig_const2ast.cc:80-231 | a binary, octal, decimal or hexadecimal text with a size, signed or not, reads to the number of its characters in its base modulo the power of two |
| LiteralTexts.UnsizedNumber | src/mods/yosys_ast/synlig_const2ast.cc:80-231 | without a size it reads to that number in at least 32 bits, with a 0 on top if it is signed |
| LiteralTexts.SizedBits | src/mods/yosys_ast/synlig_const2ast.cc:106-152 | with x, z and ? digits: each character stands for its one, three or four bits, and an x or z in front is repeated up to the size |
| LiteralTexts.UnsizedBits | src/mods/yosys_ast/synlig_const2ast.cc:106-130 | the same without a size |
| LiteralTexts.AcceptedIff | src/mods/yosys_ast/synlig_const2ast.cc:53-122 | a text of literal characters is refused exactly when its base does not have one of its digits; base 10 takes an x or z only alone |
| LiteralTexts.DecimalUnknown | src/mods/yosys_ast/synlig_const2ast.cc:99-100 | a single x, z or ? in base 10 reads as in base 2 |
| LiteralTexts.SingleBit | src/mods/yosys_ast/synlig_const2ast.cc:231-240 | an apostrophe and 0, 1, x or z make a single bit without a size |
| LiteralTexts.BlanksDoNotMatter | src/mods/yosys_ast/synlig_const2ast.cc:184-187 | underscores and white space anywhere do not change what is read |
| LiteralTexts.SizeObeyedIff | src/mods/yosys_ast/synlig_const2ast.cc:187-209 | a literal has the size that is written exactly when that is below 2^31 |
| Literals.WriteHex | src/mods/yosys_ast/synlig_edif.cc:326-342 | the printing loop writes the specified text |
| Literals.HexShape | src/mods/yosys_ast/synlig_edif.cc:326-342 | the printed text has one lower-case digit for every four bits |
| Literals.HexRoundTrip | src/mods/yosys_ast/synlig_edif.cc:326-342 | reading a printed constant yields it back exactly when it has no x or z; those come back as 0 |
| EdifNames.Names.Reference | src/mods/yosys_ast/synlig_edif.cc:58-88 | a call answers and updates the table as specified; the search for a fresh name ends |
| EdifNames.Names.Define | src/mods/yosys_ast/synlig_edif.cc:48-56 | a definition uses the name of every reference, with a rename exactly when it differs or a port range is given |
| EdifNames.ReferKeeps | src/mods/yosys_ast/synlig_edif.cc:58-88 | every call keeps all given names distinct, unreserved and unchanged |
| EdifNames.NamesAreDistinct | src/mods/yosys_ast/synlig_edif.cc:58-88 | two ids have the same name exactly when they are the same, and no name is GND or VCC |
| EdifNames.AnswersIdentify | src/mods/yosys_ast/synlig_edif.cc:39-89 | over every call sequence two answers are equal exactly when the ids are |
| EdifNames.AnswersStay | src/mods/yosys_ast/synlig_edif.cc:39-89 | an id keeps its name through all later calls |
| EdifNames.NamesAreIdentifiers | src/mods/yosys_ast/synlig_edif.cc:58-88 | every name is an identifier, but for the empty id, and an id is its own name exactly when it is an identifier, neither reserved nor generated before, or empty |
| EdifNames.AnswersAreIdentifiers | src/mods/yosys_ast/synlig_edif.cc:58-88 | the same over every call sequence |
| EdifNames.GenNameText | src/mods/yosys_ast/synlig_edif.cc:81 | a generated name is id and its number, with at least five digits |
| EdifNames.NoNumberSkipped | src/mods/yosys_ast/synlig_edif.cc:80-87 | numbers are used in turn: each one below the counter names something |
| ModuleOrder.Sort | src/mods/yosys_ast/synlig_edif.cc:291-315 | success yields every module once, after all it instantiates; an error is reported exactly when the dependencies are cyclic, and names the first module in map order that leads into a cycle |
| ModuleOrder.StuckIffLeads | src/mods/yosys_ast/synlig_edif.cc:301-312 | when no module is ready, the remaining ones are exactly those that lead into a cycle |
| ModuleOrder.SortedIsAcyclic | src/mods/yosys_ast/synlig_edif.cc:299-315 | where such an order exists no path returns to its start |
| ModuleOrder.StuckReachesCycle | src/mods/yosys_ast/synlig_edif.cc:301-312 | from any module of a stuck set a path runs into a cycle, by the pigeonhole principle |
| ModuleOrder.KeepShrinks | src/mods/yosys_ast/synlig_edif.cc:313-314 | a successful round makes the remaining map smaller |
| ModuleOrder.ReportIsOnCycleIff | src/mods/yosys_ast/synlig_edif.cc:311-312 | the named module is on a cycle exactly when, in map order, a module on a cycle comes before all others that lead into one |
| ModuleOrder.ReportsAlwaysOnCycleIff | src/mods/yosys_ast/synlig_edif.cc:311-312 | it is on a cycle for every map order exactly when every module that leads into a cycle is on one |
| ModuleOrder.MisleadingReport | src/mods/yosys_ast/synlig_edif.cc:311-312 | two modules for which the sort names one that is on no cycle |
| ShellTemplate.TokenizeWordList | tests/lib/python3/test_runner/utils/shcmdtemplate.py:249-291 | the loop yields the specified tokens or a syntax error |
| ShellTemplate.NextIsDirect | tests/lib/python3/test_runner/utils/shcmdtemplate.py:17-39 | trying the groups of a lexer in turn finds the token that the first characters determine |
| ShellTemplate.LexPrints | tests/lib/python3/test_runner/utils/shcmdtemplate.py:105-106 | the tokens of every accepted command concatenate back to it |
| ShellTemplate.LexWellFormed | tests/lib/python3/test_runner/utils/shcmdtemplate.py:249-291 | lexing yields only tokens whose text fits their kind and quoting |
| ShellTemplate.LexOfPrint | tests/lib/python3/test_runner/utils/shcmdtemplate.py:249-291 | lexing the printed form of a well-formed list, whose parameters are in braces, gives the list, adjacent plain tokens merged |
| ShellTemplate.TokenizeParameterValue | tests/lib/python3/test_runner/utils/shcmdtemplate.py:323-350 | the loop yields the specified tokens of a value |
| ShellTemplate.ValueFeeds | tests/lib/python3/test_runner/utils/shcmdtemplate.py:323-350 | the tokens of a value add its characters to the arguments as they are; only white space outside quotes separates |
| ShellTemplate.ExpandParameters | tests/lib/python3/test_runner/utils/shcmdtemplate.py:207-242 | the loop expands the template as specified, or reports an undefined parameter |
| ShellTemplate.ToArgumentList | tests/lib/python3/test_runner/utils/shcmdtemplate.py:108-144 | the loop collects the specified arguments, or reports an unexpanded parameter |
| ShellTemplate.MergeArgs | tests/lib/python3/test_runner/utils/shcmdtemplate.py:108-144 | how plain text is cut into tokens does not change the arguments |
| ShellTemplate.ExpansionSurvivesPrinting | tests/lib/python3/test_runner/utils/shcmdtemplate.py:207-242 | an expanded template, printed and lexed again, has the same arguments, and they are what the template means with its values filled in |
| ShellTemplate.EscapeRoundTrip | tests/lib/python3/test_runner/utils/shcmdtemplate.py:373-378 | the printed form of an escaped string lexes to that string as the only argument |
| ShellWords.CommandArguments | tests/lib/python3/test_runner/utils/shcmdtemplate.py:105-291 | a command written from words (plain, single-quoted, escaped, double-quoted with parameters, or a parameter) is accepted, and expanded, printed and lexed again has one argument for each word: its parts joined, without quotes and escapes, parameters replaced |
| ShellWords.ParameterSplits | tests/lib/python3/test_runner/utils/shcmdtemplate.py:207-242 | a parameter outside quotes stands for the words of its value, whatever other characters they hold |
| ShellWords.PlainParameter | tests/lib/python3/test_runner/utils/shcmdtemplate.py:9-15 | a parameter without braces ends where its name does: after letters, digits and underscores, after digits, or after one other character |
| ShellWords.ParameterStays | tests/lib/python3/test_runner/utils/shcmdtemplate.py:228-238 | a parameter without value and default is left as it is where that is allowed |
| ShellWords.ValuePrintsEscaped | tests/lib/python3/test_runner/utils/shcmdtemplate.py:323-350 | outside quotes a value is printed with a backslash before each special character |
| ShellWords.ExpandFailsIff | tests/lib/python3/test_runner/utils/shcmdtemplate.py:207-242 | expansion fails exactly on a parameter without a value, default or permission to be undefined |
| ShellWords.ArgumentsFailIff | tests/lib/python3/test_runner/utils/shcmdtemplate.py:108-144 | the argument list of an accepted command fails exactly on a parameter that is left and not allowed |

## Left out

- Tree nodes are values in the procedural passes: node identity, sharing and memory ownership of the C++ trees are not modelled.
- ProgramLowering.LowerAllSim: a variable counts as read even on a path where it was assigned again in only some branches of a case; for programs in which a for loop has a break it speaks of the runs in which the rewritten program ends, `ProgramTermination.StmtFollows` of those in which the original does.
- ProgramTermination.StmtFollows: takes one bound for the controls of all for loops with a break, from every state; `LoopTermination.OuterVariableAgreesIff` has the exact condition for one loop and one state.
- UnrollingMeaning.IndicesAgreeIffFit: folds with unbounded integers, the source in the width of the expression (32 bits for literals without a size); `FoldWidth` shows when that is the same.
- FoldWidth.WithinFoldsAlike: all numbers of the control are signed and of one width; sized or unsigned literals, and comparisons as operands of arithmetic, are not modelled.
- LoopCompilation.CompileCorrect: assumes that every loop that the unroller meets has indices that fit its variable; `UnrollingMeaning.IndicesAgreeIffFit` shows that it visits the wrong iterations otherwise, and `UnrollingMeaning.CountingFitsIff` states the condition for counting loops before unrolling.
- UnrollingSuccess.CompileSucceeds: one direction only, since lowering drops the code after a break, which may hold a loop that does not expand; `UnrollingSuccess.UnrollIff` has both directions for the unroller.
- Unrolling.UnrollStmt: locals of a loop body stay in a scoped block instead of being renamed with a prefix and lifted out; generate loops are not modelled.
- Procedural.Eval: expressions are unbounded integers, and only stores cut values to the width of a variable; four-state values occur only in case labels.
- While loops are lowered but not unrolled, as in the source.
- PackedLayout.StructPass.SimplifyStruct: takes the range children of a struct to come last, since `std::remove_if` leaves an unspecified tail otherwise; empty unions are not modelled.
- ScalarLayout.ScalarPass.SizePackedStruct: runs on resolved members, as after the first pass, so that unpacked arrays inside packed structs and the error for several ranges on one struct do not arise.
- StructAccess.ConvertDot: needs the wire's first selects to index all its dimensions and the member ranges written by the layout pass; enum items with several recorded dimensions are not modelled.
- IndexSelects.TraverseDimensions: expressions are evaluated over unbounded integers and compared modulo 2^32.
- LvalueShift.MaskAndShiftUpdates: two-valued bits and an index expression wide enough not to overflow; the case form is run for zero-based wires only.
- SubwordWrites.DynamicWrite: the x bits that fill the data wire before the assignment are overwritten and not modelled; full-word writes and the MEMINIT form of initial blocks would add only easy members.
- MemoryPorts.PortsRefineWrites: one traversal of one always block; loops and function calls have been unrolled and inlined before.
- CasePruning.Prune: branches carry the number of their body; simplification inside the branches is not modelled.
- DefiniteAssignment.AssignedIff: assumes that a case statement does not mix ordinary and casex/casez branches when it has an ordinary default; loops, calls and declarations do not occur as statements of their own.
- DefiniteAssignment.SomeRunReadsIff: requires plain branches with the default first among its labels, and no concatenation that writes the variable; the two lemmas beside it show why.
- EdifNames.Names.Reference: the counter is unbounded.
- Literals.ConvertString: string literals, warnings and the log text are left out.
- LiteralTexts.AcceptedIff: speaks of digits, x, z and ?; other characters are skipped, as in the source.
- ShellTemplate.ExpandParameters: the double-quoted template class, literal substitution, indentation and highlighting are left out, apart from escape.
- ShellWords.CommandArguments: parameters are in braces, have values, and outside quotes a value without white space; `ShellWords.ParameterSplits` and `ShellWords.PlainParameter` have the other cases alone.
- The outer fixpoint of the simplifier, VPI traversal, Surelog, option handling, file output and the parts of Yosys that are not in this repository are not part of this model.
- Real-valued folding, $display, DPI and $readmem are not part of this model.
