# Models of five pieces of a high-level-synthesis tool chain

The project models the parts of the repository where correctness depends on an
algorithm rather than on glue, and proves what those parts are for.

* **Generalized basis reduction** (`cloog/isl/basis_reduction_templ.c` over
  `basis_reduction_tab.c`): the loop that turns the basis of a polytope's tableau
  into a reduced one, with its LP, its stack of rows, its cuts and its reuse of
  saved solutions.
* **rapidxml** (`InspectDebugger/Inspect/rapidxml.hpp`, `rapidxml_print.hpp`): the
  parser that overwrites its own input, the printer, the memory pool and the
  doubly linked node lists.
* **isl's block cache** (`cloog/isl/isl_blk.c`): the allocator of coefficient
  blocks, with the obligation to initialise and clear every `isl_int` once.
* **Trace-buffer simulation** (`examples/dbg_trace_analyze.py`): the greedy
  run-length control trace and what the buffers still hold.
* **Debugger variables** (`InspectDebugger/Inspect/Variable.cpp`): the search from a
  byte offset to the index of an element of a nested type.

`dafny verify dfyconfig.toml` checks everything.

## How the model is arranged

*Basis reduction.* `Vectors`, `Widths` and `Tableau` hold the mathematics: points
with real coordinates, integer rows, polytopes given by constraint lists, and the
width of a row over the pairs of points on which other rows agree. Nothing about
widths is assumed. What is assumed is an exact LP solver (`Tableau.Exact`): it knows
which programs have a minimum, and asked for one it returns an optimal pair of points
together with a full set of multipliers (the certificate of LP duality); it may choose
among several optimal answers differently at every call. Convexity, the meaning of
`get_alpha` and the claim that the floor or the ceiling of the multiplier is the best
integer are consequences.

`ReductionRun` is the algorithm as a textbook has it: loop heads (`Stage`), the choices
of one round in terms of true widths (`Move`, `Chosen`), what a round makes of a loop
head (`NextStage`), and runs (`IsRun`) with every cut on record: its row, its value, the
width, and the pair of points that the test looked at. What the algorithm promises is
proved there for every run. `TabLp.Lp` is `struct tab_lp`; `ReductionSteps` says what the
variables of the loop hold at each point of its body (`Head`, `Evaluated`, `Combined`,
`CutDone`) and proves each step; `BasisReduction` is the function itself, and each of
its rounds is proved to be a round of `ReductionRun`. `RationalPolytopes` and
`Termination` show that the loop ends. A cut is *risky* when its row is not the row that
was tested and the width is at least 1; `CarriedTest` says what was added in between,
`SavedTest` why exactly these cuts may lose points, and `RiskyCut` and `RiskyRun` give two
inputs.

*rapidxml.* `XmlParser` is a parser that only reads. `XmlDestructive` has the same
branches on an array that it overwrites, and each of its methods is proved to
return spans that, read back from the final buffer, spell out what the pure parser
finds in the original text. `XmlPrinter` gives the printed text as a function and
the methods that write it; `XmlRoundTrip` says what comes back of any tree that is
printed, and `XmlOutput`, from what the parser can return at all, which trees come back
unchanged. `XmlNumerals` says what numeric references mean, and `XmlSpelling` which texts
stand for a document, without naming the parser; `XmlAccepted` shows that the parser takes
these texts and no others. `BitOps` has the bit operators, `PoolAlign` and `MemoryPool`
model the pool, `XmlDom` the node lists, with pointers that hold garbage where the source allows it.

*Block cache.* `BlkMemory` is the C heap: arrays of elements that are initialised or
not, with a log of all that has happened. An event that C or GMP forbid (initialising
twice, clearing an uninitialised element, freeing an unknown array) would break the
log. `BlkCache.Ctx` is the cache. `BlkRun` says what a client sees of it, call by call:
its blocks, the cache, and how much was initialised, cleared and lost.
`BlkSession.Run` is any client, and does exactly that.

## What was found

* **A cut may remove integer points.** `fixed` comes from a test that is made on the row
  *before* a multiple of row i is added when the multiplier is an integer (lines 171-172
  and 187-188 of `basis_reduction_templ.c`), and it is carried over every back-up (line
  242), each of which may add more; but the cut at lines 252-258 is made on the row
  after. The test is right exactly when nothing was added since, or the width
  is below 1, or it is at least 2, when it never passes (`SavedTest.SavedTestIsSafe`, for
  every polytope). `RiskyCut` gives a rectangle, a correct solver answer with multiplier
  1 and the integer point that is lost; `RiskyRun` a prism and a whole run whose cutting
  round has multiplier 0, but relies on a test that was saved before a row was added.
  A run without such cuts loses no integer point (`ReductionRun.SafeRun`).
* **A failed enlargement loses initialised elements.** Line 54 of `isl_blk.c` frees an
  array without clearing it, which happens when `realloc` fails or the limit on
  operations is reached. Exactly `block.size` elements are lost then
  (`BlkCache.Ctx.Extend`), and none otherwise.
* **The replay length of the control buffer** (lines 217-221 of
  `dbg_trace_analyze.py`) is right exactly when the run that was dropped last had a
  single cycle (`TraceSimulation.ControlReach`); `TraceSimulation.ControlReachFails` is a
  trace of three cycles on which it is wrong. With a memory buffer of depth 0 the
  whole run counts as available.
* **Trees that do not survive printing.** A document is read back as it was printed
  exactly when it is printable (`XmlOutput.SurvivesExactly`): names that the parser takes
  as names, no zeros, no "]]>" in character data, no blank data, no data next to data,
  none at the top, and as the value of an element the text of its first data child.
  Trees that only break the conditions on data and values come back in normal form,
  with adjacent data joined and blank data gone (`XmlRoundTrip.ParsePrintIsNormal`).
* **What the parser accepts** is exactly what `XmlSpelling` spells out
  (`XmlAccepted.AcceptsExactlyDocuments`), which is more than XML: the name of a closing tag
  need not be that of the element, a decimal reference may contain the digits a to f or none
  at all, codes are taken modulo 2^64, an ampersand may stand for itself, and attributes
  need no space between them.
* `add_eq` drops an equality that the tableau shows to be zero, so a cut could add
  fewer than the two constraints that `con_offset` counts; it does not when the row is
  not constant (`TabLp.CutOfFreeRow`), which holds wherever the loop cuts.
* **The reduction ends** on every polytope given by integer constraints, whatever an
  exact solver chooses (`Termination.NoEndlessCourse`), although the solver may answer
  the same question differently at every call and every cut changes the widths.

## Model

| member | source | states |
|---|---|---|
| Widths.WidthUnique | cloog/isl/basis_reduction_templ.c:134-138 | a row has at most one width, so F[i] is well defined |
| Widths.OptimalIsWidth | cloog/isl/basis_reduction_tab.c:132-163 | an optimal pair with multipliers that bound it is the width of the row over pairs that agree on the stacked rows |
| Widths.OptimalChange | cloog/isl/basis_reduction_templ.c:176-177 | multipliers of rows that are constant on the polytope may be replaced by anything, so garbage saved for them is harmless |
| Widths.FoldLastRow | cloog/isl/basis_reduction_templ.c:187-188 | with an integer multiplier m, the width given the last row equals the width of b + m*r without that row, with the remaining multipliers |
| Widths.RestrictedIsLower | cloog/isl/basis_reduction_templ.c:166-171 | the width with a row added bounds from below the width of every integer combination with that row |
| Widths.IntegerMultiplierIsBest | cloog/isl/basis_reduction_templ.c:187-188 | an integer multiplier is the best integer multiple of all |
| Widths.FloorOrCeilIsBest | cloog/isl/basis_reduction_templ.c:189-216 | otherwise the better of floor and ceiling is, by convexity |
| Widths.ConstantRow | cloog/isl/basis_reduction_templ.c:220-228 | a row that is constant on the polytope does not change any width |
| Tableau.FeasibleIsAgreeing | cloog/isl/basis_reduction_tab.c:71-86 | the feasible pairs of the product tableau are the pairs of points of the polytope that agree on the stacked rows |
| Tableau.MinimumIsOptimal | cloog/isl/basis_reduction_tab.c:132-163 | an exact minimum of the product tableau is minus a width, and its duals are multipliers that prove it |
| Tableau.AlphaAt | cloog/isl/basis_reduction_tab.c:232-237 | the multiplier of a trailing row is minus the dual at con_offset plus its number |
| TabLp.Lp.constructor | cloog/isl/basis_reduction_tab.c:88-125 | the tableau is the product of the constraints with themselves, without rows |
| TabLp.Lp.Solve | cloog/isl/basis_reduction_tab.c:132-163 | answers that there is no minimum exactly when the program is empty or unbounded; otherwise leaves an exact minimum, keeps the duals of the last solve that had rows, and sets is_fixed by the rounded test on the optimal pair when the value is below 2 |
| TabLp.Lp.AddRow | cloog/isl/basis_reduction_tab.c:218-230 | pushes one constraint and remembers where it starts |
| TabLp.Lp.DelRow | cloog/isl/basis_reduction_tab.c:239-243 | rolls back to the remembered place |
| TabLp.Lp.GetAlpha | cloog/isl/basis_reduction_tab.c:232-237 | minus the dual of the constraint at con_offset + row |
| TabLp.Lp.Cut | cloog/isl/basis_reduction_tab.c:170-194 | fails, changing nothing, exactly when the row has no minimum; otherwise fixes both halves to the rounded minimum, up to equalities shown to be zero, adds 2 to con_offset in any case, and tells whether anything is left |
| TabLp.CutOfFreeRow | cloog/isl/basis_reduction_tab.c:170-194 | for a row that is not constant over rows that are, the cut leaves points exactly when the hyperplane meets the polytope, and then adds two constraints, as con_offset has it |
| TabLp.CutAdds | cloog/isl/basis_reduction_tab.c:182-191 | neither of the two equalities is dropped when the row is not constant |
| SavedTest.SavedTestIsSafe | cloog/isl/basis_reduction_templ.c:187-246 | in coordinates of the basis, over all polytopes: a cut on the strength of a test that was made before multiples m of other rows were added keeps every integer point, whatever pair the test looked at, if and only if m is zero or the width is below 1 or at least 2 |
| CarriedTest.SinceTheTest | cloog/isl/basis_reduction_templ.c:171-242 | in every run, the row of each round is the row of the test that the round relies on plus the multiples added since, over all back-ups |
| CarriedTest.AddedRowsDiffer | cloog/isl/basis_reduction_templ.c:230-246 | the rows added are different rows of the current basis, and none is the row they are added to |
| CarriedTest.CutsRelyOnTests | cloog/isl/basis_reduction_templ.c:220-260 | a cut is risky exactly when its width is at least 1 and what was added since its test does not cancel |
| FixedValue.CutIsSafe | cloog/isl/basis_reduction_tab.c:146-158 | a test on the very row that is cut keeps every integer point |
| FixedValue.NarrowCutIsSafe | cloog/isl/basis_reduction_templ.c:140-148 | so does a width below 1 whatever the test looked at |
| RiskyCut.SolverMayAnswer | cloog/isl/basis_reduction_templ.c:166-174 | on a concrete rectangle an exact solver may answer with multiplier 1 and the test passes |
| RiskyCut.CutLosesAPoint | cloog/isl/basis_reduction_templ.c:238-260 | the cut that follows removes an integer point of the rectangle |
| RiskyRun.SolverMayAnswer | cloog/isl/basis_reduction_templ.c:165-181 | on a concrete prism an exact solver may answer the second round with multiplier 1, and the test passes |
| RiskyRun.RunLosesAPoint | cloog/isl/basis_reduction_templ.c:150-266 | the rounds of that run form a run of the algorithm; its one cut is risky although the multiplier of the cutting round is 0, and an integer point of the prism is lost |
| Lattice.RowsOutsideKept | cloog/isl/basis_reduction_templ.c:28-38 | shears and swaps within a range leave the other rows alone |
| Lattice.Undo | cloog/isl/basis_reduction_templ.c:217-239 | the inverse operations in reverse order restore the basis exactly |
| Lattice.LatticeKept | cloog/isl/basis_reduction_templ.c:217-239 | the rows span the same integer lattice before and after |
| ReductionRun.RunKeepsLattice | cloog/isl/basis_reduction_templ.c:28-38 | every basis of every run has in common with the first one the rows outside [n_zero at entry, n_bounded), the integer lattice, and the first basis itself, which undoing the shears and swaps restores |
| ReductionRun.RunBasis | cloog/isl/basis_reduction_templ.c:217-239 | every basis of a run comes from the first one by shears and swaps within that range |
| ReductionRun.RunIsSound | cloog/isl/basis_reduction_templ.c:150-266 | at every loop head of every run: rows before n_zero are constant on what the cuts have left of the polytope, each cut belongs to one of them, which is unchanged since, the pairs from n_zero to i are reduced, and the polytope is empty exactly when the run has ended for that reason |
| ReductionRun.RunReduces | cloog/isl/basis_reduction_templ.c:28-48 | at the end every adjacent pair from n_zero on satisfies 4 F(c) >= 3 F(b) and no integer multiple of b would make c narrower, for the true widths on what the cuts have left |
| ReductionRun.RunCutsZeroRows | cloog/isl/basis_reduction_templ.c:140-148 | every cut was made at a row that is a zero row of the result |
| ReductionRun.RunUncut | cloog/isl/basis_reduction_templ.c:140-148 | without a new zero row the polytope is uncut |
| ReductionRun.SafeRun | cloog/isl/basis_reduction_templ.c:220-228 | if no cut so far is risky, every integer point of the input is still there, at every loop head |
| ReductionRun.SafeEnd | cloog/isl/basis_reduction_templ.c:301-307 | and then an empty end means that there was no integer point |
| ReductionRun.FewFirstSwaps | cloog/isl/basis_reduction_templ.c:247-261 | while n_zero keeps a value v, from any loop head with i >= v on, the exchanges at n_zero number at most 1 + log base 4/3 of the true width that row v has at that loop head |
| ReductionRun.NoSwapBelow | cloog/isl/basis_reduction_templ.c:230-265 | while i is below n_zero nothing is exchanged, and i goes on |
| ReductionRun.StoppedIsNarrow | cloog/isl/basis_reduction_templ.c:249-251 | a run that gbr_only_first stops early has a row n_zero narrower than 2 |
| ReductionRun.OpenRowIsWide | cloog/isl/basis_reduction_templ.c:140-148 | at every loop head of every run with i at or beyond n_zero, row n_zero has a width of at least 1 on what the cuts have left: no narrower row is passed over |
| ReductionRun.ZeroGrows | cloog/isl/basis_reduction_templ.c:220-260 | n_zero grows, or nothing is left, exactly when row n_zero was computed anew (after a zero row, or by an exchange) and the test of that round passed, unless the early stop comes first |
| ReductionRun.StopsWhenNarrow | cloog/isl/basis_reduction_templ.c:247-251 | a run stops early exactly when only the first direction is wanted and an exchange at n_zero has left there a row narrower than 2, in true widths |
| RationalPolytopes.RationalSolution | cloog/isl/basis_reduction_tab.c:132-163 | integer equations that have a real solution have a rational one |
| RationalPolytopes.DenominatorExists | cloog/isl/basis_reduction_tab.c:132-163 | for each list of integer constraints there is one D such that the maximum of every integer objective that has one is a multiple of 1/D |
| RationalPolytopes.WidthGap | cloog/isl/basis_reduction_templ.c:230-236 | so the widths of integer rows over one polytope, given the same rows, are zero or at least some gap |
| Termination.LevelQuiets | cloog/isl/basis_reduction_templ.c:230-265 | when rows before place l are exchanged no more, there comes a last exchange at l: each leaves less than 3/4 of a width that cannot go below the gap |
| Termination.NoEndlessCourse | cloog/isl/basis_reduction_templ.c:150-266 | for every polytope given by integer constraints, every first basis and all choices of the solver, no course of rounds is endless |
| Termination.RunsEnd | cloog/isl/basis_reduction_templ.c:150-266 | so every loop head from which a run starts has an ordinal rank that each round makes smaller |
| ReductionInvariant.SavedIsOptimal | cloog/isl/basis_reduction_templ.c:176-177 | what save_alpha reads is a full set of multipliers for the rows on the stack |
| ReductionInvariant.DropConstantRows | cloog/isl/basis_reduction_templ.c:220-228 | rows that are constant may be left out of the stack without changing a width |
| ReductionInvariant.SwapProgress | cloog/isl/basis_reduction_templ.c:230-261 | a swap leaves less than 3/4 of the width, so s swaps that leave a width of at least 1 need a first width of (4/3)^s |
| FixedValue.NarrowIsFixed | cloog/isl/basis_reduction_tab.c:146-158 | a width below 1 always makes is_fixed true |
| ReductionSteps.AtHead | cloog/isl/basis_reduction_templ.c:150-182 | at every loop head the LP holds exactly the rows from n_zero at entry to i - 1 behind con_offset constraints, every F up to row i is the true width, and a pop goes back to a place behind all cuts |
| ReductionSteps.EvaluatedPlain | cloog/isl/basis_reduction_templ.c:151-158 | right after n_zero has grown, the plain solve gives the width given the rows before |
| ReductionSteps.EvaluatedSaved | cloog/isl/basis_reduction_templ.c:160-164 | after a back-up, F_saved and alpha_saved[i], which SwapBackKeepsHead carries over, are the width and the multiplier that pushing row i and solving again would give |
| ReductionSteps.EvaluatedSolved | cloog/isl/basis_reduction_templ.c:165-181 | the solve with row i pushed gives the width given the rows up to i, with all multipliers |
| ReductionSteps.ShearKeepsCore | cloog/isl/basis_reduction_templ.c:217-218 | adding a multiple of row i to row i + 1 keeps everything known about rows up to i |
| ReductionSteps.CombinedExactly | cloog/isl/basis_reduction_templ.c:187-188 | with an integer multiplier the combined row cannot be made narrower by row i, and F_new is its width |
| ReductionSteps.CombinedByTrial | cloog/isl/basis_reduction_templ.c:189-216 | the same after the two trial solves, with the multipliers of the chosen one |
| ReductionSteps.CutMakesZeroRow | cloog/isl/basis_reduction_templ.c:220-228 | a cut that leaves points makes its row a zero row, and keeps all widths and stack positions, since the rows on the stack were constant |
| ReductionSteps.AlreadyZero | cloog/isl/basis_reduction_templ.c:221-227 | a row of width 0 is a zero row without a cut |
| ReductionSteps.AdvanceKeepsCore | cloog/isl/basis_reduction_templ.c:262-265 | going on pushes row i and knows its width |
| ReductionSteps.SwapBackKeepsHead | cloog/isl/basis_reduction_templ.c:238-246 | a swap with a pop keeps the rows before, never pops what is not there, and makes F_saved and alpha_saved those of the next solve |
| ReductionSteps.SwapFirstKeepsCore | cloog/isl/basis_reduction_templ.c:247-260 | a swap at n_zero keeps everything, with F_new as the new first width |
| BasisReduction.SaveAlpha | cloog/isl/basis_reduction_templ.c:20-26 | entry j becomes the multiplier of row first + j |
| BasisReduction.SolveWithRow | cloog/isl/basis_reduction_templ.c:166-181 | the solution with row i pushed, after which the LP is as before |
| BasisReduction.EvaluateNext | cloog/isl/basis_reduction_templ.c:151-182 | each of the three ways gives the width of row i + 1 given rows up to i, its multipliers, and a value of fixed that belongs to a solved pair |
| BasisReduction.CombineRows | cloog/isl/basis_reduction_templ.c:184-218 | row i + 1 gets the multiple m of row i that makes it narrowest, nothing else changes, m is 0 after a zero row, and fixed is the outcome of a test on the new row or of the one before line 184 |
| BasisReduction.CombineNext | cloog/isl/basis_reduction_templ.c:151-218 | the choices of the round, among them where the test was made, are those that the textbook algorithm allows, and the basis is the one it gives |
| BasisReduction.CutIfFixed | cloog/isl/basis_reduction_templ.c:220-228 | row i + 1 is closed, by a cut unless its width is zero, exactly when row i is the last zero row and fixed holds |
| BasisReduction.MakeZeroRow | cloog/isl/basis_reduction_templ.c:221-227 | closing row n_zero in the LP does to the polytope, n_zero and the record of cuts what closing it does in the textbook algorithm, or tells that nothing is left |
| BasisReduction.SwapOrAdvance | cloog/isl/basis_reduction_templ.c:230-265 | which of advance, back-up, swap at n_zero with or without a cut, and early stop happens, exactly as the widths, i, n_zero, fixed and gbr_only_first say; and the next loop head holds |
| BasisReduction.Begin | cloog/isl/basis_reduction_templ.c:132-148 | the first width is the true one, the first row is closed exactly when it is below 1, and the loop head holds or nothing is left |
| BasisReduction.Round | cloog/isl/basis_reduction_templ.c:150-266 | one pass of the loop body is one round of the textbook algorithm |
| BasisReduction.Loop | cloog/isl/basis_reduction_templ.c:150-266 | the loop ends, with a rank that every round makes smaller, and its rounds are those of a run |
| BasisReduction.ComputeReducedBasis | cloog/isl/basis_reduction_templ.c:49-307 | for every input: it ends; what it does is a run of the textbook algorithm from the given basis on the polytope of the tableau, whose last basis and n_zero it leaves; the outcome tells how the run has ended; at the normal end the basis is reduced on what the recorded cuts have left, and its first row that is not a zero row has a width of at least 1; unless a recorded cut is risky no integer point is lost and an empty result means there was none; the early stop has a first width below 2; an empty tableau or fewer than two bounded rows leave everything unchanged |
| XmlText.Skip | InspectDebugger/Inspect/rapidxml.hpp:1556-1564 | stops at the first character outside the table and never passes the final zero |
| XmlReferences.EncodeDecodes | InspectDebugger/Inspect/rapidxml.hpp:1511-1554 | the bytes written for a code below 0x110000 decode back to it by section 3 of RFC 3629, in shortest form |
| XmlReferences.DecodeEncodes | InspectDebugger/Inspect/rapidxml.hpp:1511-1554 | every byte sequence that decodes is the one that is written |
| XmlReferences.BitFormulas | InspectDebugger/Inspect/rapidxml.hpp:1520-1548 | code or-ed with 0x80 and masked with 0xBF, cut to a byte, is the continuation byte of the encoding for every code, and code or-ed with 0xC0, 0xE0 and 0xF0 are its first bytes |
| XmlReferences.NumberIsShort | InspectDebugger/Inspect/rapidxml.hpp:1649-1683 | a reference of k digits, with 64-bit wrap-around, never encodes to more than k + 2 bytes |
| XmlNumerals.NumeralDenotes | InspectDebugger/Inspect/rapidxml.hpp:1649-1683 | every number has a numeral to the base 10 and to the base 16 |
| XmlNumerals.NumberIsValue | InspectDebugger/Inspect/rapidxml.hpp:1649-1683 | any run of hexadecimal digits, even none, is read as its positional value to the base 16 or 10, modulo 2^64 |
| XmlNumerals.NumberMeans | InspectDebugger/Inspect/rapidxml.hpp:1649-1683 | a numeral in front of a semicolon, with digits in either case and leading zeros, is read as the number it denotes modulo 2^64, to the base 16 behind "&#x" and 10 behind "&#" |
| XmlNumerals.ReferenceExpands | InspectDebugger/Inspect/rapidxml.hpp:1649-1683 | in data and attribute values, the reference of any code below 0x110000 is translated to the bytes that decode to that code |
| XmlReferences.StepAt | InspectDebugger/Inspect/rapidxml.hpp:1583-1714 | no step of the translation puts out more than it consumes |
| XmlReferences.ExpandSkips | InspectDebugger/Inspect/rapidxml.hpp:1580-1586 | skipping plain characters first, as the source does, gives the same translation |
| XmlInPlace.SkipTable | InspectDebugger/Inspect/rapidxml.hpp:1556-1564 | the loop stops where the pure skip does |
| XmlInPlace.InsertCodedCharacter | InspectDebugger/Inspect/rapidxml.hpp:1511-1554 | the bit operations of the source, last byte first, write exactly the encoding, or refuse codes from 0x110000 on |
| XmlInPlace.TranslateNumber | InspectDebugger/Inspect/rapidxml.hpp:1649-1683 | translates in place what the pure step reads (for the meaning see XmlNumerals.ReferenceExpands), and changes nothing before dest |
| XmlInPlace.Translate | InspectDebugger/Inspect/rapidxml.hpp:1583-1714 | one round of the loop is one pure step |
| XmlInPlace.StepTaken | InspectDebugger/Inspect/rapidxml.hpp:1583-1714 | dest never passes src, so what is still to be read is untouched |
| XmlInPlace.SkipAndExpand | InspectDebugger/Inspect/rapidxml.hpp:1570-1718 | leaves the pure translation of the text in place, with everything from the stopping place on still original |
| XmlParser.NodeAt | InspectDebugger/Inspect/rapidxml.hpp:2081-2163 | every parsed node is an element or character data and consumes text |
| XmlParser.SkipPastMark | InspectDebugger/Inspect/rapidxml.hpp:2010-2017 | the end mark stands right before the place where the search stops |
| XmlSpans.NodeFrame | InspectDebugger/Inspect/rapidxml.hpp:2037-2077 | writing outside a node's stretch of the buffer changes no name or value below it |
| XmlDestructive.ParseAttribute | InspectDebugger/Inspect/rapidxml.hpp:2240-2297 | one attribute: the name and the value read back are the pure ones, each zero-terminated inside the text consumed |
| XmlDestructive.ParseAttributes | InspectDebugger/Inspect/rapidxml.hpp:2236-2298 | all attributes of a tag, or the same error |
| XmlDestructive.ParseCdata | InspectDebugger/Inspect/rapidxml.hpp:1998-2033 | the characters up to the first end mark |
| XmlDestructive.ElementValueSnoc | InspectDebugger/Inspect/rapidxml.hpp:1979-1982 | looking at the first character of the value when data is appended amounts to taking the first data that does not start with a zero |
| XmlDestructive.ParseAndAppendData | InspectDebugger/Inspect/rapidxml.hpp:1940-1994 | data and element value are the pure ones, and the returned character is the original one although the terminator may have overwritten it |
| XmlDestructive.ParseContents | InspectDebugger/Inspect/rapidxml.hpp:2167-2232 | the loop with its jump after data yields the pure children, or the same error |
| XmlDestructive.ParseElement | InspectDebugger/Inspect/rapidxml.hpp:2037-2077 | name, attributes and content all survive the terminator that is written last |
| XmlDestructive.ParseNode | InspectDebugger/Inspect/rapidxml.hpp:2081-2163 | the pure node, or none, or the same error |
| XmlDestructive.SkipDocumentType | InspectDebugger/Inspect/rapidxml.hpp:1814-1868 | stops where the pure skip by bracket depth does |
| XmlDestructive.Parse | InspectDebugger/Inspect/rapidxml.hpp:1381-1411 | for every zero-ended text: what is read from the buffer afterwards is what the pure parser finds in the original text, every name and value ends with a zero, and errors agree in message and place |
| XmlPrinter.CopyAndExpandChars | InspectDebugger/Inspect/rapidxml_print.hpp:46-81 | appends the escaped text |
| XmlPrinter.FindChar | InspectDebugger/Inspect/rapidxml_print.hpp:94-100 | whether the character occurs |
| XmlPrinter.PrintAttributes | InspectDebugger/Inspect/rapidxml_print.hpp:205-231 | appends the attributes with the quotes chosen by their values |
| XmlPrinter.PrintElementNode | InspectDebugger/Inspect/rapidxml_print.hpp:268-321 | appends the element's text |
| XmlPrinter.PrintNode | InspectDebugger/Inspect/rapidxml_print.hpp:133-192 | appends the node's text, without indentation |
| XmlPrinter.PrintChildren | InspectDebugger/Inspect/rapidxml_print.hpp:195-201 | appends the texts of all children in order |
| XmlRoundTrip.EscapeIsSafe | InspectDebugger/Inspect/rapidxml_print.hpp:46-81 | no raw '<' or '>' and no delimiter is ever printed from a string |
| XmlRoundTrip.QuoteIsNeverRaw | InspectDebugger/Inspect/rapidxml_print.hpp:215-227 | the chosen quote does not occur inside the printed value |
| XmlRoundTrip.EscapedCharacters | InspectDebugger/Inspect/rapidxml_print.hpp:46-81 | the five characters are printed as their entities, but for the one that may stand |
| XmlRoundTrip.AttributeLiterally | InspectDebugger/Inspect/rapidxml_print.hpp:205-231 | a value is printed in double quotes, or in single quotes if it contains a double one |
| XmlRoundTrip.ElementLiterally | InspectDebugger/Inspect/rapidxml_print.hpp:268-321 | an element without value and children is printed as one tag, and otherwise with its value or, if it has children, with them |
| XmlRoundTrip.UnescapeEscape | InspectDebugger/Inspect/rapidxml.hpp:1587-1717 | in data and in both kinds of quotes, the parser's translation of an escaped string is the string, for every string without zeros |
| XmlRoundTrip.AttributesBack | InspectDebugger/Inspect/rapidxml.hpp:2236-2298 | printed attributes are read back |
| XmlRoundTrip.MarkFound | InspectDebugger/Inspect/rapidxml.hpp:2010-2017 | the first end mark after printed character data is the printed one, even if the value ends with brackets |
| XmlRoundTrip.NodeBack | InspectDebugger/Inspect/rapidxml.hpp:2081-2163 | a printed element or character-data node is read back, in normal form, wherever it stands |
| XmlRoundTrip.ContentsBack | InspectDebugger/Inspect/rapidxml.hpp:2167-2232 | printed text, children and their closing tag are read back with adjacent data joined and blank data dropped |
| XmlRoundTrip.ParsePrintIsNormal | InspectDebugger/Inspect/rapidxml.hpp:1381-1411 | parsing a printed document gives its normal form, for every tree that can be printed at all |
| XmlRoundTrip.NormalTopIsPrintable | InspectDebugger/Inspect/rapidxml.hpp:1381-1411 | normal forms are printable, so a second round trip changes nothing |
| XmlRoundTrip.ParsePrint | InspectDebugger/Inspect/rapidxml.hpp:1381-1411 | parsing a printed document gives the printed tree, for every printable tree |
| XmlRoundTrip.PrintIsInjective | InspectDebugger/Inspect/rapidxml_print.hpp:133-192 | different printable trees print differently |
| XmlRoundTrip.AdjacentDataMerges | InspectDebugger/Inspect/rapidxml_print.hpp:233-242 | adjacent data nodes print like one |
| XmlRoundTrip.SoleDataSurvives | InspectDebugger/Inspect/rapidxml.hpp:2170-2232 | a sole data child is read back if and only if it is not blank |
| XmlOutput.DocumentOut | InspectDebugger/Inspect/rapidxml.hpp:1381-1411 | whatever text is parsed: no zero is consumed, names and character data of the result could be printed, the value of each element is the text of its first data child, and no data stands at the top |
| XmlOutput.SurvivesExactly | InspectDebugger/Inspect/rapidxml.hpp:1381-1411 | for every list of nodes: parsing its printed text gives it back, and consumes all of the text, if and only if it is printable |
| XmlSpelling.SpelledIsFound | InspectDebugger/Inspect/rapidxml.hpp:1381-1411 | however a document is spelled, parsing finds what it means and stops at the first zero behind it: any white space behind names and around equals signs, either quotes, characters as themselves, as entities or as numeric references, an ampersand that starts no reference, comments, instructions, document types with nested brackets and unknown markup anywhere, closing tags of any name, and a byte order mark or none |
| XmlAccepted.ExpandOut | InspectDebugger/Inspect/rapidxml.hpp:1570-1717 | whatever data or value is translated without an error is spelled by characters, entities, references and lone ampersands, and is what they mean |
| XmlAccepted.DoctypeOut | InspectDebugger/Inspect/rapidxml.hpp:1814-1874 | what is skipped as a document type has balanced brackets and ends at the first '>' outside them |
| XmlAccepted.NodeOut | InspectDebugger/Inspect/rapidxml.hpp:2081-2167 | whatever is parsed behind a '<' is the spelling of an element, of character data or of markup without a node, and the node is what it means |
| XmlAccepted.AcceptsExactlyDocuments | InspectDebugger/Inspect/rapidxml.hpp:1381-1411 | for every zero-terminated text: the parser succeeds with these nodes, ending there, if and only if the text up to that zero is the spelling of a document that means these nodes; every other text is an error |
| XmlPrintParse.ParsePrinted | InspectDebugger/Inspect/rapidxml.hpp:1381-1411 | after a printed text has been parsed in place, the buffer spells out the printed tree |
| PoolAlign.MaskIsRemainder | InspectDebugger/Inspect/rapidxml.hpp:573-577 | masking with 2^k - 1 takes the remainder by 2^k |
| PoolAlign.AlignIsLeast | InspectDebugger/Inspect/rapidxml.hpp:573-577 | the bit formula gives the least multiple of the alignment at or above the pointer |
| MemoryPool.NewBlockFits | InspectDebugger/Inspect/rapidxml.hpp:607-625 | the extra 2 * alignment - 2 bytes always suffice for a header and an aligned request |
| MemoryPool.HeadersAreSafe | InspectDebugger/Inspect/rapidxml.hpp:616-630 | no piece handed out overlaps any block header |
| MemoryPool.Pool.AllocateAligned | InspectDebugger/Inspect/rapidxml.hpp:599-631 | a request that fits behind the first free aligned place of the current block is put there; any other gets one new block, of the written-out size, and the first aligned place behind its header; memory is free behind the piece; and the piece is aligned, inside its block and disjoint from all pieces before |
| MemoryPool.SmallGaps | InspectDebugger/Inspect/rapidxml.hpp:599-631 | pieces that follow each other in one block leave less than the alignment between them |
| MemoryPool.Pool.Clear | InspectDebugger/Inspect/rapidxml.hpp:525-537 | frees the dynamic blocks, the newest first, each once, and leaves a pool as new |
| MemoryPool.StartsDiffer | InspectDebugger/Inspect/rapidxml.hpp:525-537 | no two blocks start at the same place, so none is freed twice |
| XmlDom.XmlNode.PrependNode | InspectDebugger/Inspect/rapidxml.hpp:1076-1092 | the child comes first, whatever garbage the pointers held |
| XmlDom.XmlNode.AppendNode | InspectDebugger/Inspect/rapidxml.hpp:1097-1113 | the child comes last |
| XmlDom.XmlNode.InsertNode | InspectDebugger/Inspect/rapidxml.hpp:1119-1135 | the child comes in front of the given one |
| XmlDom.XmlNode.RemoveFirstNode | InspectDebugger/Inspect/rapidxml.hpp:1140-1150 | the first child is gone and has no parent |
| XmlDom.XmlNode.RemoveLastNode | InspectDebugger/Inspect/rapidxml.hpp:1155-1167 | the last child is gone and has no parent |
| XmlDom.XmlNode.RemoveNode | InspectDebugger/Inspect/rapidxml.hpp:1171-1185 | the given child is gone and has no parent |
| XmlDom.XmlNode.RemoveAllNodes | InspectDebugger/Inspect/rapidxml.hpp:1188-1193 | the list is empty and no former child has a parent |
| XmlDom.Apply | InspectDebugger/Inspect/rapidxml.hpp:1073-1193 | any operation on any node keeps the lists of all nodes well formed and changes only the list of that node: an inserted child stands first, last or right before the given one, a removed one is gone, and the others keep their order, under the rules for garbage pointers |
| BlkMemory.Memory.Realloc | cloog/isl/isl_blk.c:52-56 | keeps the elements, adds uninitialised ones, or changes nothing and answers null |
| BlkMemory.Balance | cloog/isl/isl_blk.c:42-72 | after every allowed sequence of events, what was initialised was cleared, or lost in a freed array, or is still there |
| BlkMemory.EveryElementEnds | cloog/isl/isl_blk.c:42-72 | if no array is left, each initialised element, followed through every move of its array, has come to exactly one end: it was cleared, or freed with its array |
| BlkMemory.ElementsApart | cloog/isl/isl_blk.c:42-72 | two elements are never at one place, so no event clears both |
| BlkCache.OrderDoesNotMatter | cloog/isl/isl_blk.c:80-89 | for every order of the cache the search ends at a block of the same size |
| BlkCache.RemovedRest | cloog/isl/isl_blk.c:91-93 | filling the slot with the last block removes exactly the block taken |
| BlkCache.Ctx.FindBest | cloog/isl/isl_blk.c:80-89 | the early-exit search finds a smallest block of at least n elements, or a largest one if there is none |
| BlkCache.OwnedTaken | cloog/isl/isl_blk.c:91-93 | a block that leaves the cache was in nobody's hands, and every array keeps exactly one owner |
| BlkCache.OwnedGiven | cloog/isl/isl_blk.c:121-122 | a block that enters the cache is in nobody's hands any more |
| BlkCache.OwnedRegrown | cloog/isl/isl_blk.c:52-62 | enlarging a block, in place or elsewhere, keeps one owner for every array |
| BlkCache.Ctx.FreeForce | cloog/isl/isl_blk.c:65-72 | clears every element once and frees the array |
| BlkCache.Ctx.Extend | cloog/isl/isl_blk.c:42-63 | a block of the asked size with exactly the new elements initialised, or the error block, in which case exactly its old elements are lost |
| BlkCache.Ctx.Alloc | cloog/isl/isl_blk.c:74-105 | the block, the cache, the miss counter and the elements initialised, cleared and lost are those that the best fit demands (for their meaning see BlkRun.ReusesSmallestFit and the rows after it); for n > 0 a block of at least n and fewer than 2n + 100 elements that nobody else holds, or an error |
| BlkCache.Ctx.ExtendBlock | cloog/isl/isl_blk.c:107-114 | enlarges a block or allocates one, with the same account, and without touching other blocks |
| BlkCache.Ctx.Free | cloog/isl/isl_blk.c:116-125 | the block goes to the cache, or is cleared and freed when the cache is full; empty and error blocks change nothing |
| BlkCache.Ctx.ClearCache | cloog/isl/isl_blk.c:127-134 | only the blocks of callers are left |
| BlkRun.CallEffect | cloog/isl/isl_blk.c:42-134 | an allocation adds one slot, which is empty for n = 0, else an error or of n to 2n + 99 elements; enlarging changes its slot only, to at least n elements or an error; releasing empties its slot and initialises and loses nothing; clearing empties the cache and clears all of it |
| BlkRun.ReusesSmallestFit | cloog/isl/isl_blk.c:80-95 | if some cached block has n to 2n + 99 elements, a smallest one that is large enough is handed back, exactly it leaves the cache, and nothing is initialised, cleared or lost |
| BlkRun.EnlargesLargest | cloog/isl/isl_blk.c:80-105 | if all cached blocks are too small, a largest one leaves the cache and only what it lacks is initialised, or without memory it is lost |
| BlkRun.NothingCached | cloog/isl/isl_blk.c:80-105 | without cached blocks the new block is a new array of n elements, or an error if there is no memory |
| BlkRun.CountsMiss | cloog/isl/isl_blk.c:96-101 | if all blocks that are large enough are much too large, the miss is counted, or after 100 misses the first cached block is cleared; the new block is a new array |
| BlkRun.EnlargesInPlace | cloog/isl/isl_blk.c:107-114 | enlarging a block keeps it if it is large enough, initialises what it lacks, or loses it, and leaves the cache alone |
| BlkRun.ReleaseKeeps | cloog/isl/isl_blk.c:116-125 | a released block goes to the end of the cache while there are fewer than 20, and is cleared otherwise |
| BlkRun.LossOfCall | cloog/isl/isl_blk.c:52-56 | a call loses exactly the elements of the block it failed to enlarge |
| BlkRun.SessionInOrder | cloog/isl/isl_blk.c:42-134 | after every call of every session, what was initialised was cleared, or lost, or is in a block of the cache or of the client; and 101 times the evictions are at most the misses |
| BlkRun.LostInFailures | cloog/isl/isl_blk.c:52-56 | what a session has lost is what its failed calls have lost, and nothing if none failed |
| BlkSession.Step | cloog/isl/isl_blk.c:42-134 | the call does to the client's blocks, the cache, the miss counter and the heap exactly what BlkRun.Stepped says; it reports a failure exactly when its slot is an error; and no block is both cached and held |
| BlkSession.Run | cloog/isl/isl_blk.c:42-134 | the run is the session of BlkRun for the given calls; at each moment the log of events so far explains the heap, in which every array belongs to one block of the client or of the cache; after everything is given back no array is left, and what was initialised was cleared but for the losses of the session |
| TraceSimulation.StaysAhead | examples/dbg_trace_analyze.py:210-215 | line j of any other split starts no later than line j of the greedy one |
| TraceSimulation.GreedyIsOptimal | examples/dbg_trace_analyze.py:210-215 | no split into legal runs has fewer lines |
| TraceSimulation.Lossless | examples/dbg_trace_analyze.py:210-215 | instance and state of every cycle can be recovered from the recorded cycles |
| TraceSimulation.ReachIsExact | examples/dbg_trace_analyze.py:231-235 | the entries of the last w cycles are all still in the buffer if and only if w is at most the computed length |
| TraceSimulation.ControlReach | examples/dbg_trace_analyze.py:217-221 | the length computed for the control buffer is right for all w if and only if the run dropped last had one cycle |
| TraceSimulation.ControlReachFails | examples/dbg_trace_analyze.py:217-221 | a run of two cycles, another cycle and depth 1: two cycles are counted, one is held |
| TraceSimulation.LinesAreGreedy | examples/dbg_trace_analyze.py:210-215 | the control trace after every number of cycles is the greedy split of these cycles |
| TraceSimulation.ReplayLength | examples/dbg_trace_analyze.py:257-259 | the replay length is the greatest number of last cycles that all buffers hold, if the run the control buffer dropped last had one cycle |
| TraceSimulation.TracesAreRecords | examples/dbg_trace_analyze.py:223-249 | in every stay in one instance, the register trace has state 0 at the first cycle only and every other cycle, once for each enabled port; the memory trace has each cycle once for each store; both in order and with nothing else |
| TraceSimulation.InSomeStay | examples/dbg_trace_analyze.py:223-249 | every cycle belongs to a stay, so the traces are described completely |
| TraceSimulation.SaturatedIsShort | examples/dbg_trace_analyze.py:217-256 | a buffer counts as saturated exactly when fewer cycles than have passed are available |
| TraceSimulation.HistoryFrom | examples/dbg_trace_analyze.py:257-264 | from the first saturated cycle on, both histories have one entry per cycle: the cycles available from all buffers, and those that a buffer of the given depth would offer |
| TraceSimulation.RecordControl | examples/dbg_trace_analyze.py:210-215 | one cycle keeps the trace greedy |
| TraceSimulation.SimulateTrace | examples/dbg_trace_analyze.py:177-270 | the control trace is the greedy split into runs of at most 2^sequenceBits cycles; the memory and register traces record each cycle as often as TracesAreRecords says; line counts agree; and the two replay-length histories are those of HistoryFrom |
| VariableIndex.NumElementsIsLength | InspectDebugger/Inspect/Variable.cpp:62-83 | the count is the number of flattened elements if every structure is complete, and never smaller |
| VariableIndex.CalculateNumElements | InspectDebugger/Inspect/Variable.cpp:62-83 | computes that count |
| VariableIndex.SearchedOn | InspectDebugger/Inspect/Variable.cpp:239-262 | a search that goes on after an unsuccessful part finds what a search of the whole would find |
| VariableIndex.FindInFlat | InspectDebugger/Inspect/Variable.cpp:238-249 | the loop over primitive elements searches the flattened array |
| VariableIndex.FindIndex | InspectDebugger/Inspect/Variable.cpp:213-267 | true exactly when some first k flattened elements take target - current bytes, with the least such k added to the index; otherwise the whole size and count are added |
| VariableIndex.GetVarIndexByByteIndex | InspectDebugger/Inspect/Variable.cpp:269-274 | that k, or the number of elements |
| VariableIndex.IndexOfOffset | InspectDebugger/Inspect/Variable.cpp:269-274 | with positive sizes, the offset of element k leads to k and to nothing else, and no other offset leads to an element |
| VariableIndex.PathInFlat | InspectDebugger/Inspect/Variable.cpp:213-267 | the element that array and member indices lead to stands in the flattened list at its rank, with its size, behind as many bytes as the array elements and members before it have |
| VariableIndex.RankFollowsOrder | InspectDebugger/Inspect/Variable.cpp:213-267 | elements are numbered in the order of their indices |
| VariableIndex.EveryRankHasPath | InspectDebugger/Inspect/Variable.cpp:213-267 | and without a gap |
| VariableIndex.IndexOfPath | InspectDebugger/Inspect/Variable.cpp:269-274 | with positive sizes, the search from the offset of an element finds its number |

## Left out

- ComputeReducedBasis: it assumes an exact LP solver, a nonempty polytope given by constraints of one length that is bounded in the rows to be reduced, and, because save_alpha reads in front of the rows, n_zero at entry no larger than the number of constraints of the product.
- ComputeReducedBasis: the arrays F and alpha_buffer, the basis and the LP stack are sequences that are reassigned, not buffers written in place; freeing them is not modelled. The constant row and column of the basis are left out, since the loop never reads them.
- The simplex tableau, GMP arithmetic and statistics counters of isl: replaced by the exact solver; error and allocation-failure exits of the reduction are not modelled.
- `isl_basic_set_reduced_basis` and other callers of the reduction: they set up the tableau and the first basis.
- rapidxml flags other than the defaults for parsing and print_no_indenting for printing: comments, declarations, instructions and document types are parsed as markup to be skipped and never printed.
- rapidxml characters wider than a byte, and reading a text whose last character is not zero.
- Names and values as pointers into text that outlives the document: spans of the buffer stand for them. Parsing builds spans rather than linked nodes; the linked lists are modelled by themselves in XmlDom.
- Attribute lists of rapidxml nodes: the same code as the node lists, with the same rules.
- AllocateAligned: addresses are natural numbers without an upper end, so a request whose size wraps around in size_t is not modelled; construction of nodes in the memory is not modelled.
- Alloc, Extend and ExtendBlock: sizes are at most INT_MAX, since the source's loops over a block count with an int; the values of the elements are not modelled, only whether they are initialised.
- SimulateTrace: loading the database and the trace, float averages, printed ratios and the useful register bits; the state of every cycle is given by a function.
- FindIndex: element counts are natural numbers; for a negative count the source counts negatively in calculateNumElements and not at all in findIndex.
- Variable::findType and findTypeByIndex: they report the element just passed and step arrays by the array's own size, so they do not follow the flattened order.
- The rest of the repository (Qt forms, MySQL, TCP, GDB, ModelSim and SignalTap code, Ruby scripts, the processor and its simulators, LLVM passes): input, output, user interface and generated hardware.
