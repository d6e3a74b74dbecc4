# Relational information content, modelled in Dafny

The program computes, for every cell of a relational table, its
*information content* with respect to a set of functional dependencies
(FDs). Take a probed cell and every way of keeping or blanking the other
cells. In each such table, the probed cell is replaced by a fresh value
and the FDs are checked. The information content is the share of those
tables in which every FD still holds. A 0 in a table means "unknown" and
never takes part in a comparison.

The model covers three parts of the program:

- **`FunctionalDependency`** is an immutable value (datatype `FD`). It has
  the triviality and covering tests, the split into simple FDs, the
  renumbering of attributes for a subtable, and the textual left side.
- **`Computation`** owns the table and the FD list, which it appends to in
  place. Its pieces:
  - the checked insertion of an FD;
  - the transitive closure, a fixpoint loop over the FDs combined by left
    side;
  - the exact information content, the recursive mean over all masks;
  - the fast path that recognises cells of content 1;
  - the reduction to a subtable and the embedding of its results.

  It is a Dafny `class` whose methods append to `funcDeps` or fill fresh
  arrays. The values they compute are specified by functions and
  predicates over `seq`s.
- **The command-line front end's parsers** come from `Main`:
  - the FD argument format `hasFdFormat`;
  - the option scanner `verifyArgs`;
  - the FD string conversion in `createComputationObject`;
  - `stringArrListToIntMatrix` with its fall-back `encodeCells`, which turn
    CSV cells into the integer table.

Modules, one file each:

- `Wrappers`: Option and Result.
- `Strings`: decimal digits, `Integer.parseInt`, `String.length` and
  `String.split`.
- `SortedSets`: sorted element lists, and the rank of a column after
  deletions.
- `FunctionalDependencies`.
- `Tables`: a table, FD violation, and `funcDepIsViolated` / `checkFuncDeps`.
- `Information`: masks, `createTable`, entropy and the exact mean.
- `FastPath`: `isOne` and its soundness.
- `Closure`: combined FDs, `addSimpleFuncDeps`, the fixpoint and the
  soundness of transitivity.
- `Grouping`: `getCombinedFds`' map keyed by left side.
- `Subtables`: the redundant rows and columns, the subtable, and the
  embedding.
- `Computations`: the `Computation` class.
- `CommandLine`: the FD format and `verifyArgs`.
- `CellTables`: `encodeCells` and `stringArrListToIntMatrix`.
- `Sequences`: generic slicing facts the proofs share.

Attributes are 0-based `nat`s. A table is a `seq<seq<int>>` that the program
builds rectangular. Information contents are `real`s.

## Model

| member | source | states |
|---|---|---|
| FunctionalDependencies.LeftSideArray | src/main/java/FunctionalDependency.java:12-14 | the left side as a strictly ascending list holding exactly the left side's elements |
| FunctionalDependencies.SimpleRightSide | src/main/java/FunctionalDependency.java:16 | the unique right attribute when the right side has one element, -1 otherwise |
| FunctionalDependencies.GetSimpleFunctionalDependencies | src/main/java/FunctionalDependency.java:45-53 | one FD per right attribute: as many as there are right attributes, each with the same left side and a single right attribute taken from the right side |
| FunctionalDependencies.SimpleFdsOnePerAttribute | src/main/java/FunctionalDependency.java:45-53 | for every right attribute a, left -> {a} is in the list, and no FD occurs twice |
| FunctionalDependencies.GetAttributeIndices | src/main/java/FunctionalDependency.java:55-60 | an attribute is in the result iff it is on the left or the right side |
| FunctionalDependencies.ConvertToSubtable | src/main/java/FunctionalDependency.java:62-91 | each attribute x, on either side, becomes x minus the number of deleted columns below it, and nothing else is in the result |
| FunctionalDependencies.ConvertToSubtableIdentity | src/main/java/FunctionalDependency.java:62-91 | with no column deleted, the FD is unchanged |
| FunctionalDependencies.ConvertToSubtableKept | src/main/java/FunctionalDependency.java:62-91 | when no attribute of the FD is deleted, both sides keep their sizes, and each attribute lands on its own position among the kept columns (and only kept attributes appear) |
| FunctionalDependencies.LeftSideStringRoundTrip | src/main/java/FunctionalDependency.java:93-104 | splitting leftSideToString at the commas and subtracting 1 from each number gives back exactly the left side |
| FunctionalDependencies.LeftSideStringInjective | src/main/java/FunctionalDependency.java:93-104 | two FDs have the same leftSideToString iff they have the same left side |
| FunctionalDependencies.IndexListRoundTrip | src/main/java/FunctionalDependency.java:97-101 | the 1-based comma-joined text of an index list parses back to the same list |
| FunctionalDependencies.ParseIndexListValues | src/main/java/Computation.java:146 | each parsed index is the parsed number minus 1 |
| FunctionalDependencies.ParseIndexListOf | src/main/java/Computation.java:146 | the texts of the numbers x + 1 parse to the list of the x |
| Tables.LeftValuesAgree | src/main/java/Computation.java:427-441 | two rows have equal getLeftValues iff they agree on every left attribute |
| Tables.LeftValuesZero | src/main/java/Computation.java:263-266 | the left values contain 0 iff some left attribute holds 0 in that row |
| Tables.RelevantByValues | src/main/java/Computation.java:263-273 | a row takes part in the check iff its left values hold no 0 and its right cell is not 0 |
| Tables.FuncDepIsViolated | src/main/java/Computation.java:259-287 | the first-value map scan answers true iff two rows with equal, zero-free left tuples have non-zero, different right values |
| Tables.CheckFuncDeps | src/main/java/Computation.java:249-257 | true iff no FD of the list is violated |
| Tables.TrivialNeverViolated | src/main/java/FunctionalDependency.java:27-29 | a trivial FD (right side within the left side) holds on every table |
| Tables.CoveringIsWeaker | src/main/java/FunctionalDependency.java:31-35 | when a covers b, a violation of a is a violation of b |
| Tables.FreshCellIrrelevant | src/main/java/Computation.java:249-287 | two tables that differ only in one cell, which is non-zero in both and unlike every other cell of its column, satisfy the same FDs |
| Information.Masked | src/main/java/Computation.java:289-306 | createTable's result has the table's shape, and every cell is either 0 or the original value |
| Information.CreateTable | src/main/java/Computation.java:289-306 | the array holds, cell by cell, the original value where the mask bit for that cell is set, skipping the probed cell, and 0 elsewhere |
| Information.RowMax | src/main/java/Computation.java:476-486 | at least -1, no cell of the row above it, and equal to some cell unless -1 |
| Information.MaxEntry | src/main/java/Computation.java:476-486 | at least -1, no cell of the table above it, and equal to some cell unless -1 |
| Computations.GetMaxEntry | src/main/java/Computation.java:476-486 | the nested loop returns MaxEntry of the table |
| Computations.MaxFrom | src/main/java/Computation.java:480-482 | the inner loop over one row turns a running maximum m into the larger of m and the row's maximum |
| Information.ProbeCells | src/main/java/Computation.java:243-247 | in the table entropy checks, the probed cell exceeds every other cell, and every other cell is 0 or the original |
| Information.Wrap32 | src/main/java/Computation.java:245 | int addition's result: in the int range and equal to the sum modulo 2^32; the sum itself when it is an int, the least int for the greatest int plus 1 |
| Information.Int32ProbeSameEntropy | src/main/java/Computation.java:243-247 | on tables of ints of at least 0, the entropy with getMaxEntry + 1 computed in 32-bit arithmetic equals the entropy with the unbounded sum |
| Information.InformationContentRec | src/main/java/Computation.java:229-241 | the recursive mean lies in [0, 1] |
| Information.InformationContent | src/main/java/Computation.java:210-212 | the exact information content lies in [0, 1] |
| Information.InformationContentIsMean | src/main/java/Computation.java:210-212 | the information content is the sum of the entropies over all 2^(size-1) masks, halved size-1 times (their arithmetic mean) |
| Information.RecIsPairwiseMean | src/main/java/Computation.java:229-241 | the recursion on a partial mask is the pairwise mean of the entropies of all its completions |
| Information.RecIsHalvedTotal | src/main/java/Computation.java:229-241 | the recursion on a partial mask is the total of its completions' entropies divided by 2^n |
| Information.PairwiseMeanIsMean | src/main/java/Computation.java:238-240 | averaging two halves recursively equals the sum halved n times |
| Information.HalvedIsDivision | src/main/java/Computation.java:238-240 | halving n times is division by 2^n |
| Information.AllMasksComplete | src/main/java/Computation.java:229-241 | every boolean sequence of length n is one of the masks the recursion visits |
| Information.AllMasksDistinct | src/main/java/Computation.java:229-241 | the recursion visits no mask twice |
| Information.RecAllOnes | src/main/java/Computation.java:229-241 | when every full mask has entropy 1, so does the recursion |
| Information.NoFdsFullInformation | src/main/java/Computation.java:210-212 | with no FD, every cell has information content 1 |
| FastPath.RightSideFlagsUnique | src/main/java/Computation.java:176-180 | the flags marking columns that are some FD's right side are determined by the FD list |
| FastPath.IsOneOfCell | src/main/java/Computation.java:400-425 | isOne at the row-major position of (i, j) is the cell-level test of (i, j) |
| FastPath.ProbedPairAgrees | src/main/java/Computation.java:400-425 | on a table where fd holds, if the probed cell is in fd's right column only when its row's left tuple is unique, then no two rows of the probed table conflict on fd |
| FastPath.IsOneEntropy | src/main/java/Computation.java:400-425 | when every FD holds and isOne(p), every mask gives entropy 1 |
| FastPath.IsOneFullInformation | src/main/java/Computation.java:400-425 | when every FD holds and isOne(p), the information content of p is 1 |
| FastPath.UnflaggedColumnIsOne | src/main/java/Computation.java:404-406 | a cell in a column that no FD mentions is isOne |
| Closure.AppendNew | src/main/java/Computation.java:115-126 | addSimpleFuncDeps only appends, adds at most one FD per candidate, and each FD it appends comes from the candidates and is neither trivial nor covering an FD before it |
| Closure.AppendNewUnchanged | src/main/java/Computation.java:115-126 | nothing is appended iff every candidate is trivial or covers an FD already in the list |
| Closure.AppendNewCovers | src/main/java/Computation.java:115-126 | afterwards every candidate is trivial or covers an FD of the list |
| Closure.SaturatedIffClosed | src/main/java/Computation.java:97-113 | deriveFd finds nothing over the combined FDs iff the list is closed under the transitivity rule, whatever the grouping order |
| Closure.TransitivityHolds | src/main/java/Computation.java:97-108 | on a table without partially blank rows, if every FD holds, l1 -> b for every b in l2 and l2 -> a, then l1 -> a holds |
| Closure.TransitivityNeedsKnownCells | src/main/java/Computation.java:97-108 | on the table a CSV file with a short second row becomes, the two FDs hold and the derived FD is violated |
| Closure.StepStaysInPool | src/main/java/Computation.java:84-95 | one derivation keeps the FDs simple, the set of left sides and of right attributes unchanged, and when it appends, shrinks the pool of (left side, attribute) pairs not yet in the list |
| Closure.StepSound | src/main/java/Computation.java:97-108 | one derivation keeps every FD in range, and keeps them all holding on a table without partially blank rows |
| Grouping.RightsOfAppend | src/main/java/Computation.java:131-141 | appending an FD adds its right attribute to the group of its own left side and to no other |
| Grouping.LeftKeysSeparate | src/main/java/Computation.java:132 | two FDs get the same map key iff they have the same left side |
| Grouping.LeftKeysParse | src/main/java/Computation.java:146 | every map key parses back to its FD's left side |
| Grouping.GroupByLeftSide | src/main/java/Computation.java:129-141 | after the loop, each key's list holds exactly the right attributes of the FDs with that left side |
| Grouping.CombineGroups | src/main/java/Computation.java:143-150 | the result has one FD per distinct left side, with the union of that side's right attributes |
| Subtables.SetIndicesMembers | src/main/java/Computation.java:370-386 | the indices collected are strictly increasing and are exactly the marked ones |
| Subtables.Referenced | src/main/java/Computation.java:447-464 | a column is referenced iff some FD mentions it |
| Subtables.UnreferencedCols | src/main/java/Computation.java:447-464 | the redundant columns are increasing and are exactly the columns no FD mentions |
| Subtables.UnreferencedColsCount | src/main/java/Computation.java:447-464 | their number is cols minus the number of referenced columns |
| Subtables.Subtable | src/main/java/Computation.java:308-341 | the subtable keeps the i-th remaining row and j-th remaining column, in order, at (i, j) |
| Subtables.ConvertAll | src/main/java/Computation.java:308-341 | each FD renumbered with convertToSubtable |
| Subtables.ConvertedFits | src/main/java/Computation.java:308-341 | a renumbered FD names only columns of the subtable |
| Subtables.SubtableHolds | src/main/java/Computation.java:308-341 | when every FD holds on the table, every renumbered FD holds on the subtable |
| Subtables.DeletedRows | src/main/java/Computation.java:370-398 | the redundant rows are increasing and are exactly the rows in which every cell is isOne |
| Subtables.DeletedCellsExact | src/main/java/Computation.java:343-368 | when every FD holds, a cell in a deleted row or column has information content 1, the value the embedding puts there |
| Subtables.KeptCellsExact | src/main/java/Computation.java:343-368 | a kept cell of the embedded result is the information content of its renumbered cell in the subtable under the renumbered FDs |
| Subtables.EmbeddedKeepsSub | src/main/java/Computation.java:343-368 | the embedding puts sub[i'][j'] at the i'-th kept row and j'-th kept column |
| Subtables.EmbeddedDeletedCell | src/main/java/Computation.java:343-368 | the embedding puts 1 in every deleted row and column |
| Subtables.EmbeddedKeptCell | src/main/java/Computation.java:343-368 | a kept cell (i, j) takes the subtable entry at the number of kept rows and columns below it |
| Subtables.SubtableMatrixCell | src/main/java/Computation.java:160-171 | the subtable result at (i, j) is 1 or the subtable's value for the renumbered cell |
| Subtables.DirectCellExact | src/main/java/Computation.java:173-207 | when every FD holds, the direct computation's value of each cell, fast path or not, is its exact information content |
| Subtables.DirectValuesSplit | src/main/java/Computation.java:173-207 | the direct computation stores 1 in the cells marked by the fast path and informationContent everywhere else |
| Subtables.OnesAreMarks | src/main/java/Computation.java:176-189 | the marking pass marks exactly the isOne cells |
| Subtables.NoMarks | src/main/java/Computation.java:173-189 | without identifyOnes no cell is marked |
| Computations.Computation.constructor | src/main/java/Computation.java:20-28 | rows, cols and size of the table, the two options, and an empty FD list |
| Computations.Computation.AddFuncDep | src/main/java/Computation.java:34-36 | appends exactly the FD |
| Computations.Computation.AddFuncDepWithCheck | src/main/java/Computation.java:38-56 | the crash of formatting the error text iff the left side is empty; otherwise rejected as out of bounds iff some attribute is at least cols, as not fulfilled iff in range and violated, and appended at the end in every other case; a rejection leaves the list unchanged; the FDs keep holding, and the list keeps having no empty left side |
| Computations.Computation.CoversOtherFuncDep | src/main/java/Computation.java:74-82 | true iff the FD covers some FD of the list |
| Computations.Computation.AddSimpleFuncDeps | src/main/java/Computation.java:115-126 | the list becomes AppendNew of the candidates, and the answer is whether it grew |
| Computations.Computation.DeriveFd | src/main/java/Computation.java:97-113 | false only when the list is unchanged and saturated; true when it appended the simple FDs of l1 -> rights(l2) for some l2 within l1's closure, and then the old list was not saturated |
| Computations.Computation.AddTransitiveClosure | src/main/java/Computation.java:84-95 | terminates with a closed list that extends the old one, with the same left sides and right attributes; every appended FD is non-redundant; FDs that held keep holding (tables without partially blank rows); on a closed list it changes nothing |
| Computations.Computation.GetCombinedFds | src/main/java/Computation.java:128-151 | one FD per distinct left side, with all the right attributes of that side |
| Computations.Computation.RightSideFlags | src/main/java/Computation.java:176-180 | flag j is set iff column j is the right side of some FD |
| Computations.Computation.IsOne | src/main/java/Computation.java:400-425 | the loop answers the isOne test of the position |
| Computations.Computation.LeftTupleUnique | src/main/java/Computation.java:410-420 | the scan over the rows returns true exactly when no other row has the same left-side values under the FD |
| Computations.Computation.RowIsOne | src/main/java/Computation.java:388-398 | true iff every cell of the row is isOne |
| Computations.Computation.GetRedundantRows | src/main/java/Computation.java:370-386 | exactly the rows whose every cell is isOne, ascending |
| Computations.Computation.GetRedundantCols | src/main/java/Computation.java:447-464 | exactly the columns no FD mentions, ascending |
| Computations.Computation.GetSubtableComputation | src/main/java/Computation.java:308-341 | a fresh computation over the subtable, with the FDs renumbered and the subtable option off |
| Computations.Computation.GetInformationContentMatrix | src/main/java/Computation.java:153-208 | a fresh rows x cols matrix equal to the subtable computation's result when subtables are on, else the direct computation's |
| Computations.ArrayContainsInt | src/main/java/Computation.java:466-474 | true iff the value is in the array |
| Computations.ListOutside | src/main/java/Computation.java:447-464 | the columns below cols that are not referenced, ascending |
| Computations.SubtableOf | src/main/java/Computation.java:308-341 | the array built with the iOld/jOld counters is the subtable |
| Computations.EmbedSubtable | src/main/java/Computation.java:343-368 | the array built with the subtableRow/subtableCol counters is the embedding |
| Computations.ClosureStep | src/main/java/Computation.java:84-95 | a round that appends keeps the closure's shape and strictly shrinks the pool of unused pairs (termination) |
| Computations.SoundStep | src/main/java/Computation.java:97-108 | a round keeps every FD holding when all held at the start |
| CommandLine.ParseFd | src/main/java/Main.java:189-192 | an FD-formatted argument converts to a simple FD with a non-empty left side, or to nothing when a number overflows an int |
| CommandLine.ParseFdOfParts | src/main/java/Main.java:189-192 | "left->right" with comma-separated positive numerals is FD-formatted and converts side by side |
| CommandLine.ParseFdOfText | src/main/java/Main.java:225-227 | the text of a simple FD is FD-formatted, and converting it gives the FD back |
| CommandLine.VerifyArgs | src/main/java/Main.java:74-139 | the loop over args returns VerifiedArgs |
| CommandLine.FirstMalformed | src/main/java/Main.java:126-134 | the first argument from i on that is not FD-formatted, every one before it is |
| CommandLine.FirstFdIsFirst | src/main/java/Main.java:85 | no argument before FirstFd is FD-formatted, and the one at FirstFd is |
| Strings.Utf16Length | src/main/java/Main.java:92 | the length String.length reports: between the number of characters and twice it, and 1 exactly for a single character of the Basic Multilingual Plane |
| CommandLine.OptionTurn | src/main/java/Main.java:86-123 | one switch turn on the option slots array does what OptionStep says: the next index and the filled slot, or the error it reports |
| CommandLine.OptionStepSound | src/main/java/Main.java:86-123 | one switch turn keeps the slots well formed, takes no option or FD as a value, and names the unknown argument it rejects |
| CommandLine.ScanOptionsSound | src/main/java/Main.java:85-124 | the option loop stops exactly at the first FD argument with well-formed slots; an unexpected parameter is an argument that is neither an option nor an FD |
| CommandLine.VerifiedArgsAccepted | src/main/java/Main.java:74-139 | on success: the table argument is neither an option nor an FD, the slots are well formed, and the FD list is every argument from the first FD-formatted one on, each FD-formatted |
| CommandLine.VerifiedArgsRejected | src/main/java/Main.java:78-80 | the table error iff the first argument is an option or an FD; the empty-array error iff there is no argument; an unexpected parameter or a malformed FD names an argument with the right property |
| CommandLine.VerifiedArgsFdsOnly | src/main/java/Main.java:126-138 | a table followed by FDs only is accepted with no option set |
| CellTables.EncodeCells | src/main/java/Main.java:297-314 | the loop returns EncodedCells: cells.size() rows, cells.get(0).length columns, each cell the code of its string |
| CellTables.EncodeRow | src/main/java/Main.java:303-310 | one row: each cell gets its string's code, new strings get the next number, existing codes stay, other rows untouched |
| CellTables.EncodeCell | src/main/java/Main.java:304-309 | one cell: it gets the code its string already has, or the next number, which the dictionary then records; no other cell changes |
| CellTables.DictionaryKeys | src/main/java/Main.java:304-308 | the map has a code for exactly the strings met |
| CellTables.DictionaryCodes | src/main/java/Main.java:300-308 | codes run over 1 to the number of strings, each used once |
| CellTables.DictionaryPrefix | src/main/java/Main.java:304-308 | a code once given never changes |
| CellTables.DictionaryOrder | src/main/java/Main.java:307-308 | a string met for the first time gets a larger code than every string met before it |
| CellTables.EncodedCellsInjective | src/main/java/Main.java:304-308 | two cells get the same code iff their strings are equal |
| CellTables.EncodedCellsRange | src/main/java/Main.java:300-308 | the codes used are exactly 1 to the number of distinct strings |
| CellTables.EncodedCellsFirst | src/main/java/Main.java:300-308 | the first cell gets code 1 |
| CellTables.StringArrListToIntMatrix | src/main/java/Main.java:229-251 | the loop returns IntMatrix |
| CellTables.CopyRow | src/main/java/Main.java:235-245 | one row: parsed, padded with zeros and stored, or the fall-back, or the index exception, other rows untouched |
| CellTables.ParseRowFrom | src/main/java/Main.java:235-245 | a row is read iff it fits the width and every cell is a positive int, and the index exception happens iff a positive prefix reaches a parsable cell past the width |
| CellTables.ParseRowsFrom | src/main/java/Main.java:233-248 | without over-wide rows there is no exception, and the pass succeeds iff every non-blank row is positive |
| CellTables.ParseRowsValues | src/main/java/Main.java:233-248 | the rows read are the non-blank rows, in order, cell by cell as parsed |
| CellTables.IntMatrixNumeric | src/main/java/Main.java:229-251 | all-positive input: the non-blank rows land in the leading rows as parsed, every other cell is 0 |
| CellTables.IntMatrixFallback | src/main/java/Main.java:239-243 | some non-blank row with a non-positive or non-numeric cell: the result is encodeCells' |
| CellTables.ShortRowPadded | src/main/java/Main.java:229-251 | the rows "1,1,1" and "1,2" read as the table [[1, 1, 1], [1, 2, 0]]: a short row is padded with 0 |
| CellTables.IntMatrixNone | src/main/java/Main.java:229-251 | no table only when there is no row, a row is too wide, or encodeCells meets a short row |

## Left out

- Randomised mode (`informationContentRandomised`, Computation.java:214-227) draws masks from `java.util.Random`. Only the exact mode is modelled.
- Progress reporting (the static counters, `enableProcessedCount`, `printProcessedRatio` and the console output) does not affect results and is not modelled.
- Information contents are `real`s, not IEEE doubles. The mean over masks is exact, and the fast path's "== 1" test compares exactly.
- The iteration order of `getCombinedFds`' `HashMap`, and of the sets that `getSimpleFunctionalDependencies` and `deriveFd` walk, is arbitrary. The combined list is specified as a set of groups. `AddTransitiveClosure` promises nothing about which FDs a run appends beyond the stated properties.
- File and console I/O in `Main` is not modelled: `main`, `getTable`, `readCsv`, `writeMatrixToCsv`, `determineFilename`, timing and output formatting. `createComputationObject` is modelled only for its FD string conversion. The calls it makes are the modelled methods.
- `getFdsString` and `FunctionalDependency.toString` are display text. `toString` is modelled (as `ToString`) only as far as the round trip through the FD argument format needs.
- `getLeftSide`, `getRightSide` and `getLeftSideArray` return defensive copies. They are the datatype's fields.
- Exceptions are modelled as results:
  - `addFuncDepWithCheck`'s exceptions become `CheckOutcome`, including the `IndexOutOfBoundsException` that `FunctionalDependency.toString` throws on an empty left side when the error text is formatted first (Computation.java:39, FunctionalDependency.java:113);
  - `verifyArgs`' become `ArgError`;
  - `stringArrListToIntMatrix`'s index exception becomes `None`.

  The empty argument array, on which `verifyArgs` indexes past the end, is modelled as the error `NoArguments`.
- Integers are unbounded. The code counter of `encodeCells` and attribute indices do not wrap at 2^31. `Integer.parseInt` is modelled with its int range, on ASCII input (next line).
- Strings.ParseInt: accepts the ASCII digits only. Java's `Integer.parseInt` also accepts every other Unicode decimal digit, through `Character.digit`. So a CSV cell (Main.java:237) or a `-r` value (Main.java:113) written with such digits is a number in Java, while the model treats the cell as non-numeric and reports `IterationsNotInteger` for `-r`. Which characters count depends on the Unicode version of the JDK, so the digit table is not modelled.
- Information.ProbeCells: the probed cell gets the unbounded `MaxEntry + 1`, so "exceeds every other cell" is a fact about the model. In Java, `getMaxEntry(tableTmp) + 1` (Computation.java:245) wraps to -2147483648 when a cell holds 2147483647. `Int32ProbeSameEntropy` proves that on the tables the program builds (every cell at least 0) the wrapped value gives the same entropy, so the information content is not affected.
- The helpers `EncodeRow`, `EncodeCell`, `CopyRow`, `OptionStep`, `OptionTurn`, `RightSideFlags`, `ComputeDirectly`, `MarkOnes`, `LeftTupleUnique`, `FillUnmarked`, `FillCell`, `ComputeWithSubtables`, `SubtableOf`, `ListOutside`, `WriteNext`, `MaxFrom`, `EmbedSubtable`, `EmbedRow` and `TryPair` are inline code in the source, split out as their own members.
- The `Computation` constructor requires a rectangular table, which is what the program builds; ragged arrays are not modelled.
- Computations.Computation.AddFuncDepWithCheck: requires a simple FD. The source only ever passes simple ones, and a non-simple one would be checked with right side -1.
- Computations.Computation.AddTransitiveClosure: preserves "every FD holds" only on tables in which a row with a non-zero cell has no 0 cell. The source itself does not keep that promise, and the model does not claim it does. `Closure.TransitivityNeedsKnownCells` gives a table on which two FDs hold and the derived one does not, because 0 never takes part in a comparison. `CellTables.ShortRowPadded` shows the program builds that table from a CSV file with the rows `1,1,1` and `1,2`. With the arguments `--closure 1->3 3->2`, both FDs pass `addFuncDepWithCheck`, and the closure then appends the violated `1->2`.
- Subtables.KeptCellsExact: states that a kept cell carries the subtable's information content. It does not state that this equals the same cell's information content in the whole table. That equality is not proved because of its cost. It needs three things:
  - a many-to-one map from the whole table's 2^(size-1) masks onto the subtable's masks, showing that the mean over the first equals the mean over the second;
  - a renumbering of every probe table's rows, columns and FDs;
  - an argument that a deleted row, whose left tuples are unique, never conflicts, and that no FD reads a deleted column.

  `Tables.FreshCellIrrelevant` is the piece of that argument which concerns the probe value.
- Computations.Computation.AddTransitiveClosure: requires every FD to have a non-empty left side whose attributes are below the greatest int (`KeyableLefts`), so that `leftSideToString` can print it. The non-empty half holds in the source: `AddFuncDepWithCheck` ensures the list never gains an FD with an empty left side, since formatting its error text crashes on one. The bound half follows from `CommandLine.ParseFd`, whose numbers are ints, but it is not carried as an invariant of the class.
- Computations.Computation.GetCombinedFds: has the same `KeyableLefts` precondition, for the same reason; it calls `leftSideToString` on every FD (Computation.java:132).
- Computations.MaxFrom: requires a running maximum of at least -1, which is where getMaxEntry starts it.
- Computations.Computation.GetRedundantRows: the source's `List<Integer>` copied into an `int[]` is a `seq<nat>`.
