# ZUtils helpers in Dafny

This project models the computational core of ZUtils, a library of static C# helpers for
Unity games, and proves properties of that model. It covers:

- the in-place Gaussian elimination solver and the Markov steady-state builders around it
  (`Runtime/ZMethodsMathAdvanced.cs`);
- the integer and collection helpers (`Runtime/ZMethods.cs`);
- the string helpers (`Runtime/ZMethodsString.cs`);
- line and CSV parsing of text assets (`Runtime/ZMethodsFileIO.cs`);
- shuffling and random picks (`Runtime/ZMethodsRandom.cs`, `Runtime/ZMethodsAudio.cs`);
- the radius filters on integer vectors (`Runtime/ZMethodsMath.cs`);
- the gating state machine of the logger (`Runtime/ZMethodsDebug.cs`).

Each C# class becomes one Dafny module of the same name. Four modules support them:

- `Wrappers` holds `Option` and `Result`. A C# `null` result or a thrown exception becomes
  `None` or `Failure(..)`.
- `UnityTypes` holds `Vector2Int`.
- `Decimal` models `int.ToString()` and its inverse.
- `LinearAlgebra` holds the value-level matrix algebra that the solver is proved against.

The code keeps its own form:

- Loops that mutate stay methods with loops. The solver works in place on an `array2<real>`.
  `AddOrIncrement` mutates a `CountDictionary` object. The logger's static state is a
  `Logger` object. The caller's list of recently played clips is a `RecentList` object.
- Pure LINQ and string expressions become functions.
- Every method is proved against a specification function or a direct contract. The
  in-place solver, for instance, leaves the matrix equal to the value-level reduction
  `ReduceFrom` and returns what `GaussSolve` returns; the properties the source promises
  are then proved about those functions as lemmas. `DropFirstWord`, `LazyInitialization`,
  `GetRandomEntry` and the `Logger` methods state their results directly in their
  contracts.

Randomness, parse callbacks, the clock, hash codes and dictionary iteration order are
parameters:

- `Random.Next(n)` becomes a drawn index in `[0, n)`.
- `Enum.Parse` becomes a partial function per enum type.
- The logging timestamp becomes a string.
- `HashCode.Combine` becomes an integer key.

Float matrix entries are `real`, so arithmetic in the model is exact. The float zero test
`IsSameFloatValue` is kept with its constants: 1e-5 absolute and 1e-6 relative.

## Model

| member | source | states |
|---|---|---|
| ZMethodsMathAdvanced.PivotAmong | Runtime/ZMethodsMathAdvanced.cs:122-126 | the chosen row lies in i..j-1, its entry in column i has the largest absolute value, and every earlier row's is strictly smaller (the first row wins ties) |
| ZMethodsMathAdvanced.FindPivot | Runtime/ZMethodsMathAdvanced.cs:122-126 | the pivot row is at or below i, has the largest absolute value in column i, is strictly larger than every earlier row (first row wins ties), and is the row PivotAmong picks |
| ZMethodsMathAdvanced.ExchangeRows | Runtime/ZMethodsMathAdvanced.cs:132-134 | the matrix afterwards is the old one with rows i and pivotRow exchanged across all columns, nothing else changed |
| ZMethodsMathAdvanced.SubtractRowMultiple | Runtime/ZMethodsMathAdvanced.cs:139-141 | row j loses factor times row i from column i on; every other entry is unchanged |
| ZMethodsMathAdvanced.EliminateColumn | Runtime/ZMethodsMathAdvanced.cs:137-142 | the matrix afterwards is the value-level elimination below pivot i of the old one (in place) |
| LinearAlgebra.EliminateBelowAt | Runtime/ZMethodsMathAdvanced.cs:137-142 | elimination step i subtracts (M[r][i]/M[i][i]) times the pivot row from each row r below i, from column i on; rows 0..i are unchanged |
| LinearAlgebra.StepExtendsZerosBelow | Runtime/ZMethodsMathAdvanced.cs:128-142 | a swap with a nonzero pivot followed by elimination extends the zeros below the diagonal by one column and leaves the finished rows as they were |
| LinearAlgebra.SwapKeepsSolutions | Runtime/ZMethodsMathAdvanced.cs:132-134 | exchanging two rows keeps the set of exact solutions |
| LinearAlgebra.EliminateKeepsSolutions | Runtime/ZMethodsMathAdvanced.cs:137-142 | eliminating below a nonzero pivot keeps the set of exact solutions |
| ZMethodsMathAdvanced.ReduceColumn | Runtime/ZMethodsMathAdvanced.cs:131-142 | the matrix afterwards is the old one with rows i and pivotRow exchanged (when they differ) and then eliminated below pivot i |
| LinearAlgebra.PivotStep | Runtime/ZMethodsMathAdvanced.cs:128-142 | a swap-and-eliminate step with a nonzero pivot keeps the exact solutions, extends the zeros below the diagonal by one column, puts the chosen pivot on the diagonal and leaves rows 0..i-1 alone |
| LinearAlgebra.BackValuesSolve | Runtime/ZMethodsMathAdvanced.cs:146-154 | on an upper-triangular system with nonzero pivots the back-substituted values satisfy every row from i to cols-1 |
| ZMethodsMathAdvanced.BackSubstitute | Runtime/ZMethodsMathAdvanced.cs:146-154 | on an upper-triangular system with nonzero pivots the solution is the back-substituted values, has length cols and satisfies every reduced row 0..cols-1 |
| ZMethodsMathAdvanced.RowRemainder | Runtime/ZMethodsMathAdvanced.cs:149-151 | sum is the right-hand side of row i minus row i dotted with the unknowns after i |
| LinearAlgebra.BackSubstitutionRow | Runtime/ZMethodsMathAdvanced.cs:149-153 | a row with zeros left of its pivot holds once the pivot term plus the later terms equals the right-hand side |
| LinearAlgebra.ReducedSystemSolution | Runtime/ZMethodsMathAdvanced.cs:146-156 | a triangular system with nonzero pivots has at most one solution, and that solution satisfies the full system exactly when every surplus row has right-hand side 0 |
| ZMethodsMathAdvanced.ReduceFrom | Runtime/ZMethodsMathAdvanced.cs:120-143 | the elimination from column i on keeps the shape and the rows above i; when it completes, every pivot from i on is nonzero and passes the tolerance test |
| ZMethodsMathAdvanced.ReduceFromMeaning | Runtime/ZMethodsMathAdvanced.cs:120-143 | the reduction keeps the exact solutions; a completed one is upper triangular, and an abandoned one stopped at a column whose entries from the diagonal down all fail the tolerance test |
| ZMethodsMathAdvanced.GaussSolveMeaning | Runtime/ZMethodsMathAdvanced.cs:111-157 | a result is the only exact solution and solves the system exactly when the surplus right-hand sides reduce to 0; None with cols <= rows means some column became negligible |
| ZMethodsMathAdvanced.GaussSolve | Runtime/ZMethodsMathAdvanced.cs:111-157 | a result exists only when columns do not exceed rows, and it has one value per column |
| ZMethodsMathAdvanced.SolvedSystemIsNonsingular | Runtime/ZMethodsMathAdvanced.cs:111-157 | when the solver succeeds, the only vector the coefficients send to zero in every row is the zero vector (the coefficient columns are independent) |
| ZMethodsMathAdvanced.SingularSystemRejected | Runtime/ZMethodsMathAdvanced.cs:129-130 | the rank-deficient system x+y=2, x+y=4 is reported as unsolvable |
| ZMethodsMathAdvanced.SolvedByUniqueness | Runtime/ZMethodsMathAdvanced.cs:111-157 | when the solver succeeds and x solves the system exactly, the solver returns x |
| ZMethodsMathAdvanced.IdentitySystemSolved | Runtime/ZMethodsMathAdvanced.cs:111-157 | the system x0 = 3, x1 = 5 is solved as [3, 5] |
| ZMethodsMathAdvanced.TinyPivotRejected | Runtime/ZMethodsMathAdvanced.cs:129-130 | 0.000001 x0 = 0.000001 is rejected by the tolerance test although its only solution is 1 |
| ZMethodsMathAdvanced.ReduceFromKeepsDependency | Runtime/ZMethodsMathAdvanced.cs:120-143 | if some nonzero combination of the rows vanishes, some nonzero combination of the reduced rows vanishes too |
| LinearAlgebra.SwapKeepsDependency | Runtime/ZMethodsMathAdvanced.cs:132-134 | a row exchange keeps a vanishing row combination, with the two weights exchanged |
| LinearAlgebra.EliminateKeepsDependency | Runtime/ZMethodsMathAdvanced.cs:137-142 | elimination below a nonzero pivot keeps a vanishing row combination, with the pivot row's weight adjusted |
| LinearAlgebra.ReducedDependencyForcesZero | Runtime/ZMethodsMathAdvanced.cs:146-154 | a triangular (n+1)-row system whose rows are dependent has 0 as its last right-hand side |
| ZMethodsMathAdvanced.TrySolveAugmented | Runtime/ZMethodsMathAdvanced.cs:111-157 | the result is GaussSolve of the old matrix and, when unknowns do not exceed rows, the matrix is left as ReduceFrom of the old one; None with the matrix untouched when unknowns exceed rows; a success has every pivot past the tolerance test, is the only exact solution, and solves it exactly when the surplus equations reduce to 0 = 0 |
| ZMethodsMathAdvanced.TrySolveLinearEquation | Runtime/ZMethodsMathAdvanced.cs:9-27 | None when rows differ from the result length or columns exceed rows; otherwise the result is GaussSolve of the augmented matrix; a success has length cols and is the only solution of the augmented system, and square systems are solved exactly |
| ZMethodsMathAdvanced.Augment | Runtime/ZMethodsMathAdvanced.cs:17-24 | row r of the augmented matrix is row r of the coefficients followed by result[r] |
| ZMethodsMathAdvanced.BuildSteadyStateSystem | Runtime/ZMethodsMathAdvanced.cs:86-99 | a fresh (n+1)x(n+1) matrix: the transition matrix top-left, zero right-hand sides, and an appended all-ones normalisation row |
| ZMethodsMathAdvanced.SteadyStateSystem | Runtime/ZMethodsMathAdvanced.cs:84-99 | an (n+1)x(n+1) system: row r < n is generator row r with right-hand side 0, and the last row is all ones |
| ZMethodsMathAdvanced.SteadyStateMeaning | Runtime/ZMethodsMathAdvanced.cs:86-99 | x solves the built system exactly when its entries sum to 1 and every generator row dotted with x is 0 |
| ZMethodsMathAdvanced.CalculateMarkovSteadyStateProbabilitiesCommon | Runtime/ZMethodsMathAdvanced.cs:83-109 | the result is GaussSolve of the normalised steady-state system; a result has n entries and is its only exact solution, and it solves it when every generator column sums to 0 |
| ZMethodsMathAdvanced.SteadyDependency | Runtime/ZMethodsMathAdvanced.cs:86-99 | when every generator column sums to 0, the balance rows of the steady-state system add up to the zero row, a nonzero combination of its rows that vanishes |
| ZMethodsMathAdvanced.BalancedSystemSolved | Runtime/ZMethodsMathAdvanced.cs:83-109 | when every generator column sums to 0, a result of the solver solves the whole steady-state system, the surplus equation included |
| ZMethodsMathAdvanced.CalculateTimeMarkovSteadyStateProbabilities | Runtime/ZMethodsMathAdvanced.cs:35-63 | None on a shape mismatch or a zero holding time; otherwise the result is GaussSolve of the system built from the generator with off-diagonal p[i,j]/h[j] and diagonal -(1-p[i,i])/h[i]; a result is its only solution, and solves it when the columns of p sum to 1 |
| ZMethodsMathAdvanced.TimeGeneratorColumnSum | Runtime/ZMethodsMathAdvanced.cs:54-60 | a column of the time-weighted generator times its holding time sums to the column of p minus 1 |
| ZMethodsMathAdvanced.TimeGenerator | Runtime/ZMethodsMathAdvanced.cs:54-60 | an n x n matrix, one row and one column per state |
| ZMethodsMathAdvanced.TimeGeneratorEntries | Runtime/ZMethodsMathAdvanced.cs:54-60 | entry (i, j) of the time-weighted generator times holdingTimes[j] is p[i,j], minus 1 on the diagonal |
| ZMethodsMathAdvanced.TimeColumnsBalanced | Runtime/ZMethodsMathAdvanced.cs:54-60 | when the columns of p sum to 1, every column of the time-weighted generator sums to 0 |
| ZMethodsMathAdvanced.CalculateMarkovSteadyStateProbabilities | Runtime/ZMethodsMathAdvanced.cs:66-82 | as written: None for a non-square input; otherwise the result is GaussSolve of the diagonal-only system; a result is its only solution, and when no p[i,i] is 1 a result does not solve that system |
| ZMethodsMathAdvanced.DiagonalSystemHasNoSolution | Runtime/ZMethodsMathAdvanced.cs:76-79 | with only the diagonal filled and no p[i,i] equal to 1, no vector satisfies the steady-state system |
| ZMethodsMathAdvanced.DiagonalGenerator | Runtime/ZMethodsMathAdvanced.cs:76-79 | as written: the diagonal entries are p[i,i] - 1 and every off-diagonal entry is 0 |
| ZMethodsMathAdvanced.FillDiagonalGenerator | Runtime/ZMethodsMathAdvanced.cs:76-79 | as written: a fresh n x n array equal to DiagonalGenerator of p |
| ZMethodsMathAdvanced.FullGeneratorIsUnitTimeGenerator | Runtime/ZMethodsMathAdvanced.cs:54-60 | the corrected simple-form generator is the time-weighted generator with all holding times 1 |
| ZMethodsMathAdvanced.FullGeneratorRow | Runtime/ZMethodsMathAdvanced.cs:54-60 | row i of the corrected generator dotted with x is (P x)[i] - x[i] |
| ZMethodsMathAdvanced.FullGenerator | Runtime/ZMethodsMathAdvanced.cs:76-79 | corrected: entry (i, j) is p[i,j], minus 1 on the diagonal (the generator P - I) |
| ZMethodsMathAdvanced.FillFullGenerator | Runtime/ZMethodsMathAdvanced.cs:76-79 | corrected: a fresh n x n array equal to FullGenerator of p |
| ZMethodsMathAdvanced.FullSystemMeaning | Runtime/ZMethodsMathAdvanced.cs:86-99 | x solves the corrected system exactly when x is a stationary distribution of P (P x = x, sum 1) |
| ZMethodsMathAdvanced.FullGeneratorColumnSum | Runtime/ZMethodsMathAdvanced.cs:54-60 | every column sum of the corrected generator is the transition matrix's column sum minus 1 |
| ZMethodsMathAdvanced.FillTimeGenerator | Runtime/ZMethodsMathAdvanced.cs:54-60 | a fresh n x n matrix whose diagonal is -(1 - p[i,i]) / holdingTimes[i] and whose other entries are p[i,j] / holdingTimes[j] |
| ZMethodsMathAdvanced.CalculateMarkovSteadyStateProbabilitiesCorrected | Runtime/ZMethodsMathAdvanced.cs:66-82 | None for a non-square input; otherwise the result is GaussSolve of the full-generator system; a result equals every stationary distribution of P, and is one when the columns of P sum to 1 |
| ZMethodsMathAdvanced.StochasticResultIsStationary | Runtime/ZMethodsMathAdvanced.cs:66-82 | when the columns of P sum to 1, a result of the corrected system is a stationary distribution of P |
| ZMethodsMathAdvanced.TwoStateExample | Runtime/ZMethodsMathAdvanced.cs:76-79 | for P = [[0.9,0.2],[0.1,0.8]], (2/3, 1/3) is stationary and solves the corrected system but not the diagonal-only one |
| ZMethodsMathAdvanced.TwoStateSolved | Runtime/ZMethodsMathAdvanced.cs:66-82 | for P = [[0.9,0.2],[0.1,0.8]] the solver applied to the corrected system returns (2/3, 1/3) |
| ZMethods.SameAsZeroIffSmall | Runtime/ZMethods.cs:21-45 | a magnitude passes IsSameFloatValue against 0 exactly when it is at most 1e-5 |
| ZMethods.Wrap32 | Runtime/ZMethods.cs:155 | an int32 congruent to v modulo 2^32, equal to v when v fits |
| ZMethods.Saturate | Runtime/ZMethods.cs:157-159 | the byte nearest to v, and v itself when it is a byte |
| ZMethods.SaturateComposes | Runtime/ZMethods.cs:153-160 | two same-signed clamped additions equal one clamped addition of the sum |
| ZMethods.AddToByte | Runtime/ZMethods.cs:153-160 | the byte becomes the clamp of the int32 sum (wrapped), which is the clamp of current+amount whenever the sum fits in 32 bits |
| ZMethods.AddToByteWrapsOnHugeAmount | Runtime/ZMethods.cs:155 | adding int.MaxValue to 1 wraps to a negative sum and clamps to 0 instead of 255 |
| ZMethods.AddToByteWide | Runtime/ZMethods.cs:153-160 | the byte becomes current+amount clamped to [0,255] |
| ZMethods.IndexIsInRangeGrows | Runtime/ZMethods.cs:162-165 | a valid index stays valid in a larger array, and no index is valid for size 0 or less |
| ZMethods.IndexIsInRange | Runtime/ZMethods.cs:162-165 | true iff 0 <= index < arraySize; so true only for a positive size |
| ZMethods.GetNeighborIndices | Runtime/ZMethods.cs:167-180 | the list equals the neighbourhood specification; the range is 1 when not given |
| ZMethods.NeighborhoodContents | Runtime/ZMethods.cs:167-180 | (2r+1)^2 points for r >= 0, none for -2^31 < r < 0 (int.MinValue and int.MaxValue are under Left out); a point is listed exactly when it is within Chebyshev distance r; dy-outer/dx-inner order; the vertex itself is included |
| ZMethods.Incremented | Runtime/ZMethods.cs:129-133 | the key maps to old+value, or value when it was absent; every other key is unchanged |
| ZMethods.IncrementsCombine | Runtime/ZMethods.cs:129-133 | incrementing a key by a then b equals incrementing it by a+b |
| ZMethods.IncrementsCommute | Runtime/ZMethods.cs:129-133 | increments of different keys commute |
| ZMethods.CountDictionary.AddOrIncrement | Runtime/ZMethods.cs:129-133 | the dictionary afterwards is the incremented old dictionary |
| ZMethods.FilterValueToIndexListCommon | Runtime/ZMethods.cs:138-151 | an index is listed exactly when it lies in the array and its entry matches (or, filtering out, differs from) the value; y-outer/x-inner order |
| ZMethods.FilterOutValueToIndexList | Runtime/ZMethods.cs:136 | exactly the in-range indices whose entry differs from the value, in scan order |
| ZMethods.FilterByValueToIndexList | Runtime/ZMethods.cs:137 | exactly the in-range indices whose entry equals the value, in scan order |
| ZMethods.NonDefaultToIndexList | Runtime/ZMethods.cs:114-127 | exactly the in-range indices whose entry is not the default value, in scan order |
| ZMethods.ParsesMembers | Runtime/ZMethods.cs:90-102 | the successful parses are exactly the values some candidate type parses the string to |
| ZMethods.ResolveEnum | Runtime/ZMethods.cs:86-112 | a value comes back exactly when exactly one candidate type parses the string |
| ZMethods.ResolveEnumFound | Runtime/ZMethods.cs:86-112 | a resolved value is the parse of some candidate, and every candidate that parses gives that value |
| ZMethods.ConvertStringToEnum | Runtime/ZMethods.cs:86-112 | the flag loop returns the unique-match resolution (null when none or ambiguous) |
| ZMethods.ConvertKeysStringToEnum | Runtime/ZMethods.cs:56-69 | a converted dictionary holds every original value under its key's resolution and nothing else; null only when some key fails; the Add failure only when two keys resolve alike |
| ZMethods.LazyInitialization | Runtime/ZMethods.cs:13-16 | a set field is returned unchanged; an unset one is set to, and returns, the initialiser's value |
| ZMethodsString.IntToRomanNumeralString | Runtime/ZMethodsString.cs:32-57 | the builder loop yields the Roman numeral specification |
| ZMethodsString.RomanNumeralMeaning | Runtime/ZMethodsString.cs:40-56 | for 1..3999 the numeral is a concatenation of table numerals whose values sum to the number, in non-increasing value order |
| ZMethodsString.AppendAllEntries | Runtime/ZMethodsString.cs:46-56 | the loop over the table builds the numerals of the greedy picks of the number |
| ZMethodsString.RomanNumeralPositional | Runtime/ZMethodsString.cs:40-56 | for 1..3999 the numeral is the canonical positional one: M repeated for the thousands, then each of the hundreds, tens and units digits written as 1-3 ones, one-five (4), five plus 0-3 ones, or one-ten (9), so no letter repeats four times and no subtractive pair is followed by its own letters |
| ZMethodsString.RomanNumeralOutOfRange | Runtime/ZMethodsString.cs:34-38 | outside [1,3999] the result is the decimal string of the number, which parses back to it |
| ZMethodsString.RomanNumeralExample | Runtime/ZMethodsString.cs:32-57 | 1994 becomes "MCMXCIV" |
| ZMethodsString.ReplaceKeepsNonDigits | Runtime/ZMethodsString.cs:59-63 | replacing digit runs by a digit string (the decimal of a non-negative number) keeps every non-digit character in order |
| ZMethodsString.ReplaceIntegersInString | Runtime/ZMethodsString.cs:59-63 | text without digits is returned unchanged; for a non-negative number the non-digit characters are kept, in order |
| ZMethodsString.ReplaceIntegersEveryRun | Runtime/ZMethodsString.cs:59-63 | every maximal run of digits becomes the number: text ending in a non-digit, a run, and text starting with a non-digit give the replaced first part, the number and the replaced rest, whatever runs the parts hold |
| ZMethodsString.ReplaceRunStep | Runtime/ZMethodsString.cs:59-63 | a maximal run of digits at the front becomes the replacement and replacing goes on in the rest |
| ZMethodsString.ReplaceDigitRunsSplit | Runtime/ZMethodsString.cs:59-63 | where no run of digits straddles a cut, the two sides are replaced independently and joined |
| ZMethodsString.ReplaceEveryRun | Runtime/ZMethodsString.cs:59-63 | a maximal run between a non-digit (or the start) and a non-digit (or the end) is replaced, and the text on both sides is replaced independently |
| ZMethodsString.ReplaceIntegersExample | Runtime/ZMethodsString.cs:59-63 | "a1b22" with 7 gives "a7b7": both runs are replaced |
| ZMethodsString.ReplaceLastExample | Runtime/ZMethodsString.cs:65-73 | "a1b22" with 7 gives "a1b7": only the last run is replaced |
| ZMethodsString.ReplaceWithoutDigits | Runtime/ZMethodsString.cs:59-63 | a string without digits is returned unchanged |
| ZMethodsString.ReplaceIdempotent | Runtime/ZMethodsString.cs:59-63 | replacing again with the same non-empty digit string changes nothing |
| ZMethodsString.ReplaceAfterNonDigits | Runtime/ZMethodsString.cs:59-63 | a prefix without digits is kept as it is and replacement continues after it |
| ZMethodsString.ReplaceRunBeforeNonDigits | Runtime/ZMethodsString.cs:59-63 | a maximal digit run followed by text without digits becomes the replacement, the text kept |
| ZMethodsString.ReplaceSingleRun | Runtime/ZMethodsString.cs:59-63 | text without digits, one digit run, text without digits: exactly that run is replaced |
| ZMethodsString.ReplaceLastMeaning | Runtime/ZMethodsString.cs:65-74 | no digits: unchanged; otherwise only the last maximal digit run is replaced, the text before and after it kept |
| ZMethodsString.ReplaceLastIntegerInString | Runtime/ZMethodsString.cs:65-74 | text without digits is returned unchanged; for a non-negative number the non-digit characters are kept, in order |
| ZMethodsString.ReplaceLastOfSingleRun | Runtime/ZMethodsString.cs:65-74 | with a single digit run, replacing the last run equals replacing all runs |
| ZMethodsString.FormattedInspectorString | Runtime/ZMethodsString.cs:76-85 | a string without backslashes is unchanged, and no string grows |
| ZMethodsString.FormattedInspectorStringEscape | Runtime/ZMethodsString.cs:76-85 | for every backslash-free prefix and every rest, a typed escape (backslash followed by n, t, v, u202F or u2009) becomes the one character it names, the prefix is kept and the rest is converted on its own |
| ZMethodsString.FormattedInspectorStringExample | Runtime/ZMethodsString.cs:76-85 | a typed backslash-n becomes a newline |
| ZMethodsString.ResizeString | Runtime/ZMethodsString.cs:88 | "<size=" + decimal size + ">" + text + "</size>", with the size readable back |
| ZMethodsString.DropFirstWord | Runtime/ZMethodsString.cs:90-100 | fails exactly on empty input; otherwise a suffix starting at the first uppercase character at index 1 or later, or just the last character |
| ZMethodsString.CountOccurenceOfSpecificCharacters | Runtime/ZMethodsString.cs:102 | 0 for null or empty input, else the number of positions holding a listed character, at most the length |
| ZMethodsString.CountInAppend | Runtime/ZMethodsString.cs:102 | counts add up over concatenation |
| ZMethodsString.CountInExtremes | Runtime/ZMethodsString.cs:102 | no listed character counts 0; all listed counts the length |
| ZMethodsFileIO.SplitJoin | Runtime/ZMethodsFileIO.cs:125 | joining the comma-split pieces with commas gives the line back |
| ZMethodsFileIO.SplitOn | Runtime/ZMethodsFileIO.cs:125 | at least one piece, and no piece contains the separator |
| ZMethodsFileIO.SplitAtSeparator | Runtime/ZMethodsFileIO.cs:125 | splitting a + separator + b gives the pieces of a followed by the pieces of b |
| ZMethodsFileIO.GetLines | Runtime/ZMethodsFileIO.cs:148-151 | no line is empty and none holds a line break |
| ZMethodsFileIO.GetLinesKeepsText | Runtime/ZMethodsFileIO.cs:148-151 | the lines together are the text without its line breaks, in order |
| ZMethodsFileIO.GetLinesAtBreak | Runtime/ZMethodsFileIO.cs:148-151 | a line break splits the lines: GetLines(a + newline + b) is GetLines(a) followed by GetLines(b) |
| ZMethodsFileIO.GetLinesOfOneLine | Runtime/ZMethodsFileIO.cs:148-151 | a text without line breaks is one line, or no line when empty |
| ZMethodsFileIO.GetLinesExample | Runtime/ZMethodsFileIO.cs:148-151 | "ab", a blank line and "cd" read as the two lines "ab" and "cd": the empty entry is removed |
| ZMethodsFileIO.ParseLinesMeaning | Runtime/ZMethodsFileIO.cs:105-110 | success exactly when every line parses, with the i-th value the i-th line's parse; otherwise the error names the first line that fails |
| ZMethodsFileIO.ParseLines | Runtime/ZMethodsFileIO.cs:105-110 | a success has one value per line |
| ZMethodsFileIO.GetArrayFromTextAsset | Runtime/ZMethodsFileIO.cs:101-112 | null asset: null when allowed, else a null-reference error; otherwise one value per line |
| ZMethodsFileIO.InnerDict | Runtime/ZMethodsFileIO.cs:137-138 | the inner keys are exactly the headers of columns 1.. of the row |
| ZMethodsFileIO.InnerDictValue | Runtime/ZMethodsFileIO.cs:137-138 | a header's value is its column's field, or the default for an empty field, when no later column repeats the header |
| ZMethodsFileIO.GetNestedDictsFromCSVSpreadSheet | Runtime/ZMethodsFileIO.cs:117-146 | the nested loops compute the sheet specification (empty for a text without lines) |
| ZMethodsFileIO.ReadRow | Runtime/ZMethodsFileIO.cs:137-138 | a row with as many fields as headers gives its inner dictionary (header j to field j, or the default for an empty field); a longer row gives None, where headers[j] goes out of range |
| ZMethodsFileIO.SheetFailsOnLongRow | Runtime/ZMethodsFileIO.cs:131-138 | the read fails exactly when a data row has more fields than there are headers |
| ZMethodsFileIO.SheetKeys | Runtime/ZMethodsFileIO.cs:125-142 | the outer keys are exactly the first fields of the data rows with as many fields as headers; the header row is not a data row |
| ZMethodsFileIO.NestedDicts | Runtime/ZMethodsFileIO.cs:117-146 | an empty dictionary for a text without lines; the only error is an index out of range |
| ZMethodsFileIO.NestedDictsFailsOnLongRow | Runtime/ZMethodsFileIO.cs:125-138 | a text with lines fails exactly when some data row has more fields than the header row |
| ZMethodsFileIO.SheetErrorIsIndex | Runtime/ZMethodsFileIO.cs:137-138 | reading the rows can only fail with an index out of range |
| ZMethodsFileIO.SheetLastRowWins | Runtime/ZMethodsFileIO.cs:141-142 | a kept row not followed by another kept row with the same first field is stored whole under that field |
| ZMethodsRandom.Shuffle | Runtime/ZMethodsRandom.cs:46-58 | the in-place swap loop on a copy computes the shuffle specification |
| ZMethodsRandom.ShuffledIsPermutation | Runtime/ZMethodsRandom.cs:46-58 | the shuffle has the collection's length and multiset |
| ZMethodsRandom.ShuffleFromKeepsTail | Runtime/ZMethodsRandom.cs:49-55 | once n has come down to a value, the later swaps never touch positions at or above it |
| ZMethodsRandom.GetShuffledIndices | Runtime/ZMethodsRandom.cs:60-65 | as written: a negative size fails; otherwise the result is 0..size-1 ascending whatever the draws |
| ZMethodsRandom.ShuffledIndicesDiscarded | Runtime/ZMethodsRandom.cs:60-65 | with two indices and the draw 0 the shuffle gives [1,0], while the as-written result is [0,1] |
| ZMethodsRandom.GetShuffledIndicesCorrected | Runtime/ZMethodsRandom.cs:60-65 | the shuffled list is returned: a permutation of 0..size-1 |
| ZMethodsRandom.ShuffledIndicesAreAllIndices | Runtime/ZMethodsRandom.cs:60-65 | every index below size occurs exactly once in the corrected result, no other value occurs |
| ZMethodsRandom.GetRandomEntry | Runtime/ZMethodsRandom.cs:33-44 | null fails with ArgumentNull, empty with InvalidOperation; otherwise the entry at the drawn index, with that index in range |
| ZMethodsRandom.CheckIndexWeights | Runtime/ZMethodsRandom.cs:77-78 | fails exactly on a null or empty weights array, else passes it on |
| ZMethodsAudio.GetRandomClipAvoidingRecent | Runtime/ZMethodsAudio.cs:8-23 | no clips: null; one clip: that clip; both leave the list alone; otherwise the drawn position's index moves to the back and its clip is returned |
| ZMethodsAudio.MoveToBackMeaning | Runtime/ZMethodsAudio.cs:19-20 | the list keeps its length and multiset, the moved element is last, earlier elements stay, later ones shift left by one |
| ZMethodsAudio.MoveLastToBack | Runtime/ZMethodsAudio.cs:19-20 | moving the last element to the back changes nothing |
| ZMethodsAudio.ClipFromFirstHalf | Runtime/ZMethodsAudio.cs:15-20 | with one index per clip, the draw is never the last position, and the picked index ends last in a permutation of the list |
| ZMethodsMath.DropVectorsInsideRadius | Runtime/ZMethodsMath.cs:55-59 | a vector is kept exactly when it is in the input at squared distance at least radius squared |
| ZMethodsMath.DropVectorsOutsideRadius | Runtime/ZMethodsMath.cs:66-70 | a vector is kept exactly when it is in the input at squared distance below radius squared |
| ZMethodsMath.FiltersKeepOrder | Runtime/ZMethodsMath.cs:58 | both results are subsequences of the input |
| ZMethodsMath.FiltersPartition | Runtime/ZMethodsMath.cs:69 | for one centre and radius the two results split the input: lengths add up and multisets add up |
| UnityTypes.Sub | Runtime/ZMethodsMath.cs:58 | v - centerPoint plus centerPoint is v |
| UnityTypes.SqrMagnitude | Runtime/ZMethodsMath.cs:58 | the squared magnitude is non-negative and zero only for the zero vector |
| ZMethodsDebug.Rank | Runtime/ZMethodsDebug.cs:13-22 | Critical has the lowest value, Verbose the highest, all five below 5 |
| ZMethodsDebug.RankInjective | Runtime/ZMethodsDebug.cs:13-22 | distinct levels compare differently |
| ZMethodsDebug.PassesMonotone | Runtime/ZMethodsDebug.cs:52-53 | raising the current level never lets less through; Critical passes whenever its category is not off |
| ZMethodsDebug.Passes | Runtime/ZMethodsDebug.cs:52-53 | passing implies the level is within the current level; a switched-off category never passes; a message at the current level in an enabled category passes |
| ZMethodsDebug.ChannelOf | Runtime/ZMethodsDebug.cs:73-88 | Critical/Error go to LogError, Warning to LogWarning, Info/Verbose to Log |
| ZMethodsDebug.ColorOf | Runtime/ZMethodsDebug.cs:62-69 | only Info is uncoloured |
| ZMethodsDebug.ColorsDistinct | Runtime/ZMethodsDebug.cs:62-69 | coloured levels have distinct colours |
| ZMethodsDebug.ColoredLogInfo | Runtime/ZMethodsDebug.cs:62-69 | the prefix is unchanged for a level without a colour (Info), otherwise it is wrapped in `<color=...>` and `</color>` |
| ZMethodsDebug.LogInfo | Runtime/ZMethodsDebug.cs:58 | the prefix has length of its parts plus 8, starts with "[" and the timestamp, and ends with the level name and "]" |
| ZMethodsDebug.Emitted | Runtime/ZMethodsDebug.cs:50-88 | one entry exactly when the level is within the current level and the category is not switched off (a missing category counts as on), on the level's channel |
| ZMethodsDebug.OnceGate | Runtime/ZMethodsDebug.cs:104-107 | the call proceeds exactly when the key is new, and the key is recorded either way |
| ZMethodsDebug.OnceGateTwice | Runtime/ZMethodsDebug.cs:104-107 | a second LogOnce with the same key does not proceed and changes nothing |
| ZMethodsDebug.Logger.constructor | Runtime/ZMethodsDebug.cs:22-38 | level Info, General switched on, no key logged, nothing emitted |
| ZMethodsDebug.Logger.SetCurrentLogLevel | Runtime/ZMethodsDebug.cs:22 | only the current level changes |
| ZMethodsDebug.Logger.CategorySetEnabled | Runtime/ZMethodsDebug.cs:44 | only that category's switch changes |
| ZMethodsDebug.Logger.LogInternal | Runtime/ZMethodsDebug.cs:50-88 | the console output grows by exactly what the gate lets through; no state changes |
| ZMethodsDebug.Logger.LogOnce | Runtime/ZMethodsDebug.cs:102-108 | a seen key changes nothing; a new key is recorded, even when the gate then drops the message, and the message is logged |
| ZMethodsDebug.Logger.ResetLogOnce | Runtime/ZMethodsDebug.cs:111 | the set of seen keys becomes empty, nothing else changes |
| ZMethodsDebug.EntryNoun | Runtime/ZMethodsDebug.cs:138 | "entry" exactly when the count is 1, else "entries" |
| ZMethodsDebug.PrintIEnumerable | Runtime/ZMethodsDebug.cs:133-141 | a header line with name and count, then one line per element in index order |
| ZMethodsDebug.HeaderLine | Runtime/ZMethodsDebug.cs:138-139 | starts with the name, or with "Enumerable" for a null or empty name, and ends with "entry" or "entries" as the count is 1 or not |
| ZMethodsDebug.HeaderLineReadsBack | Runtime/ZMethodsDebug.cs:138-139 | the line is exactly the display name, " has ", the count's digits, a space and the noun; the digits read back as the count |
| ZMethodsDebug.IndexLine | Runtime/ZMethodsDebug.cs:140 | the line is "'--- Index ", the index's digits, ": " and the element's text unchanged, with nothing else |
| ZMethodsDebug.IndexLineReadsBack | Runtime/ZMethodsDebug.cs:140 | the index printed in an element's line reads back as that index |
| ZMethodsDebug.IndexLinesDistinct | Runtime/ZMethodsDebug.cs:140 | lines of different elements differ |
| Decimal.IntToStringRoundTrip | Runtime/ZMethodsString.cs:37 | printing then parsing an integer gives it back |
| Decimal.IntToString | Runtime/ZMethodsString.cs:37 | never empty; digits only for a non-negative number; a minus sign then digits for a negative one |

## Left out

- Floating point: matrix entries and weights are exact reals. Rounding in elimination,
  division and `radius * radius` is not modelled. The zero-pivot test keeps its
  tolerance constants but is evaluated exactly.
- ZMethodsMathAdvanced.TrySolveAugmented: the C# code allocates `new float[cols]` before
  back-substitution. A matrix with zero columns would throw there. The model requires at
  least one column, the right-hand side.
- The normalisation row of the steady-state system is appended as an extra equation,
  which gives n+1 equations in n unknowns. That row takes part in pivoting and
  elimination like any other, so it may become a pivot row. The solver never checks
  the equation that ends up at position n, as the C# code does not. The model keeps this
  order; `BalancedSystemSolved` shows that the unchecked equation holds when every
  generator column sums to 0.
- GaussSolve: which systems the solver accepts is stated only through the tolerance
  test on the pivots it meets (`ReduceFromMeaning`). No condition on the transition
  matrix alone, such as irreducibility, is proved to make it succeed.
- CalculateMarkovSteadyStateProbabilitiesCommon: with n = 0 the system is the single
  equation 0 = 1 in no unknowns. The solver returns an empty vector without checking it,
  so the normalisation fails there.
- ZMethodsMath.DropVectorsInsideRadius: `(v - centerPoint).sqrMagnitude` is 32-bit
  integer arithmetic that wraps once a coordinate difference exceeds about 46340, and it
  is converted to float before the comparison. The model uses unbounded integers and
  compares exact reals. The C# default `radius = 1f` is not modelled; the radius is
  always passed.
- ZMethodsMath.DropVectorsOutsideRadius: the same int32 wrap-around, float conversion
  and default radius are not modelled.
- The `Vector2` (float) overloads of the two radius filters are not part of this model.
- CalculateSteadyStateProbabilities, ConvertValuesStringToEnum, Print, PrintDictionary,
  DrawLine, DrawRay, DebugShowAnimationAtFrame and GetRemainingAudioClipTime are not part
  of this model: they are float numerics or engine glue.
- ZMethodsDebug.Logger.LogInternal: message formatting is modelled up to the coloured
  prefix. The class name taken from the file path is not modelled, and neither is the
  file output that throws outside the editor.
- ZMethods.NonDefaultToIndexList: C# `default(T)` has no generic counterpart, so the
  default value is passed in.
- ZMethods.CountDictionary.AddOrIncrement: does not model the 32-bit wrap-around of
  `currentCount + value`, because the counts are unbounded integers.
- ZMethods.ConvertKeysStringToEnum: the dictionary's iteration order is a parameter. The
  model does not state which of several duplicate keys is met first.
- ZMethods.GetNeighborIndices: `vertex + (dx, dy)` is not wrapped to 32 bits.
- ZMethods.GetNeighborIndices and NeighborhoodContents: the range is an unbounded integer.
  At int.MinValue the source's `-range` wraps to int.MinValue, so it lists exactly one
  point, where the model lists none. At int.MaxValue the test `dy <= range` never fails,
  so the source never returns; the model lists the (2r+1)^2 points.
- ZMethodsRandom.Shuffle: the collection is a sequence, which cannot be null, so the
  ArgumentNullException that `ToList()` throws for a null collection is not modelled.
- ZMethodsRandom.GetRandomIndexByWeight: only the argument check is modelled. The
  normalisation, cumulative sums and float comparison are left out.
- ZMethodsRandom.Shuffle, GetRandomEntry and GetRandomClipAvoidingRecent: the draws of
  `System.Random` and `Random.Range` are parameters constrained to their documented
  ranges. Nothing is stated about their distribution.
- ZMethodsFileIO: the text asset is modelled by its text. A null asset in
  GetNestedDictsFromCSVSpreadSheet (a null-reference exception) is not modelled.
  `Environment.NewLine` is taken as "\n".
- ZMethodsString.DropFirstWord and the digit helpers: `char.IsUpper` and the regular
  expression `\d` are ASCII-only.
- ZMethods.ConvertStringToEnum: the warning logged on an ambiguous key is not modelled.

## Findings

| source | as written | input that shows it | evidently intended | confidence | as-written member | corrected member |
|---|---|---|---|---|---|---|
| Runtime/ZMethodsMathAdvanced.cs:77-79 | the simple form fills only the diagonal `-(1-p[i,i])`; the off-diagonal transition rates stay 0, so with no p[i,i] equal to 1 the steady-state equations force every probability to 0 and contradict the normalisation row | P = [[0.9,0.2],[0.1,0.8]]: the stationary distribution (2/3, 1/3) does not satisfy the built system, and whatever the solver returns does not solve it | off-diagonal p[i,j] as in the time-weighted form with unit holding times, so that a result is the stationary distribution | not executed | ZMethodsMathAdvanced.CalculateMarkovSteadyStateProbabilities | ZMethodsMathAdvanced.CalculateMarkovSteadyStateProbabilitiesCorrected |
| Runtime/ZMethods.cs:155 | `currentValue + amount` is computed in 32-bit int and wraps before clamping | currentValue 1, amount int.MaxValue: the sum wraps negative and the byte becomes 0 | the byte saturates at 255 | not executed | ZMethods.AddToByteWrapsOnHugeAmount | ZMethods.AddToByteWide |
| Runtime/ZMethodsRandom.cs:63 | `Shuffle(list)` returns a shuffled copy that is discarded, so the ascending indices are returned | size 2 with the draw 0: the shuffle gives [1,0], the method returns [0,1] | return the shuffled list, a permutation of 0..size-1 | not executed | ZMethodsRandom.ShuffledIndicesDiscarded | ZMethodsRandom.GetShuffledIndicesCorrected |
