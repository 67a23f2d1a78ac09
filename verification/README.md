# A verified model of the benchFFT library code

benchFFT measures FFT programs against a reference, converts between their array layouts, and is
configured with a copy of the Kconfig menus. This project models the parts of the repository that
compute something intricate, in Dafny, and proves what they promise. `dafny verify dfyconfig.toml`
checks all of it.

| part of the repository | modules |
|---|---|
| reference transform, libbench/mp.c | `ReferenceTransform`, `Bluestein`, `DiscreteFourier`, `RadixTwo`, `BitReversal`, `Roots`, `ComplexNumbers`, `Arithmetic`; digits in `Multiprecision` |
| dependency expressions, tools/menuconfig/expr.c and menu.c | `KconfigExpr`, `KconfigTransform`, `KconfigDups`, `KconfigMenu`, `KconfigOperands` |
| symbols, tools/menuconfig/symbol.c | `SymbolCheck` (cycles), `SymbolValue` (values), `SymbolMeaning` |
| configuration files, tools/menuconfig/confdata.c and symbol.c | `ConfigFile`, `ConfigMeaning`, `Strings` |
| argument scanner, libbench/getopt.c | `Getopt`, `GetoptMeaning` |
| six-step transform, benchees/ransom | `FastFfts`, `Matrices` |
| Hermitian layouts, libbench/copy-*-unpacked.c | `Hermitian` |
| Hartley transforms, benchees/bloodworth/b-fht.c | `Hartley`, `HartleySum`, `Quadrants`, `QuarterTurns`, `Scaling` |
| recursive and iterative transforms, benchees/bloodworth/quad2fft.c | `Quad2Fft`, `Quad2Fourier`, `Quadrants`, `QuarterTurns`, `Frames` |
| real transform, benchees/fftreal | `FftReal`, `FftRealFourier`, `RealSamples`, `Frames`, `Scaling` |

Code that works in place is modelled by methods on arrays and classes, each proved against
specification functions or predicates; what the source promises is then proved about those. Where such
a function follows the code step by step, a module of its own says what comes out in the user's terms:
`SymbolMeaning`, `GetoptMeaning`, `ConfigMeaning`, `KconfigOperands`.
Transforms use exact real and complex arithmetic. Roots of unity, sine and cosine tables enter as
parameters with the laws that are needed of them: `Roots.RootFamily` (a primitive root for every
length, each a power of those of multiple lengths), `Hartley.ExactTrig` (the half-angle law),
`FftReal.ExactCosines` (squares that add up to one). `Quad2Fft` needs no law at all. For the Fourier
and Hartley sums the tables hold the sines and cosines of the roots: `QuarterTurns.ExactSines`,
`FftRealFourier.ExactTable`.

Where the code does not do what its comments or callers expect, the model follows the code:

- `expr_eliminate_dups2` decides operands by x and not x, which holds over two values only. The value
  of the whole expression is kept whenever it is not m (`KconfigDups.ReducedValue`), and a value of m
  can be lost (`KconfigDups.ReducedWithM`); for one decided operand it always is
  (`KconfigDups.DecidedExact`).
- `expr_trans_compare` takes !FOO != n for FOO = n, which is wrong when FOO is m, so that the sub-menu
  test can put a visible entry into an invisible menu: `KconfigMenu.CompareUnderNot`,
  `KconfigMenu.SubMenuWithM`. A connective it does not compare with m at all: what it returns is right
  exactly when the connective is n (`KconfigMenu.TransCompareMod`); no caller asks for that.
- `expr_trans_bool` needs its operand transformed first: `KconfigTransform.TransBoolUnderNot`.
- `fromshort(0)` builds a zero with exponent 1. A smaller number that is added to it loses digits, or
  comes out with a wrong sign and magnitude when the signs differ, because the borrow has nothing to
  borrow from: `Multiprecision.FromShortZero`, `Multiprecision.FromShortMinusHalf`. No caller adds a
  nonzero number to it: libbench/mp.c:416 is its only use with 0, and what comes of that is
  multiplied, or is entry 0 of the Bluestein kernel, to which the first stage of fft0 adds a zero and
  subtracts one.
- `sym_check_deps` clears its result at the head of a cycle, so the caller never counts an error
  although a cycle is reported whenever there is one: `SymbolCheck.Checker.CheckAll`.
- `sym_set_tristate_value` keeps the memo when the value does not change, which can be stale:
  `SymbolValue.SetSame`, `SymbolValue.StaleAfterSet`.
- A string value with a newline is written but not read back: `ConfigFile.FileReadBackExactly`.

## Model

| member | source | states |
|---|---|---|
| `ReferenceTransform.Transformer.Fft1` | libbench/mp.c:560-569 | For every length n >= 1 and both signs the array ends as the transform of what it held: radix 2 for powers of two, Bluestein with the real and imaginary parts swapped around it otherwise |
| `ReferenceTransform.Transformer.Fft0` | libbench/mp.c:444-466 | For every n = 2^K the in-place loops leave the transform of the given sign; bit reversal, K stages, one butterfly per pair |
| `ReferenceTransform.Transformer.BluesteinFft` | libbench/mp.c:493-547 | For every n that is not a power of two the array ends as its forward transform |
| `ReferenceTransform.Transformer.Stage` | libbench/mp.c:450-464 | One stage takes every cell from the transform of 2^t interleaved samples to that of 2^(t+1) |
| `ReferenceTransform.Transformer.CexpBuiltin` | libbench/mp.c:402-427 | The product of table entries along the bits of m is exp(2 pi i m/n) for every abs(m) < n, and for abs(m) = n unless n is a power of two; the loop then reads no entry past those filled for n. Left out is abs(m) = n for n a power of two, where the source reads one entry past them and which no caller asks for |
| `ReferenceTransform.Transformer.FillTable` | libbench/mp.c:404-413 | The table for n holds the 2^q-th powers of the root for exactly the 2^q < n, and is rebuilt when n changes |
| `ReferenceTransform.Transformer.BluesteinSequence` | libbench/mp.c:469-479 | The running square is congruent to k^2 mod 2n and stays in 0..2n, so entry k is exp(2 pi i k^2/2n) |
| `ReferenceTransform.Transformer.FillBluesteinTables` | libbench/mp.c:504-526 | The cached chirp and the cached transform of its symmetric kernel, also when they are kept from an earlier call |
| `ReferenceTransform.Transformer.Modulate` | libbench/mp.c:528-531 | The padded array holds the input times the conjugate chirp, then zeros |
| `ReferenceTransform.Transformer.MultiplyByKernel` | libbench/mp.c:536-537 | Cellwise product with the cached kernel transform |
| `ReferenceTransform.Transformer.Demodulate` | libbench/mp.c:540-544 | The conjugate chirp and the factor 1/nb turn the convolution into the transform |
| `ReferenceTransform.BitReverse` | libbench/mp.c:429-442 | Slot i of the result is slot Reverse(i) of the input; each pair is exchanged once |
| `Arithmetic.NextReversed` | libbench/mp.c:439-440 | The carry loop takes the reversal of i to the reversal of i + 1 |
| `Arithmetic.ReverseInvolution` | libbench/mp.c:429-442 | Reversing the bits twice gives the index back |
| `Arithmetic.PowerOfTwoTest` | libbench/pow2.c:3-6 | n & (n - 1) == 0 holds of exactly the powers of two among the positive n |
| `ReferenceTransform.Pow2AtLeast` | libbench/mp.c:481-487 | The least power of two that is at least x |
| `ReferenceTransform.SwapRi` | libbench/mp.c:549-558 | Every cell has its real and imaginary part exchanged |
| `RadixTwo.StageStep` | libbench/mp.c:450-464 | The butterfly on cells p and p + 2^t is the decimation-in-time step of the transform |
| `ReferenceTransform.BluesteinArrays` | libbench/mp.c:493-547 | From modulated input, kernel transform, product and inverse transform to the values that are demodulated |
| `ReferenceTransform.SwappedTransform` | libbench/mp.c:560-569 | Swapping parts, the forward transform, swapping again is the backward transform |
| `ReferenceTransform.DftSwap` | libbench/mp.c:549-569 | Swapping real and imaginary parts inside and outside turns the sign of the transform |
| `ReferenceTransform.TransformInverse` | libbench/mp.c:444-466 | A transform followed by the one of the opposite sign multiplies every sample by n |
| `Bluestein.BluesteinIdentity` | libbench/mp.c:493-547 | With nb >= 2n the circular convolution of length nb of modulated input and kernel is the chirped transform at every k < n |
| `Bluestein.BluesteinResult` | libbench/mp.c:540-544 | Demodulating that convolution gives the transform of the conjugate root |
| `Bluestein.ChirpPeriodic` | libbench/mp.c:469-479 | The chirp depends on k^2 mod 2n only |
| `DiscreteFourier.Butterfly` | libbench/mp.c:454-460 | Both halves of a transform of length 2s from the transforms of even and odd samples |
| `DiscreteFourier.Inversion` | libbench/mp.c:444-466 | The transform by the conjugate root undoes the transform up to the factor n, for every primitive root |
| `DiscreteFourier.Orthogonality` | libbench/mp.c:444-466 | The powers of a primitive root sum to n or to zero |
| `DiscreteFourier.ConvolutionTheorem` | libbench/mp.c:533-538 | The transform of a circular convolution is the product of the transforms |
| `Multiprecision.AbsCmp` | libbench/mp.c:108-120 | The result is the order of exponents and then mantissas; for normal operands it is 1, 0 or -1 exactly as the magnitude of the first is larger, equal or smaller |
| `Multiprecision.Pack` | libbench/mp.c:79-104 | The result is normalised and is the digit string cut to its first LEN significant digits; zero comes out canonical |
| `Multiprecision.AddMag0` | libbench/mp.c:128-146 | The packed sum of the larger mantissa and the aligned smaller one, carry included |
| `Multiprecision.SubMag0` | libbench/mp.c:154-172 | The packed difference computed in wrap-around arithmetic, for any operands in the order of their exponents; a borrow out of the last digit is lost, which adds RADIX^LEN |
| `Multiprecision.BorrowDigit` | libbench/mp.c:15-16 | HI_SIGNED and LO on the wrapped accumulator are floor division and remainder by the radix, for borrows of 0 and -1 |
| `Multiprecision.MulRow` | libbench/mp.c:199-210 | One row adds x times b, moved up i digits, with every partial sum below 2^32 |
| `Multiprecision.RowDigit` | libbench/mp.c:202-206 | An accumulator of a row stays below the square of the radix |
| `Multiprecision.Mul` | libbench/mp.c:190-213 | The product is the exact one cut to LEN digits |
| `Multiprecision.Add` | libbench/mp.c:180-183 | For any operands the packed sum or difference of the magnitudes as abscmp orders them; for normal ones normalised and accurate: below one unit of the result for like signs, below one unit of the larger operand otherwise, exact for equal exponents |
| `Multiprecision.Sub` | libbench/mp.c:185-188 | The same for the sum with the second operand negated |
| `Multiprecision.AddMag` | libbench/mp.c:148-152 | Whatever the order of the operands, the larger one is aligned against |
| `Multiprecision.SubMag` | libbench/mp.c:174-178 | The same for subtraction, with the sign of the larger operand or its opposite |
| `Multiprecision.PackedValue` | libbench/mp.c:79-104 | A packed number is at most the exact value and less than one unit in the last place below it |
| `Multiprecision.SumAccuracy` | libbench/mp.c:128-146 | The error of a sum of magnitudes is below one unit in the last place of the sum |
| `Multiprecision.DifferenceAccuracy` | libbench/mp.c:154-172 | The error of a difference is below RADIX^(EXA - LEN), and zero for equal exponents |
| `Multiprecision.ProductAccuracy` | libbench/mp.c:190-213 | The error of a product lies in [0, 1) units in the last place |
| `Multiprecision.ZeroAdded` | libbench/mp.c:128-183 | Adding a zero of any sign and exponent to a normal nonzero number, on either side, is exact if and only if the exponent of the zero is not the larger one, or the signs agree and only zero digits fall away |
| `Multiprecision.FromShortZero` | libbench/mp.c:69-77 | For the zero of fromshort, whose exponent is 1: 0 + b and b + 0 are exact if and only if b has an exponent of at least 1, or is positive and loses no nonzero digit; 0 - b and b - 0 likewise for negative b |
| `Multiprecision.FromShortMinusHalf` | libbench/mp.c:154-172 | fromshort(0) plus -1/2, of which no digit falls away, comes out as 65535.5 |
| `Multiprecision.FromShortValue` | libbench/mp.c:69-77 | fromshort(x) represents x, with a normal number unless x is 0 |
| `KconfigExpr.ExprEqSound` | tools/menuconfig/expr.c:189-229 | If expr_eq answers yes, both expressions have the same value under every three-valued valuation |
| `KconfigExpr.ChosenWellFormed` | tools/menuconfig/symbol.c:14-25 | The valuations over which the expressions are compared leave every boolean symbol free among n and y and every tristate one among all three values |
| `KconfigExpr.EliminateEqUnderFactors` | tools/menuconfig/expr.c:130-162 | Both sides lose one and the same operand: e1 is c op f1 and e2 is c op f2 for a single c |
| `KconfigExpr.EliminateEqImplies` | tools/menuconfig/expr.c:164-184 | If the elimination leaves the constant y on one side, the order of the values follows |
| `KconfigExpr.EliminateEqUnder` | tools/menuconfig/expr.c:130-162 | No side grows, and each keeps its connective; the measure on which the mutual recursion with expr_eq ends |
| `KconfigExpr.EliminateEq` | tools/menuconfig/expr.c:164-184 | No side grows |
| `KconfigExpr.EliminateYn` | tools/menuconfig/expr.c:231-312 | No connective keeps an operand y or n, and every rewrite loses a node |
| `KconfigExpr.EliminateYnValue` | tools/menuconfig/expr.c:231-312 | The value is kept under every valuation |
| `KconfigExpr.JoinTermsValue` | tools/menuconfig/expr.c:346-502 | Every rewrite of expr_join_or and expr_join_and is an equality of three-valued expressions |
| `KconfigExpr.JoinTermsSize` | tools/menuconfig/expr.c:346-502 | ... and saves a node |
| `KconfigTransform.Transform` | tools/menuconfig/expr.c:636-771 | The result has NOT only before symbols other than y, m and n; the weight that De Morgan steps reduce ends the recursion |
| `KconfigTransform.TransformValue` | tools/menuconfig/expr.c:636-771 | expr_transform keeps the value under every three-valued valuation |
| `KconfigTransform.TransBoolVisible` | tools/menuconfig/expr.c:317-341 | On a transformed expression expr_trans_bool keeps whether the value is n |
| `KconfigTransform.TransBoolUnderNot` | tools/menuconfig/expr.c:317-341 | A transformed form is needed: under NOT the visibility changes when FOO is m |
| `KconfigTransform.TransformAlone` | tools/menuconfig/expr.c:652-692 | No boolean is left compared with y, m or n |
| `KconfigTransform.TransformFixed` | tools/menuconfig/expr.c:636-771 | An expression without such comparisons and with NOT only before symbols is left as it is |
| `KconfigTransform.TransformTwice` | tools/menuconfig/expr.c:636-771 | Transforming twice is transforming once |
| `KconfigTransform.ExtractEqUnderFactors` | tools/menuconfig/expr.c:848-875 | What is extracted is shared: both sides lose it and the accumulator gains it |
| `KconfigTransform.ExtractedImplies` | tools/menuconfig/expr.c:826-846 | If everything of one side is extracted, that side is implied |
| `KconfigDups.EliminateDups` | tools/menuconfig/expr.c:612-634 | The loop ends, because every round that counts a rewrite loses a node after expr_eliminate_yn, and returns the reduced expression |
| `KconfigDups.ReducedValue` | tools/menuconfig/expr.c:612-634 | expr_eliminate_dups keeps every value but m, for every expression and whatever symbols are m |
| `KconfigDups.ReducedTwoValued` | tools/menuconfig/expr.c:612-634 | In particular the value is kept where no symbol that stands alone is m |
| `KconfigDups.ReducedWithM` | tools/menuconfig/expr.c:574-604 | The whole loop makes n of (A or B) and (not A and not B), and y of (A and B) or (not A or not B); that is the value if and only if the larger, respectively the smaller, of A and B is not m |
| `KconfigDups.ReducedNotEquivalent` | tools/menuconfig/expr.c:612-634 | So for two tristate symbols the reduced expression is not equivalent over three values: some well-formed valuation tells them apart |
| `KconfigDups.ReducedLosesM` | tools/menuconfig/expr.c:612-634 | The converse for the outermost spine: once the first round has left a deciding operand on it, the loop returns that decision, so every value of m is lost and no other value is |
| `KconfigDups.PassValue` | tools/menuconfig/expr.c:619-631 | A round keeps every value but m, its first half every value |
| `KconfigDups.FirstReducedValue` | tools/menuconfig/expr.c:504-554 | Without expr_eliminate_dups2 the loop keeps the value under every three-valued valuation |
| `KconfigDups.Dups1` | tools/menuconfig/expr.c:504-554 | The spine is kept, nothing grows, and a counted rewrite leaves a constant for elimination |
| `KconfigDups.Dups1Value` | tools/menuconfig/expr.c:504-554 | expr_eliminate_dups1 keeps the value, m included, although it rewrites two places of one tree |
| `KconfigDups.Dups2` | tools/menuconfig/expr.c:556-610 | The same shape facts for the second half |
| `KconfigDups.Dups2Value` | tools/menuconfig/expr.c:556-610 | expr_eliminate_dups2 keeps every value of the whole expression but m: an operand that is m is then decided by the rest of its spine |
| `KconfigDups.DecidedExact` | tools/menuconfig/expr.c:574-604 | A decided operand forces the deciding value unless it has the value m itself |
| `KconfigDups.DecidedWithM` | tools/menuconfig/expr.c:574-604 | The first operand of (A or B) and (not A and not B) counts as decided; n is the value if and only if max(A, B) is not m; likewise with the connectives exchanged, y and min(A, B) |
| `KconfigDups.Pass` | tools/menuconfig/expr.c:619-631 | A round that counts a rewrite ends strictly smaller |
| `KconfigDups.ReducedNormal` | tools/menuconfig/expr.c:612-634 | Negations stay where expr_transform has put them |
| `KconfigDups.PipelineVisible` | tools/menuconfig/menu.c:306-310 | The pipeline for the prompt of a boolean symbol keeps whether it is visible, unless the conjunction of the two dependencies is m |
| `KconfigOperands.UnderAll` | tools/menuconfig/expr.c:130-162 | The recursion over two trees is a loop over the two lists of operands: each on the left against each on the right, and equal ones become neutral |
| `KconfigOperands.ExprEqReflexive` | tools/menuconfig/expr.c:189-229 | expr_eq says yes of every expression and itself |
| `KconfigOperands.SharedOperand` | tools/menuconfig/expr.c:164-184 | Of a condition and a list of conditions that contains it, nothing is left of the condition |
| `KconfigOperands.RedundantJoined` | tools/menuconfig/expr.c:346-502 | Operands that are the same, a boolean and its negation, or a pair of terms about one symbol that a single term replaces, are joined in either order |
| `KconfigOperands.NothingJoined` | tools/menuconfig/expr.c:504-554 | A round of expr_eliminate_dups1 that counts nothing has compared every two operands of the spine, and found none to join |
| `KconfigOperands.ReducedIsTidy` | tools/menuconfig/expr.c:612-634 | So the loop leaves no two such operands on any spine |
| `KconfigOperands.RepeatedOnce` | tools/menuconfig/expr.c:351-352 | FOO && FOO and FOO \|\| FOO become FOO |
| `KconfigMenu.SubMenuVisible` | tools/menuconfig/menu.c:322-341 | The sub-menu test as a whole: whenever an entry that passes it is visible, its parent symbol is not n or the parent's prompt is visible, provided no operand of NOT in the entry's condition is m |
| `KconfigMenu.SubMenuWithM` | tools/menuconfig/menu.c:322-341 | That proviso is needed: an entry under !A && !S passes the test for the menu of S with a prompt under A=n, and with A at m it is visible while S is n and the prompt invisible |
| `KconfigMenu.VisibilityValue` | tools/menuconfig/menu.c:323-333 | Comparison with n, transformation and elimination together give y or n, and never lose that value |
| `KconfigMenu.TransCompareValue` | tools/menuconfig/expr.c:877-936 | expr_trans_compare with n is y or n and takes NOT for the opposite comparison, for symbols whose string says whether they are n |
| `KconfigMenu.HoldsDecided` | tools/menuconfig/expr.c:877-936 | That is whether the value is n, for every expression in which no operand of NOT is m |
| `KconfigMenu.HoldsNormal` | tools/menuconfig/expr.c:877-936 | On transformed expressions it errs to one side only: what holds is not n |
| `KconfigMenu.CompareUnderNot` | tools/menuconfig/expr.c:908-909 | For !FOO it is right if and only if FOO is not m |
| `KconfigMenu.DependsVisible` | tools/menuconfig/expr.c:797-824 | If expr_depends_symbol accepts, a visible entry has the symbol at m or y |
| `KconfigMenu.TransCompareYes` | tools/menuconfig/expr.c:877-936 | expr_trans_compare with y is y or n and takes NOT for the opposite comparison |
| `KconfigMenu.TransCompareModAtoms` | tools/menuconfig/expr.c:877-936 | With m, a symbol is compared and a comparison is never m |
| `KconfigMenu.ContainsReplaced` | tools/menuconfig/expr.c:773-795 | expr_contains_symbol says yes exactly when putting another symbol in the place of s changes the expression |
| `KconfigMenu.UnrelatedEntry` | tools/menuconfig/menu.c:326-329 | An entry that does not mention s ends the sub-menu of s |
| `KconfigMenu.DependsExactly` | tools/menuconfig/expr.c:797-824 | expr_depends_symbol says yes exactly when one of the conditions joined by && is s, s=y, s=m or s!=n |
| `KconfigMenu.DependentEntry` | tools/menuconfig/menu.c:328-341 | An entry with such a condition goes into the menu of s, whatever its prompt is under |
| `KconfigOperands.SharedCondition` | tools/menuconfig/menu.c:330-341 | An entry that mentions s and asks among other things for what the prompt of s asks for goes into the menu of s |
| `KconfigOperands.VisibilityTidy` | tools/menuconfig/menu.c:323-333 | A compared condition comes out with NOT only before symbols and without redundant operands |
| `SymbolCheck.Checker.CheckAll` | tools/menuconfig/symbol.c:1192-1224 | Nothing is reported if and only if there is a rank that falls from every symbol to those of its select conditions, of the conditions of its properties but choices and selects, and of its default values; and if and only if the searched graph has no cycle. What is reported is a cycle; yet the error count stays 0 |
| `SymbolCheck.Checker.CheckDeps` | tools/menuconfig/symbol.c:1192-1224 | The CHECK flags are exactly the stack before and after; a report is a cycle; a symbol with no report is finished; the result names a symbol still on the stack |
| `SymbolCheck.Checker.CheckSymDeps` | tools/menuconfig/symbol.c:1121-1153 | All dependencies of the symbol are searched while it is on the stack |
| `SymbolCheck.Checker.CheckProperty` | tools/menuconfig/symbol.c:1134-1146 | The condition, and for a default also the value, of one property |
| `SymbolCheck.Checker.CheckPropDeps` | tools/menuconfig/symbol.c:1133-1147 | All properties but choices and selects are searched, until something is found |
| `SymbolCheck.Checker.CheckExprDeps` | tools/menuconfig/symbol.c:1090-1118 | All symbols of an expression are searched, until something is found |
| `SymbolCheck.Checker.PrintRecursive` | tools/menuconfig/symbol.c:1018-1088 | Exactly one report is added, the part of the stack from the repeated symbol on, and it is a cycle |
| `SymbolCheck.CheckRecursive` | tools/menuconfig/symbol.c:1192-1224 | A symbol whose prompt depends on itself: a cycle is reported and the error count is 0 |
| `SymbolCheck.CheckSelecting` | tools/menuconfig/symbol.c:1134-1135 | A symbol with nothing but a select of another one: nothing is reported |
| `SymbolCheck.FallsExactly` | tools/menuconfig/symbol.c:1121-1153 | The searched dependencies of a symbol are those three kinds and no others |
| `SymbolCheck.PropertiesExactly` | tools/menuconfig/symbol.c:1133-1147 | Of all the properties, the symbols of conditions and default values are searched, but nothing of a choice or a select |
| `SymbolCheck.ContainsExactly` | tools/menuconfig/expr.c:773-795 | expr_contains_symbol says yes of exactly the symbols that the search visits |
| `SymbolCheck.OrderFalls` | tools/menuconfig/symbol.c:1192-1224 | The order in which the symbols of a search without report are finished is such a rank |
| `SymbolCheck.RankHasNoCycle` | tools/menuconfig/symbol.c:1192-1224 | A falling rank excludes every cycle |
| `SymbolCheck.OrderedHasNoCycle` | tools/menuconfig/symbol.c:1192-1224 | A topological order of the finished symbols excludes every cycle through them |
| `SymbolCheck.FinishedHasNoCycle` | tools/menuconfig/symbol.c:1192-1224 | When all symbols are finished without a report, there is no cycle |
| `SymbolValue.SymbolTable.CalcInOrder` | tools/menuconfig/symbol.c:292-428 | On an acyclic configuration the memoised calculation gives every symbol its direct recursive value, whatever the order |
| `SymbolValue.SymbolTable.CalcValue` | tools/menuconfig/symbol.c:292-428 | One call leaves the symbol valid and right, changes no valid entry and none of a higher rank |
| `SymbolValue.SymbolTable.CalcVisibility` | tools/menuconfig/symbol.c:188-226 | Visibility, dir_dep and rev_dep of the entry are those of the solution |
| `SymbolValue.SymbolTable.CalcTri` | tools/menuconfig/symbol.c:330-375 | User value below the visibility, else the first visible default, then selects; and the write flag |
| `SymbolValue.SymbolTable.CalcString` | tools/menuconfig/symbol.c:376-395 | User value, else the string of the default symbol; and the write flag |
| `SymbolValue.SymbolTable.CalcDefault` | tools/menuconfig/symbol.c:115-125 | The first default with a visible condition |
| `SymbolValue.SymbolTable.CalcPrompts` | tools/menuconfig/symbol.c:194-198 | The maximum over the prompts |
| `SymbolValue.SymbolTable.CalcExpr` | tools/menuconfig/expr.c:938-977 | The value of the expression under the solution, calculating its symbols on the way |
| `SymbolValue.SymbolTable.SetTristateValue` | tools/menuconfig/symbol.c:481-515 | Accepted exactly when unchanged or within range; the user value is stored, and a change makes every symbol invalid |
| `SymbolValue.SymbolTable.SetThenCalc` | tools/menuconfig/symbol.c:481-515 | From an up-to-date state a change is accepted if and only if it is within range, and then the next calculation returns exactly the value set; a refusal changes nothing |
| `SymbolValue.SetExact` | tools/menuconfig/symbol.c:462-479 | For a changeable symbol the next value is the one set if and only if it is within range |
| `SymbolValue.SetSame` | tools/menuconfig/symbol.c:481-515 | Setting the present value leaves all values right, as the kept memo assumes, if and only if it does not exceed the visibility, or comes from a select, or the symbol is invisible |
| `SymbolValue.StaleAfterSet` | tools/menuconfig/symbol.c:511-512 | A tristate with a prompt visible as m and a default of y: after setting y the kept value is y and the right one m |
| `SymbolValue.SolutionSolves` | tools/menuconfig/symbol.c:292-428 | The direct recursion by rank satisfies the equations of all symbols |
| `SymbolValue.SolutionUnique` | tools/menuconfig/symbol.c:292-428 | An acyclic configuration has one solution, and it depends only on the user values of lower rank |
| `SymbolValue.SolutionLaw` | tools/menuconfig/symbol.c:63-74 | A boolean symbol never has the value m, and the string of a tristate symbol is that of its value |
| `SymbolValue.SolutionWellFormed` | tools/menuconfig/symbol.c:292-428 | Whatever the calculation arrives at is a valuation over which the rewriting of expressions is proved right |
| `SymbolValue.OrderedAcyclic` | tools/menuconfig/symbol.c:1192-1224 | A search that reports nothing leaves a rank for which the configuration is acyclic, if the conditions of depends on mention no symbol that the search does not visit |
| `SymbolValue.CheckThenCalc` | tools/menuconfig/zconf.tab.c:2293-2296 | Check and calculation together: either the dependencies have a cycle, or every symbol gets its value in a solution of the configuration |
| `SymbolValue.StepAgrees` | tools/menuconfig/symbol.c:292-428 | What a symbol asks for depends only on the symbols in its conditions and defaults |
| `SymbolMeaning.EntryMeaning` | tools/menuconfig/symbol.c:292-428 | Every right entry, so every entry after CalcInOrder, says what its properties mean: visibility, selected value, depends on, value, string and write flag |
| `SymbolMeaning.VisibleMeaning` | tools/menuconfig/symbol.c:188-226 | Visibility is the largest condition of a prompt, with m raised to y where the symbol cannot be m; likewise for selects and depends on |
| `SymbolMeaning.TriMeaning` | tools/menuconfig/symbol.c:330-375 | The user value as far as it is visible, else the first default whose condition is not n, as far as value and condition go, else n; then the larger of that and what selects ask for, m raised where there is no m |
| `SymbolMeaning.TextMeaning` | tools/menuconfig/symbol.c:376-395 | The user's string if it is visible, else the string of the symbol that the first applying default names, else empty |
| `SymbolMeaning.WrittenMeaning` | tools/menuconfig/symbol.c:328-391 | The write flag is set exactly for what is visible or selected or has an applying default; that of a string must name a symbol |
| `SymbolMeaning.DefaultValue` | tools/menuconfig/symbol.c:350-374 | A symbol left to its defaults is at most the value and at most the condition of the first applying one, and one of the two, with m raised for a boolean; without one it is n |
| `SymbolMeaning.DefaultText` | tools/menuconfig/symbol.c:376-395 | A string left to its defaults is that of the named symbol, and empty without an applying default |
| `SymbolMeaning.OneDefault` | tools/menuconfig/symbol.c:350-374 | default d if c, and nothing else: a d of n gives n |
| `Getopt.Scanner.Run` | libbench/getopt.c:512-967 | A whole run ends, returns all events in order, leaves argv as options followed by non-options, and optind at the first non-option |
| `Getopt.Scanner.Next` | libbench/getopt.c:512-967 | One call returns the next event and keeps the invariant, or ends the scan |
| `Getopt.Scanner.Advance` | libbench/getopt.c:550-607 | Stops at an option element, at --, or at the end, with the bounds 1 <= first_nonopt <= last_nonopt <= optind <= argc |
| `Getopt.Scanner.Settle` | libbench/getopt.c:554-569 | Options scanned since the last exchange move before the non-options |
| `Getopt.Scanner.SkipNonOptions` | libbench/getopt.c:574-576 | The run of non-options is extended to the next option |
| `Getopt.Scanner.EndOfOptions` | libbench/getopt.c:584-595 | -- is sorted like an option and everything after it like a non-option |
| `Getopt.Scanner.BackUp` | libbench/getopt.c:600-607 | optind goes back to the first non-option |
| `Getopt.Scanner.ExchangeArgs` | libbench/getopt.c:305-383 | The two segments change places and the markers follow |
| `Getopt.Exchange` | libbench/getopt.c:341-377 | The shorter-block swaps are exactly the rotation AB to BA |
| `Getopt.SwapBlocks` | libbench/getopt.c:351-374 | Two blocks of equal length change places, cell by cell |
| `Getopt.BottomPlaced` | libbench/getopt.c:347-361 | Swapping the shorter bottom block to the top leaves a smaller rotation |
| `Getopt.TopPlaced` | libbench/getopt.c:362-376 | The same for the shorter top block |
| `Getopt.Scanner.ScanLong` | libbench/getopt.c:645-776 | A long option with its argument, if it takes one, is consumed as the grammar says |
| `Getopt.Scanner.ScanShort` | libbench/getopt.c:781-803 | One character of a cluster is consumed as the grammar says |
| `Getopt.Scanner.ScanWithArgument` | libbench/getopt.c:928-964 | A character with an argument takes the rest of the element or the next element |
| `Getopt.LongEvent` | libbench/getopt.c:684-776 | Event and number of elements of a long option |
| `Getopt.ArgumentEvent` | libbench/getopt.c:928-964 | Event and number of elements of a character with an argument |
| `Getopt.FindLong` | libbench/getopt.c:659-683 | The exact match, else the only prefix or one of several with the same action, else not found or ambiguous |
| `Getopt.MatchUnique` | libbench/getopt.c:659-683 | That description determines the outcome |
| `Getopt.Parse` | libbench/getopt.c:550-625 | The elements are sorted into options and others, none lost and none added |
| `Getopt.ParseStable` | libbench/getopt.c:305-383 | The sorting is stable: options with their arguments, and the others, keep their orders |
| `Getopt.OthersAreNonOptions` | libbench/getopt.c:550-607 | Without --, everything sorted as a non-option looks like one |
| `GetoptMeaning.LongWithValue` | libbench/getopt.c:700-727 | --name=x gives the value of the option with x as its argument if it takes one, and '?' otherwise; the element is done with, whatever follows |
| `GetoptMeaning.LongAlone` | libbench/getopt.c:728-775 | --name takes the next element as argument if one is required, gives '?' or ':' if there is none, and otherwise leaves the next element |
| `GetoptMeaning.PlainElement` | libbench/getopt.c:781-803 | An element of plain option characters gives one event for each, '?' for an undeclared one |
| `GetoptMeaning.ArgumentElement` | libbench/getopt.c:928-964 | After plain characters, one declared with ':' or '::' has the rest of the element as argument; if nothing is left, the next element when it is required, and none when it is optional; '?' or ':' if it is missing |
| `GetoptMeaning.OtherElement` | libbench/getopt.c:547-607 | An element that is empty, is - alone or does not begin with - is no option, and comes after the options |
| `GetoptMeaning.EndElement` | libbench/getopt.c:584-595 | -- ends the options: everything after it stays as it is |
| `GetoptMeaning.Looked` | libbench/getopt.c:659-683 | The option that is looked up is the one that the declarative description of matching allows |
| `FastFfts.TableSixStepFft` | benchees/ransom/ransom/fastffts.c:3-83 | For every power of two the six steps leave the transform of the given sign, if the row routine transforms rows whose length is a power of two, with that sign |
| `FastFfts.SixSteps` | benchees/ransom/ransom/fastffts.c:36-82 | Transpose, rows, transpose, factors, rows, transpose recombine the double sum |
| `FastFfts.Recombine` | benchees/ransom/ransom/fastffts.c:38-82 | A transform of length n1 n2 from column transforms, twiddle factors and row transforms |
| `FastFfts.FactorSplits` | benchees/ransom/ransom/fastffts.c:51-69 | The twiddle factor of the whole is the product of the three the steps use |
| `FastFfts.Factors` | benchees/ransom/ransom/fastffts.c:23-28 | n1 n2 = nn with n2 = n1 or n2 = 2 n1, so every transposition meets its precondition |
| `FastFfts.MultiplyFactors` | benchees/ransom/ransom/fastffts.c:54-69 | Entry (p, k) is multiplied by w^(p k), by the additive recurrence for the powers |
| `FastFfts.TransformRows` | benchees/ransom/ransom/fastffts.c:40-45 | Every row becomes its transform, if the row routine transforms rows of this length |
| `FastFfts.Transpose` | benchees/ransom/ransom/fastffts.c:540-561 | The array becomes the transpose, for n1 = n2, n2 = 2 n1 and n1 = 2 n2 |
| `FastFfts.TransposeTwice` | benchees/ransom/ransom/fastffts.c:540-561 | Transposing back restores the matrix |
| `FastFfts.TransposeSquare` | benchees/ransom/ransom/fastffts.c:400-442 | The square is transposed whichever of the three ways the cache sizes choose |
| `FastFfts.TransposeBlock` | benchees/ransom/ransom/fastffts.c:386-397 | The block is transposed, the rest unchanged |
| `FastFfts.Transpose2Blocks` | benchees/ransom/ransom/fastffts.c:372-383 | Two blocks are transposed and exchanged, the rest unchanged |
| `FastFfts.MoveBlock` | benchees/ransom/ransom/fastffts.c:357-368 | The block is copied, the rest unchanged |
| `FastFfts.TransposeInBlocks` | benchees/ransom/ransom/fastffts.c:408-415 | Block by block, for every block size that divides the side |
| `FastFfts.TransposeInCopies` | benchees/ransom/ransom/fastffts.c:416-441 | The same by way of two buffers |
| `FastFfts.PermuteRows` | benchees/ransom/ransom/fastffts.c:446-536 | Every row comes from its source row; all cycles are followed, the first and the last row stay |
| `FastFfts.FollowCycle` | benchees/ransom/ransom/fastffts.c:462-484 | The cycle of one row is moved and marked; the table of visited rows stays a union of whole cycles and shrinks what is left |
| `FastFfts.RowsRestored` | benchees/ransom/ransom/fastffts.c:446-536 | The two row permutations undo each other |
| `FastFfts.SourceInverse` | benchees/ransom/ransom/fastffts.c:469-516 | Their index maps are inverse bijections |
| `FastFfts.MoveRaw` | benchees/ransom/ransom/fastffts.c:566-575 | n cells are copied |
| `FastFfts.PowersFit` | benchees/ransom/ransom/fastffts.c:400-442 | Block sizes that are powers of two divide every larger power of two |
| `Hermitian.CopyH2cUnpacked` | libbench/copy-h2c-unpacked.c:42-51 | Every cell of the whole array, of any rank, is expanded from the half array |
| `Hermitian.Cp` | libbench/copy-h2c-unpacked.c:8-40 | Below the given index prefix, and only there, the cells are expanded; mnb is the index of the negated prefix |
| `Hermitian.CpRow` | libbench/copy-h2c-unpacked.c:15-30 | One row, from the row itself and its mirror row |
| `Hermitian.CopyC2hUnpacked` | libbench/copy-c2h-unpacked.c:8-32 | The half array holds the first half of every row, imaginary parts times minus the sign |
| `Hermitian.MirrorIsNegated` | libbench/copy-h2c-unpacked.c:31-38 | The recursion for mnb computes the row-major index of the negated tuple |
| `Hermitian.MirrorTwice` | libbench/copy-h2c-unpacked.c:31-38 | Negating twice gives the index back |
| `Hermitian.RoundTrip` | libbench/copy-h2c-unpacked.c:8-51 | Packing and expanding with the same sign restores an array if and only if the part that is not kept is Hermitian |
| `Hermitian.HermitianRoundTrip` | libbench/copy-h2c-unpacked.c:8-51 | So every Hermitian array is restored |
| `Hermitian.PackExpanded` | libbench/copy-c2h-unpacked.c:8-32 | Expanding and packing restores every half array |
| `Hermitian.PackedParts` | libbench/copy-c2h-unpacked.c:17-27 | In a packed cell, with width n/2 + 1, the real part is kept and the imaginary part times the negated sign |
| `Hermitian.ExpandedParts` | libbench/copy-h2c-unpacked.c:18-28 | In an expanded cell up to the middle the real part is kept and the imaginary part times the negated sign; beyond it, the imaginary part of the mirrored cell times the sign |
| `ConfigFile.SymEscapeStringValue` | tools/menuconfig/symbol.c:903-944 | The buffer is filled exactly: escaped text and terminator, no more and no less than counted |
| `ConfigFile.EscapedLength` | tools/menuconfig/symbol.c:910-922 | The counted length is that of the escaped text and its terminator |
| `ConfigFile.UnescapeInPlace` | tools/menuconfig/confdata.c:158-168 | The in-place loop leaves the unescaped text terminated in the buffer, or finds no closing quote, for every text before the terminator |
| `ConfigFile.UnescapeEscape` | tools/menuconfig/confdata.c:158-168 | Unescaping undoes escaping, for every string and whatever follows the quote |
| `ConfigFile.EscapedIsReadBack` | tools/menuconfig/confdata.c:155-168 | Escaping into a buffer and unescaping that buffer in place returns the string |
| `ConfigFile.ReadConfig` | tools/menuconfig/confdata.c:308-374 | The line loop reads the whole file, line by line |
| `ConfigFile.GetLine` | tools/menuconfig/confdata.c:208-240 | A line with its newline, or what is left |
| `ConfigFile.WriteRead` | tools/menuconfig/confdata.c:478-499 | Reading a file that was written gives every symbol its value: strings, numbers and tristates without a newline |
| `ConfigFile.PrintedIsRead` | tools/menuconfig/confdata.c:311-374 | Each printed line sets its symbol to its value and nothing else |
| `ConfigFile.FileReadBackExactly` | tools/menuconfig/confdata.c:308-374 | A file of distinct symbols is read back exactly as it was written if and only if no value has a newline |
| `ConfigFile.ReadBackExactly` | tools/menuconfig/confdata.c:348-353 | A value is read back from its line if and only if it has no newline |
| `ConfigMeaning.FirstLine` | tools/menuconfig/confdata.c:208-240 | A file is read line by line: a first line of one newline, and then the rest |
| `ConfigMeaning.AssignmentLine` | tools/menuconfig/confdata.c:343-368 | CONFIG_name=value sets the symbol to what the value up to the newline means for its type |
| `ConfigMeaning.TristateLine` | tools/menuconfig/confdata.c:126-146 | A value that begins with y, m or n sets a tristate to that, and a boolean too unless it is m, when nothing changes |
| `ConfigMeaning.OtherLetterLine` | tools/menuconfig/confdata.c:134-146 | Any other value of a boolean or tristate changes nothing |
| `ConfigMeaning.UnknownName` | tools/menuconfig/confdata.c:354-359 | A line for a symbol that does not exist changes nothing |
| `ConfigMeaning.NoEquals` | tools/menuconfig/confdata.c:343-347 | A line without = changes nothing |
| `ConfigMeaning.OtherLine` | tools/menuconfig/confdata.c:370-374 | A line that begins neither with # nor with CONFIG_ changes nothing |
| `ConfigMeaning.NotSetLine` | tools/menuconfig/confdata.c:311-342 | # CONFIG_name is not set sets a boolean or tristate to n, whatever follows, and nothing else |
| `ConfigMeaning.CommentOfName` | tools/menuconfig/confdata.c:314-316 | A comment whose name is not followed by a blank changes nothing |
| `ConfigMeaning.CommentOfOther` | tools/menuconfig/confdata.c:318-319 | A comment that goes on with other words changes nothing |
| `ConfigMeaning.CommentElsewhere` | tools/menuconfig/confdata.c:311-313 | A comment in which CONFIG_ does not stand at the third character changes nothing |
| `ConfigMeaning.StringLine` | tools/menuconfig/confdata.c:155-174 | A quoted string sets a string symbol to the text without the backslashes, up to the closing quote, whatever follows |
| `ConfigMeaning.UnclosedLine` | tools/menuconfig/confdata.c:158-168 | A string without its closing quote changes nothing |
| `ConfigMeaning.UnquotedLine` | tools/menuconfig/confdata.c:155-157 | A string without its opening quote changes nothing |
| `ConfigMeaning.NumberLine` | tools/menuconfig/confdata.c:170-180 | A number is set exactly when it is one |
| `ConfigMeaning.DecimalExactly` | tools/menuconfig/symbol.c:547-559 | An integer is an optional minus and digits of which the first is 0 only if it is the only one |
| `ConfigMeaning.HexadecimalExactly` | tools/menuconfig/symbol.c:560-568 | A hexadecimal number is an optional 0x or 0X and at least one hexadecimal digit |
| `ConfigMeaning.ValueOfLine` | tools/menuconfig/confdata.c:348-353 | The value ends at the newline, without one carriage return before it |
| `ConfigMeaning.PrintedForms` | tools/menuconfig/confdata.c:478-499 | n is printed as a comment, m and y as letters, numbers as they are |
| `ConfigMeaning.PrintedString` | tools/menuconfig/confdata.c:620-639 | A string is printed in quotes, with a backslash before exactly each quote and backslash |
| `Hartley.ThereAndBack` | benchees/bloodworth/b-fht.c:145-300 | RFHT_F and then RFHT_T multiply every cell by the length, for every power of two from 8 |
| `Hartley.RoundTrip` | benchees/bloodworth/b-fht.c:145-300 | The same of the specification functions |
| `Hartley.RfhtF` | benchees/bloodworth/b-fht.c:145-196 | The in-place recursion computes the specification, outside its range nothing changes |
| `Hartley.RfhtT` | benchees/bloodworth/b-fht.c:227-300 | The same for decimation in time, with its case of eight |
| `Hartley.StageUndoes` | benchees/bloodworth/b-fht.c:168-192 | One stage in time undoes one stage in frequency up to the factor 2, scaled input included |
| `Hartley.EightIsStage` | benchees/bloodworth/b-fht.c:237-270 | The hard-coded case of eight is one more step of the recursion over four |
| `Hartley.FourUndoes` | benchees/bloodworth/b-fht.c:155-166 | The hard-coded case of four is undone by four cells in time, times 4 |
| `Hartley.CoefUnit` | benchees/bloodworth/b-fht.c:174-192 | Every coefficient the loop and the special points use lies on the unit circle |
| `Hartley.StepIsUnit` | benchees/bloodworth/b-fht.c:125-130 | The rotation of NextTrigPow does, given the half-angle law of the sine table |
| `Hartley.Turns` | benchees/bloodworth/b-fht.c:174-192 | The loop covers every index but the two special ones, in pairs |
| `Quadrants.NextTurn` | benchees/bloodworth/b-fht.c:181-192 | A turn meets four new indices, x, h - x, h/2 - x and h/2 + x, the last turn two |
| `Quadrants.LastTurn` | benchees/bloodworth/b-fht.c:181-192 | After the last turn every index has been met |
| `FftReal.Transform.ThereAndBack` | benchees/fftreal/FFTReal.cc:86-460 | do_fft and then do_ifft multiply every sample by the length, for every power of two, also when the inverse goes back into the array of samples |
| `FftReal.RoundTrip` | benchees/fftreal/FFTReal.cc:86-460 | The same of the specification functions |
| `FftReal.Transform.DoFft` | benchees/fftreal/FFTReal.cc:86-256 | The result ends in f, whichever way the passes alternate; x is not written |
| `FftReal.Transform.DoIfft` | benchees/fftreal/FFTReal.cc:275-460 | The result ends in x; f is not written |
| `FftReal.Transform.GeneralFft` | benchees/fftreal/FFTReal.cc:95-223 | The passes go back and forth between f and the buffer, and the parity of the number of bits makes the last one end in f |
| `FftReal.Transform.GeneralIfft` | benchees/fftreal/FFTReal.cc:285-428 | No pass writes the array it reads, and the scattering pass reads the buffer |
| `FftReal.DownUp` | benchees/fftreal/FFTReal.cc:310-364 | A pass of the inverse undoes the pass of the transform up to the factor 2 |
| `FftReal.DownUndoesUp` | benchees/fftreal/FFTReal.cc:319-349 | The same for one block, cell by cell |
| `FftReal.LastFirst` | benchees/fftreal/FFTReal.cc:391-426 | The last two passes undo the first two up to the factor 4 |
| `FftReal.UpPass` | benchees/fftreal/FFTReal.cc:171-221 | One pass, block by block |
| `FftReal.DownPass` | benchees/fftreal/FFTReal.cc:310-364 | One pass of the inverse |
| `FftReal.FirstPasses` | benchees/fftreal/FFTReal.cc:119-143 | The first two passes read the input in bit-reversed order |
| `FftReal.LastPasses` | benchees/fftreal/FFTReal.cc:391-426 | The last two passes scatter to bit-reversed places, each cell once |
| `FftReal.BitReversedLut` | benchees/fftreal/FFTReal.cc:500-523 | Entry i is the bit reversal of i |
| `FftReal.TrigoLut` | benchees/fftreal/FFTReal.cc:547-570 | The cosines of all levels are stored without overlap |
| `FftReal.LevelFits` | benchees/fftreal/FFTReal.h:77-80 | The levels follow one another and stay inside the table |
| `FftReal.RotIsUnit` | benchees/fftreal/FFTReal.cc:547-570 | With exact cosines every rotation of a pass is on the unit circle |
| `Quad2Fft.RecursionIsIterationF` | benchees/bloodworth/quad2fft.c:170-273 | For every power of two, every cutoff and every butterfly, the recursive transform in frequency is the iterative one |
| `Quad2Fft.RecursionIsIterationT` | benchees/bloodworth/quad2fft.c:320-418 | The same in time |
| `Quad2Fft.BothWays` | benchees/bloodworth/quad2fft.c:170-418 | Both in-place routines leave the same array |
| `Quad2Fft.IterateSplits` | benchees/bloodworth/quad2fft.c:170-369 | The iterative transforms of two arrays side by side are the transforms of each |
| `Quad2Fft.StageSplits` | benchees/bloodworth/quad2fft.c:186-217 | No butterfly of a stage crosses from one array to the next |
| `Quad2Fft.OneStage` | benchees/bloodworth/quad2fft.c:186-217 | The four-quadrant schedule handles each offset once, all blocks for each |
| `Quad2Fft.ButterflyLoop` | benchees/bloodworth/quad2fft.c:140-156 | All butterflies of one offset, and nothing else |
| `Quad2Fft.CoveredStep` | benchees/bloodworth/quad2fft.c:200-208 | The four images of a turn are new and distinct |
| `Quad2Fft.CoveredAll` | benchees/bloodworth/quad2fft.c:209-217 | Eighths and quarter complete the offsets, for short steps too |
| `Quad2Fft.Fft2F` | benchees/bloodworth/quad2fft.c:170-220 | The stages from the widest to the narrowest, in place |
| `Quad2Fft.Fft2T` | benchees/bloodworth/quad2fft.c:320-369 | The stages from the narrowest to the widest, in place |
| `Quad2Fft.Rfft2F` | benchees/bloodworth/quad2fft.c:223-273 | The recursion in frequency, in place |
| `Quad2Fft.Rfft2T` | benchees/bloodworth/quad2fft.c:372-418 | The recursion in time, in place |
| `RadixTwo.DftFrequency` | benchees/bloodworth/quad2fft.c:170-220 | Decimation in frequency: even frequencies from the sums of the halves, odd ones from their rotated differences |
| `QuarterTurns.QuadrantPowers` | benchees/bloodworth/quad2fft.c:200-217 | The other three quadrants from the first, for every root with the imaginary unit at a quarter turn |
| `Quad2Fourier.ThereAndBack` | benchees/bloodworth/quad2fft.c:733-751 | Bloodworth_Q2_FwdFFT and then Bloodworth_Q2_RevFFT leave the array as it was, for every power of two and every cutoff |
| `Quad2Fourier.FwdFft` | benchees/bloodworth/quad2fft.c:733-739 | The array becomes its Fourier transform |
| `Quad2Fourier.RevFft` | benchees/bloodworth/quad2fft.c:744-751 | The array becomes its backward transform divided by the length |
| `Quad2Fourier.ReOrder` | benchees/bloodworth/quad2fft.c:628-648 | The array is put into bit-reversed order by one exchange for each pair |
| `Quad2Fourier.NextBySubtraction` | benchees/bloodworth/quad2fft.c:644-646 | The subtracting counter takes the reversal of i to the reversal of i + 1 |
| `Quad2Fourier.TimeIsFourier` | benchees/bloodworth/quad2fft.c:372-418 | With exact tables the recursion in time turns bit-reversed input into the transform, for both directions and every cutoff |
| `Quad2Fourier.FrequencyIsFourier` | benchees/bloodworth/quad2fft.c:223-273 | The recursion in frequency leaves the transform in bit-reversed order |
| `Quad2Fourier.FactorIs` | benchees/bloodworth/quad2fft.c:194-217 | In all four quadrants the factor used for an offset is that power of the root |
| `Quad2Fourier.IterateIsBlockDft` | benchees/bloodworth/quad2fft.c:320-369 | After t stages every block of 2^t cells holds the transform of its samples |
| `HartleySum.FrequencyIsHartley` | benchees/bloodworth/b-fht.c:145-196 | With exact tables RFHT_F leaves the Hartley sums of its input in bit-reversed order |
| `HartleySum.TimeIsHartley` | benchees/bloodworth/b-fht.c:227-300 | RFHT_T turns samples in bit-reversed order into their Hartley sums |
| `HartleySum.CoefExact` | benchees/bloodworth/b-fht.c:168-192 | Every coefficient of the schedule is the power of the root that its index asks for |
| `HartleySum.RightHalf` | benchees/bloodworth/b-fht.c:168-192 | The rotated differences of paired indices have the Hartley sums of the odd frequencies |
| `FftRealFourier.ForwardIsFourier` | benchees/fftreal/FFTReal.cc:86-256 | With exact cosines do_fft gives the Fourier transform of real samples: real parts up to the middle, then imaginary parts |
| `FftRealFourier.TableIsExact` | benchees/fftreal/FFTReal.cc:547-570 | The cosine table read forwards and backwards gives cosine and sine of every rotation |
| `FftRealFourier.UpCellPacked` | benchees/fftreal/FFTReal.cc:174-213 | A pass takes the packed transforms of the halves of a block to the packed transform of the block |
| `RealSamples.DftConj` | benchees/fftreal/FFTReal.cc:86-256 | The frequencies k and n - k of real samples are conjugate |

## Left out

- Floating-point rounding of the transforms, and `fromreal`, `toreal`, `inv`, `msin`, `mcos`, `by2pi` of libbench/mp.c: the transforms are exact, and `inv` has no provable end.
- ReferenceTransform.Transformer.CexpBuiltin: does not model abs(m) = n for n a power of two, where the source reads an entry of the table that this n has not filled.
- The 64 entries of the root table in libbench/mp.c: the table grows with n. The two cells of a complex number are one cell.
- Overflow of the `short` exponent in libbench/mp.c, and failing allocations everywhere.
- Sharing, freeing and in-place rewriting of `struct expr` nodes: trees are values, and where the source takes two addresses inside one tree the model takes two positions (`KconfigDups.Dups1`, `KconfigDups.Dups2`).
- Missing, list and range expressions in tools/menuconfig/expr.c, but for a missing prompt condition in the sub-menu test; `expr_simplify_unmet_dep` and the printing of expressions; moving the entries of a sub-menu in the menu tree.
- Choice symbols, ranges of numbers, environment symbols and the changed flags of symbols and menus; the symbol that enables modules has a fixed value, so its own change is not modelled.
- The message text of a recursive dependency: a report is the list of symbols on the cycle.
- Defaults files, override warnings and the other value sets of tools/menuconfig/confdata.c; symbols of type S_OTHER.
- Getopt.Scanner.constructor: takes no optstring that begins with - or + or has "W;" (`Getopt.PlainGrammar`), because the first call strips the sign and later calls do not, and -W steps over one more argument after an ambiguous name.
- The other two orderings of libbench/getopt.c, `-W` options, `getopt_long_only`, `longind`, `optopt`, the store through a flag pointer, error messages, and callers that change `optind`.
- `tablesplitfftraw` and `scramble` of fastffts.c: a function that transforms rows stands for both. `realfft`, which its own driver calls broken.
- fastffts.h is not part of this model: the cache sizes are parameters.
- `FHT_Scramble` and the conversions between Hartley and Fourier transforms of b-fht.c, and `RealFFTWrapper` of quad2fft.c: permutations and sums beside what is proved.
- `RFHT_T` handles the point h / 2 last; `Hartley.Stage` handles it with point 0. No other index touches its cells.
- FFTReal.cc computes its number of bits with logarithms; here it is a parameter. Its buffer pointer is null for short lengths; here the buffer is empty.
- One-dimensional layouts, timers, statistics, main programs, and the wrappers around FFT libraries that are not in the repository.
