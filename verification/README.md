# Verified models of the Python runtime's hard algorithms

The image built from this repository ships a Python 3.14 standard library under
`rootfs/usr/lib/python3.14`. This project models six of its pure-Python components in Dafny and
proves what their comments, documentation and standards promise.

* **Big integers** (`_pylong.py`). Burnikel-Ziegler division, digit splitting and joining, the
  planned power cache and divide-and-conquer decimal text are proved equal to one-line
  specifications. The cut-offs (`_DIV_LIMIT`, `DIGLIM`, `more_than`) are parameters, so the
  results hold for all their values (from 1 for text, wherever the routine ends for the power
  cache, from 0 otherwise). Shifts, masks, `|` and `^` are defined on bits and
  connected to arithmetic in `Bits`.
* **Decimal arithmetic** (`_pydecimal.py`, General Decimal Arithmetic 1.70, "Arithmetic
  operations"). The reference is the exact real number rounded once (`RoundReal`,
  `RoundsCorrectly`). `_fix`, addition, division and square root meet it for all eight modes,
  all precisions and exponent ranges, `clamp` on or off, signals included. The shortcuts (bumping
  a last digit 0 or 5, replacing a far smaller operand, limited padding, Newton loops with a
  one-sided exit test) are each proved harmless.
* **Calendar** (`_pydatetime.py`, ISO 8601:2004 section 3.2.2). Ordinals and dates are inverse and
  order-preserving over all integers, and ISO week dates round-trip.
* **Abstract base class caches** (`_py_abc.py`). The class graph, the caches, their versions and the
  global counter are one mutable object; whatever is called, the answers are plain reachability.
* **Expression printer** (`_ast_unparse.py`). The visitor with its mutable precedences dictionary
  writes what a printing function says, and a parser with the precedence and associativity of
  section 6.17 of the Python Language Reference reads the same tree back; parentheses are printed exactly where that needs them.
* **Buffered streams and newline decoding** (`_pyio.py`). Stateful readers, writers and decoders
  refine a plain stream under short reads, partial writes, blocking and any chunking.

Methods that change state in the source are methods on classes here; each is tied to a function or
predicate on values, and the properties are proved about those. Modules, in dependency order:
`Powers`, `Bits`, `LongDivision`, `PowerCache`, `Numerals`, `DecimalText`; `Rounding`, `Scale`,
`DecimalFix`, `DecimalContext`, `DecimalAdd`, `IntegerRoots`, `DecimalDivide`,
`RootSquares`, `DecimalSqrt`;
`Calendar`; `AbcCache`; `PyExpr`, `Unparser`, `PyParser`, `PyRoundTrip`; `BufferedIO`;
`NewlineDecoder`. `dafny verify dfyconfig.toml` checks them all.

Where code and documentation differ, the model follows the code:

* `int_to_decimal_string` strips leading zeros only for nonzero n. With n = 0 and an estimate above
  `DIGLIM` it would return several zeros; the estimate computed from the bit length of 0 never is,
  so the exact condition is stated instead of assumed.
* The docstring of `peek` says it never returns more than `buffer_size` bytes. With buffer size 4,
  `read(10)` answered by raw reads of 9 and then 10 bytes leaves 9 bytes buffered, all of which the
  next `peek` returns (`PeekBeyondBuffer`, for every size). The bound holds, whatever the raw
  object gives, when no call reads more than `buffer_size + 1` bytes at once
  (`BufferedReader.Run`), and no weaker condition on the calls would do.
* `compute_powers` never ends for a negative `more_than` below w: 0 or -1 is its own half and comes
  back as a candidate in every pass (`EndsExactlyWhen`).
* A chunk of decoded text may end in a carriage return (after two in a row, only the last is held
  back), so the property proved is that no chunk ends inside a CRLF.

## Model

| member | source | states |
|---|---|---|
| LongDivision.Div2n1n | rootfs/usr/lib/python3.14/_pylong.py:422-449 | for every n-bit b and 0 <= a < 2**n * b, whatever the cut-off: a = b*q + r, 0 <= r < b, q < 2**n; the mutual recursion ends and the padding bit of an odd n is undone |
| LongDivision.Div3n2n | rootfs/usr/lib/python3.14/_pylong.py:452-462 | the same for a three-halves dividend, and the correction loop is entered at most twice |
| LongDivision.EstimateError | rootfs/usr/lib/python3.14/_pylong.py:454-461 | both ways of estimating the quotient (from the high half, or all ones) give one that is never too small and at most two too large, which is what bounds the loop |
| LongDivision.Correct | rootfs/usr/lib/python3.14/_pylong.py:458-462 | the loop turns an estimate at most two too large into the quotient and remainder |
| LongDivision.SplitInto | rootfs/usr/lib/python3.14/_pylong.py:480-489 | fills exactly the slots L to R of the digit array with the base-2**n digits of x (shift and exclusive-or against remainder), leaving the others |
| LongDivision.SplitDigitsCanonical | rootfs/usr/lib/python3.14/_pylong.py:465-477 | the digits represent the number, each is below 2**n, the last is not 0, and the list is empty exactly for 0 |
| LongDivision.Int2Digits | rootfs/usr/lib/python3.14/_pylong.py:478-493 | the array returned holds that digit list |
| LongDivision.Digits2Int | rootfs/usr/lib/python3.14/_pylong.py:496-508 | the value of any digit list in base 2**n, defined independently as a sum |
| LongDivision.SplitUndoesJoin | rootfs/usr/lib/python3.14/_pylong.py:496-499 | joining a digit list with a nonzero top digit and splitting the result gives the same list; with SplitDigitsCanonical the two conversions are inverse |
| LongDivision.DividedStep | rootfs/usr/lib/python3.14/_pylong.py:520-522 | one schoolbook step keeps "digits read so far = b * quotient so far + remainder" with remainder < b |
| LongDivision.DivmodPos | rootfs/usr/lib/python3.14/_pylong.py:511-525 | the whole schoolbook division gives quotient and remainder |
| LongDivision.IntDivmod | rootfs/usr/lib/python3.14/_pylong.py:528-541 | for all integers a and nonzero b, floor division and modulus with the sign of b; an error exactly for b = 0 |
| LongDivision.FloorDivisionUnique | rootfs/usr/lib/python3.14/_pylong.py:528-541 | only one pair is the floor quotient and modulus, so the three sign cases cannot disagree with divmod |
| PowerCache.Plan | rootfs/usr/lib/python3.14/_pylong.py:58-73 | for every cut-off, negative ones too, the worklist ends with exactly the exponents the recursive consumer looks up; without need_hi they are closed under halving down to the cut-off |
| PowerCache.ConsumerRange | rootfs/usr/lib/python3.14/_pylong.py:706-720 | every exponent the recursion looks up lies between 0 and w, for either sign of w |
| PowerCache.Extend | rootfs/usr/lib/python3.14/_pylong.py:88-97 | where it ends: extra exponents are new, every exponent can be reached from a smaller one or is below twice the cut-off, and none is added when the needed ones are closed under halving: the assertion at line 97 |
| PowerCache.EndsExactlyWhen | rootfs/usr/lib/python3.14/_pylong.py:88-96 | the candidate loop, iterated pass by pass, empties its set exactly when the cut-off is not negative or w is within it |
| PowerCache.NegativeLimit | rootfs/usr/lib/python3.14/_pylong.py:58-96 | for every other input the needed exponents hold a candidate up to 0 |
| PowerCache.EndlessPass | rootfs/usr/lib/python3.14/_pylong.py:90-96 | from candidates with one up to 0, all above the cut-off, every pass leads to such candidates again |
| PowerCache.ZeroComesBack | rootfs/usr/lib/python3.14/_pylong.py:90-96 | the smallest such input: with more_than = -1 and w = 0 the only candidate, 0, is its own half and returns in every pass |
| PowerCache.Next | rootfs/usr/lib/python3.14/_pylong.py:100-121 | each of the three ways of computing a power gives base**n; the general power is used exactly when neither predecessor is there |
| PowerCache.ComputePowers | rootfs/usr/lib/python3.14/_pylong.py:57-131 | on all the inputs on which the candidate loop ends, and both need_hi: terminates and returns exactly the exponents looked up, each mapped to base**exponent; the general power is used only where half the exponent is within the cut-off |
| DecimalText.ParseRange | rootfs/usr/lib/python3.14/_pylong.py:238-244 | the value of the digits s[a:b], with every table lookup present |
| DecimalText.StrToIntInner | rootfs/usr/lib/python3.14/_pylong.py:223-247 | the positional value of every nonempty digit string, an invalid literal for the empty one |
| Numerals.DigitsCount | rootfs/usr/lib/python3.14/_pylong.py:238-240 | a digit is worth one more than the digit before it, from 0 to 9 |
| DecimalText.FormatValue | rootfs/usr/lib/python3.14/_pylong.py:193-198 | the recursive formatter writes a numeral of value n, whatever the estimate w, in at most w digits when n has no more |
| DecimalText.IntToDecimalString | rootfs/usr/lib/python3.14/_pylong.py:192-221 | the canonical signed numeral exactly when n is not 0 or the estimate is within the cut-off; for 0 with a larger estimate the text would be several zeros, because line 217 strips only for nonzero n |
| DecimalText.FormatOfZero | rootfs/usr/lib/python3.14/_pylong.py:193-198 | 0 is written as a single digit exactly when the estimate is within the cut-off: the failing family of the canonical form |
| DecimalText.StrToInt | rootfs/usr/lib/python3.14/_pylong.py:402-411 | the signed value of the digits behind an optional sign, an invalid literal when there are none |
| DecimalText.WriteThenRead | rootfs/usr/lib/python3.14/_pylong.py:192-247 | writing then reading gives back every integer, for every estimate and both cut-offs |
| DecimalText.ReadThenWrite | rootfs/usr/lib/python3.14/_pylong.py:192-247 | reading then writing gives back every canonical text, except exactly "0" with an estimate above the cut-off |
| Rounding.RoundRealMeaning | rootfs/usr/lib/python3.14/_pydecimal.py:1706-1781 | what each of the eight modes means for a signed real: directed bounds, nearest with its tie rule, and away from zero only at a 0 or 5 |
| Rounding.RoundingMethodMeaning | rootfs/usr/lib/python3.14/_pydecimal.py:1716-1781 | each rounding function on digit strings returns 1 exactly when the reference rounding goes away from zero and 0 exactly when nothing is lost |
| Rounding.RoundTruncated | rootfs/usr/lib/python3.14/_pydecimal.py:2712-2719 | rounding a real is determined by its truncation to an integer and by whether that was exact |
| Rounding.BumpRounds | rootfs/usr/lib/python3.14/_pydecimal.py:1322-1325 | adding 1 to an inexact truncation ending in 0 or 5 keeps the side of every multiple and midpoint, in all eight modes |
| Rounding.ZeroFiveUpThenRound | rootfs/usr/lib/python3.14/_pydecimal.py:1765-1770 | what the mode is for: rounding with it and then to fewer digits, in any mode, is rounding once |
| DecimalFix.FixRounds | rootfs/usr/lib/python3.14/_pydecimal.py:1614-1704 | for every valid context and finite nonzero number, _fix returns the number when it is representable, raising exactly Rounded when digits were dropped, Subnormal below 10**Emin and Clamped when padded; otherwise the exact value rounded once, with exactly the specified signals |
| DecimalFix.FixFits | rootfs/usr/lib/python3.14/_pydecimal.py:1614-1704 | the result is special or has at most prec digits, exponent >= Etiny, adjusted exponent <= Emax, and exponent <= Etop under clamp |
| DecimalFix.FixIdempotent | rootfs/usr/lib/python3.14/_pydecimal.py:1614-1704 | fixing twice is fixing once, and the second time raises at most Subnormal |
| DecimalFix.FixInexact | rootfs/usr/lib/python3.14/_pydecimal.py:1686-1687 | Inexact is raised exactly when the value changed |
| DecimalFix.OverflowIsRounding | rootfs/usr/lib/python3.14/_pydecimal.py:281-294 | the result of an overflow is what the mode itself does above the largest coefficient: infinity exactly when it rounds that away from zero, otherwise the largest number that fits, with the sign of the argument |
| DecimalFix.FixNearestExponent | rootfs/usr/lib/python3.14/_pydecimal.py:1632-1704 | a number the context can hold in some form keeps its value, at the exponent nearest to its own of all those that fit |
| DecimalFix.FixZeros | rootfs/usr/lib/python3.14/_pydecimal.py:1632-1643 | a zero keeps its sign; Clamped is raised exactly when its exponent does not fit, and it moves to the nearest that does |
| DecimalFix.RangeEnds | rootfs/usr/lib/python3.14/_pydecimal.py:4048-4054 | Etiny and Etop are the exponents at which a full coefficient has the adjusted exponents Emin and Emax |
| DecimalFix.FixSignals | rootfs/usr/lib/python3.14/_pydecimal.py:1634-1702 | when each of the signals of _fix is raised: Subnormal by magnitude alone, Underflow exactly when subnormal and inexact, Overflow only with its own result, Rounded and Clamped by the change of exponent |
| DecimalFix.StickyFix | rootfs/usr/lib/python3.14/_pydecimal.py:1659-1692 | if t units with more than prec digits truncate x inexactly, fixing the bumped t gives x correctly rounded, with its signals |
| DecimalContext.Context.RaiseError | rootfs/usr/lib/python3.14/_pydecimal.py:4005-4021 | an untrapped condition sets its flag, keeps the others, and yields its default result (281-294 for overflow) |
| DecimalContext.Context.ShallowCopy | rootfs/usr/lib/python3.14/_pydecimal.py:3989-3994 | the copy has its own settings and shares the flags |
| DecimalContext.Context.SetRounding | rootfs/usr/lib/python3.14/_pydecimal.py:4056-4073 | returns the previous mode and changes nothing else |
| DecimalContext.Fix | rootfs/usr/lib/python3.14/_pydecimal.py:1614-1704 | the code on digit strings returns the result of the numeric specification and adds exactly its signals to the flags |
| DecimalContext.RescaleRounds | rootfs/usr/lib/python3.14/_pydecimal.py:2576-2608 | padding keeps the value; otherwise the result is the value rounded once at that exponent |
| DecimalAdd.ExactSumIsSum | rootfs/usr/lib/python3.14/_pydecimal.py:1110-1111 | the reference sum of the coefficients is the sum of the two real numbers |
| DecimalAdd.AddRoundsCorrectly | rootfs/usr/lib/python3.14/_pydecimal.py:1135-1194 | the sum of any finite operands, in every mode and precision, is their real sum rounded once with its signals; a zero sum has the sign the specification asks for |
| DecimalAdd.Add | rootfs/usr/lib/python3.14/_pydecimal.py:1122-1194 | the code, which replaces a far smaller operand, returns and signals exactly that; infinities and NaN as specified |
| DecimalAdd.AddInfinities | rootfs/usr/lib/python3.14/_pydecimal.py:1122-1133 | opposite infinities are an invalid operation, equal ones give themselves, and an infinity and a finite number give the infinity |
| DecimalAdd.Normalize | rootfs/usr/lib/python3.14/_pydecimal.py:5623-5649 | both operands end at one exponent, the larger one scaled exactly and the smaller replaced by one unit only below the threshold |
| DecimalAdd.ReplacementHarmless | rootfs/usr/lib/python3.14/_pydecimal.py:5635-5645 | replacing the smaller operand changes neither the fixed sum or difference nor any signal |
| DecimalAdd.PaddingHarmless | rootfs/usr/lib/python3.14/_pydecimal.py:1148-1157 | padding with more than prec zeros gives the same fixed result however many there are |
| DecimalAdd.AddZero | rootfs/usr/lib/python3.14/_pydecimal.py:1148-1157 | adding a zero through _rescale is fixing the exact sum |
| DecimalAdd.SumOfNormalized | rootfs/usr/lib/python3.14/_pydecimal.py:1159-1193 | combining the normalized operands and fixing is fixing the exact sum |
| IntegerRoots.FloorSqrt | rootfs/usr/lib/python3.14/_pydecimal.py:2747-2754 | from any start not below the root, the loop ends at floor(sqrt(c)), although its exit test looks at one side only |
| IntegerRoots.NewtonStaysAbove | rootfs/usr/lib/python3.14/_pydecimal.py:2749-2754 | a Newton step strictly decreases and stays at or above the floor of the root |
| IntegerRoots.SqrtNearest | rootfs/usr/lib/python3.14/_pydecimal.py:5676-5689 | terminates from every positive start with the integer nearest to sqrt(n); an error exactly for non-positive arguments |
| IntegerRoots.NearestSqrtUnique | rootfs/usr/lib/python3.14/_pydecimal.py:5676-5682 | only one integer satisfies a*a - a < n <= a*a + a |
| IntegerRoots.MeanAbove | rootfs/usr/lib/python3.14/_pydecimal.py:5687-5688 | after one step the iterate is never too small, whatever it was |
| IntegerRoots.MeanDecreases | rootfs/usr/lib/python3.14/_pydecimal.py:5687-5688 | from there on it never grows |
| IntegerRoots.MeanFixpoint | rootfs/usr/lib/python3.14/_pydecimal.py:5687-5689 | a fixed point of the step is the nearest root |
| IntegerRoots.DivNearestRounds | rootfs/usr/lib/python3.14/_pydecimal.py:5699-5705 | the nearest quotient is within half of the exact one, is even at a tie, and is the reference half-even rounding |
| IntegerRoots.Tangent | rootfs/usr/lib/python3.14/_pydecimal.py:2215-2219 | k**n >= a**(n-1) * (n*k - (n-1)*a) for all k, a: the weighted mean inequality in integers |
| IntegerRoots.RootStepAbove | rootfs/usr/lib/python3.14/_pydecimal.py:2214-2219 | a step of the n-th root loop never falls below any k with k**n <= x |
| IntegerRoots.FloorRoot | rootfs/usr/lib/python3.14/_pydecimal.py:2212-2219 | the loop terminates for every n > 1 and x > 1 with the floor of the n-th root |
| IntegerRoots.ExactWhenDivides | rootfs/usr/lib/python3.14/_pydecimal.py:2220-2221 | a == q and r == 0 holds exactly when x is a perfect n-th power |
| IntegerRoots.SmallIsNoPower | rootfs/usr/lib/python3.14/_pydecimal.py:2204-2206 | a number of at most n bits above 1 is no n-th power, so the early exit is right |
| IntegerRoots.NthRoot | rootfs/usr/lib/python3.14/_pydecimal.py:2203-2222 | a root is returned exactly when xc is a perfect n-th power and n divides xe, and it is the root |
| DecimalDivide.Divide | rootfs/usr/lib/python3.14/_pydecimal.py:1277-1334 | in all modes the quotient is the exact quotient rounded once with its signals; an exact one is as near the ideal exponent as its digits allow; zeros and infinities as specified |
| DecimalDivide.DividesSigned | rootfs/usr/lib/python3.14/_pydecimal.py:1277-1334 | the quotient of the signed real numbers is rounded once, with its own sign |
| DecimalDivide.DividesSigns | rootfs/usr/lib/python3.14/_pydecimal.py:1286 | for all operands, zeros and infinities too, a result that is not NaN is negative exactly when one operand is and the other is not |
| DecimalDivide.QuotientDigits | rootfs/usr/lib/python3.14/_pydecimal.py:1313-1321 | the integer quotient has at least prec + 1 digits |
| DecimalDivide.RatioPosition | rootfs/usr/lib/python3.14/_pydecimal.py:1318-1322 | the exact quotient is the integer one, or lies strictly between it and its successor, exactly as the remainder says |
| DecimalDivide.InexactQuotientFixed | rootfs/usr/lib/python3.14/_pydecimal.py:1322-1334 | an inexact quotient is not representable, and fixing the bumped one rounds it correctly |
| DecimalDivide.Strip | rootfs/usr/lib/python3.14/_pydecimal.py:1326-1331 | dropping zeros keeps the value and stops at the ideal exponent or at a nonzero last digit |
| DecimalSqrt.Sqrt | rootfs/usr/lib/python3.14/_pydecimal.py:2681-2778 | the root of every positive finite number is the real root rounded once half-even with its signals, at the ideal exponent when exact, and meets the statement by squares; the caller keeps its rounding mode and shares the flags |
| RootSquares.FixedRoot | rootfs/usr/lib/python3.14/_pydecimal.py:2712-2776 | by squares of rationals alone: a result without Inexact squares to the argument; an inexact one c * 10**e has full precision, and four times the argument lies between the squares of 2c - 1 and 2c + 1 units of 10**e, with c even on a bound; infinity only above every number that fits |
| RootSquares.NearestRootUnique | rootfs/usr/lib/python3.14/_pydecimal.py:2706-2710 | those bounds leave one coefficient at each exponent |
| RootSquares.SquaresAgree | rootfs/usr/lib/python3.14/_pydecimal.py:2712-2719 | the order of odd half units against the truncated root is the order of their squares against the argument |
| DecimalSqrt.RootBeforeFix | rootfs/usr/lib/python3.14/_pydecimal.py:2721-2770 | before the last rounding: the truncated root has exactly prec + 1 digits; it is bumped when inexact and moved to the ideal exponent when exact |
| DecimalSqrt.RootPosition | rootfs/usr/lib/python3.14/_pydecimal.py:2737-2755 | where the real root lies with respect to the integer root of the scaled number, including digits lost in scaling down |
| DecimalSqrt.RootOfMultiple | rootfs/usr/lib/python3.14/_pydecimal.py:2757-2764 | if n*n is a multiple of 100**s then n is a multiple of 10**s: the commented assertion at line 2760 |
| DecimalSqrt.InexactRootFixed | rootfs/usr/lib/python3.14/_pydecimal.py:2765-2775 | bumping a last digit 0 or 5 of an inexact root makes the second rounding harmless |
| Calendar.OrdToYmd | rootfs/usr/lib/python3.14/_pydatetime.py:93-153 | for every integer the result is a valid date with that ordinal, over all years |
| Calendar.DateRoundTrip | rootfs/usr/lib/python3.14/_pydatetime.py:68-153 | every valid date is recovered from its ordinal |
| Calendar.OrdOrder | rootfs/usr/lib/python3.14/_pydatetime.py:68-75 | ordinals order dates as the calendar does, and different dates have different ordinals |
| Calendar.YearsAddUp | rootfs/usr/lib/python3.14/_pydatetime.py:51-54 | the closed form with three divisions adds 365 or 366 days a year, for all years |
| Calendar.MonthsAddUp | rootfs/usr/lib/python3.14/_pydatetime.py:63-66 | the table of days before each month is the running sum of the month lengths |
| Calendar.MonthLengths | rootfs/usr/lib/python3.14/_pydatetime.py:38-61 | the lengths of the twelve months, with February by the Gregorian leap year rule |
| Calendar.MonthEstimate | rootfs/usr/lib/python3.14/_pydatetime.py:139-149 | the shift-by-5 estimate, corrected at most once, is the month |
| Calendar.Week1 | rootfs/usr/lib/python3.14/_pydatetime.py:2391-2399 | week 1 starts on the Monday of the week that holds 4 January |
| Calendar.IsoYearLength | rootfs/usr/lib/python3.14/_pydatetime.py:508-520 | a year has 53 weeks exactly when week 53 is accepted in it: its first Monday and the next year's are that many weeks apart |
| Calendar.IsoCalendarCorrect | rootfs/usr/lib/python3.14/_pydatetime.py:1245-1271 | isocalendar gives an existing week of its year and a weekday, and that day is the date |
| Calendar.IsoDateUnique | rootfs/usr/lib/python3.14/_pydatetime.py:1245-1271 | a day has only one ISO date, so isocalendar can give no other |
| Calendar.FromIsoAccepts | rootfs/usr/lib/python3.14/_pydatetime.py:503-532 | what is accepted: years 1 to 9999, existing weeks, days 1 to 7 |
| Calendar.FromIsoRoundTrip | rootfs/usr/lib/python3.14/_pydatetime.py:503-532 | every accepted ISO date maps to a date whose isocalendar it is |
| Calendar.IsoRoundTrip | rootfs/usr/lib/python3.14/_pydatetime.py:503-532 | every date of years 1 to 9999 is recovered from its ISO date |
| AbcCache.SubStep | rootfs/usr/lib/python3.14/_py_abc.py:131-147 | one level of the check (the resolution order, then registered classes and direct subclasses) is sound and complete for reachability |
| AbcCache.PlainSub | rootfs/usr/lib/python3.14/_py_abc.py:131-134 | a class not of ABCMeta answers from the method resolution order alone |
| AbcCache.NoCycles | rootfs/usr/lib/python3.14/_py_abc.py:65-68 | with ranks that fall along every edge from an abstract class, no walk returns to its start |
| AbcCache.RegisterKeepsRanks | rootfs/usr/lib/python3.14/_py_abc.py:61-68 | the two checks that register makes first preserve the existence of such ranks, so the recursion ends in every reachable state |
| AbcCache.NewClassKeepsRanks | rootfs/usr/lib/python3.14/_py_abc.py:35-52 | so does creating a class |
| AbcCache.RegisterMonotonic | rootfs/usr/lib/python3.14/_py_abc.py:68-70 | registration only adds answers, so positive caches stay right |
| AbcCache.RegisterTakesEffect | rootfs/usr/lib/python3.14/_py_abc.py:54-70 | after it the registered class is a subclass: an old negative answer can become wrong, which is why the counter must grow |
| AbcCache.NewClassNeutral | rootfs/usr/lib/python3.14/_py_abc.py:35-52 | creating a class changes no answer about older ones, so it need not touch the counter |
| AbcCache.NewClassAnswers | rootfs/usr/lib/python3.14/_py_abc.py:35-52 | the new class is a subclass of itself and of exactly what one of its bases is a subclass of, no older class is a subclass of it, and it is of ABCMeta exactly when asked for or when a base is |
| AbcCache.RegisterAnswers | rootfs/usr/lib/python3.14/_py_abc.py:54-70 | the exact effect of a registration: s becomes a subclass of c exactly when s is one of the registered class and c reaches the class registered with |
| AbcCache.RegisterKeepsInheritance | rootfs/usr/lib/python3.14/_py_abc.py:54-70 | every ABCMeta class in a resolution order still reaches the class whose order it is |
| AbcCache.NewClassKeepsInheritance | rootfs/usr/lib/python3.14/_py_abc.py:35-52 | so it does after class creation, because the new class is listed below its bases |
| AbcCache.InheritedAnswers | rootfs/usr/lib/python3.14/_py_abc.py:140-144 | in every reachable state a subclass of b is a subclass of all that b inherits from |
| AbcCache.RegistrationIsInherited | rootfs/usr/lib/python3.14/_py_abc.py:140-144 | a class registered with b is a subclass of all that b inherits from, found through the direct subclasses |
| AbcCache.RegisterKeepsCaches | rootfs/usr/lib/python3.14/_py_abc.py:68-69 | after registration and the increment every cache is sound: positive entries always, negative ones only under the current version |
| AbcCache.NewClassKeepsCaches | rootfs/usr/lib/python3.14/_py_abc.py:48-51 | so are they after class creation |
| AbcCache.ClearedRegistryIsStale | rootfs/usr/lib/python3.14/_py_abc.py:83-85 | the debugging helper that clears a registry takes an answer away and leaves the positive entry: two classes where sound caches become unsound |
| AbcCache.AbcRuntime.NewClass | rootfs/usr/lib/python3.14/_py_abc.py:35-52 | the new class joins the graph below its bases with empty caches; inheritance is kept and the counter stays |
| AbcCache.AbcRuntime.SubclassCheck | rootfs/usr/lib/python3.14/_py_abc.py:108-147 | answers exactly reachability in the current graph, terminates, keeps every cache sound, and remembers the answer in the cache it belongs to; positive entries are kept, negative ones as long as their version |
| AbcCache.AbcRuntime.SearchAny | rootfs/usr/lib/python3.14/_py_abc.py:135-144 | the loops over registered and direct subclasses find one exactly when there is one, though each check may change the caches |
| AbcCache.AbcRuntime.Register | rootfs/usr/lib/python3.14/_py_abc.py:54-70 | refuses non-classes and cycles, does nothing for known subclasses, otherwise adds the edge and raises the counter by one, so the caches need not be cleared |
| AbcCache.AbcRuntime.InstanceCheck | rootfs/usr/lib/python3.14/_py_abc.py:92-106 | answers reachability from the class or the type of the instance, through the inlined version test |
| AbcCache.Run | rootfs/usr/lib/python3.14/_py_abc.py:35-147 | every run of class creations, registrations and checks answers as a machine without caches |
| Unparser.Visitor.Traverse | rootfs/usr/lib/python3.14/_ast_unparse.py:147-156 | with the precedences dictionary overwritten before each child, a node is written exactly as the printing function says, and only entries of nodes inside it change |
| Unparser.Visitor.VisitUnaryOp | rootfs/usr/lib/python3.14/_ast_unparse.py:818-828 | the operator and its operand at the precedence of the operator |
| Unparser.Visitor.VisitBinOp | rootfs/usr/lib/python3.14/_ast_unparse.py:862-878 | both operands, one of them a precedence higher: the right one, or the left one for the power operator |
| Unparser.Visitor.VisitBoolOp | rootfs/usr/lib/python3.14/_ast_unparse.py:904-916 | each operand is printed one precedence higher than the one before it |
| Unparser.Visitor.VisitCompare | rootfs/usr/lib/python3.14/_ast_unparse.py:893-899 | all operands get their precedence before any is traversed, and it is still there when each is reached |
| Unparser.Visitor.VisitIfExp | rootfs/usr/lib/python3.14/_ast_unparse.py:761-769 | body, test and alternative with their precedences |
| Unparser.Visitor.VisitTuple | rootfs/usr/lib/python3.14/_ast_unparse.py:802-808 | items with commas, a trailing one after a single item |
| Unparser.Visitor.Visit | rootfs/usr/lib/python3.14/_ast_unparse.py:147-156 | the text of a whole tree |
| PyExpr.BindingOrder | rootfs/usr/lib/python3.14/_ast_unparse.py:14-36 | the whole order of binding strengths, with the operators of each level, is that of the language reference, nothing between two levels that follow each other |
| PyRoundTrip.RoundTrip | rootfs/usr/lib/python3.14/_ast_unparse.py:761-916 | a node printed at precedence p is read back at every grammar level up to p, in front of anything that does not continue it |
| PyRoundTrip.LeftRoundTrip | rootfs/usr/lib/python3.14/_ast_unparse.py:862-878 | operands of a left-associative chain are regrouped to the left when read |
| PyRoundTrip.PowerRoundTrip | rootfs/usr/lib/python3.14/_ast_unparse.py:862-878 | the power operator groups to the right |
| PyRoundTrip.UnaryExponent | rootfs/usr/lib/python3.14/_ast_unparse.py:862-878 | a unary operator as its right operand is printed in parentheses, although the grammar reads the same tree without them |
| PyRoundTrip.BoolLoopRoundTrip | rootfs/usr/lib/python3.14/_ast_unparse.py:904-916 | the operands of a boolean node, printed at rising precedences, are read back as one flat node |
| PyRoundTrip.CompareLoopRoundTrip | rootfs/usr/lib/python3.14/_ast_unparse.py:880-899 | comparison chains are read back whole |
| PyRoundTrip.ReadOperator | rootfs/usr/lib/python3.14/_ast_unparse.py:880-891 | "is" and "not" in front of an operand are never read as "is not" or "not in", nor the other way round |
| PyRoundTrip.ItemLoopRoundTrip | rootfs/usr/lib/python3.14/_ast_unparse.py:74-82 | tuple items are read back, in any position where a bare tuple may stand |
| PyRoundTrip.ParenthesesExactlyWhereNeeded | rootfs/usr/lib/python3.14/_ast_unparse.py:147-149 | a node is put in parentheses exactly when the grammar, at the level it is printed at, would not read it back without them |
| PyRoundTrip.PrintStarts | rootfs/usr/lib/python3.14/_ast_unparse.py:818-828 | a printed node never starts with a prefix operator weaker than its precedence |
| PyRoundTrip.ParseUndoesUnparse | rootfs/usr/lib/python3.14/_ast_unparse.py:147-156 | parsing the tokens written for any expression over these nodes gives the same tree |
| PyRoundTrip.UnparseInjective | rootfs/usr/lib/python3.14/_ast_unparse.py:147-156 | different trees never have the same text |
| PyRoundTrip.UnparseThenParse | rootfs/usr/lib/python3.14/_ast_unparse.py:147-156 | the visitor and the parser end to end |
| BufferedIO.BufferedReader.Read | rootfs/usr/lib/python3.14/_pyio.py:1050-1061 | as a plain stream: an error below -1, else the bytes at the visible position, exactly n of them unless the contents end or a raw call blocked; None only when blocked with nothing to give; raw calls only when the buffer is too short |
| BufferedIO.BufferedReader.ReadUnlocked | rootfs/usr/lib/python3.14/_pyio.py:1063-1113 | buffered bytes are given without a raw call, otherwise as above |
| BufferedIO.BufferedReader.ReadToEnd | rootfs/usr/lib/python3.14/_pyio.py:1071-1088 | everything the raw object gives up to the end of the contents or a blocked call, through readall or the loop, and nothing stays buffered |
| BufferedIO.BufferedReader.ReadAllChunks | rootfs/usr/lib/python3.14/_pyio.py:1078-1088 | without readall the loop stops at exactly the first raw read that gives nothing, and joins exactly the bytes before it |
| BufferedIO.BufferedReader.ReadChunks | rootfs/usr/lib/python3.14/_pyio.py:1096-1109 | the slow loop asks for max(buffer_size, n) bytes each time and ends under any short reads, with exactly the bytes those reads add up to |
| BufferedIO.BufferedReader.ReadMore | rootfs/usr/lib/python3.14/_pyio.py:1096-1113 | what was read beyond n stays buffered, less than max(buffer_size, n) bytes |
| BufferedIO.BufferedReader.PeekUnlocked | rootfs/usr/lib/python3.14/_pyio.py:1126-1135 | the position stays; one raw read, for what a full buffer lacks, exactly when too little is buffered, and all it gives joins the buffer; the result is within buffer_size exactly when the buffer was before the call |
| BufferedIO.BufferedReader.Read1 | rootfs/usr/lib/python3.14/_pyio.py:1137-1149 | as many bytes as size allows (the buffer size for a negative one) of what is buffered or, exactly when nothing is, of what one raw read gives |
| BufferedIO.BufferedReader.Tell | rootfs/usr/lib/python3.14/_pyio.py:1204-1206 | the visible position: raw position minus unread bytes, never needing the clamp |
| BufferedIO.BufferedReader.Seek | rootfs/usr/lib/python3.14/_pyio.py:1208-1217 | relative to the visible position; a refused seek loses nothing |
| BufferedIO.SeekOrigins | rootfs/usr/lib/python3.14/_pyio.py:1208-1217 | the origins are the start, the position and the end of the contents, and one more of offset is one more of position |
| BufferedIO.BufferedReader.Run | rootfs/usr/lib/python3.14/_pyio.py:1063-1217 | every run of calls is a run of a plain stream with one position; when no read asks for more than buffer_size + 1 bytes, no peek gives more than buffer_size |
| BufferedIO.PeekBeyondBuffer | rootfs/usr/lib/python3.14/_pyio.py:1096-1135 | for every larger read, of n >= buffer_size + 2 bytes, a raw object that falls one byte short and then gives what it is asked for makes the next peek give n - 1 bytes, more than the docstring allows |
| BufferedIO.ReadsInOrder | rootfs/usr/lib/python3.14/_pyio.py:1063-1149 | in such a run without seeks the bytes given are the contents in order, none skipped and none repeated |
| BufferedIO.BufferingInvisible | rootfs/usr/lib/python3.14/_pyio.py:1050-1057 | while nothing blocks, two runs of the same reads, seeks and tells give the same answers whatever the buffer sizes and raw read lengths |
| BufferedIO.BufferedWriter.FlushUnlocked | rootfs/usr/lib/python3.14/_pyio.py:1281-1296 | raw output plus buffer does not change under partial writes; blocked exactly when something is left |
| BufferedIO.BufferedWriter.Write | rootfs/usr/lib/python3.14/_pyio.py:1242-1268 | raw output plus buffer grows by exactly the accepted prefix, whose length is returned or carried by the exception; all is accepted unless a raw write blocks, nothing goes to the raw object while it fits the buffer, and the buffer ends within its size but for a blocked first flush of an already oversized one |
| BufferedIO.CutStream | rootfs/usr/lib/python3.14/_pyio.py:1260-1267 | cutting back the buffer gives up only the end of the new bytes, and the reported count is right |
| BufferedIO.BufferedWriter.Tell | rootfs/usr/lib/python3.14/_pyio.py:1298-1299 | the length of the whole stream |
| BufferedIO.BufferedWriter.Run | rootfs/usr/lib/python3.14/_pyio.py:1242-1299 | over every run of writes and flushes the stream is the accepted prefixes in order and the buffer stays within its size |
| BufferedIO.BufferedWriter.WriteAll | rootfs/usr/lib/python3.14/_pyio.py:1242-1268 | offering the refused rest again loses nothing and repeats nothing, and something is left only after at least as many blocked raw writes as attempts |
| NewlineDecoder.TwoPassesAreOneScan | rootfs/usr/lib/python3.14/_pyio.py:1979-1989 | the two guarded replacements are a one-pass CR / LF / CRLF scanner, and the three counts see exactly its kinds |
| NewlineDecoder.NewlinesMeaning | rootfs/usr/lib/python3.14/_pyio.py:2020-2030 | newlines lists a kind exactly when some position of the text has a line end of that kind |
| NewlineDecoder.ReleasedConserves | rootfs/usr/lib/python3.14/_pyio.py:1968-1976 | what is released and what is held back are the text |
| NewlineDecoder.ChunksConserve | rootfs/usr/lib/python3.14/_pyio.py:1962-1976 | over a run nothing is lost or added and no chunk ends inside a CRLF |
| NewlineDecoder.ScanAppend | rootfs/usr/lib/python3.14/_pyio.py:1978-1989 | scanning two pieces that do not cut a CRLF is scanning the whole |
| NewlineDecoder.ChunkIndependence | rootfs/usr/lib/python3.14/_pyio.py:1962-1991 | for every split of a text the joined output and the kinds are those of decoding it whole |
| NewlineDecoder.IncrementalNewlineDecoder.Decode | rootfs/usr/lib/python3.14/_pyio.py:1962-1991 | one call releases the text but a possible half CRLF, translated when asked, and records its kinds |
| NewlineDecoder.IncrementalNewlineDecoder.DecodeAll | rootfs/usr/lib/python3.14/_pyio.py:1962-1991 | a run of calls, over any inner decoder |
| NewlineDecoder.IncrementalNewlineDecoder.GetState | rootfs/usr/lib/python3.14/_pyio.py:1993-2002 | the inner state with the pending carriage return as lowest flag bit |
| NewlineDecoder.IncrementalNewlineDecoder.SetState | rootfs/usr/lib/python3.14/_pyio.py:2004-2008 | restores both |
| NewlineDecoder.IncrementalNewlineDecoder.Reset | rootfs/usr/lib/python3.14/_pyio.py:2010-2014 | back to the start, the inner decoder too |
| NewlineDecoder.Resume | rootfs/usr/lib/python3.14/_pyio.py:1993-2008 | a decoder put in the state of another gives the same outputs from then on |
| NewlineDecoder.DecodeText | rootfs/usr/lib/python3.14/_pyio.py:1962-2030 | a new decoder fed a text in any pieces gives its translation and exactly its line-end kinds |

## Left out

Contracts that are narrower than the source:

- PowerCache.ComputePowers: requires the exact condition of EndsExactlyWhen; on all other inputs the source does not return.
- DecimalText.StrToIntInner: the cut-off is at least 1 and the input holds ASCII digits only.
- DecimalText.StrToInt: spaces and underscores, which the source removes, are excluded.
- DecimalText.IntToDecimalString: the cut-off is at least 1; the floating-point digit estimate is an arbitrary integer.
- DecimalContext.Context.RaiseError: traps and ignored flags are off; a trapped signal raises an exception instead of returning.
- DecimalFix.FixRounds: NaN payloads and signalling NaN are not modelled; NaN is one value that passes through silently.
- IntegerRoots.NthRoot: only the root part of _power_exact, for xc > 1 and n > 1; the cases before it and the final power are not modelled.
- Calendar.FromIsoAccepts: the range check on the resulting date, made later by the date constructor, is not part of it; the last days of ISO year 9999 fall in year 10000.
- AbcCache.Run: subclass hooks return NotImplemented, classes stay alive (no weak references), and the debugging helpers that clear registries or caches are not called (ClearedRegistryIsStale shows why).
- AbcCache.AbcRuntime.NewClass: classes are numbers and the resolution order is a set; its linearization, abstract methods and the interpreter's own metaclass checks are not modelled. Only classes of ABCMeta expand edges, so the acyclicity is that of the graph the recursion walks.
- Unparser.Visitor.Visit: no node object occurs twice in the tree, so the dictionary key is the position of the node; text is a sequence of tokens without the spaces between them.
- PyRoundTrip.ParseUndoesUnparse: boolean nodes have at least two operands and comparisons as many operators as operands.
- BufferedIO.BufferedReader.constructor: a buffer size that is not positive and a raw object that is not readable are rejected by the source with an exception; here they are excluded.
- BufferedIO.BufferedWriter.constructor: the same for writers.
- BufferedIO.BufferedReader.Run: the raw object follows an arbitrary finite script of read lengths and gives everything afterwards, which covers every finite run; nobody else moves the raw stream, its contents do not change, and it has the three classic seek origins; a target before the start is refused by the raw object.
- BufferedIO.BufferedWriter.Write: a raw write returns None or between 1 and len bytes; the error for impossible counts, and a raw object that raises BlockingIOError itself, are not modelled.
- BufferedIO.BufferedWriter.Run: seeking and truncating are not part of a run; the raw object only appends.
- NewlineDecoder.Resume: the kinds of line ends seen so far are not part of what getstate returns, so they are not restored.
- NewlineDecoder.IncrementalNewlineDecoder.DecodeAll: an inner decoder is any function of its state, the input and the final flag; the codecs themselves are not modelled.

Not modelled:

- The Go code of the repository (system calls, Redis, netlink, Envoy, YAML): plumbing over libraries that are not part of this model.
- `_pydecimal`: exp, ln, log10 and the error bounds of general powers, parsing and formatting, hashing, comparison.
- `_pylong`: the conversions through the C decimal module and its float logarithms.
- `_pydatetime`: time zones, fold, timedelta arithmetic with floats, strftime, pickling.
- `_ast_unparse`: statements, f-strings, string quoting, constants and the other expression nodes.
- `_pyio`: real files, locks, closed-file checks, codecs, `TextIOWrapper` and `readinto` through memory views.
