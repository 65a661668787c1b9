# Deliberately bad implementations, modelled and proved

This project is a Dafny model of the coding-war-crimes scripts. Each script does one everyday task in a deliberately wasteful or misleading way and explains in its comments what the right way would be. There are 17 of them here:

- FizzBuzz;
- a calculator on decimal strings;
- a "hash map" that is one linked list;
- Boolean operators made of arithmetic;
- a for loop written as recursion over a global counter;
- a regex-flavoured JSON parser;
- a "paranoid" binary search;
- naive Fibonacci;
- a singleton kept in a text file;
- a CRUD API behind one POST endpoint;
- exception-driven age validation;
- exception-driven null checks;
- string reversal through bit shifts;
- a stack made from a deque;
- two queues made from two stacks;
- a binary tree stored as one CSV string;
- a linked list whose nodes are files.

Each script is its own module, in a file named after it. Three shared modules support them:

- `Wrappers` holds Option and Result. A Python exception is a `Failure` carrying its exception class and message.
- `PyStr` holds the Python string built-ins the scripts call: slicing reversal, `split`/`join`, `strip`, `str(int)`, `int(str)` and `upper`.
- `PyDict` is an insertion-ordered Python dict.

Code that changes state step by step is modelled as classes with fields and methods with loops. Each method is proved against a specification function, and the lemmas are stated about those functions. Examples are the linked hash map, the two stack-based containers, the CSV tree, the file-backed singleton, the file-node linked list and the global `items` of the API. Pure code is modelled as functions. Examples are the Boolean operators, null checks, validators, Fibonacci and the JSON value parser.

Where the code does not do what its comments say, the model proves what the code does. These facts are covered in "## Findings" and in the table below:

- The "fighting" queue is last in, first out.
- `divide_strings` never returns for a non-zero divisor.
- `subtract_strings` wraps around when the result would be negative.
- `multiply_strings` places the point by counting points, not decimals.
- The Fibonacci docstring's call-count formula is wrong.

Two more results go against the scripts' own messages:

- The "corrupted" bit reversal is exact for every character below code 256 (`BitReverse.BelowByteIsExact`).
- Appending a value already at the end of the file-node list makes its node point to itself, so `traverse` never ends (`FileLinkedList.AppendDuplicateLast`, `FileLinkedList.AppendOneTwice`).

## Model

| member | source | states |
|---|---|---|
| PyStr.Reverse | days/days_017__Reversed_bit_roles.py:35 | `s[::-1]` keeps the length, with element k taken from position len-1-k (ReverseAt) |
| PyStr.ReverseAt | days/days_017__Reversed_bit_roles.py:35 | element k of the reversal is element len-1-k of the input |
| PyStr.ReverseReverse | days/days_002__war_Calculator.py:74 | reversing twice gives the input back |
| PyStr.ReverseAppend | days/days_002__war_Calculator.py:89 | the reversal of a concatenation is the reversed parts in swapped order |
| PyStr.ReverseSnoc | days/days_002__war_Calculator.py:89 | reversing after appending an element puts that element first |
| PyStr.DigitChar | days/days_002__war_Calculator.py:84 | `chr(d + 48)` for a digit d is a digit character whose `ord - 48` is d |
| PyStr.IsSpace | days/days_011__singleton_aint_single.py:319 | the characters Python's `str.isspace()` accepts, which `strip()` removes: ASCII whitespace, the separators U+001C-U+001F, and the Unicode spaces and line and paragraph separators |
| PyStr.LStripSpace | days/days_007__JSON_REGEX_parser.py:177 | `strip()`, left half: drops exactly the leading whitespace |
| PyStr.RStripSpace | days/days_007__JSON_REGEX_parser.py:177 | `strip()`, right half: drops exactly the trailing whitespace |
| PyStr.Strip | days/days_011__singleton_aint_single.py:319 | `str.strip()` with no argument: leading whitespace removed, then trailing whitespace |
| PyStr.StripNoSpaceEnds | days/days_011__singleton_aint_single.py:319 | text without whitespace at either end is left unchanged by `strip()` |
| PyStr.LStripChar | days/days_002__war_Calculator.py:60 | `lstrip("0")` drops exactly the leading run of the character |
| PyStr.RStripChar | days/days_002__war_Calculator.py:65 | `rstrip("0")` drops exactly the trailing run of the character |
| PyStr.Split | days/days_022__binary__tree_street.py:484 | `split(",")` returns at least one part |
| PyStr.Join | days/days_022__binary__tree_street.py:497 | `sep.join(parts)`: the parts with one separator between neighbours, and "" for no parts |
| PyStr.JoinSplit | days/days_022__binary__tree_street.py:484-497 | joining the parts of a split gives the text back |
| PyStr.SplitJoin | days/days_022__binary__tree_street.py:484-497 | splitting a join gives the parts back when no part holds the separator |
| PyStr.SplitPartsHaveNoSep | days/days_022__binary__tree_street.py:484 | no part of a split holds the separator |
| PyStr.SplitAtSep | days/days_022__binary__tree_street.py:484 | a part without separator followed by the separator is the first part |
| PyStr.JoinSnoc | days/days_022__binary__tree_street.py:520-521 | appending an item and joining adds the separator and the item at the end |
| PyStr.FirstAt | days/days_011__singleton_aint_single.py:321 | the position of the first occurrence of the character |
| PyStr.SplitFirst | days/days_011__singleton_aint_single.py:320-321 | `split("=", 1)`: none exactly when there is no '='; otherwise the text around the first '=' |
| PyStr.SplitFirstAfter | days/days_011__singleton_aint_single.py:321 | a key without '=' followed by '=' splits back into the key and the rest |
| PyStr.LineEnd | days/days_023__linked_disks.py:541 | the first line break of the text, or its end when there is none |
| PyStr.SplitLines | days/days_023__linked_disks.py:541 | `str.splitlines()`: the lines without their breaks, "\r\n" as one break, and no empty last line after a final break |
| PyStr.SplitLinesCons | days/days_023__linked_disks.py:541 | `splitlines()` of a line without breaks and "\n" starts with that line |
| PyStr.NatToStr | days/days_022__binary__tree_street.py:520 | `str(n)`: the shortest decimal digits whose value is n |
| PyStr.IntToStr | days/days_022__binary__tree_street.py:520 | `str(i)`: a non-empty sign and digits, without ',', '=' or line break |
| PyStr.ParseInt | days/days_014__exceptional_error.py:330 | `int(text)` fails only with ValueError |
| PyStr.ParseIntEmpty | days/days_014__exceptional_error.py:330 | `int("")` raises ValueError |
| PyStr.ParseIntToStr | days/days_022__binary__tree_street.py:520-572 | `int(str(i)) == i` |
| PyStr.IntToStrInjective | days/days_022__binary__tree_street.py:520 | distinct integers have distinct decimal forms |
| PyStr.Upper | days/days_016__Null_fit_check.py:16 | `upper()` upper-cases the ASCII letters a-z and leaves every other character as it is, so the length is kept |
| PyDict.Keys | days/days_011__singleton_aint_single.py:339 | the keys of the entries, in iteration order |
| PyDict.Values | days/days_011__singleton_aint_single.py:339 | the values of the entries, in iteration order |
| PyDict.Get | days/days_011__singleton_aint_single.py:280 | `d.get(k)` is None exactly when k is absent, otherwise the value of k's entry |
| PyDict.IndexOf | days/days_011__singleton_aint_single.py:322 | the iteration position of a present key |
| PyDict.GetAt | days/days_011__singleton_aint_single.py:280 | in a dict, each entry is what `get` of its key returns |
| PyDict.PutKeepsDistinct | days/days_011__singleton_aint_single.py:322 | an assignment keeps the keys distinct |
| PyDict.GetPut | days/days_011__singleton_aint_single.py:322 | after `d[k] = v`, `get(k)` is v and every other key reads as before |
| PyDict.PutPresentKeepsKeys | days/days_011__singleton_aint_single.py:322 | overwriting a present key keeps the key order |
| PyDict.PutAbsentAppendsKey | days/days_011__singleton_aint_single.py:322 | a new key goes to the end of the iteration order |
| PyDict.RemoveKeepsDistinct | days/days_013__permanent_rest_API.py:310 | a deletion keeps the keys distinct |
| PyDict.GetRemove | days/days_013__permanent_rest_API.py:310 | after `del d[k]`, k is absent and every other key reads as before |
| FizzBuzz.Divisible15 | days/days_001__FizzBuzz.py:69-72 | 15 divides i exactly when 3 and 5 both do, so the `i % 15` test is the "both" case |
| FizzBuzz.Classify | days/days_001__FizzBuzz.py:69-72 | "FizzBuzz" iff 3 and 5 divide i, "Fizz" iff only 3 does, "Buzz" iff only 5 does, otherwise str(i) |
| FizzBuzz.FizzBuzz | days/days_001__FizzBuzz.py:64-73 | one line per i in range(1, n + 1), in order, each the classification of i; no lines when n < 1 |
| StringCalculator.StripLeadingZeros | days/days_002__war_Calculator.py:59-60 | `lstrip("0") or "0"`: a non-empty suffix of the text after a run of zeros, "0" when nothing else is left |
| StringCalculator.StripKeepsNumber | days/days_002__war_Calculator.py:59-60 | on a numeral, stripping leading zeros keeps the number, its decimals and its point |
| StringCalculator.NormalizeDecimal | days/days_002__war_Calculator.py:63-66 | text without a point is unchanged; with one, a prefix that does not end in a point |
| StringCalculator.NormalizeKeepsNumber | days/days_002__war_Calculator.py:63-66 | normalising keeps the number read at its old scale, uses no more decimals and leaves no trailing zero |
| StringCalculator.AlignDecimals | days/days_002__war_Calculator.py:167-178 | both operands get a point and zeros up to the larger number of decimals |
| StringCalculator.AlignKeepsNumbers | days/days_002__war_Calculator.py:167-178 | aligned operands have equally many decimals and spell the same numbers read at that scale |
| StringCalculator.AlignOperands | days/days_002__war_Calculator.py:70-71 | operands are aligned when either has a point and left as they are otherwise; both keep their numbers |
| StringCalculator.AddAligned | days/days_002__war_Calculator.py:72-88 | the digit loop with carry gives the sum at the operands' scale, with the point where theirs is |
| StringCalculator.AddStrings | days/days_002__war_Calculator.py:69-89 | `add_strings` spells the exact sum; on integers its digits are the sum's |
| StringCalculator.SubtractAligned | days/days_002__war_Calculator.py:95-110 | the digit loop gives a minus the digits of b beneath it, plus ten to the length when a borrow is left |
| StringCalculator.SubtractStrings | days/days_002__war_Calculator.py:92-112 | `subtract_strings` gives the difference modulo a power of ten: exact when a is not below b |
| StringCalculator.Tidy | days/days_002__war_Calculator.py:112 | trailing and leading zeros removed keep the number; on integers no leading zero is left |
| StringCalculator.SignedSubtract | days/days_002__war_Calculator.py:92-112 | intended subtraction: a '-' exactly when a is below b, followed by the distance between them |
| StringCalculator.SubtractWrapsAround | days/days_002__war_Calculator.py:92-112 | `subtract_strings("3", "5")` gives "8" |
| StringCalculator.SignedSubtractExample | days/days_002__war_Calculator.py:92-112 | the intended subtraction of "3" and "5" gives "-2" |
| StringCalculator.CountChar | days/days_002__war_Calculator.py:116 | `count(ch)` is zero exactly when the character does not occur |
| StringCalculator.PointCount | days/days_002__war_Calculator.py:116 | a numeral holds one point or none |
| StringCalculator.RemovePoint | days/days_002__war_Calculator.py:117-118 | `replace(".", "")` leaves only digits of a numeral |
| StringCalculator.RemovePointValue | days/days_002__war_Calculator.py:117-118 | without its point a numeral spells the same integer and has all its digits |
| StringCalculator.MultiplyByDigit | days/days_002__war_Calculator.py:122-129 | one row of the schoolbook product spells x times the digit, shifted i places |
| StringCalculator.MultiplyDigits | days/days_002__war_Calculator.py:120-130 | the rows added from "0" spell the product of the two digit strings |
| StringCalculator.SlicePoint | days/days_002__war_Calculator.py:133 | `res[:-k] + "." + res[-k:]` adds exactly one character |
| StringCalculator.SlicePointValue | days/days_002__war_Calculator.py:133 | slicing in the point keeps the integer and leaves k decimals, or all digits when res is shorter |
| StringCalculator.PlacePointValue | days/days_002__war_Calculator.py:132-133 | with zeros in front, the point lands exactly k places from the end and the integer is kept |
| StringCalculator.SlicePlaceAgree | days/days_002__war_Calculator.py:133 | Python's slicing and the padded placement agree when res has at least k digits |
| StringCalculator.MultiplyStrings | days/days_002__war_Calculator.py:115-134 | `multiply_strings` reads as the product at the scale of the number of points counted |
| StringCalculator.SliceAndNormalize | days/days_002__war_Calculator.py:132-134 | the point sliced in when there is one to place, then normalised, keeps the product at that scale |
| StringCalculator.MultiplyCountsPoints | days/days_002__war_Calculator.py:116 | `multiply_strings("1.25", "2")` reads 25.0 instead of 2.50 |
| StringCalculator.MultiplyDecimals | days/days_002__war_Calculator.py:115-134 | intended multiplication: read at the sum of the operands' decimals, the result spells their product |
| StringCalculator.PlaceAndNormalize | days/days_002__war_Calculator.py:132-134 | the point placed k digits from the end, then normalised, keeps the integer at scale k |
| StringCalculator.MultiplyDecimalsExample | days/days_002__war_Calculator.py:115-134 | the intended multiplication of "1.25" and "2" reads 2.50 |
| StringCalculator.DivideGuard | days/days_002__war_Calculator.py:156 | the loop test `subtract_strings(remainder, b)[0] != "-"` always holds |
| StringCalculator.DivideStrings | days/days_002__war_Calculator.py:137-158 | "0" as divisor raises ZeroDivisionError; any other divisor keeps the first digit's loop running |
| StringCalculator.DivideNeverReturns | days/days_002__war_Calculator.py:153-158 | `divide_strings("10", "4")` is still in its loop after any number of steps |
| StringCalculator.Below | days/days_002__war_Calculator.py:156 | intended loop test: the signed difference starts with '-' exactly when the remainder is below b |
| StringCalculator.TakeAway | days/days_002__war_Calculator.py:157 | the remainder becomes the exact difference |
| StringCalculator.CountSubtractions | days/days_002__war_Calculator.py:155-158 | intended inner loop: remainder = count times b plus what is left, which is below b |
| StringCalculator.LongDivide | days/days_002__war_Calculator.py:153-159 | intended digit loop: one quotient digit per digit of a, spelling the integer quotient |
| StringCalculator.PlaceQuotient | days/days_002__war_Calculator.py:161-164 | the point k places from the end keeps the quotient at scale k; a negative k shifts it up |
| StringCalculator.DivideDecimals | days/days_002__war_Calculator.py:137-164 | intended division: zero of any spelling raises; otherwise a / b cut after the decimals of a plus PRECISION minus those of b |
| StringCalculator.DivideDecimalsExample | days/days_002__war_Calculator.py:137-164 | the intended division of "10" by "4" reads 2.50000 |
| StringCalculator.Calculate | days/days_002__war_Calculator.py:181-190 | "ERR" exactly for an unknown op; + gives the exact sum, - the difference modulo a power of ten (exact when x >= y), * the product whenever the counted points fit the digits; / raises for "0" and otherwise never returns |
| StringCalculator.CalculateCorrected | days/days_002__war_Calculator.py:181-190 | with the corrected operations: "ERR" exactly for an unknown op; the exact sum; a sign exactly when x < y and the distance; the product at the sum of the decimals; a raise exactly on a zero divisor, otherwise the quotient truncated to PRECISION decimals |
| LinkedHashMap.Node.constructor | days/days_004__linierly_linked_hashmap.py:48-52 | a node holds the given key, value and successor |
| LinkedHashMap.HashMap.constructor | days/days_004__linierly_linked_hashmap.py:56-57 | a new map has no head and stores nothing |
| LinkedHashMap.HashMap.Put | days/days_004__linierly_linked_hashmap.py:59-81 | the stored entries become those of dict assignment: a present key is overwritten in its node (the chain is unchanged), a new key is a fresh node appended at the tail |
| LinkedHashMap.HashMap.FindKeyOrTail | days/days_004__linierly_linked_hashmap.py:68-79 | the walk stops at the node holding key, or at the tail exactly when no node holds it |
| LinkedHashMap.HashMap.SetValueAt | days/days_004__linierly_linked_hashmap.py:71-73 | only node i's value changes |
| LinkedHashMap.HashMap.AppendAfter | days/days_004__linierly_linked_hashmap.py:81 | one fresh node is added after the tail and the entry is appended |
| LinkedHashMap.HashMap.Get | days/days_004__linierly_linked_hashmap.py:83-96 | the value of the node holding key, or None when there is none |
| LinkedHashMap.HashMap.UnlinkAt | days/days_004__linierly_linked_hashmap.py:115-117 | node i leaves the chain and entry i leaves the contents; the rest keep their order |
| LinkedHashMap.HashMap.UnlinkHead | days/days_004__linierly_linked_hashmap.py:107-109 | the head node and the first entry are dropped |
| LinkedHashMap.HashMap.Remove | days/days_004__linierly_linked_hashmap.py:98-122 | the result is True exactly when the key was present; the contents become those of deleting the key from a dict, and its node alone leaves the chain |
| LinkedHashMap.HashMap.FindAfterHead | days/days_004__linierly_linked_hashmap.py:111-120 | the walk past the head stops at the node holding key, with its predecessor, or runs off the end exactly when the key is absent |
| LinkedHashMap.HashMap.Contains | days/days_004__linierly_linked_hashmap.py:124-136 | True exactly when some node holds the key |
| LinkedHashMap.HashMap.GetKeys | days/days_004__linierly_linked_hashmap.py:138-149 | the keys in chain order, which is first-insertion order |
| LinkedHashMap.HashMap.GetValues | days/days_004__linierly_linked_hashmap.py:151-162 | the values in chain order |
| LinkedHashMap.HashMap.GetItems | days/days_004__linierly_linked_hashmap.py:164-175 | the (key, value) pairs in chain order |
| LinkedHashMap.ItemsAreKeysAndValues | days/days_004__linierly_linked_hashmap.py:138-175 | items()[i] is (keys()[i], values()[i]) and the three have the same length |
| LinkedHashMap.PutThenGet | days/days_004__linierly_linked_hashmap.py:59-136 | after put(k, v), get(k) is v and contains(k) is True |
| LinkedHashMap.RemoveThenContains | days/days_004__linierly_linked_hashmap.py:98-136 | remove reports whether the key was present (False on an empty map), and afterwards contains is False |
| ArithmeticBoolean.BoolAnd | days/days_005__Boolean_with_ARITHMETIC.py:97-107 | on 0/1 inputs the product is the truth table of AND |
| ArithmeticBoolean.BoolOr | days/days_005__Boolean_with_ARITHMETIC.py:110-129 | on 0/1 inputs a + b - ab is the truth table of OR |
| ArithmeticBoolean.BoolNot | days/days_005__Boolean_with_ARITHMETIC.py:132-144 | on 0/1 inputs 1 - a is the truth table of NOT |
| ArithmeticBoolean.BoolXor | days/days_005__Boolean_with_ARITHMETIC.py:147-159 | the result is always 0 or 1 (Python's % is non-negative), and on 0/1 inputs it is the truth table of XOR |
| ArithmeticBoolean.BoolOrIsMin | days/days_005__Boolean_with_ARITHMETIC.py:116-119 | on bits the OR formula agrees with the alternative min(a + b, 1) the docstring names |
| ArithmeticBoolean.BoolNotNot | days/days_005__Boolean_with_ARITHMETIC.py:132-144 | NOT applied twice gives back any integer |
| ArithmeticBoolean.InvalidInputs | days/days_005__Boolean_with_ARITHMETIC.py:197-199 | bool_and(5, 7) is 35 and bool_or(3, 4) is -5, neither of them a bit |
| CursiveFor.CursiveForLoop.constructor | days/days_006__Cursive_for_loop.py:135 | the global counter starts at 0 and nothing has been recorded |
| CursiveFor.Loop | days/days_006__Cursive_for_loop.py:175-192 | one call of cursive_for: RecursionError when no frame is left; otherwise the counter is set to start when it is 0, a counter at or past end resets it to 0 and returns, and otherwise the action runs, the counter moves by step and the call recurses |
| CursiveFor.Act | days/days_006__Cursive_for_loop.py:185 | action(i): records (tag, i), and for the nested action then runs the inner cursive_for on the same counter |
| CursiveFor.CursiveForLoop.CursiveFor | days/days_006__Cursive_for_loop.py:138-189 | the new counter, the new trace and the result are exactly those of the recursive definition of one cursive_for call |
| CursiveFor.CursiveForLoop.RunAction | days/days_006__Cursive_for_loop.py:185 | running the action changes the counter and trace exactly as the definition of the action says |
| CursiveFor.Visits | days/days_006__Cursive_for_loop.py:207-209 | entry k is index i + k·step and lies below end: what range(i, end, step) visits |
| CursiveFor.FromPositiveIndex | days/days_006__Cursive_for_loop.py:175-189 | from a positive counter the loop records the range from the counter and resets it, given enough stack; with too little stack it raises RecursionError |
| CursiveFor.PlainLoop | days/days_006__Cursive_for_loop.py:138-189 | from a zero counter, with start >= 0 and step > 0, the action runs on exactly range(start, end, step) and the counter is reset |
| CursiveFor.EmptyRange | days/days_006__Cursive_for_loop.py:179-181 | an empty range never calls the action and leaves the counter at 0 |
| CursiveFor.FiveValues | days/days_006__Cursive_for_loop.py:202-204 | the demo loop over range(0, 5) records 0, 1, 2, 3, 4 |
| CursiveFor.CountIsVisits | days/days_006__Cursive_for_loop.py:207-209 | the number of visited indices is the number of iterations of the range |
| CursiveFor.TooDeep | days/days_006__Cursive_for_loop.py:216-222 | a 2000-iteration loop raises RecursionError with 2000 or fewer frames available |
| CursiveFor.CountFromOne | days/days_006__Cursive_for_loop.py:216-222 | range(1, end) has end - 1 iterations |
| CursiveFor.CountShift | days/days_006__Cursive_for_loop.py:207-209 | shifting a range by one step keeps its iteration count |
| CursiveFor.NonPositiveStepDiverges | days/days_006__Cursive_for_loop.py:179-189 | with step <= 0 and a non-empty range the counter never reaches end, so every stack is exhausted |
| CursiveFor.NegativeStartCycles | days/days_006__Cursive_for_loop.py:175-192 | for any step > 0 and any positive end, a start of -(c·step) passes through 0, which re-initialises the counter to start, so the loop cycles until every stack is exhausted |
| CursiveFor.NegativeStartCyclesExample | days/days_006__Cursive_for_loop.py:175-192 | range(-2, 3) cycles -2, -1, 0 forever, from any counter between -2 and 0 |
| CursiveFor.InnerFromOne | days/days_006__Cursive_for_loop.py:233-236 | the inner loop entered with the shared counter at 1 records only 1 and resets the counter (or runs out of stack) |
| CursiveFor.OuterStuckAtOne | days/days_006__Cursive_for_loop.py:233-241 | once the shared counter is 1, every outer step is undone by the inner loop's reset, so the outer loop cannot finish |
| CursiveFor.NestedNeverFinishes | days/days_006__Cursive_for_loop.py:230-243 | the nested demo raises RecursionError for every stack depth |
| CursiveFor.PlainLoopOrFail | days/days_006__Cursive_for_loop.py:233-236 | the first inner loop leaves the counter at 0 (or runs out of stack) |
| RegexJson.ScanText | days/days_007__JSON_REGEX_parser.py:286-305 | after reading a prefix the depth is the bracket balance, there is one cut per split and no more splits than maxsplit allows |
| RegexJson.SplitTopLevel | days/days_007__JSON_REGEX_parser.py:264-307 | at least one part, none longer than the text |
| RegexJson.SplitTopLevelLoop | days/days_007__JSON_REGEX_parser.py:286-307 | the character loop returns the parts of the split definition |
| RegexJson.JoinGrowLast | days/days_007__JSON_REGEX_parser.py:303-304 | adding a character to the part being built adds it to the end of the joined text |
| RegexJson.ScanJoin | days/days_007__JSON_REGEX_parser.py:291-305 | after any prefix, the parts and the current part joined by the delimiter give the prefix back |
| RegexJson.SplitJoinsBack | days/days_007__JSON_REGEX_parser.py:264-307 | joining the parts with the delimiter gives the text back: nothing is lost or reordered |
| RegexJson.SplitCount | days/days_007__JSON_REGEX_parser.py:299-306 | one part more than splits, and at most maxsplit + 1 parts when maxsplit >= 0 |
| RegexJson.SplitsAtTopLevel | days/days_007__JSON_REGEX_parser.py:293-302 | every split happens at a delimiter where the bracket depth, counted after it, is 0 |
| RegexJson.UnlimitedSplitsEverywhere | days/days_007__JSON_REGEX_parser.py:299-302 | with a negative maxsplit every delimiter at depth 0 is a split point |
| RegexJson.NoDelimiterNoSplit | days/days_007__JSON_REGEX_parser.py:299-306 | a text without the delimiter is one part |
| RegexJson.NoBracketsDepthZero | days/days_007__JSON_REGEX_parser.py:293-296 | a text without brackets has depth 0 |
| RegexJson.ScanSpent | days/days_007__JSON_REGEX_parser.py:299 | once the split budget is spent, the rest of the text only extends the last part |
| RegexJson.SplitOnce | days/days_007__JSON_REGEX_parser.py:237 | a pair whose first top-level colon is the only one allowed splits into its two sides |
| RegexJson.NoDelimiterAfter | days/days_007__JSON_REGEX_parser.py:299-304 | text without the delimiter only extends the current part |
| RegexJson.Inner | days/days_007__JSON_REGEX_parser.py:205 | Python's s[1:-1]: the text without its first and last character, empty for fewer than two |
| RegexJson.IsIntLiteral | days/days_007__JSON_REGEX_parser.py:208 | `re.fullmatch(r"-?\d+", value)`: an optional "-" and then at least one digit |
| RegexJson.IsFloatLiteral | days/days_007__JSON_REGEX_parser.py:206 | `re.fullmatch(r"-?\d+\.\d+", value)`: an optional "-", digits, one point and digits |
| RegexJson.IntLiteralValue | days/days_007__JSON_REGEX_parser.py:209 | `int(value)` of a matched integer literal: the decimal value of the digits, negated after a "-" |
| RegexJson.ParseValue | days/days_007__JSON_REGEX_parser.py:192-216 | every error except a RecursionError on deep nesting is a ValueError; a dict comes only from text starting '{', a list from '[', a string from '"' |
| RegexJson.ParseObject | days/days_007__JSON_REGEX_parser.py:219-241 | every error except a RecursionError on deep nesting is a ValueError, and a result is a dict without repeated keys |
| RegexJson.ParsePair | days/days_007__JSON_REGEX_parser.py:236-239 | every error except a RecursionError on a deeply nested value is a ValueError |
| RegexJson.ParsePairs | days/days_007__JSON_REGEX_parser.py:235-239 | one result per pair, each the pair parsed on its own |
| RegexJson.ParseArray | days/days_007__JSON_REGEX_parser.py:244-261 | every error except a RecursionError on deep nesting is a ValueError, and a result is a list |
| RegexJson.ParseValues | days/days_007__JSON_REGEX_parser.py:258-259 | one result per element, each parsed on its own |
| RegexJson.PairStep | days/days_007__JSON_REGEX_parser.py:239 | a round of the pair loop keeps an earlier error, stops at a failing pair, or stores the pair in a dict without repeated keys |
| RegexJson.CollectPairs | days/days_007__JSON_REGEX_parser.py:230-241 | a failure is the error of one of the pairs; a result has no repeated keys |
| RegexJson.ElemStep | days/days_007__JSON_REGEX_parser.py:259 | a round of the element loop keeps an earlier error, stops at a failing element, or appends the element |
| RegexJson.CollectElems | days/days_007__JSON_REGEX_parser.py:250-261 | a failure is the error of one of the elements; a result has one entry per element |
| RegexJson.PairsStep | days/days_007__JSON_REGEX_parser.py:235-239 | one more pair is one more round of the loop |
| RegexJson.ElemsStep | days/days_007__JSON_REGEX_parser.py:258-259 | one more element is one more round of the loop |
| RegexJson.PairsPrefixFailure | days/days_007__JSON_REGEX_parser.py:235-239 | once a pair fails, later pairs do not change the outcome: the first error propagates |
| RegexJson.ElemsPrefixFailure | days/days_007__JSON_REGEX_parser.py:258-259 | once an element fails, later elements do not change the outcome |
| RegexJson.ParseValueLoop | days/days_007__JSON_REGEX_parser.py:192-216 | parse_value run with its loops returns what the definition says |
| RegexJson.ParseObjectLoop | days/days_007__JSON_REGEX_parser.py:219-241 | parse_object's loop returns what the definition says |
| RegexJson.CollectPairsLoop | days/days_007__JSON_REGEX_parser.py:235-241 | the pair loop stops at the first failing pair and otherwise builds the dict of the definition |
| RegexJson.ParsePairLoop | days/days_007__JSON_REGEX_parser.py:237-239 | one pair, split with the loop, parses as the definition says |
| RegexJson.ParseArrayLoop | days/days_007__JSON_REGEX_parser.py:244-261 | parse_array's loop returns what the definition says |
| RegexJson.CollectElemsLoop | days/days_007__JSON_REGEX_parser.py:258-261 | the element loop stops at the first failing element and otherwise builds the list of the definition |
| RegexJson.ParseQuoted | days/days_007__JSON_REGEX_parser.py:203-205 | a quoted string comes back without its quotes, whatever it holds |
| RegexJson.ParseIntRoundTrip | days/days_007__JSON_REGEX_parser.py:208-209 | str(i) parses back to the integer i |
| RegexJson.NotANumber | days/days_007__JSON_REGEX_parser.py:206-209 | text starting with neither '-' nor a digit matches neither number pattern |
| RegexJson.ParseKeywords | days/days_007__JSON_REGEX_parser.py:210-214 | "True", "False" and "None" give True, False and None |
| RegexJson.JsonKeywordsRejected | days/days_007__JSON_REGEX_parser.py:199-216 | parse_value itself rejects the JSON spellings "true" and "null" |
| RegexJson.ParseRejects | days/days_007__JSON_REGEX_parser.py:216 | anything that is not a container, a quoted string, a number or a keyword raises "Unsupported JSON value" |
| RegexJson.ParseRejectsExponent | days/days_007__JSON_REGEX_parser.py:206-216 | scientific notation such as "1e5" is rejected |
| RegexJson.EmptyContainers | days/days_007__JSON_REGEX_parser.py:229-230 | "{}" is the empty dict and "[]" the empty list |
| RegexJson.ElemsPointwise | days/days_007__JSON_REGEX_parser.py:258-261 | the element loop gives es exactly when every part parsed to the matching element of es |
| RegexJson.ArrayElements | days/days_007__JSON_REGEX_parser.py:244-261 | a parsed array's elements are its top-level comma parts, each parsed, in order |
| RegexJson.MissingColon | days/days_007__JSON_REGEX_parser.py:237 | a pair without a top-level colon fails when it is unpacked into key and value |
| RegexJson.PairFailureFailsObject | days/days_007__JSON_REGEX_parser.py:235-239 | if one pair fails, the whole object fails |
| RegexJson.ObjectMissingColon | days/days_007__JSON_REGEX_parser.py:219-241 | an object with a pair that has no colon fails as a whole |
| RegexJson.ObjectWithoutColon | days/days_007__JSON_REGEX_parser.py:237 | {"a"} raises the unpacking ValueError |
| RegexJson.LaterPairWins | days/days_007__JSON_REGEX_parser.py:239 | a later pair with an existing key overwrites the earlier value |
| RegexJson.ReplaceSkips | days/days_007__JSON_REGEX_parser.py:180-182 | a prefix in which no occurrence of the pattern starts is copied unchanged |
| RegexJson.Replace | days/days_007__JSON_REGEX_parser.py:180-182 | `s.replace(pat, rep)`: every occurrence of pat replaced, left to right and without overlaps |
| RegexJson.ReplaceAbsent | days/days_007__JSON_REGEX_parser.py:180-182 | text without the pattern's first character is unchanged |
| RegexJson.DropSpacesOutsideStrings | days/days_007__JSON_REGEX_parser.py:187 | the whitespace removal never lengthens the text |
| RegexJson.DropSpacesNoQuotes | days/days_007__JSON_REGEX_parser.py:187 | without double quotes no whitespace is left |
| RegexJson.NoQuotesCountZero | days/days_007__JSON_REGEX_parser.py:187 | text without '"' has no quotes to count |
| RegexJson.DropSpacesSkips | days/days_007__JSON_REGEX_parser.py:187 | characters that are not whitespace are all kept |
| RegexJson.ParseJson | days/days_007__JSON_REGEX_parser.py:152-189 | every error parse_json raises, except a RecursionError on deeply nested text, is a ValueError |
| RegexJson.Normalize | days/days_007__JSON_REGEX_parser.py:177-187 | the text parse_json hands to parse_value: stripped, then "true", "false" and "null" replaced, then whitespace dropped wherever an even number of quotes follows |
| RegexJson.ReplaceSkipsPairs | days/days_007__JSON_REGEX_parser.py:180-182 | a prefix that cannot start the pattern's first two characters is copied unchanged |
| RegexJson.ReplaceAtFront | days/days_007__JSON_REGEX_parser.py:180-182 | an occurrence at the front is replaced and the rest is processed on |
| RegexJson.QuoteCountAppend | days/days_007__JSON_REGEX_parser.py:187 | quote counts add up over concatenation |
| RegexJson.ReplaceSkipsPiece | days/days_007__JSON_REGEX_parser.py:180-182 | a piece that cannot start the pattern, even at its end, is copied unchanged |
| RegexJson.SampleIsLiteral | days/days_007__JSON_REGEX_parser.py:349 | the sample text is '{"status": "true story"}' |
| RegexJson.PiecesCannotStartTrue | days/days_007__JSON_REGEX_parser.py:180 | the pieces of the sample around "true" cannot start another "true" |
| RegexJson.PiecesHaveNoSpace | days/days_007__JSON_REGEX_parser.py:187 | the sample's pieces hold no whitespace |
| RegexJson.PiecesQuoteCounts | days/days_007__JSON_REGEX_parser.py:187 | the quote counts of the sample's pieces |
| RegexJson.KeywordRewriteExample | days/days_007__JSON_REGEX_parser.py:180 | in the sample, the "true" inside the string value is rewritten to "True" |
| RegexJson.DropSpaceFront | days/days_007__JSON_REGEX_parser.py:187 | a whitespace character followed by an even number of quotes is dropped |
| RegexJson.QuotedTailKept | days/days_007__JSON_REGEX_parser.py:187 | the space inside the string literal is kept |
| RegexJson.SpaceRemovalExample | days/days_007__JSON_REGEX_parser.py:187 | in the sample the space after the colon goes and the one inside the string stays |
| RegexJson.PiecesLackFAndN | days/days_007__JSON_REGEX_parser.py:181-182 | the sample holds no "false" or "null" to rewrite |
| RegexJson.NormalizeExample | days/days_007__JSON_REGEX_parser.py:177-187 | the sample is normalised to '{"status":"True story"}' |
| RegexJson.InnerOfQuoted | days/days_007__JSON_REGEX_parser.py:205 | s[1:-1] of a quoted s is the text between the quotes |
| RegexJson.StatusPairExample | days/days_007__JSON_REGEX_parser.py:236-239 | the sample's pair parses to ("status", "True story") |
| RegexJson.OnePairCollected | days/days_007__JSON_REGEX_parser.py:235-241 | a single parsed pair gives a one-entry dict |
| RegexJson.ObjectDispatch | days/days_007__JSON_REGEX_parser.py:199-200 | text starting '{' is parsed as an object |
| RegexJson.OnePairObject | days/days_007__JSON_REGEX_parser.py:219-241 | braces around one pair without a comma give a one-entry dict |
| RegexJson.InnerOfBraced | days/days_007__JSON_REGEX_parser.py:227 | text[1:-1] of a braced pair is the pair |
| RegexJson.InnerOfQuotedBy | days/days_007__JSON_REGEX_parser.py:227 | s[1:-1] drops exactly the two enclosing characters |
| RegexJson.StatusPieces | days/days_007__JSON_REGEX_parser.py:349 | how the normalised sample splits into key and value |
| RegexJson.StatusObjectShape | days/days_007__JSON_REGEX_parser.py:227-233 | the normalised sample's braces hold one pair and no comma |
| RegexJson.ParseStatusExample | days/days_007__JSON_REGEX_parser.py:192-241 | the normalised sample parses to {"status": "True story"} |
| RegexJson.KeywordInsideString | days/days_007__JSON_REGEX_parser.py:349-353 | parse_json('{"status": "true story"}') gives {"status": "True story"}: the string value is changed, unlike with json.loads |
| ParanoidSearch.FirstIndex | days/days_008__non_binary_search.py:187-192 | the least index holding the target, or None exactly when the target is absent |
| ParanoidSearch.ParanoidBinarySearch | days/days_008__non_binary_search.py:144-194 | for any list, sorted or not, the result is the first index holding the target or None; the binary pass's probes stay in range |
| ParanoidSearch.DuplicatesGiveFirst | days/days_008__non_binary_search.py:187-192 | with duplicates the linear pass returns the leftmost one |
| Fibonacci.Fibonacci | days/days_009__comrade_fibonacci.py:170-203 | a result, when the recursion reaches base cases within the depth, is F(n) and n is non-negative |
| Fibonacci.FibonacciTerminates | days/days_009__comrade_fibonacci.py:170-203 | with depth above n the recursion returns F(n) |
| Fibonacci.FibonacciNegativeDiverges | days/days_009__comrade_fibonacci.py:194-203 | a negative n never reaches a base case, at any depth |
| Fibonacci.FibonacciCounted | days/days_009__comrade_fibonacci.py:194-203 | the recursion with a call counter succeeds exactly when `fibonacci` does, with the same value, after Calls(n) calls |
| Fibonacci.CountedCalls | days/days_009__comrade_fibonacci.py:34-41 | with enough depth the counted recursion returns F(n) after 2·F(n+1) − 1 calls |
| Fibonacci.CallsFormula | days/days_009__comrade_fibonacci.py:34-41 | fibonacci(n) makes 2·F(n+1) − 1 calls |
| Fibonacci.SmallFibs | days/days_009__comrade_fibonacci.py:10-15 | F(6) = 8, F(11) = 89, F(21) = 10946 |
| Fibonacci.CallTable | days/days_009__comrade_fibonacci.py:34-37 | 15, 177 and 21,891 calls for n = 5, 10, 20, as the docstring's table says |
| Fibonacci.ClaimedCallsWrong | days/days_009__comrade_fibonacci.py:143-144 | the claimed F(n+1) − 1 gives 7 for n = 5, where the count is 15 |
| Fibonacci.ClaimedCallsUndercount | days/days_009__comrade_fibonacci.py:143-144 | for every n >= 1 the true count is twice the claim plus one |
| Fibonacci.FibPositive | days/days_009__comrade_fibonacci.py:10-13 | F(n) >= 1 for n >= 1 |
| Fibonacci.CountOfAbove | days/days_009__comrade_fibonacci.py:194-203 | fibonacci(n) never evaluates fibonacci(k) for k > n |
| Fibonacci.CountOfFormula | days/days_009__comrade_fibonacci.py:194-203 | fibonacci(k) is evaluated F(n−k+1) times inside fibonacci(n), for 1 <= k <= n |
| Fibonacci.CountsForSix | days/days_009__comrade_fibonacci.py:44-50 | for fib(6): fib(1) 8 times, fib(2) 5, fib(3) 3, fib(4) 2, fib(5) once |
| Fibonacci.FibIterative | days/days_009__comrade_fibonacci.py:80-86 | n for n <= 1, and F(n) for every n >= 0 |
| Fibonacci.FibFast | days/days_009__comrade_fibonacci.py:241-244 | n for n <= 1, and F(n) for every n >= 0 |
| FileSingleton.TranslateNewlines | days/days_011__singleton_aint_single.py:316 | text-mode reading leaves no "\r"; text without "\r" is unchanged |
| FileSingleton.ParseLine | days/days_011__singleton_aint_single.py:319-322 | one line of the file: stripped, then nothing when it has no "=", and otherwise the key before and the value after its first "=" |
| FileSingleton.ParseFile | days/days_011__singleton_aint_single.py:313-323 | `_read_file`: {} for a missing file, otherwise the lines read in order, with a later line for a key overriding an earlier one |
| FileSingleton.Render | days/days_011__singleton_aint_single.py:338-340 | `_write_file`: every entry as `key=value` and a newline, in dict order |
| FileSingleton.ParseLinesStep | days/days_011__singleton_aint_single.py:317-322 | reading one more line applies one more round of the line loop |
| FileSingleton.ParseEntryLine | days/days_011__singleton_aint_single.py:318-322 | a written `key=value` line reads back as (key, value) when the key has no '=' and neither end is whitespace |
| FileSingleton.EntryLines | days/days_011__singleton_aint_single.py:338-339 | one written line per entry, in dict order |
| FileSingleton.RenderIsJoin | days/days_011__singleton_aint_single.py:338-339 | the written text is the entry lines joined by "\n" with a final "\n" |
| FileSingleton.ParseEntryLines | days/days_011__singleton_aint_single.py:316-322 | parsing the lines of a clean dict gives the dict back |
| FileSingleton.CleanInit | days/days_011__singleton_aint_single.py:316-322 | dropping the last entry keeps a dict clean, and that entry's key is not among the rest |
| FileSingleton.ParseLinesSnoc | days/days_011__singleton_aint_single.py:316-322 | a final line holding (k, v) sets data[k] = v over the earlier lines |
| FileSingleton.WriteThenRead | days/days_011__singleton_aint_single.py:300-339 | `_read_file` after `_write_file(d)` gives d back whenever d is clean |
| FileSingleton.RenderNoCR | days/days_011__singleton_aint_single.py:338-339 | the written text holds no "\r" when no key or value does |
| FileSingleton.StripFacts | days/days_011__singleton_aint_single.py:319 | a stripped line has no whitespace at either end and only characters of the line |
| FileSingleton.ParseLineClean | days/days_011__singleton_aint_single.py:319-322 | a single line always yields a key and value that survive a later write and read |
| FileSingleton.PutClean | days/days_011__singleton_aint_single.py:322 | assigning a clean key and value keeps a dict clean |
| FileSingleton.ParseLinesClean | days/days_011__singleton_aint_single.py:316-322 | any lines without line breaks parse into a clean dict |
| FileSingleton.ParseFileClean | days/days_011__singleton_aint_single.py:300-323 | whatever the file holds, `_read_file` returns a dict that round-trips through a write |
| FileSingleton.SplitPartsSubstring | days/days_011__singleton_aint_single.py:317 | every line holds only characters of the file |
| FileSingleton.FileSingletonStore.constructor | days/days_011__singleton_aint_single.py:242-251 | an empty file is created only when none exists; an existing file is kept |
| FileSingleton.FileSingletonStore.ReadFile | days/days_011__singleton_aint_single.py:299-323 | {} for a missing file, otherwise the lines read in order with strip and a split at the first '=' |
| FileSingleton.FileSingletonStore.WriteFile | days/days_011__singleton_aint_single.py:325-339 | the file becomes every entry as `key=value\n`, in dict order |
| FileSingleton.FileSingletonStore.Set | days/days_011__singleton_aint_single.py:253-268 | the file becomes the rendering of the old contents with data[key] = str(value) |
| FileSingleton.FileSingletonStore.Get | days/days_011__singleton_aint_single.py:270-280 | the value stored for key in the parsed file, or None exactly when the file has no line for it |
| FileSingleton.FileSingletonStore.All | days/days_011__singleton_aint_single.py:282-288 | the parsed file, which is always clean |
| FileSingleton.FileSingletonStore.Clear | days/days_011__singleton_aint_single.py:290-297 | the file becomes empty and reads as {} |
| FileSingleton.ReadMissing | days/days_011__singleton_aint_single.py:313-314 | a missing file reads as {} |
| FileSingleton.PutThenRead | days/days_011__singleton_aint_single.py:253-280 | after writing d with data[key] = value, reading gives value for key and the old value for every other key |
| FileSingleton.SetThenGet | days/days_011__singleton_aint_single.py:253-280 | after set(key, value) with a clean key and a clean str(value), get(key) is str(value) and every other key reads as before, whatever the file held |
| FileSingleton.WordIsNotInt | days/days_011__singleton_aint_single.py:267 | the str() of None, True and False does not parse as an int |
| FileSingleton.IntToStrClean | days/days_011__singleton_aint_single.py:267 | str() of an int is a value the file keeps: no line break and no trailing whitespace |
| FileSingleton.StrOfTypeLost | days/days_011__singleton_aint_single.py:267 | `str(value)` keeps an int readable through int(), while None, True and False become words that are not ints; True and False stay apart |
| FileSingleton.StrOfClean | days/days_011__singleton_aint_single.py:267 | the str() of None, a bool or an int always survives a write and a read |
| FileSingleton.GetAfterSet | days/days_011__singleton_aint_single.py:253-280 | reading any key after set(key, value) gives str(value) for key and the old value otherwise |
| FileSingleton.ThreeSets | days/days_011__singleton_aint_single.py:253-280 | after three set calls on distinct clean keys, get returns the str() of each value |
| FileSingleton.TypeLost | days/days_011__singleton_aint_single.py:381-389 | whatever the file held, after set of 42, 3.14 and True, get returns the strings "42", "3.14" and "True" |
| FileSingleton.LaterLineWins | days/days_011__singleton_aint_single.py:316-322 | lines without '=' are skipped and a repeated key takes its later value |
| JsonValue.Field | days/days_013__permanent_rest_API.py:265-266 | `data.get(key)` is None for an absent key and the stored value otherwise |
| JsonValue.Truthy | days/days_013__permanent_rest_API.py:269 | Python truthiness: None, False, 0, "", [] and {} are falsy, and a float is falsy when its literal has no digit 1-9 |
| JsonValue.Hashable | days/days_013__permanent_rest_API.py:289 | the values that can be tested with `in` on a dict: a list or a dict raises TypeError |
| JsonValue.FieldCons | days/days_013__permanent_rest_API.py:265-266 | looking a key up in a dict with a first entry: that entry's value when the keys match, otherwise the rest's |
| RestApi.CreateSpec | days/days_013__permanent_rest_API.py:259-276 | status 400 "id and name required" exactly when id or name is falsy; a 200 reply means items[id] = name was stored, overwriting any earlier value |
| RestApi.UpdateSpec | days/days_013__permanent_rest_API.py:279-295 | for a hashable id, 404 "item not found" exactly when the id is not stored |
| RestApi.DeleteSpec | days/days_013__permanent_rest_API.py:298-313 | for a hashable id, 404 "item not found" exactly when the id is not stored |
| RestApi.ListSpec | days/days_013__permanent_rest_API.py:316-326 | the reply holds the whole dict and nothing changes |
| RestApi.RouteSpec | days/days_013__permanent_rest_API.py:331-385 | api_router: 400 "invalid json" for a missing or falsy body, then dispatch on body["action"] to create, update, delete or list, and 400 "unknown action" otherwise |
| RestApi.ItemsServer.constructor | days/days_013__permanent_rest_API.py:256 | the items dict starts empty |
| RestApi.ItemsServer.HandleCreate | days/days_013__permanent_rest_API.py:259-276 | the reply and the new dict are those of the create definition |
| RestApi.ItemsServer.HandleUpdate | days/days_013__permanent_rest_API.py:279-295 | the reply and the new dict are those of the update definition |
| RestApi.ItemsServer.HandleDelete | days/days_013__permanent_rest_API.py:298-313 | the reply and the new dict are those of the delete definition |
| RestApi.ItemsServer.HandleList | days/days_013__permanent_rest_API.py:316-326 | the reply carries the whole dict |
| RestApi.ItemsServer.ApiRouter | days/days_013__permanent_rest_API.py:331-387 | the reply and the new dict are those of the router definition: a rejected body, one of the four handlers, or "unknown action" |
| RestApi.FailuresChangeNothing | days/days_013__permanent_rest_API.py:331-387 | no request whose reply is not 200, and none that raises, changes the dict |
| RestApi.SuccessCarriesEverything | days/days_013__permanent_rest_API.py:275-276 | every 200 reply carries the whole dict as it is after the request |
| RestApi.RouterRejects | days/days_013__permanent_rest_API.py:370-385 | a missing or falsy body gets 400 "invalid json" and an unrecognised action 400 "unknown action", with nothing changed |
| RestApi.CreateOverwrites | days/days_013__permanent_rest_API.py:272-273 | creating an id that already exists overwrites its name: there is no conflict check |
| RestApi.CreateRequest | days/days_013__permanent_rest_API.py:375-376 | a create request with truthy id and name stores items[id] = name |
| RestApi.UpdateStoresMissingName | days/days_013__permanent_rest_API.py:285-292 | updating a present id without a name stores None for it |
| RestApi.DeleteRemovesOnly | days/days_013__permanent_rest_API.py:304-313 | deleting a present id replies "deleted" and removes that key alone |
| RestApi.CreateThenList | days/days_013__permanent_rest_API.py:259-326 | after a successful create, list shows id mapped to name |
| RestApi.CreateThenDelete | days/days_013__permanent_rest_API.py:259-313 | creating a new id and deleting it gives back the original dict |
| AgeValidation.ReadAge | days/days_014__exceptional_error.py:303-355 | an age is returned exactly when the text is non-empty, parses, and lies in 0..150; empty text and a failed parse give their own messages; a line is printed exactly when no age is returned |
| AgeValidation.ReadAgeEvenWorse | days/days_014__exceptional_error.py:358-388 | an age is returned exactly when the text parses into 0..150 (there is no empty check); a failed parse prints "Invalid age!" |
| AgeValidation.ReadAgeCorrectly | days/days_014__exceptional_error.py:391-414 | an age is returned exactly when the text is non-empty, parses, and lies in 0..150; a line is printed exactly when no age is returned |
| AgeValidation.ValidatorsAgree | days/days_014__exceptional_error.py:303-414 | for any int() that rejects "", the nested version and the plain one give the same age and message, and the even-worse one the same age |
| AgeValidation.PyInt | days/days_014__exceptional_error.py:330 | int(text) succeeds exactly when the text is an optionally signed decimal after whitespace stripping |
| AgeValidation.ValidatorsAgreeOnInt | days/days_014__exceptional_error.py:303-414 | with Python's int() the three validators agree on every text |
| AgeValidation.AcceptsDecimal | days/days_014__exceptional_error.py:303-355 | every age in 0..150, written in decimal, is accepted as itself |
| NullCheck.NameOf | days/days_016__Null_fit_check.py:339 | reading `.name` fails with AttributeError exactly when the user is None, and otherwise yields the name |
| NullCheck.UpperOf | days/days_016__Null_fit_check.py:394 | `.upper()` fails with AttributeError exactly when the name is None, and otherwise upper-cases its ASCII letters |
| NullCheck.GetUppercaseName | days/days_016__Null_fit_check.py:322-368 | "UNKNOWN" for a None user or a None name, otherwise the upper-cased name |
| NullCheck.NoneCheckIsDead | days/days_016__Null_fit_check.py:344-346 | once `.name` was read without error the user is not None, so the ValueError branch never fires |
| NullCheck.GetUppercaseNameCorrect | days/days_016__Null_fit_check.py:371-381 | "UNKNOWN" exactly when the user or name is None or the name upper-cases to "UNKNOWN"; any other result is the upper-cased name |
| NullCheck.GetUppercaseNameEafp | days/days_016__Null_fit_check.py:384-394 | the same as the plain version, reached by catching AttributeError |
| NullCheck.VariantsAgree | days/days_016__Null_fit_check.py:322-394 | the three variants return the same string for every user |
| NullCheck.Examples | days/days_016__Null_fit_check.py:407-414 | a None user and a None name give "UNKNOWN"; a named user gives the upper-cased name |
| BitReverse.LowByte | days/days_017__Reversed_bit_roles.py:160-176 | the rebuilt character's code is the original code modulo 256 |
| BitReverse.LowBytes | days/days_017__Reversed_bit_roles.py:157-178 | the same length as the text, each character replaced by its low byte |
| BitReverse.OrBelow | days/days_017__Reversed_bit_roles.py:175-176 | OR-ing one bit below the bits already set is addition |
| BitReverse.RebuildStep | days/days_017__Reversed_bit_roles.py:174-176 | OR-ing reversed bit i at position 7 - i extends the rebuilt top bits by one |
| BitReverse.RebuildCode | days/days_017__Reversed_bit_roles.py:160-176 | extracting bits 0..7, reversing them and OR-ing them back at 7 - i gives the code modulo 256 |
| BitReverse.ReverseViaBinaryShifts | days/days_017__Reversed_bit_roles.py:142-182 | the result has the text's length and is the reversed sequence of the characters' low bytes |
| BitReverse.BelowByteIsExact | days/days_017__Reversed_bit_roles.py:142-187 | for codes below 256 the bit version equals text[::-1] |
| BitReverse.HighBitsLost | days/days_017__Reversed_bit_roles.py:160-178 | a code above 255 loses its high bits: U+0100 comes back as U+0000 |
| BitReverse.ReverseVerbose | days/days_017__Reversed_bit_roles.py:190-195 | appending text[i] for i from the end down to 0 is text[::-1] |
| DequeStack.StackUsingQueueWrongEnd.constructor | days/days_020__de_Q_stack.py:291-306 | a new stack holds an empty deque |
| DequeStack.StackUsingQueueWrongEnd.Push | days/days_020__de_Q_stack.py:308-328 | the value is appended at the right end and nothing else changes |
| DequeStack.StackUsingQueueWrongEnd.Pop | days/days_020__de_Q_stack.py:330-359 | IndexError on an empty deque with nothing changed; otherwise the right end, the last value pushed, is removed and returned |
| DequeStack.StackUsingQueueWrongEnd.Peek | days/days_020__de_Q_stack.py:361-379 | IndexError on an empty deque, otherwise the value pop would return |
| DequeStack.StackUsingQueueWrongEnd.IsEmpty | days/days_020__de_Q_stack.py:381-388 | True exactly when the deque is empty |
| DequeStack.PushPopDemo | days/days_020__de_Q_stack.py:391-412 | pushing 1, 2, 3 and popping three times yields 3, 2, 1 and leaves the stack empty |
| TwoStackQueues.MoveTop | days/days_021__stack_wrestling.py:347-348 | popping the top of one stack onto another keeps "first stack, then the second reversed" unchanged |
| TwoStackQueues.MoveBack | days/days_021__stack_wrestling.py:354-355 | the same step in the other direction |
| TwoStackQueues.QueueUsingTwoFightingStacks.constructor | days/days_021__stack_wrestling.py:320-327 | both stacks start empty |
| TwoStackQueues.QueueUsingTwoFightingStacks.PourAToB | days/days_021__stack_wrestling.py:347-348 | A ends empty and B holds A reversed |
| TwoStackQueues.QueueUsingTwoFightingStacks.PourBToA | days/days_021__stack_wrestling.py:354-355 | B ends empty and its reversal is appended to A |
| TwoStackQueues.QueueUsingTwoFightingStacks.Enqueue | days/days_021__stack_wrestling.py:329-357 | the new value ends at index 0 of A, in front of everything already there, and B is empty again |
| TwoStackQueues.QueueUsingTwoFightingStacks.Dequeue | days/days_021__stack_wrestling.py:361-396 | IndexError on an empty queue with nothing changed; otherwise A[0], the value enqueued last, is removed and returned |
| TwoStackQueues.QueueUsingTwoFightingStacks.Peek | days/days_021__stack_wrestling.py:398-433 | IndexError on an empty queue, otherwise the value dequeue would return; both stacks end as they started |
| TwoStackQueues.QueueUsingTwoFightingStacks.IsEmpty | days/days_021__stack_wrestling.py:435-442 | True exactly when the size is 0 |
| TwoStackQueues.QueueUsingTwoFightingStacks.Size | days/days_021__stack_wrestling.py:444-446 | the length of stack A |
| TwoStackQueues.FightingDemo | days/days_021__stack_wrestling.py:499-512 | enqueueing 1, 2, 3 and dequeuing once yields 3, leaving 2 then 1: the queue is last in, first out |
| TwoStackQueues.QueueUsingTwoStacksCorrect.constructor | days/days_021__stack_wrestling.py:462-464 | the queue starts empty |
| TwoStackQueues.QueueUsingTwoStacksCorrect.Enqueue | days/days_021__stack_wrestling.py:466-468 | the value joins the back of the queue |
| TwoStackQueues.QueueUsingTwoStacksCorrect.Refill | days/days_021__stack_wrestling.py:472-475 | the queue's order is unchanged; stack_in is moved only when stack_out is empty, and each value is moved at most once |
| TwoStackQueues.QueueUsingTwoStacksCorrect.Dequeue | days/days_021__stack_wrestling.py:470-480 | IndexError on an empty queue; otherwise the front, the oldest value, is removed and returned (first in, first out) |
| TwoStackQueues.QueueUsingTwoStacksCorrect.Peek | days/days_021__stack_wrestling.py:482-491 | IndexError on an empty queue, otherwise the front, with the queue unchanged |
| TwoStackQueues.CorrectDemo | days/days_021__stack_wrestling.py:457-480 | enqueueing 1, 2, 3 and dequeuing three times yields 1, 2, 3 |
| CsvTree.Entries | days/days_022__binary__tree_street.py:471-484 | [] exactly for the empty string; otherwise comma-free parts that join back to the string |
| CsvTree.EntriesOfJoin | days/days_022__binary__tree_street.py:471-497 | `_as_list` after `_save(values)` gives the values back when none holds a comma (and the list is not just [""]) |
| CsvTree.PyIndex | days/days_022__binary__tree_street.py:571 | `values[i]`: negative indices count from the end, and an index out of range is IndexError |
| CsvTree.Child | days/days_022__binary__tree_street.py:567-571 | None past the end, otherwise int() of the child entry |
| CsvTree.SubtreeAbove | days/days_022__binary__tree_street.py:615-628 | a node's descendants have larger indices |
| CsvTree.ChildSubtreeInParent | days/days_022__binary__tree_street.py:625-627 | a child's subtree lies inside its parent's |
| CsvTree.SubtreeViaChild | days/days_022__binary__tree_street.py:625-627 | every proper descendant of i lies under one of its two children |
| CsvTree.SubtreesNest | days/days_022__binary__tree_street.py:615-628 | two subtrees sharing a node are nested |
| CsvTree.SiblingsDisjoint | days/days_022__binary__tree_street.py:625-627 | no node lies under both children of i |
| CsvTree.VisitMembers | days/days_022__binary__tree_street.py:615-628 | walk(i) visits exactly the stored nodes of the subtree rooted at i |
| CsvTree.VisitDistinct | days/days_022__binary__tree_street.py:615-628 | walk(i) visits no node twice |
| CsvTree.EverythingUnderRoot | days/days_022__binary__tree_street.py:630 | every index lies in the subtree of the root |
| CsvTree.InorderIsPermutation | days/days_022__binary__tree_street.py:594-631 | walk(0) visits every stored index exactly once |
| CsvTree.ParseAt | days/days_022__binary__tree_street.py:626 | one value per visited index when every conversion succeeds |
| CsvTree.ParseAtSuccess | days/days_022__binary__tree_street.py:626 | on success each value is int() of the entry at the matching index |
| CsvTree.ParseAtFailure | days/days_022__binary__tree_street.py:626 | on failure the error is the one some visited entry raised |
| CsvTree.VisitInRange | days/days_022__binary__tree_street.py:623-624 | walk only reads indices below len(values) |
| CsvTree.ParseAtAppendFailure | days/days_022__binary__tree_street.py:625-627 | once the left subtree's conversion fails, nothing later changes the error |
| CsvTree.ParseAtAppendSuccess | days/days_022__binary__tree_street.py:625-627 | after a successful left part, the result is the right part's failure or the two lists joined |
| CsvTree.BinaryTreeAsString.constructor | days/days_022__binary__tree_street.py:459-469 | the tree string is the given data |
| CsvTree.BinaryTreeAsString.AsList | days/days_022__binary__tree_street.py:471-484 | the entries of the tree string |
| CsvTree.BinaryTreeAsString.Save | days/days_022__binary__tree_street.py:486-497 | the tree string becomes the values joined by commas, which read back as the values when none holds a comma |
| CsvTree.BinaryTreeAsString.Insert | days/days_022__binary__tree_street.py:499-521 | the entries become the old entries followed by str(value) |
| CsvTree.BinaryTreeAsString.GetRoot | days/days_022__binary__tree_street.py:523-544 | ValueError "Tree is empty" for the empty string, otherwise int() of the first entry |
| CsvTree.BinaryTreeAsString.GetLeft | days/days_022__binary__tree_street.py:546-572 | None when 2i + 1 is past the end, otherwise int() of entry 2i + 1 |
| CsvTree.BinaryTreeAsString.GetRight | days/days_022__binary__tree_street.py:574-592 | None when 2i + 2 is past the end, otherwise int() of entry 2i + 2 |
| CsvTree.BinaryTreeAsString.Walk | days/days_022__binary__tree_street.py:615-628 | the values walk(i) appends: int() of the entries of i's subtree in in-order visiting order, or the first conversion error |
| CsvTree.BinaryTreeAsString.InorderTraversal | days/days_022__binary__tree_street.py:594-631 | int() of the entries in the order walk(0) visits them, a permutation of all entries |
| CsvTree.BinaryTreeAsString.ToString | days/days_022__binary__tree_street.py:633-635 | the raw tree string |
| CsvTree.ParseAtKnown | days/days_022__binary__tree_street.py:626 | when every entry reads as its number, visiting idx yields those numbers in that order |
| CsvTree.InorderSeven | days/days_022__binary__tree_street.py:433-437 | entries reading 1..7 are visited in-order as 4, 2, 5, 1, 6, 3, 7 |
| CsvTree.NumsAtSeven | days/days_022__binary__tree_street.py:433-437 | the numbers 1..7 at the in-order indices are 4, 2, 5, 1, 6, 3, 7 |
| CsvTree.SmallInts | days/days_022__binary__tree_street.py:519-520 | str(1) .. str(7) are the single digits |
| CsvTree.VisitSeven | days/days_022__binary__tree_street.py:615-630 | with seven entries walk(0) visits 3, 1, 4, 0, 5, 2, 6 |
| CsvTree.VisitLeaf | days/days_022__binary__tree_street.py:623-627 | in a seven-entry tree, entries 3..6 are leaves |
| CsvTree.JoinSeven | days/days_022__binary__tree_street.py:497 | joining "1" .. "7" with commas gives "1,2,3,4,5,6,7" |
| CsvTree.ParsedSeven | days/days_022__binary__tree_street.py:626 | with the entries "1" .. "7", the in-order values are 4, 2, 5, 1, 6, 3, 7 |
| CsvTree.InsertOneToSeven | days/days_022__binary__tree_street.py:644-659 | inserting 1..7 into an empty tree gives "1,2,3,4,5,6,7" and the in-order traversal [4, 2, 5, 1, 6, 3, 7] |
| FileLinkedList.NodeName | days/days_023__linked_disks.py:572 | the node's file is `node_<value>.txt`, a non-empty name without line breaks |
| FileLinkedList.NodeNameInjective | days/days_023__linked_disks.py:572 | two values share a file name only when they are equal |
| FileLinkedList.ReadNodeAt | days/days_023__linked_disks.py:519-549 | reading fails (FileNotFoundError) exactly when the file is not in the directory |
| FileLinkedList.NodeRoundTrip | days/days_023__linked_disks.py:498-549 | reading a written node gives its value and its next name back, an empty or NONE name read as None |
| FileLinkedList.NodeLinkRoundTrip | days/days_023__linked_disks.py:498-549 | a node file name, or no next node, survives a write and a read unchanged |
| FileLinkedList.AfterEquals | days/days_023__linked_disks.py:544-547 | `lines[k].split("=", 1)[1]` fails only with IndexError |
| FileLinkedList.ParseNode | days/days_023__linked_disks.py:540-549 | parsing a node file's text fails only with IndexError or ValueError |
| FileLinkedList.NodeLines | days/days_023__linked_disks.py:515-517 | the text written splits into exactly the value line and the next line |
| FileLinkedList.TextRoundTrip | days/days_023__linked_disks.py:515-549 | parsing the text of a node file gives the node back |
| FileLinkedList.WrittenTextRoundTrip | days/days_023__linked_disks.py:498-549 | every file `_write_node` writes parses back to what was written |
| FileLinkedList.WalkFrom | days/days_023__linked_disks.py:615-620 | the walk along the next names is well formed and reads at most fuel nodes |
| FileLinkedList.WalkStep | days/days_023__linked_disks.py:617-620 | one loop step reads the current node, records its value and moves to its next name |
| FileLinkedList.TraverseSpec | days/days_023__linked_disks.py:595-622 | `traverse` succeeds exactly when the walk from the head reaches the end of the list |
| FileLinkedList.TailSpec | days/days_023__linked_disks.py:580-586 | the tail loop of `append`: the file name of the last node reached from the head, or the error of the first node that cannot be read |
| FileLinkedList.AppendSpec | days/days_023__linked_disks.py:551-593 | `append`: an empty list gets the new node as head; otherwise the tail is found, the new node written, and the tail re-read and rewritten to point to it |
| FileLinkedList.FindSpec | days/days_023__linked_disks.py:652-674 | the search loop of `delete`: the first node holding the value, with its predecessor and next names, or the read error met first, or ValueError at the end |
| FileLinkedList.DeleteSpec | days/days_023__linked_disks.py:624-674 | `delete`: the found node is unlinked through the head or by rewriting its re-read predecessor, and then its file is removed |
| FileLinkedList.FirstIndex | days/days_023__linked_disks.py:626 | the index of the first occurrence of the value |
| FileLinkedList.FindSpecAt | days/days_023__linked_disks.py:655-669 | the search stops at the first node holding the value, with its predecessor's name |
| FileLinkedList.FindSpecBroken | days/days_023__linked_disks.py:655-656 | a missing file met before the value raises FileNotFoundError |
| FileLinkedList.FindSpecEnd | days/days_023__linked_disks.py:655-674 | reaching the end without the value raises ValueError |
| FileLinkedList.FindFromWalk | days/days_023__linked_disks.py:652-674 | from any node of the walk on, the loop of `delete` finds what the first-index search finds |
| FileLinkedList.FindFromHead | days/days_023__linked_disks.py:652-674 | the loop of `delete` from the head ends within the fuel and equals the first-index search |
| FileLinkedList.ListSize | days/days_023__linked_disks.py:450-462 | a list of n nodes occupies at least n files of the directory |
| FileLinkedList.WalkRest | days/days_023__linked_disks.py:615-620 | from any node of a well-formed list the walk reads the rest of the list and ends |
| FileLinkedList.StopThrough | days/days_023__linked_disks.py:615-620 | the walk stops where the walk from the first unlinked node stops |
| FileLinkedList.ListChain | days/days_023__linked_disks.py:595-622 | a well-formed list is walked node by node to its end |
| FileLinkedList.RelinkLast | days/days_023__linked_disks.py:591-593 | rewriting the tail to point to a new node links all nodes plus the new one |
| FileLinkedList.AppendOn | days/days_023__linked_disks.py:551-593 | appending a value whose file is new succeeds, puts it last and keeps the head of a non-empty list |
| FileLinkedList.Unlink | days/days_023__linked_disks.py:659-668 | without its j-th node, a list is still linked once the head or the predecessor skips it |
| FileLinkedList.DeleteOn | days/days_023__linked_disks.py:624-669 | deleting the j-th node's value removes exactly that node's file and keeps the rest linked |
| FileLinkedList.NameSeqGood | days/days_023__linked_disks.py:572 | distinct values give distinct, well-formed file names |
| FileLinkedList.NameNotIn | days/days_023__linked_disks.py:572 | a value not in the list has a file that is not one of the list's files |
| FileLinkedList.TraverseValid | days/days_023__linked_disks.py:595-622 | `traverse` on a well-formed list returns its values in order |
| FileLinkedList.EmptyValid | days/days_023__linked_disks.py:484-492 | a new list is empty whatever files the directory holds |
| FileLinkedList.AppendKeepsValid | days/days_023__linked_disks.py:551-593 | appending a value not yet in the list keeps it well formed with the value last |
| FileLinkedList.AppendLastValid | days/days_023__linked_disks.py:551-593 | appending the last of distinct values to the list of the others gives the whole list |
| FileLinkedList.AppendAll | days/days_023__linked_disks.py:551-593 | appending distinct values one by one to a new list gives a well-formed list of them |
| FileLinkedList.AppendsInOrder | days/days_023__linked_disks.py:551-622 | appending distinct values and then traversing returns them in order |
| FileLinkedList.SelfLoop | days/days_023__linked_disks.py:617-620 | a node pointing to itself is read again and again until the fuel runs out |
| FileLinkedList.CycleAtEnd | days/days_023__linked_disks.py:617-620 | a list whose last node points to itself never reaches the end |
| FileLinkedList.DuplicateLastOn | days/days_023__linked_disks.py:572-593 | appending the value the list ends with rewrites that same file to point to itself |
| FileLinkedList.AppendDuplicateLast | days/days_023__linked_disks.py:572-622 | appending the last value again succeeds but leaves a cycle: `traverse` afterwards does not end |
| FileLinkedList.AppendOneTwice | days/days_023__linked_disks.py:572-622 | from a new list, append(1) twice makes `node_1.txt` point to itself |
| FileLinkedList.DeleteKeepsValid | days/days_023__linked_disks.py:624-669 | deleting a value of the list removes its node and only its file; the head moves only when it was first |
| FileLinkedList.DeleteAbsent | days/days_023__linked_disks.py:652-674 | deleting a value the list does not hold raises ValueError and changes nothing |
| FileLinkedList.FindNode | days/days_023__linked_disks.py:652-672 | the search loop of `delete` returns the predecessor, the node and its next name the first-index search gives |
| FileLinkedList.FileNodeLinkedList.constructor | days/days_023__linked_disks.py:484-492 | the list starts empty on the directory as it is |
| FileLinkedList.FileNodeLinkedList.WriteNode | days/days_023__linked_disks.py:498-517 | the file is created or overwritten with the value and the next name; nothing else changes |
| FileLinkedList.FileNodeLinkedList.ReadNode | days/days_023__linked_disks.py:519-549 | the node's value and next name, or FileNotFoundError for a missing file |
| FileLinkedList.FileNodeLinkedList.Traverse | days/days_023__linked_disks.py:595-622 | the loop returns what the walk from the head gives |
| FileLinkedList.FileNodeLinkedList.FindTail | days/days_023__linked_disks.py:580-586 | the loop ends at the file of the last node, which is in the directory |
| FileLinkedList.FileNodeLinkedList.Append | days/days_023__linked_disks.py:551-593 | the new directory and head are those of the append specification |
| FileLinkedList.FileNodeLinkedList.Delete | days/days_023__linked_disks.py:624-674 | the new directory, head and reply are those of the delete specification |

## Left out

- Console input and output, the `__main__` demonstrations, benchmarks and timers are left out. No behaviour of the modelled functions depends on them.
- The file system is not modelled as such. The singleton's file is a field `Option<string>`. The linked list's node directory is a map from file name to node record, and the text layout of a node file is modelled separately with its round trip.
- Flask is not modelled. A request is the decoded JSON body and a reply is the JSON object and status code, so routing, `jsonify` and HTTP parsing stay outside the model.
- Concurrency is not modelled. That includes the lost updates of the file singleton when two processes write at once, and two clients sharing the API's `items`.
- `days_003` (bogosort) is not part of this model. It is built on `random` and `time.sleep` and has no termination to state.
- `days_012` (pickle store) is not part of this model. It rests on `pickle`, an external serialiser.
- `days_018` (thread pool) is not part of this model. Its only point is concurrency.
- `days_010`, `days_015` and `days_019` are not part of this model. They print constants.
- `PyStr.ParseInt`, `AgeValidation.PyInt`, the int branch of `RegexJson.ParseValue` (`RegexJson.IntLiteralValue`) and `PyStr.IntToStr`: Python's `int()` is modelled on ASCII decimal text with optional surrounding whitespace and sign. Underscores between digits and non-ASCII digits are not accepted by the model. CPython's limit of 4300 digits on conversion is not modelled: longer digit strings parse here, while CPython raises ValueError, and `str()` of an integer with more than 4300 digits raises ValueError in CPython but is a numeral here.
- `RegexJson.ParseValue` and `RegexJson.ParseJson`: the nesting depth is not bounded. `parse_value`, `parse_object` and `parse_array` recurse once per level of nesting, so CPython raises RecursionError on text such as 600 `[` followed by 600 `]`, which the model parses. The "every error is a ValueError" contracts of `RegexJson.ParseValue`, `RegexJson.ParseObject`, `RegexJson.ParsePair`, `RegexJson.ParseArray` and `RegexJson.ParseJson` hold only up to that limit.
- `RegexJson.ParseValue`: the `\d` of the number patterns is read as the ASCII digits 0-9. Python's `\d` on a `str` also matches other Unicode decimal digits such as "٣", which the model does not accept.
- Python's default arguments are explicit parameters in the model, and a caller passes the default where the source omits it: `fizzbuzz(n=100)` is `FizzBuzz.FizzBuzz(100)`, `BinaryTreeAsString(data="")` is the constructor given `""`, and `split_top_level(text, delimiter, maxsplit=-1)` is `RegexJson.SplitTopLevel` given `-1`.
- Floats are not computed. The JSON parser keeps a float as its literal text (`JFloat`). `eval` on the keywords is the fixed mapping of True, False and None.
- `JsonValue.Truthy`: a float is truthy when any character of its literal, the exponent included, is a digit 1-9. A literal whose value is 0.0 in Python but holds such a digit, such as `1e-400`, which underflows, or `0e5`, is falsy in Python and truthy in the model.
- `PyStr.Upper`: only the ASCII letters a-z are mapped, so `NullCheck.UpperOf` upper-cases only those. Python's full Unicode case mapping is not modelled: "josé" gives "JOSé" here and "JOSÉ" in Python, and changes of length such as "ß" to "SS" ("straße" to "STRASSE") do not happen.
- `FileSingleton.FileSingletonStore.Set`: the value is None, a bool, an int, a float or a str (`FileSingleton.PyValue`). A float is given as the text of its repr, since floats are not computed. Lists, dicts and other objects passed to `set` are not modelled.
- `RestApi`: `items` is a Dafny map with `Json` keys, so its iteration order is not modelled. Python's equal hashing of `1`, `1.0` and `True` as keys is not modelled either.
- `CursiveFor`: the number of Python frames still available is the parameter `depth`. Running out is a RecursionError; the real limit depends on the interpreter.
- `Fibonacci.Fibonacci`: the recursion limit is the parameter `depth`. A negative argument is shown to exhaust any depth, instead of raising RecursionError at Python's fixed limit.
- `FileLinkedList.FileNodeLinkedList.Traverse`, `FileLinkedList.FileNodeLinkedList.Append` and `FileLinkedList.FileNodeLinkedList.Delete` require that the walk from the head settles. When the next names form a cycle the Python loops run forever; the methods are not modelled for that case, but `FileLinkedList.CycleAtEnd` proves when it happens.
- `StringCalculator.MultiplyStrings`: the contract states the product only when the product has at least as many digits as the points counted. In the remaining case Python's slicing puts every digit after the point, and the contract says only that the result is a numeral.
- `StringCalculator.DivideStrings`: models only the zero check and the first digit's inner loop, with a step budget `fuel`. That loop never ends, so the decimal bookkeeping and point placement after it are unreachable and are modelled only in the corrected `DivideDecimals`.
- `StringCalculator.Calculate`: the operands are numerals, that is, digits with at most one point. `str()` of a negative number or of a float in exponent notation is not modelled.

## Findings

| source | as written | input that shows it | evidently intended | confidence | as-written member | corrected member |
|---|---|---|---|---|---|---|
| days/days_002__war_Calculator.py:99-112 | the borrow left after the most significant digit is dropped, so a smaller minuend wraps around modulo a power of ten | `subtract_strings("3", "5")` gives "8" | "-2": a sign and the distance, as the "-" test in `divide_strings` expects | not executed | StringCalculator.SubtractWrapsAround | StringCalculator.SignedSubtract |
| days/days_002__war_Calculator.py:116 | the point is placed as many places from the end as there are points in the operands, not decimals | `multiply_strings("1.25", "2")` gives "25" | "2.5": two decimals | not executed | StringCalculator.MultiplyCountsPoints | StringCalculator.MultiplyDecimals |
| days/days_002__war_Calculator.py:153-158 | the loop test `subtract_strings(...)[0] != "-"` never fails, because `subtract_strings` never returns a sign | `divide_strings("10", "4")` never returns | "2.5" | not executed | StringCalculator.DivideNeverReturns | StringCalculator.DivideDecimals |
| days/days_009__comrade_fibonacci.py:143-144 | the docstring claims fib(n) makes F(n+1) - 1 calls | n = 5: the count is 15 (as the table at lines 34-37 says), the formula gives 7 | 2·F(n+1) - 1 calls | not executed | Fibonacci.ClaimedCallsWrong | Fibonacci.CallsFormula |
| days/days_021__stack_wrestling.py:361-396 | `enqueue` puts the new element at index 0 of `_stack_a` and `dequeue` returns index 0, the newest, while the comments promise the oldest | enqueue 1, 2, 3, then dequeue gives 3 | 1, first in, first out | not executed | TwoStackQueues.FightingDemo | TwoStackQueues.QueueUsingTwoStacksCorrect.Dequeue |
