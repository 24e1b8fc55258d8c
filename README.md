# uwsgi-logparser utilities in Dafny

This project models `utils.py` of the uWSGI log parser: the three helpers that
the statistics output is built from.

- **TimeFrame** — the time window that log records are filtered by. It holds an
  optional start and an optional end, both inclusive, and never changes them
  after `__init__`. It is the datatype `TimeFrames.TimeFrame`, whose
  constructor plays the part of `__init__`, and membership (`__contains__`) is
  the function `TimeFrames.Contains`. Timestamps are whole seconds (`int`).
  The source's `if self.start` means "a start was given", because a
  `datetime` is always truthy, so the bounds are `Option`s.
- **humanize** — renders a byte count with a unit from B to PB. The method
  `Humanize.Humanize` keeps the source's loop. The float the source keeps
  dividing by 1024 is held exactly as the byte count `n` and a divisor equal to
  1024 to the number of divisions made so far. The method is proved equal to
  the specification function `Humanize.Humanized`. That function reads the
  unit off fixed thresholds (`UnitOf`). It renders `'%.2f'` as the hundredths
  of `n / divisor` rounded to nearest, ties to even, which is what `'%.2f'`
  does with an exact binary value. Then it strips the trailing zeros and the
  trailing point the way `str.rstrip` does.
- **dict_to_str** — renders the status-code histogram, a `map<string, int>`,
  as `(key: value, key: value)` with the keys in ascending order.
  `sorted` becomes `Dicts.SortedKeys`, `', '.join` becomes `Text.Join`, and
  Python's order on strings becomes `Text.LexLess`: code points compared from
  the left, and a proper prefix first.

The module `Text` holds the pieces of Python's string handling that these
need: decimal rendering of integers, `rstrip` with one character, `join` and
string order.

The one surprising behaviour the proofs expose is not a defect claim. The
unit is chosen before rounding, so 1048575 bytes (just under 1024 KB) prints
as `1024 KB` (lemma `Humanize.Humanized1048575`).

## Model

| member | source | states |
|---|---|---|
| `TimeFrames.TimeFrame` | utils.py:3-5 | `__init__`: a frame stores the optional start and end as given, unchecked; see `InvertedIsEmpty` for a frame built with start after end |
| `TimeFrames.Contains` | utils.py:7-12 | a timestamp is contained exactly when (no start or start <= t) and (no end or t <= end) |
| `TimeFrames.StartIsContained` | utils.py:8-9 | a timestamp equal to the start is contained (closed at the start) |
| `TimeFrames.EndIsContained` | utils.py:10-11 | a timestamp equal to the end is contained (closed at the end) |
| `TimeFrames.OutsideIsExcluded` | utils.py:8-11 | timestamps strictly before a set start or strictly after a set end are not contained |
| `TimeFrames.UnboundedContainsAll` | utils.py:7-12 | with neither bound set every timestamp is contained |
| `TimeFrames.Convex` | utils.py:7-12 | anything between two contained timestamps is contained |
| `TimeFrames.InvertedIsEmpty` | utils.py:3-5 | the constructor does not check its bounds: with start after end nothing is contained |
| `Humanize.UnitOf` | utils.py:19-22 | the chosen unit index is in 0..5; unless it is 5 (PB) the scaled value is below 1024; every division happened while the scaled value was at least 1024 |
| `Humanize.UnitOfUnique` | utils.py:20 | the two exit conditions of the loop determine the unit index uniquely |
| `Humanize.Pow1024Grows` | utils.py:21 | each further division by 1024 multiplies the divisor by at least 1024 |
| `Humanize.RoundHalfEven` | utils.py:23 | the rounding `'%.2f'` applies to an exact quotient; see `RoundHalfEvenNearest` and `ExactRounding` |
| `Humanize.FixedTwo` | utils.py:23 | `'%.2f'` of `n / divisor`: sign, integer part of the rounded hundredths, point and two digits; see `NumericPartDigits` |
| `Humanize.NumericPart` | utils.py:23 | `('%.2f' % ...).rstrip('0').rstrip('.')`; see `StripTwoDecimals`, `NumericPartDigits`, `NumericPartWhole` and `NumericPartClean` |
| `Humanize.Humanized` | utils.py:15-24 | what `humanize(n)` returns, in closed form; see `Humanize.Humanize`, `HumanizedShape`, `HumanizedSmall`, `HumanizedExactMultiple` and `HumanizedKilobytes` |
| `Humanize.Humanize` | utils.py:15-24 | the loop, with the divisor kept equal to 1024 to the number of divisions, returns exactly `Humanized(nbytes)` |
| `Humanize.RoundHalfEvenNearest` | utils.py:23 | the two-decimal rounding picks a nearest hundredth, and on a tie the even one |
| `Humanize.ExactRounding` | utils.py:23 | an exact quotient is not changed by the rounding |
| `Humanize.StripTwoDecimals` | utils.py:23 | stripping `0`s then `.` from `whole.dd` keeps the decimals up to the last non-zero one, and the point only when a decimal is kept |
| `Humanize.NumericPartDigits` | utils.py:23 | the printed number is the sign, the integer part of the rounded value and the kept decimals |
| `Humanize.NumericPartWhole` | utils.py:23 | a value that rounds to a whole number prints without any point or decimals |
| `Humanize.NumericPartClean` | utils.py:23 | the printed number ends in a digit (so never in `.`), never ends in `0` after a point, and holds no space |
| `Humanize.HumanizedShape` | utils.py:16-24 | every output, 0 included, is the clean number, one space and the suffix of the unit the loop settles on |
| `Humanize.HumanizedZero` | utils.py:17-18 | 0 bytes gives exactly `"0 B"` |
| `Humanize.UndividedNumber` | utils.py:23 | with no division the number printed is the integer's own decimal text |
| `Humanize.HumanizedSmall` | utils.py:17-24 | below 1024 no division happens and the output is the integer's decimal text followed by `" B"` |
| `Humanize.ExactMultipleUnit` | utils.py:19-22 | for `k * 1024^i` with `1 <= k < 1024` (any `k >= 1` for PB) the loop stops after exactly `i` divisions |
| `Humanize.HumanizedExactMultiple` | utils.py:15-24 | `k * 1024^i` prints as `k`, a space and unit `i`, with no fractional part |
| `Humanize.HumanizedKilobytes` | utils.py:20-24 | a value in the KB range prints as its rounded hundredths with the zero decimals stripped, then `" KB"` |
| `Humanize.Humanized853` | tests/test_parser.py:191 | 853 bytes prints as `"853 B"` |
| `Humanize.Humanized1024` | tests/test_parser.py:171 | 1024 bytes prints as `"1 KB"` |
| `Humanize.Humanized2048` | utils.py:15-24 | 2048 bytes prints as `"2 KB"` |
| `Humanize.Humanized1536` | utils.py:23-24 | 1536 bytes prints as `"1.5 KB"`: the trailing zero is stripped |
| `Humanize.Humanized1152` | utils.py:23 | 1152 bytes (1.125 KB, a tie) prints as `"1.12 KB"` |
| `Humanize.Humanized1408` | utils.py:23 | 1408 bytes (1.375 KB, a tie) prints as `"1.38 KB"` |
| `Humanize.Humanized1048575` | utils.py:20-24 | the unit is chosen before rounding, so 1048575 bytes prints as `"1024 KB"` |
| `Text.NatToString` | utils.py:28 | the decimal text of a number is non-empty, all digits, starts with `0` only for 0, and ends in the last digit |
| `Text.NatToStringRoundTrip` | utils.py:28 | reading the decimal text back gives the number |
| `Text.NatToStringInjective` | utils.py:28 | different numbers have different decimal texts |
| `Text.IntToString` | utils.py:28 | a negative integer is `-` followed by the text of its magnitude; otherwise the text of the number |
| `Text.RStrip` | utils.py:23 | `str.rstrip(c)`; see `RStripSpec` and `RStripTail` |
| `Text.RStripSpec` | utils.py:23 | `rstrip(c)` keeps a prefix that does not end in `c` and removes only copies of `c` |
| `Text.RStripTail` | utils.py:23 | `rstrip(c)` applied to a body not ending in `c`, followed by copies of `c`, gives back the body |
| `Text.Join` | utils.py:28 | joining no parts gives `""`, and joining one part gives that part |
| `Text.JoinCons` | utils.py:28 | joining a first part onto further parts puts the separator between them |
| `Text.LexLess` | utils.py:28 | Python's `<` on `str`, which `sorted` uses; see `LexIrreflexive`, `LexAsymmetric`, `LexTransitive` and `LexTotal` |
| `Text.LexIrreflexive` | utils.py:28 | no string sorts before itself |
| `Text.LexAsymmetric` | utils.py:28 | two strings never sort each before the other |
| `Text.LexTransitive` | utils.py:28 | the string order is transitive |
| `Text.LexTotal` | utils.py:28 | any two different strings are ordered one way or the other |
| `Dicts.LeastExists` | utils.py:28 | every non-empty set of keys has a smallest key |
| `Dicts.LeastUnique` | utils.py:28 | the smallest key is unique |
| `Dicts.MinKey` | utils.py:28 | returns the smallest of the keys |
| `Dicts.SortedKeys` | utils.py:28 | `sorted` lists every key exactly once, in strictly ascending order |
| `Dicts.SortedKeysUnique` | utils.py:28 | any strictly ascending list of exactly the keys is `SortedKeys`, so the order is fully determined |
| `Dicts.Entry` | utils.py:28 | `'%s: %s' % (key, value)`: the key, a colon and a space, then the value's decimal text; see `DictToStrSingle` and `DictToStrPair` |
| `Dicts.DictToStr` | utils.py:28 | the output is wrapped in `(` and `)` |
| `Dicts.DictToStrOrdered` | utils.py:28 | the output is `"(" + join(", ", ["k: v" for k ascending]) + ")"` for the one ascending order of the keys |
| `Dicts.DictToStrEntries` | utils.py:28 | the joined list holds one `"k: v"` entry per key of the map, in ascending key order |
| `Dicts.DictToStrEmpty` | utils.py:28 | the empty map gives `"()"` |
| `Dicts.DictToStrSingle` | utils.py:28 | a one-key map gives `"(k: v)"` |
| `Dicts.DictToStrPair` | utils.py:28 | a two-key map prints the smaller key first, whatever the order it was built in |
| `Dicts.StatusCodeOrder` | utils.py:28 | `"200"` sorts before `"201"` |
| `Dicts.DictToStrTwoCodes` | tests/test_parser.py:178-189 | the histogram `{'200': 2, '201': 1}` prints as `"(200: 2, 201: 1)"` |

## Left out

- `cli.py` and `parser.py` are not part of this model. They hold argument parsing, the file-existence check, `strptime` parsing of the bounds, a debugger call, and the rejection of `start >= end`, which happens before a `TimeFrame` is built.
- `LineParser`, `Analyzer` and `get_output_stats` are imported by the tests but defined in no file of the repository shown here, so they are not modelled.
- `TimeFrames.Contains`: timestamps are integer seconds, not `datetime` objects. Time zones and sub-second precision are not modelled.
- `Humanize.Humanize`: the scaled value is kept exactly. The source converts it to a float, which is exact only while |n| < 2^53, negative counts included. Beyond that the source may print a rounded float where the model prints the exact quotient. Past the float range the source raises `OverflowError` (at line 21, or at line 23 for a large negative count), where the model still returns a string.
- `Humanize.Humanize`: the byte count is an integer. Float inputs to `humanize` are not modelled.
- `Dicts.DictToStr`: keys are strings and values integers, as in the status histogram. Other value types, rendered by `'%s'`, are not modelled.
