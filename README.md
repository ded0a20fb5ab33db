# Mastermind feedback judge and sequence input, in Dafny

This project models the two pieces of the Mastermind game that carry real logic:

- **`Judge.check`** (judge.py), the feedback judge. It receives a colour bound `k`, a hidden
  sequence and a query sequence. It raises `ValueError` when the lengths differ or a colour
  lies outside `[1, k]`; otherwise it returns `(correct_position_and_color, correct_color)`.
  The partial count `correct_color` is the number of DISTINCT colours that occur both among the
  hidden colours and among the query colours at the mismatched positions: the two remainders
  are turned into sets before the `for color in query_remaining` loop compares them, so a
  repeated colour contributes at most 1 (this is not the classical per-occurrence rule).
- **The validation body of `Interface.get_seq_from_the_user`** (simple_interface.py), as a
  pure parser of one typed line: split at commas, strip every piece, require non-empty digit
  strings, convert to integers, require exactly `k` values, require each in `[1, k]`. The first
  failing check decides the error.

Files:

- `wrappers.dfy` — module `Wrappers`: the `Result` type standing for "returns or raises".
- `judge.dfy` — module `Judge`: the specification function `Score`, the method `Check`
  that follows the source step by step (the partial-count loop is the method
  `CountColorMatches`, proved against a set cardinality), and the lemmas about the feedback.
- `simple_interface.dfy` — module `SimpleInterface`: `Split`, `Strip`, `DecimalValue`,
  `ParseSeq` and the lemmas about them, including the round trip from a formatted sequence
  and the fact that two accepted lines are always valid input to the judge.

The partial count compares two sets, so a repeated colour counts at most once (unlike
classical Mastermind's per-occurrence rule), and swapping hidden and query gives the same
answer (`Judge.ScoreSymmetric`). Both `ValueError`s are one Python exception; the model
distinguishes them (`LengthMismatch`, `ColorOutOfRange`) by the message the source attaches.

## Model

| member | source | states |
|---|---|---|
| Judge.Score | judge.py:27-50 | fails with `LengthMismatch` exactly when the lengths differ; fails with `ColorOutOfRange` exactly when the lengths agree and some hidden or query colour lies outside `[1, k]`; succeeds exactly when both sequences are valid |
| Judge.Check | judge.py:7-50 | the method that runs validation, exact count, remainder sets and the colour loop returns exactly the answer of `Score` |
| Judge.CountColorMatches | judge.py:44-48 | the loop over the query colours counts exactly the colours that also occur in the hidden set (cardinality of the intersection) |
| Judge.CountStep | judge.py:46-48 | visiting one more query colour adds 1 to the count exactly when that colour is hidden |
| Judge.ExactCount | judge.py:35 | the exact count is at most the length |
| Judge.Unmatched | judge.py:38-39 | the remainder is no longer than the sequence it is taken from |
| Judge.UnmatchedColors | judge.py:38-39 | a colour occurs in the remainder exactly when it sits at some position where the two sequences differ |
| Judge.ExactPositionwise | judge.py:35 | positions are judged independently: the exact count of two concatenated parts is the sum of the parts' counts |
| Judge.UnmatchedPositionwise | judge.py:38-39 | the remainder of two concatenated parts is the first part's remainder followed by the second's |
| Judge.ExactCountIsMatchPositions | judge.py:35 | the exact count equals the number of indices `i` with `hidden[i] == query[i]` |
| Judge.ExactPlusUnmatched | judge.py:35-39 | exact count plus remainder length equals the sequence length |
| Judge.Values | judge.py:41-42 | `set(list)` holds exactly the elements of the list and never has more elements than the list is long |
| Judge.RemainderSet | judge.py:38-42 | the set of a remainder is the set of colours found at the positions where the two sequences differ |
| Judge.SameValues | judge.py:41-42 | two lists with the same elements give the same set, whatever their order and repetitions |
| Judge.DistinctValues | judge.py:41-42 | a remainder without repeated colours keeps its size as a set |
| Judge.ExactCountSymmetric | judge.py:35 | the exact count does not depend on which sequence is hidden |
| Judge.ScorePartialColors | judge.py:38-48 | on success `partial` is the number of distinct colours occurring both among the query colours and among the hidden colours at mismatched positions |
| Judge.ScoreBounds | judge.py:35-48 | on success `exact <= L`, `partial` is at most the number of distinct mismatched query colours, and `exact + partial <= L` |
| Judge.SameSequenceExact | judge.py:35-39 | a sequence against itself: every position exact, empty remainder |
| Judge.ScoreSameSequence | judge.py:35-48 | `check(k, s, s) == (len(s), 0)` for every valid `s` |
| Judge.ScoreSymmetric | judge.py:28-48 | swapping hidden and query gives the same result, errors included |
| Judge.ScoreDisjoint | judge.py:35-48 | a query sharing no colour with the hidden sequence scores `(0, 0)` |
| Judge.AllExactIffEqual | judge.py:35 | every position is exact if and only if the two sequences are equal |
| Judge.ScoreWin | judge.py:35 | on success, `exact == L` (the caller's win test) if and only if the query is the hidden sequence |
| Judge.NoMatchLeavesAll | judge.py:35-39 | when no position agrees, the exact count is 0 and the remainder is the whole sequence |
| Judge.AgreedThenDisjoint | judge.py:35-48 | agreeing positions followed by positions whose colours never meet score `(number of agreeing positions, 0)` |
| Judge.DisjointValues | judge.py:41-48 | two remainders with no colour in common have an empty intersection |
| Judge.ScoreDocExample | judge.py:53-56 | `check(4, [2,3,1,2], [2,3,1,1]) == (3, 0)` |
| Judge.ScoreRepeatedColor | judge.py:41-48 | `check(2, [1,1,2,2], [2,2,1,1]) == (0, 2)`: a repeated colour counts once |
| Judge.ScoreReversed | judge.py:35-48 | `check(4, [1,2,3,4], [4,3,2,1]) == (0, 4)` |
| Judge.ScoreConsumedPositions | judge.py:35-48 | `check(2, [1,1,2,2], [1,1,1,1]) == (2, 0)`: exact positions take no part in the partial count |
| Judge.ScoreErrorExamples | judge.py:28-32 | a length 4 against length 3 pair fails with the length error; a colour 5 with `k == 4` fails with the range error |
| SimpleInterface.Split | simple_interface.py:62 | `split(",")` yields one more piece than there are commas, and no piece contains a comma |
| SimpleInterface.JoinOfSplit | simple_interface.py:62 | joining the pieces with commas gives the line back |
| SimpleInterface.SplitOfJoin | simple_interface.py:62 | splitting comma-free pieces joined by commas gives the pieces back |
| SimpleInterface.SplitWithoutSeparator | simple_interface.py:62 | a line without commas is one piece |
| SimpleInterface.SplitAtSeparator | simple_interface.py:62 | the first comma ends the first piece |
| SimpleInterface.SplitTrailingSeparator | simple_interface.py:62 | a line ending in a comma has an empty last piece |
| SimpleInterface.TrimLeft | simple_interface.py:65 | the result is a suffix, what was dropped is whitespace, and it does not start with whitespace |
| SimpleInterface.TrimRight | simple_interface.py:65 | the result is a prefix, what was dropped is whitespace, and it does not end with whitespace |
| SimpleInterface.Strip | simple_interface.py:65 | `strip()` leaves a string that is empty or starts and ends with a non-space character |
| SimpleInterface.StripKeepsOnlyInput | simple_interface.py:65 | every character of the stripped piece occurs in the piece |
| SimpleInterface.TrimLeftKeepsOnlyInput | simple_interface.py:65 | removing leading whitespace adds no character |
| SimpleInterface.TrimRightKeepsOnlyInput | simple_interface.py:65 | removing trailing whitespace adds no character |
| SimpleInterface.StripIsSlice | simple_interface.py:65 | `strip()` keeps one slice of its input and drops only whitespace around it |
| SimpleInterface.StripDigits | simple_interface.py:65 | a digit string is left unchanged by `strip()` |
| SimpleInterface.StripAllSpace | simple_interface.py:65 | an all-whitespace piece strips to the empty string |
| SimpleInterface.TrimLeftKeeps | simple_interface.py:65 | leading-whitespace removal stops at the first non-space character |
| SimpleInterface.TrimRightKeeps | simple_interface.py:65 | trailing-whitespace removal stops at the last non-space character |
| SimpleInterface.StripKeepsNonSpace | simple_interface.py:65 | every non-space character of a piece survives `strip()` |
| SimpleInterface.DecimalValueOfDecimal | simple_interface.py:70 | `int(str(n)) == n` for every natural `n` |
| SimpleInterface.LeadingZero | simple_interface.py:70 | a leading zero does not change the value `int` reads |
| SimpleInterface.DecimalOfDecimalValue | simple_interface.py:70 | `str(int(s)) == s` for every digit string without a leading zero; with `DecimalValueOfDecimal` this makes `DecimalValue` (the model of `int`) the inverse of the decimal spelling |
| SimpleInterface.PositiveValue | simple_interface.py:70 | a digit string not starting with `0` reads as a value of at least 1 |
| SimpleInterface.FieldsAreTrimmed | simple_interface.py:62-65 | no field contains a comma, and no non-empty field starts or ends with whitespace |
| SimpleInterface.FieldsOfTwoPieces | simple_interface.py:62-65 | a line with one comma has exactly the two stripped sides as its fields |
| SimpleInterface.ParseSeq | simple_interface.py:62-82 | on success: exactly `k` values, one per piece, each the decimal value of its stripped piece and each in `[1, k]` |
| SimpleInterface.ParseSeqOutcome | simple_interface.py:65-80 | the digit error exactly when some stripped piece is not a digit string; the length error exactly when all are digits and the piece count is not `k`; the range error exactly when those pass and some value is outside `[1, k]` |
| SimpleInterface.ParseRejectsBlankPiece | simple_interface.py:65-67 | a blank piece (empty or whitespace only) rejects the line with the digit error |
| SimpleInterface.ParseRejectsNonDigit | simple_interface.py:65-67 | a piece holding a character that is neither digit nor whitespace rejects the line with the digit error |
| SimpleInterface.ParseRejectsExamples | simple_interface.py:62-67 | the empty line, any line ending in a comma, `-1` and `+1` are rejected with the digit error |
| SimpleInterface.ParseZeroOutOfRange | simple_interface.py:78-80 | `"0"` passes the digit and length checks for `k == 1` and fails the range check |
| SimpleInterface.ParseLeadingZeros | simple_interface.py:62-82 | `" 01, 002 "` with `k == 2` reads as `[1, 2]` |
| SimpleInterface.ParseSeqOfFormat | simple_interface.py:62-82 | every valid sequence of length `k > 0`, written in decimal and joined by commas, is accepted and read back unchanged |
| SimpleInterface.ParsedLinesAreJudged | simple_interface.py:73-80 | two lines accepted for the same `k` are valid input to the judge, and its feedback stays within `k` |

## Left out

- The `while True` retry loop, `input()` and `print()` of `get_seq_from_the_user`: I/O, left out; `ParseSeq` is one pass of the loop body and its error is the message the loop would print.
- The other prompt methods of `Interface` (`get_k_from_user`, `get_n_from_user`, `choose_game_mode`, `is_hidden_seq_random`, `get_game_config`, and the two `get_*_seq_from_the_user` wrappers): console loops only.
- SimpleInterface.IsSpace, SimpleInterface.IsDigit: Python's `str.strip()` and `str.isdigit()` also accept non-ASCII whitespace and Unicode digits (a superscript digit passes `isdigit()` and then makes `int()` raise); the model treats only ASCII whitespace (codes 9-13, 28-31 and 32) and `'0'..'9'`.
- SimpleInterface.DecimalValue: reads a digit string of any length; Python 3.11 and later (and the 2022 security releases of 3.7-3.10) make `int()` raise `ValueError` for a string of more than 4300 digit characters, leading zeros included (the `sys.set_int_max_str_digits` default), an error simple_interface.py:70 does not catch. The model raises nothing there: such a line gets `WrongLength`, `OutOfRange` or `Ok` from the model (e.g. 4300 zeros followed by `1`, with `k == 1`, is accepted as `[1]`) where the program raises, and `DecimalValueOfDecimal`, `DecimalOfDecimalValue` and `ParseSeqOfFormat` speak of `int`/`str` for all lengths, beyond that limit.
- SimpleInterface.ParseSeqOfFormat: requires `k > 0`, because an empty sequence has no typed form (the empty line is one empty piece and is rejected).
- qt_interface.py and interface.py (widgets, painting, signals), player.py (random queries and duplicate tracking), game.py (the recursive turn loop) and the random hidden sequence: user interface, randomness and I/O, not part of this model.
