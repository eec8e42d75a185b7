# EEG text-input parsers

The EEG seizure-screening app reads raw EEG samples from a text box. It
holds two parsers that turn the typed text into an ordered list of
numbers or reject it:

- `parse_eeg_input` in `eeg_seizure_app/app.py` is lenient. It replaces
  every `[`, `]` and `,` by a space (`re.sub`) and splits on whitespace
  (`str.split()`). It drops empty pieces and converts each piece with
  `float()`.
- The inline comprehension in `app.py` is strict. It splits at every
  comma (`str.split(",")`) and strips each field (`str.strip()`). It
  drops blank fields and converts the rest with `float()`.

A text `float()` rejects raises `ValueError` in both, so no partial list
ever reaches the predictor. The lenient page's handler shows the error's
text, which names the rejected text; the strict page's handler shows a
fixed message instead. When parsing succeeds with fewer than ten values, the handler
shows a short-segment warning.

Modules:

- `Wrappers` (wrappers.dfy): `Option` and `Result`.
- `Chars` (chars.dfy): Python's whitespace set, the characters the
  regular expression `[\[\],]` matches, ASCII digits and ASCII
  lower-casing.
- `PyStr` (pystr.dfy): `str.strip()` (`Strip`), `str.split()` (`Split`),
  `str.split(sep)` (`SplitOn`) and `sep.join` (`Join`).
  - Everything about them that the parsers need is proved here.
  - Whitespace-only text and the maximal runs of non-whitespace are
    characterised in both directions.
  - Splitting distributes over concatenation at whitespace.
  - `split(sep)` and `join` undo each other.
- `PyFloat` (pyfloat.dfy): `float()` on a `str`, and the comprehension
  that raises at the first rejected text (`ConvertEach`).
  - Acceptance follows CPython's grammar. First the blanks of
    `Chars.IsFloatSpace` are stripped from both ends. These are Python's
    whitespace without the information separators U+001C..U+001F: CPython
    maps non-ASCII whitespace to a space and then strips ASCII whitespace,
    so those four characters stay and make the text invalid. Then an
    optional sign is read. What follows is either `inf`, `infinity` or
    `nan` in any ASCII case, or a decimal with an optional fraction and an
    optional exponent. Digit runs may contain single underscores between
    digits.
  - The value of a finite literal is kept as an exact rational. Rounding
    to binary64 is not modelled (see Left out).
- `Screening` (screening.dfy): the handler's decision between an error
  message and an analysis, with the short-segment warning.
- `EegParse` (eeg_parse.dfy): the lenient parser and its properties.
- `InlineParse` (inline_parse.dfy): the strict parser, its properties,
  and the theorem that whatever it accepts the lenient parser accepts
  with the same list.

Both parsers are pure, so they are modelled as functions, with lemmas
about them. A rejected conversion is the `Err` case of a `Result`.

What the pages tell the user and what their code does differ in places.
The model follows the code:

- The strict page labels its text box "comma separated" (app.py:95), and
  its error message asks for comma-separated numbers (app.py:139). It
  still accepts a field with whitespace around a number, and `float()`
  also accepts exponents, `inf`, `nan` and underscores.
- The lenient page asks for values "separated by spaces, commas, or
  newlines" (eeg_seizure_app/app.py:99). Its code also accepts tabs, the
  other Unicode whitespace and square brackets as separators. Its error
  message asks for numeric values only (eeg_seizure_app/app.py:156) and
  carries the text `float()` rejected.

## Model

| member | source | states |
|---|---|---|
| EegParse.Clean | eeg_seizure_app/app.py:36 | Definition of the `re.sub` step: every `[`, `]` and `,` is replaced by one space. |
| EegParse.Tokens | eeg_seizure_app/app.py:36-38 | Definition of the texts handed to `float()`: the pieces of `split()` of the substituted text, with empty pieces dropped by `if x`. |
| EegParse.ParseEegInput | eeg_seizure_app/app.py:33-38 | Definition of `parse_eeg_input`: the tokens converted in order by `float()`, or the error for the first token it rejects. |
| EegParse.Submit | eeg_seizure_app/app.py:114-119 | Definition of the lenient button handler: `Screen` applied to `parse_eeg_input` (the `except ValueError` at lines 155-156 is the `Err` case). |
| InlineParse.ParseStrict | app.py:102 | Definition of the comprehension: the text split at commas, each field stripped, blank fields dropped, the rest converted in order by `float()`, or the error for the first one rejected. |
| InlineParse.Submit | app.py:100-105 | Definition of the strict button handler: `Screen` applied to the comprehension (the `except ValueError` at lines 138-139 is the `Err` case). |
| PyFloat.ParseFloat | eeg_seizure_app/app.py:38 | Definition of `float()` on a `str` (also used at app.py:102): its blanks stripped, then the literal grammar, `None` for `ValueError`. |
| PyFloat.ConvertAll | eeg_seizure_app/app.py:38 | Definition of `[float(x) for x in xs]` (also the shape at app.py:102): `ConvertEach` with `float()`. |
| PyStr.Strip | app.py:102 | Definition of `str.strip()`: Python whitespace removed from both ends. |
| PyStr.Split | eeg_seizure_app/app.py:38 | Definition of `str.split()`: the maximal runs of non-whitespace, in order. |
| EegParse.CleanPointwise | eeg_seizure_app/app.py:36 | The substitution keeps the length. Each `[`, `]` or `,` becomes one space and every other character is unchanged. |
| EegParse.CleanAppend | eeg_seizure_app/app.py:36 | The substitution of a concatenation is the concatenation of the substitutions. |
| EegParse.CleanRemoves | eeg_seizure_app/app.py:36 | No bracket or comma is left after the substitution. |
| EegParse.CleanKeeps | eeg_seizure_app/app.py:36 | Text without brackets or commas is left unchanged. |
| EegParse.CleanIdempotent | eeg_seizure_app/app.py:36 | Applying the substitution twice is the same as applying it once. |
| EegParse.CleanSpaces | eeg_seizure_app/app.py:36 | The cleaned text is all whitespace exactly when the input is all separators (whitespace, brackets, commas). |
| EegParse.FilterIsNoOp | eeg_seizure_app/app.py:38 | The `if x` filter drops nothing: the tokens are exactly the pieces of `split()`. |
| EegParse.TokensAreClean | eeg_seizure_app/app.py:36-38 | Every text handed to `float()` is non-empty and has no whitespace, bracket or comma. |
| EegParse.TokensAreRuns | eeg_seizure_app/app.py:36-38 | The input is the tokens, in order, with runs of separators around and between them, and the inner runs are non-empty. So the tokens are the maximal runs of non-separators. |
| EegParse.LayoutIrrelevant | eeg_seizure_app/app.py:36-38 | Converse: clean tokens laid out with any separator runs (non-empty between tokens) give exactly those tokens. |
| EegParse.OnlySeparators | eeg_seizure_app/app.py:36-38 | The parse gives the empty list exactly when the input is separators only, the empty string included. |
| EegParse.TokensAtSeparator | eeg_seizure_app/app.py:36-38 | Cutting the input at a separator character cuts the token list there. |
| EegParse.TokensAfterSeparators | eeg_seizure_app/app.py:36-38 | Leading separators contribute no token. |
| EegParse.SeparatorRun | eeg_seizure_app/app.py:36-38 | Any non-empty run of separators in any position gives the same tokens and result as one space. Replacing a bracket or comma by a space, or widening a gap, changes nothing. |
| EegParse.JoinedInputs | eeg_seizure_app/app.py:38 | Two inputs joined by a separator parse exactly when both parse. The values are those of the first followed by those of the second. |
| EegParse.WarningRule | eeg_seizure_app/app.py:116-119 | The warning is shown exactly when fewer than ten tokens were read. A rejected input reports one of its tokens. |
| InlineParse.FieldsAccepted | app.py:102 | For any conversion, the comprehension over stripped non-blank fields succeeds exactly when every field is blank or accepted once stripped. |
| InlineParse.StrictOk | app.py:102 | The strict parse succeeds exactly when every comma-separated field is blank or holds a literal `float()` accepts. A single bad field fails the whole parse. |
| InlineParse.StrictAppend | app.py:102 | Two texts joined by a comma parse exactly when both parse. The values are concatenated in order. |
| InlineParse.BlankField | app.py:102 | A whitespace-only field, the empty one included, yields no values. With StrictAppend, leading, trailing and doubled commas are dropped. |
| InlineParse.FieldOkShape | app.py:102 | An accepted non-blank field, once stripped, is a token with no whitespace, bracket or comma. |
| InlineParse.FieldRejected | app.py:102 | A field with whitespace or a bracket inside its stripped text is rejected. |
| InlineParse.InnerSeparatorFails | app.py:102 | Whitespace or a bracket inside any field makes the whole strict parse fail. |
| InlineParse.FieldTextAccepted | app.py:102 | One field's contribution converts exactly when the field is blank or accepted. |
| InlineParse.WarningRule | app.py:102-105 | The warning is shown exactly when fewer than ten non-blank fields were read. On a rejected input, the `ValueError` raised at line 102 names one of its stripped fields; the page itself shows a fixed message (line 139). |
| InlineParse.FieldAgrees | app.py:102 | An accepted field is unchanged by the lenient substitution, and `split()` of it is its stripped text, or nothing when blank. |
| InlineParse.CleanJoin | app.py:102 | Substituting in fields that hold no bracket or comma, joined by commas, gives the same fields joined by spaces. |
| InlineParse.SplitJoin | app.py:102 | `split()` of fields joined by spaces is the stripped non-blank fields, when each field splits into its stripped text. |
| InlineParse.StrictImpliesLenient | app.py:102 | Whenever the strict parser succeeds, `parse_eeg_input` produces the same tokens and the same list of values. |
| InlineParse.EmptyFieldsSkipped | app.py:102 | "1,,2," gives exactly the values 1 and 2. |
| InlineParse.SpaceInsideField | app.py:102 | "1 2" is rejected by the strict parser. |
| InlineParse.SpaceSeparatedTokens | eeg_seizure_app/app.py:36-38 | "1 2" gives the tokens "1" and "2" in the lenient parser. |
| InlineParse.SpaceSeparatedInput | app.py:102 | On "1 2" the strict parser fails while `parse_eeg_input` returns 1 and 2. |
| InlineParse.ConvertPair | app.py:102 | Converting two accepted texts gives their two values in order. |
| InlineParse.ParseDigit | app.py:102 | `float()` of a one-digit numeral is that digit. |
| InlineParse.ParseOneTwo | app.py:102 | Converting "1" and "2" gives 1 and 2. |
| InlineParse.StrippedNonBlankAppend | app.py:102 | The stripped non-blank fields of a concatenation of field lists are the concatenation of theirs. |
| Screening.Screen | eeg_seizure_app/app.py:116-119 | The handler reports invalid input exactly when parsing raised, with that error. Otherwise it analyses the parsed list unchanged and warns exactly when it has fewer than ten values. |
| PyFloat.ConvertEach | eeg_seizure_app/app.py:38 | The comprehension succeeds exactly when every text converts. The values then correspond one to one and in order with the texts. On failure the error names the first text that does not convert, and no list is produced. |
| PyFloat.ConvertEachAppend | eeg_seizure_app/app.py:38 | Converting a concatenation succeeds exactly when both halves do. The values are concatenated. |
| PyFloat.UnsignedAlphabet | eeg_seizure_app/app.py:38 | An accepted unsigned literal is non-empty and made only of literal characters. |
| PyFloat.LiteralAlphabet | eeg_seizure_app/app.py:38 | An accepted literal is non-empty and made only of digits, signs, `.`, `_`, `e`, `E` and the letters of inf/infinity/nan. |
| PyFloat.LiteralIsToken | eeg_seizure_app/app.py:38 | An accepted literal has no whitespace, bracket or comma, so it can never span two tokens or two fields. |
| PyFloat.LiteralCharIsNoSeparator | eeg_seizure_app/app.py:38 | No character of a literal is whitespace, a bracket or a comma. |
| PyFloat.FloatStripParts | app.py:102 | The argument of `float()` is float blanks, then the text it reads, then float blanks; that text has no float blank at either end. |
| PyFloat.FloatStripPadded | app.py:102 | Float blanks added around text without float blanks at its ends are stripped off again. |
| PyFloat.ParseFloatPadded | app.py:102 | `float()` ignores any run of its own blanks (whitespace other than U+001C..U+001F) around its argument. |
| PyFloat.FloatStripOfStripped | app.py:102 | Text without whitespace at its ends has nothing for `float()` to strip. |
| PyFloat.ParseFloatOfStripped | app.py:102 | On stripped text, `float()` is the literal grammar alone. |
| PyFloat.ParseFloatStrip | app.py:102 | `float(x.strip())` reads the stripped text by the literal grammar alone. |
| PyFloat.SeparatorControlKept | app.py:102 | An information separator U+001C..U+001F in front of a text is removed by `strip()`, but `float()` given it keeps it and rejects the text. |
| PyFloat.NonLiteralCharRejected | eeg_seizure_app/app.py:38 | Stripped text (what `float()` reads once its blanks are gone) holding a character that no literal uses is rejected. |
| PyFloat.NatToStringValue | eeg_seizure_app/app.py:38 | The decimal numeral of n is a non-empty run of digits whose value is n. |
| PyFloat.DigitsRead | eeg_seizure_app/app.py:38 | A run of ASCII digits converts to its decimal value. |
| PyFloat.NegatedDigitsRead | eeg_seizure_app/app.py:38 | A minus followed by a run of ASCII digits converts to minus its decimal value. |
| PyFloat.DigitsRoundTrip | eeg_seizure_app/app.py:38 | A run of ASCII digits, with or without a leading minus, converts to its decimal value, negated for the minus. |
| PyFloat.NatRoundTrip | eeg_seizure_app/app.py:38 | In the exact-value model, `float(str(n)) == n` and `float("-" + str(n)) == -n` for every natural n. |
| PyStr.StripShape | app.py:102 | `strip()` leaves no whitespace at either end. |
| PyStr.StripParts | app.py:102 | The text is whitespace, then its stripped form, then whitespace. |
| PyStr.StripEmpty | app.py:102 | A field strips to the empty string exactly when it is all whitespace. |
| PyStr.StripPadded | app.py:102 | Stripping whitespace-padded stripped text gives that text back. |
| PyStr.StripSurrounded | app.py:102 | Extra whitespace around a text does not change its stripped form. |
| PyStr.StripOfStripped | app.py:102 | Stripped text is left unchanged by `strip()`. |
| PyStr.StripIdempotent | app.py:102 | Stripping twice is the same as stripping once. |
| PyStr.SplitTokens | eeg_seizure_app/app.py:38 | Every piece of `split()` is non-empty and has no whitespace. |
| PyStr.SplitEmpty | eeg_seizure_app/app.py:38 | `split()` gives no pieces exactly when the text is all whitespace. |
| PyStr.SplitToken | eeg_seizure_app/app.py:38 | A single token splits into itself. |
| PyStr.SplitAppend | eeg_seizure_app/app.py:38 | Two texts that meet at whitespace split into the pieces of the first followed by those of the second. |
| PyStr.SplitSpacePrefix | eeg_seizure_app/app.py:38 | Leading whitespace does not change the pieces. |
| PyStr.SplitInterleave | eeg_seizure_app/app.py:38 | Tokens laid out with whitespace runs (non-empty between tokens) split back into exactly those tokens. |
| PyStr.SplitGaps | eeg_seizure_app/app.py:38 | Every text is its pieces with whitespace runs around and between them. Together with SplitInterleave, this makes the pieces the maximal runs of non-whitespace, in order. |
| PyStr.SplitOn | app.py:102 | Definition of `str.split(sep)`, whose contract says it gives one more field than there are separators, and no field holds the separator. |
| PyStr.JoinSplitOn | app.py:102 | Joining the fields with the separator gives back the text. |
| PyStr.SplitOnNoSep | app.py:102 | Text without the separator is one field. |
| PyStr.SplitOnCons | app.py:102 | A first field free of the separator comes off as one field. |
| PyStr.SplitOnJoin | app.py:102 | Fields free of the separator are recovered by splitting their join. |
| PyStr.SplitOnAppend | app.py:102 | Splitting at one occurrence of the separator splits the field list there. |

## Left out

- The Streamlit page: layout, HTML/CSS strings, the time header, the text area, buttons, spinner, plots and statistics. It is user-interface glue with side effects. The model starts from the text the text area returns.
- The TensorFlow LSTM, the cached model and `predict_seizure`, with the 0.5 threshold and the confidence meter. They compute on model outputs in floating point. The model ends at the decision to analyse the parsed list.
- `ValueError` raised after parsing, for example by the prediction step on an unusable list. It lands in the same `except` and shows the same message, but it is not modelled; `Screen` only sees parse errors.
- `preprocess_eeg`: floating-point z-score normalisation, including division by a zero standard deviation.
- `eeg_seizure_app/utils.py` (filters and wavelet features calling scipy/pywt), `eeg_seizure_app/model.py` (a random mock predictor) and `eeg_seizure_app/test_utils.py` (a print script). They are library calls and nondeterminism with no stated behaviour.
- The wording of the warning and error messages, and Python's `repr` quoting of the rejected text inside the `ValueError` message. The model keeps the rejected text itself. The strict page's bare `except ValueError:` (app.py:138-139) drops that text and shows a fixed message; the model's `InvalidInput` still carries it.
- PyFloat.ParseFloat: finite values are exact rationals. The model does not capture rounding to binary64, overflow of huge literals to infinity, or the sign of negative zero, because these are floating-point representation rather than parsing.
- PyFloat.ParseFloat: digits outside ASCII (Unicode decimal digits, which CPython converts) are rejected. Non-ASCII numerals were judged out of scope for typed EEG samples.
- The regular-expression engine: `re.sub(r'[\[\],]', ' ', s)` is modelled directly as a character-by-character substitution (`EegParse.Clean`).
- `str.split()` and `str.strip()` are modelled on the 29 characters Python's `str.isspace()` accepts, and `float()` on those 29 minus U+001C..U+001F. Other Unicode properties (normalisation, case folding) play no part.
