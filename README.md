# National-Insurance form extraction: field checks and repairs

This project models the part of the form extractor that does not talk to
an external service. The extractor reads a scanned Israeli National-Insurance
accident form, asks a language model for a JSON record, and then checks and
repairs that record. The model covers three pieces.

- **The record validator** (`extraction/validator.py`).
  - The Israeli ID check digit: pad to nine digits, weights 1,2,1,2,…, fold
    two-digit products, sum divisible by ten. It is proved equal to the Luhn
    formula of ISO/IEC 7812-1, Annex B.
  - The `%d/%m/%Y` date check, modelled as the parsing grammar plus the
    Gregorian calendar.
  - The fixed-shape mobile (`05` and eight digits) and landline (`0`, a
    digit 2-9, seven digits) patterns.
  - `validate_fields`. It is a recursive walk over the form template that
    reports "Missing value" at the dotted path of every empty leaf. Five
    per-field format checks follow it.
- **OCR-noise digit recovery** (`extraction/id_phone_helpers.py`).
  - The candidate search `\b\d[ \d]{n-1,n+2}\b`, modelled as greedy
    matching with backtracking to a word boundary.
  - The collapse of repeated digits.
  - The first-match search for an ID or a mobile number.
- **The extractor's own logic** (`extraction/extractor.py`).
  - Unwrapping the JSON payload from a "```json" fence in the model's answer.
  - The in-place repair of an eight-character ID and a mobile number
    without its "05" prefix.
  - The template shape, from the literal in the prompt.

Records are dictionaries whose values are strings or nested dictionaries
(`Record.Value`). The template is a tree of `Leaf | Group` (`Record.Template`).
It has 19 top-level keys: 13 leaves and six groups, 35 leaf paths in all.

Where the Python code raises, the model returns `Raised(…)` instead of
excluding that input. That happens in two opposite cases: a dictionary
stands where a string is expected (`Raised(TypeError)`, or
`Raised(AttributeError)` for `startswith`), or a string stands where a group
of the template, a dictionary, is expected (`Raised(AttributeError)` from
`.get`).

Three functions update state step by step in the source, and the model
keeps that form:
- `Validator.ValidId` loops over the digits with an accumulator.
- `Validator.ValidateFields` fills an error dictionary, first through the
  recursive `Validator.CheckMissingFields`, then through a chain of
  conditional insertions.
- `Extractor.ExtractedRecord.CorrectCommonFieldErrors` updates the record's
  dictionary in place.

Each of these methods is proved equal to a specification function, and the
properties are proved about that function.

A consequence worth knowing follows from `IdPhoneHelpers.DoubledMobileDigitLost`.
The recovery collapses every run of a repeated digit. So a mobile number
that legitimately contains two equal adjacent digits, or that starts with
`055`, can never be returned by `best_mobile`: its collapsed form is too
short. The same holds for IDs. The collapse is the documented design, so
this is reported here and not as a defect.

## Model

| member | source | states |
|---|---|---|
| Validator.OnlyDigits | extraction/validator.py:9-11 | the result consists of digits only, is no longer than the input, and contains exactly the digit characters of the input |
| Validator.OnlyDigitsAppend | extraction/validator.py:9-11 | filtering distributes over concatenation, so the digits keep their original order |
| Validator.OnlyDigitsOfDigits | extraction/validator.py:9-11 | a string of digits is returned unchanged |
| Validator.OnlyDigitsIdempotent | extraction/validator.py:9-11 | filtering twice is filtering once |
| Validator.ZFill | extraction/validator.py:15 | `zfill` leaves a string at least as wide unchanged, otherwise pads it to exactly the width, with zeros in front of a digit string |
| Validator.PaddedId | extraction/validator.py:15 | the padded ID is all digits, and has length nine exactly when the input holds at most nine digits |
| Validator.IsValidId | extraction/validator.py:13-25 | defined as: the zero-padded digits have length nine and their weighted, folded sum is a multiple of ten; `ValidId`, `ValidIdIsLuhn`, `ValidIdIgnoresNonDigits`, `EmptyIdIsValid` and the examples below state its behaviour |
| Validator.ValidId | extraction/validator.py:13-25 | the loop's answer equals the check-digit predicate, and is false whenever the input holds more than nine digits |
| Validator.WeightedSum | extraction/validator.py:18-24 | the accumulator loop computes the weighted, folded digit sum |
| Validator.IdSum | extraction/validator.py:18-24 | defined as the `total` after the first n digits: each digit times 1 or 2 by position, less 9 when above 9, summed; `WeightedSum` is proved to compute it and `IdSumIsLuhnSum` equates it with the Luhn sum |
| Validator.FoldIsDigitSum | extraction/validator.py:22-23 | subtracting 9 from a product above 9 (at most 18) gives its digit sum |
| Validator.IdSumIsLuhnSum | extraction/validator.py:19-24 | on an odd number of digits, the left-to-right 1,2,1,2 weighting equals Luhn's right-to-left doubling of every second digit |
| Validator.ValidIdIsLuhn | extraction/validator.py:13-25 | an ID is valid iff it has at most nine digits and its zero-padded digits pass the Luhn check of ISO/IEC 7812-1 |
| Validator.ValidIdIgnoresNonDigits | extraction/validator.py:15 | separators and other non-digits never change the verdict |
| Validator.EmptyIdIsValid | extraction/validator.py:15-25 | the empty ID pads to nine zeros and is accepted |
| Validator.InvalidIdHasDigit | extraction/validator.py:15-25 | a rejected ID contains at least one digit |
| Validator.IdSumOfZeros | extraction/validator.py:18-24 | a run of zeros sums to 0 |
| Validator.PaddedNineDigits | extraction/validator.py:15-25 | nine digits are not padded, and are valid iff their weighted sum is a multiple of ten |
| Validator.ValidIdExample | extraction/validator.py:13-25 | "000000018" is accepted |
| Validator.ValidIdExampleSum | extraction/validator.py:18-24 | the weighted sum of "000000018" is 10 |
| Validator.InvalidIdExample | extraction/validator.py:13-25 | "123456789" is rejected |
| Validator.InvalidIdExampleRule | extraction/validator.py:15-25 | for "123456789" the verdict is decided by the weighted sum alone |
| Validator.InvalidIdExampleSum | extraction/validator.py:18-24 | the weighted sum of "123456789" is 47 |
| Validator.ParseDay | extraction/validator.py:31 | a parsed `%d` day lies in 1..31 |
| Validator.ParseMonth | extraction/validator.py:31 | a parsed `%m` month lies in 1..12 |
| Validator.ParseYear | extraction/validator.py:31 | a parsed `%Y` year has at most four digits |
| Validator.DatePart | extraction/validator.py:30 | a date part that counts as present is non-empty |
| Validator.IsCalendarDate | extraction/validator.py:31-33 | defined as: the three parts parse as `%d`, `%m` and `%Y` and the day exists in that month of that year of the Gregorian calendar; `PaddedDateAccepted` and `ShortFormsAccepted` state which strings pass |
| Validator.ValidDate | extraction/validator.py:27-35 | defined as: a dictionary whose day, month and year are present, non-empty strings forming a calendar date; `ValidDateNeedsAllParts` and `PaddedDateAccepted` state its behaviour |
| Validator.ValidDateNeedsAllParts | extraction/validator.py:27-35 | a valid date is a dictionary whose day, month and year are all present and non-empty |
| Validator.PaddedDay | extraction/validator.py:31 | a two-digit zero-padded day parses to its value exactly when it is 1..31 |
| Validator.PaddedMonth | extraction/validator.py:31 | a two-digit zero-padded month parses to its value exactly when it is 1..12 |
| Validator.PaddedDateAccepted | extraction/validator.py:27-35 | a zero-padded DD/MM/YYYY date is accepted exactly when it is a real Gregorian date from year 1 on |
| Validator.ShortFormsAccepted | extraction/validator.py:31 | a single-digit day or month and a space-padded day are accepted; a space-padded month is not |
| Validator.ValidMobile | extraction/validator.py:37-39 | defined as a full match of `05\d{8}`; `ValidMobileShape` states it character by character |
| Validator.ValidLandline | extraction/validator.py:41-43 | defined as a full match of `0[2-9]\d{7}`; `ValidLandlineShape` states it character by character |
| Validator.ValidMobileShape | extraction/validator.py:37-39 | a mobile number is valid iff it has length 10, starts with "05" and the other eight characters are digits |
| Validator.ValidLandlineShape | extraction/validator.py:41-43 | a landline is valid iff it has length 9, is '0', then a digit 2-9, then seven digits |
| Validator.PhoneFormatsDisjoint | extraction/validator.py:37-43 | no number is both a valid mobile and a valid landline, and each valid number is all digits |
| Validator.RaisedPersists | extraction/validator.py:52-55 | once the walk raises, later template entries do not change the outcome |
| Validator.MarkMissingUnion | extraction/validator.py:58 | marking two sets of paths in turn is marking their union |
| Validator.MarkMissingAdd | extraction/validator.py:58 | recording one more missing path adds it to the marked set |
| Validator.CheckMissingFields | extraction/validator.py:50-58 | the recursive walk adds "Missing value" at exactly the paths `MissingPaths` yields for the template and the record, and raises exactly where `MissingPaths` raises; `MissingPathsExact` and `MissingInRaises` say which paths and when |
| Validator.MissingInSound | extraction/validator.py:50-58 | every reported path is the dotted path of a template leaf whose value is empty or absent |
| Validator.MissingInComplete | extraction/validator.py:50-58 | the dotted path of every empty or absent template leaf is reported |
| Validator.MissingPathsExact | extraction/validator.py:50-60 | a path is reported by the walk iff it names an empty or absent template leaf |
| Validator.MissingInRaises | extraction/validator.py:54-57 | the walk succeeds iff every group of the template meets a dictionary or nothing, and otherwise raises AttributeError |
| Validator.TemplateKeys | extraction/extractor.py:64-113 | every top-level template key is non-empty, and no top-level leaf is called "dateOfBirth" |
| Record.Template | extraction/extractor.py:64-113 | defined as the prompt's template: 19 top-level keys in order, of which "dateOfBirth", "dateOfInjury", "formFillingDate" and "formReceiptDateAtClinic" are day/month/year groups, "address" a group of seven leaves and "medicalInstitutionFields" a group of three; `TemplateKeys` and `TemplateEmptyLeaf` state its key properties |
| Validator.JoinPathExtends | extraction/validator.py:53 | a dotted path below a group starts with the group's path |
| Validator.TemplateEmptyLeaf | extraction/validator.py:50-60 | an empty top-level leaf is an empty field other than "dateOfBirth"; every deeper missing path contains a dot |
| Validator.MissingNeverRejected | extraction/validator.py:57-78 | a missing field never also gets a format error: empty values pass the ID, phone and gender checks |
| Validator.EmptyFieldAccepted | extraction/validator.py:62-78 | an empty or absent field other than "dateOfBirth" never gets a format error |
| Validator.RejectedNames | extraction/validator.py:62-78 | a key gets a format error iff it is one of the five checked fields and that field's check rejects |
| Validator.DottedPathNotAField | extraction/validator.py:53 | a dotted path is never one of the five format-checked keys |
| Validator.FormatRaises | extraction/validator.py:62-77 | defined as: the ID is a dictionary, or the mobile number, the landline or the gender is a non-empty dictionary; `CheckFormats` and `ValidationRaises` state that the format pass raises TypeError exactly then |
| Validator.EmptyDictionaryRaisesOnlyForId | extraction/validator.py:62-77 | an empty dictionary for a phone number or the gender is skipped without raising, while an empty dictionary for the ID raises |
| Validator.VerdictsOf | extraction/validator.py:62-78 | defined as the five verdicts: the ID check fails, the date check fails, and a non-empty mobile number, landline or gender fails its check; `RejectedNames` states which keys they reject |
| Validator.MarkRejected | extraction/validator.py:62-78 | defined as the five conditional insertions in the source's order; `MarkRejectedKeys` and `MarkRejectedValues` state the keys it adds and the values it leaves |
| Validator.FormatChecks | extraction/validator.py:62-78 | defined as: TypeError when `FormatRaises`, otherwise the report marked with the record's verdicts; `CheckFormats` is proved to compute it, and `RejectedNames`, `MarkRejectedKeys` and `MarkRejectedValues` state its meaning |
| Validator.MarkRejectedKeys | extraction/validator.py:62-78 | the format pass keeps every earlier entry and adds exactly the rejected fields |
| Validator.MarkRejectedValues | extraction/validator.py:62-78 | a rejected field carries its own message; every other entry keeps its earlier value |
| Validator.CheckFormats | extraction/validator.py:62-78 | the chain of conditional insertions computes the format pass, raising where the source does |
| Validator.ValidateFields | extraction/validator.py:45-80 | the method computes the missing-value walk followed by the format pass |
| Validator.Validation | extraction/validator.py:45-80 | defined as: the missing-value walk over the template, then the format pass over its report, either step raising; the four lemmas below state the report it yields |
| Validator.ValidationSteps | extraction/validator.py:45-80 | the report is the missing-value report of exactly the empty leaves, followed by the format errors |
| Validator.ValidationKeys | extraction/validator.py:45-80 | a path is in the report iff it is an empty template leaf or a field whose format check rejects |
| Validator.ValidationFormatErrors | extraction/validator.py:62-78 | each rejected field carries its format message; no rejected field is ever also an empty leaf (`MissingNeverRejected`), so the two messages never meet |
| Validator.ValidationMissingValues | extraction/validator.py:50-60 | each empty leaf carries "Missing value" in the final report |
| Validator.ValidationRaises | extraction/validator.py:45-80 | validation raises iff a group meets a non-dictionary (AttributeError), or a dictionary stands for the ID or a non-empty dictionary for a phone number or the gender (TypeError) |
| IdPhoneHelpers.RunLength | extraction/id_phone_helpers.py:7 | the greedy `[ \d]` run is as long as possible up to its bound |
| IdPhoneHelpers.RunLengthMaximal | extraction/id_phone_helpers.py:7 | no longer prefix within the bound consists of digits and spaces |
| IdPhoneHelpers.BacktrackEnd | extraction/id_phone_helpers.py:7 | backtracking stops at the last word boundary that still meets the minimum length |
| IdPhoneHelpers.MatchAt | extraction/id_phone_helpers.py:7 | a match at a position is the longest that meets the pattern, and there is none exactly when no end meets it |
| IdPhoneHelpers.CandidatesFrom | extraction/id_phone_helpers.py:7 | each candidate from a position on has the pattern's length, starts with a digit, holds only digits and spaces, and occurs in the text |
| IdPhoneHelpers.Candidates | extraction/id_phone_helpers.py:5-7 | every candidate has between n and n+3 characters, starts with a digit, holds only digits and spaces, and occurs in the text |
| IdPhoneHelpers.DigitsAloneAreOneCandidate | extraction/id_phone_helpers.py:5-7 | a text of n to n+3 digits is its own single candidate |
| IdPhoneHelpers.Normalise | extraction/id_phone_helpers.py:9-12 | the result is never longer, keeps the first character and the set of characters, keeps digit strings digits, and has no two equal adjacent digits |
| IdPhoneHelpers.NormaliseFixes | extraction/id_phone_helpers.py:12 | a string without repeated adjacent digits is unchanged |
| IdPhoneHelpers.NormaliseIdempotent | extraction/id_phone_helpers.py:12 | normalising twice is normalising once |
| IdPhoneHelpers.NormaliseStutter | extraction/id_phone_helpers.py:12 | a doubled digit anywhere collapses to one copy |
| IdPhoneHelpers.Cleaned | extraction/id_phone_helpers.py:17 | a cleaned candidate is all digits with no repeated adjacent digits |
| IdPhoneHelpers.Accepts | extraction/id_phone_helpers.py:18-26 | defined as the loop's test: nine digits passing the ID check, or ten digits starting with "05" passing the mobile check; `FirstMatch` uses it to pick the first accepted candidate and `MobileTestIsPattern` shows the mobile length and prefix tests add nothing |
| IdPhoneHelpers.FirstMatch | extraction/id_phone_helpers.py:16-20 | nothing is returned iff no candidate is accepted; otherwise the cleaned form of the first accepted candidate in scan order |
| IdPhoneHelpers.BestIsraeliId | extraction/id_phone_helpers.py:14-20 | a returned ID has nine digits, passes the ID check and has no repeated adjacent digits |
| IdPhoneHelpers.BestMobile | extraction/id_phone_helpers.py:22-28 | a returned number has ten digits, starts with "05", passes the mobile check and has no repeated adjacent digits |
| IdPhoneHelpers.MobileTestIsPattern | extraction/id_phone_helpers.py:26 | the length and prefix tests before the pattern add nothing to it |
| IdPhoneHelpers.IdRecoveredFromDigits | extraction/id_phone_helpers.py:14-20 | a digit text of 9-12 characters whose collapsed form is a valid ID yields that ID |
| IdPhoneHelpers.MobileRecoveredFromDigits | extraction/id_phone_helpers.py:22-28 | a digit text of 10-13 characters whose collapsed form is a valid mobile yields that number |
| IdPhoneHelpers.DoubledIdDigitRecovered | extraction/id_phone_helpers.py:14-20 | a text that is just a valid ID without repeats yields that ID, also when OCR doubles one of its digits |
| IdPhoneHelpers.DoubledMobileDigitLost | extraction/id_phone_helpers.py:22-28 | a ten-digit text with two equal adjacent digits never yields a mobile number |
| Extractor.TrimStart | extraction/extractor.py:133 | `lstrip` removes exactly the leading whitespace |
| Extractor.TrimEnd | extraction/extractor.py:133 | `rstrip` removes exactly the trailing whitespace |
| Extractor.Strip | extraction/extractor.py:133 | `strip` yields a piece of the answer with whitespace only around it and no whitespace at either end |
| Extractor.StripKeeps | extraction/extractor.py:133 | text without whitespace at either end is not changed by stripping |
| Extractor.SpaceRun | extraction/extractor.py:134 | the whitespace run measured from a position stays inside the text |
| Extractor.SpaceRunSpan | extraction/extractor.py:134 | `\s*` consumes the whole whitespace run: the run is all whitespace and ends at the end of the text or before a non-space |
| Extractor.SpaceRunStops | extraction/extractor.py:134 | the run ends no later than the first non-space character |
| Extractor.LazyClose | extraction/extractor.py:134 | the lazy `.*?` ends at the first brace from which whitespace and "```" follow |
| Extractor.LazyCloseIsFirst | extraction/extractor.py:134 | the first closing position is the one the lazy match takes |
| Extractor.FindFence | extraction/extractor.py:134 | the search returns the leftmost fence with its shortest payload, and nothing exactly when no fence matches |
| Extractor.NoFenceAt | extraction/extractor.py:134 | no match starts where "```json\s*{" does not occur or where no close follows it |
| Extractor.ShortestGroup | extraction/extractor.py:134 | from an opening, the lazy close gives a match whose group is the shortest one |
| Extractor.FindFenceSkipsTo | extraction/extractor.py:134 | the search moves over positions where no fence opens without changing its result |
| Extractor.FenceAtFound | extraction/extractor.py:134 | a fence that opens at a position and can close is the one found searching from that position, with the first close as its end |
| Extractor.Unwrap | extraction/extractor.py:134-135 | a fenced payload starts with '{' and ends with '}'; without a fence the whole text is passed on |
| Extractor.JsonText | extraction/extractor.py:133-135 | defined as unwrapping the stripped answer; `UnfencedAnswerPassedWhole`, `FencedPayloadUnwrapped`, `NestedRecordUnwrapped` and `PreambleSkipped` state what reaches the parser |
| Extractor.UnwrapLeftmostShortest | extraction/extractor.py:134-135 | stated with the pattern alone: when a fence matches from one position to a brace, no fence starts earlier and none from that position has a shorter group, the text passed on is exactly that group |
| Extractor.UnwrapFirstFence | extraction/extractor.py:134-135 | wherever the leftmost fence starts, the text passed on is exactly its group, from the opening brace to the closing brace |
| Extractor.UnfencedAnswerPassedWhole | extraction/extractor.py:133-135 | without a fence the parser gets the whole stripped answer |
| Extractor.FencedOpens | extraction/extractor.py:134 | in an answer of the prompt's format, the fence opens right after the preamble and its payload starts after the newline |
| Extractor.FencedCloses | extraction/extractor.py:134 | that fence closes at the payload's final brace |
| Extractor.FencedClosesOnlyAtEnd | extraction/extractor.py:134 | without a backtick inside the payload, no earlier brace closes the fence, nested groups included |
| Extractor.NoFenceInPreamble | extraction/extractor.py:134 | no fence opens inside a preamble without a backtick |
| Extractor.FencedLazyClose | extraction/extractor.py:134 | without a backtick inside the payload, the lazy close after the opening brace is the payload's last brace |
| Extractor.FirstOpeningFound | extraction/extractor.py:134 | a fence that opens and can close is the one the search finds when no fence opens before it |
| Extractor.FencedFenceFound | extraction/extractor.py:134 | without backticks in the preamble and the payload, the search finds the fence right after the preamble and ends its group at the payload's last brace |
| Extractor.FencedPayloadUnwrapped | extraction/extractor.py:133-135 | a payload in a json fence, after a preamble, is passed on unchanged if neither the preamble nor the payload holds a backtick, nested groups included; if the preamble does not start with whitespace, the parser gets exactly the payload |
| Extractor.NestedRecordUnwrapped | extraction/extractor.py:133-135 | a fenced record with a nested date group reaches the parser whole |
| Extractor.PreambleSkipped | extraction/extractor.py:133-135 | a line of text before the fence is skipped and the parser gets the payload |
| Extractor.IdRepair | extraction/extractor.py:142-143 | defined as: an ID of eight characters gets a leading '0', an ID dictionary of eight keys raises TypeError, anything else is kept; `CorrectedId` and `CorrectedRaises` state its effect |
| Extractor.MobileRepair | extraction/extractor.py:144-145 | defined as: a non-empty mobile number not starting with "05" gets "05" in front, a non-empty dictionary raises AttributeError, anything else is kept; `CorrectedMobile` and `CorrectedRaises` state its effect |
| Extractor.Corrected | extraction/extractor.py:141-146 | defined as the ID repair followed by the mobile repair; `CorrectedId`, `CorrectedMobile`, `CorrectedFrame`, `CorrectedRaises` and `CorrectedIdempotent` state its properties |
| Extractor.StateAfterCorrection | extraction/extractor.py:141-146 | defined as the dictionary after the two in-place steps, keeping the ID repair when the mobile repair raises; `CorrectCommonFieldErrors` is proved to leave exactly this state |
| Extractor.ExtractedRecord.CorrectCommonFieldErrors | extraction/extractor.py:141-146 | the method returns the corrected record, or raises as the source does, and leaves the dictionary in its corrected state (with the ID repair kept when the mobile repair raises) |
| Extractor.CorrectedId | extraction/extractor.py:142-143 | an eight-character ID becomes '0' followed by it; every other ID, and an absent one, is unchanged |
| Extractor.CorrectedMobile | extraction/extractor.py:144-145 | a non-empty mobile number ends up starting with "05", as itself or as "05" followed by the old value; an empty or absent one is unchanged |
| Extractor.CorrectedFrame | extraction/extractor.py:141-146 | no key is added or removed, and no other field changes |
| Extractor.CorrectedRaises | extraction/extractor.py:142-145 | the repair raises iff the ID is a dictionary of eight keys or the mobile number is a non-empty dictionary |
| Extractor.CorrectedIdempotent | extraction/extractor.py:141-146 | repairing a repaired record changes nothing |
| Extractor.IdRepairKeepsVerdict | extraction/extractor.py:142-143 | prefixing '0' to an eight-character ID never changes the ID check's verdict |
| Extractor.MobileRepairCompletesEightDigits | extraction/extractor.py:144-145 | an eight-digit mobile number without the prefix becomes a valid mobile number |

## Left out

- The language-model call and the indexing of its response (extraction/extractor.py:122-133) are a network call; the model starts from the answer text.
- The `dotenv`/`openai` configuration (extraction/extractor.py:8-14) and the prompt text are configuration, not logic.
- `json.loads` (extraction/extractor.py:136) is library behaviour: the record is taken as already parsed, and only strings and nested dictionaries are modelled. Numbers, lists, booleans and null are left out.
- The blanket `except` returning an error dictionary (extraction/extractor.py:137-138) is not modelled; the repair's raises are returned as `Raised`.
- The OCR client, the OCR processor, the Streamlit UI and the service entry point are I/O around the core.
- `extraction/json_template.py` is not part of this model. The template's shape is taken from the literal in the prompt (extraction/extractor.py:64-113), which has 19 top-level keys.
- Character classes stop at U+007F. `\d`, `\s` and `str.strip` whitespace include the ASCII digits and the ASCII whitespace (space, tab, line feed, vertical tab, form feed, carriage return and U+001C to U+001F) but no other Unicode digits or spaces (such as U+0085, U+00A0 or U+2003), and `\w` for the word boundary is ASCII letters, digits, '_' and the Hebrew letters א-ת.
- Report values are the message strings. The source stores each as a one-entry dictionary `{"error": message}`, and the order of the report's keys is not modelled.
- Validator.ParseYear: `strptime` also accepts non-ASCII digits for `%Y`, which the model does not.
- Extractor.Unwrap: its own contract states only the braces around a fenced payload; the exact group, wherever the fence starts, is stated by `UnwrapLeftmostShortest` in terms of the pattern, and by `UnwrapFirstFence` together with `FindFence`.
- Extractor.ExtractedRecord.CorrectCommonFieldErrors: an ID or mobile value of a JSON type other than string or dictionary (a number, for instance) is not modelled.
- Extractor.CorrectedMobile: the model follows the code, which puts "05" in front of the whole number and does not drop an existing leading zero.
