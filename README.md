# Field extraction of the OCR capture plugin

This project models the part of the camera plugin that turns text detections into named field values. The plugin's camera activity holds a list of configured fields. Each field is an `OCRDictionary`: a name, keywords, an optional "&&"-separated list of regular expressions, and the value found so far.

For every camera frame, `OcrDetectorProcessor.receiveDetections` does three things:

1. It resets each field's per-frame detection record (`DetectionDictInfo`).
2. It locates keywords in the detected text units. A "service address" field that has no keyword falls back to Australian postal codes.
3. It resolves a value for every field that got a hit. It tries three strategies in order: the text after the keyword in the same unit, the nearest unit to the right on the same row, and the nearest unit below in the same block.

A value is only ever replaced by a strictly longer one. The processor also keeps string predicates from an earlier bill-specific extractor (`match_index`, `check_text`, `check_month`, `check_amount`, `month_string`, `amount_string`).

Modules, one per file:

- `Wrappers` (wrappers.dfy): `Option`, which stands for Java's `null` and for an exception.
- `Strings` (strings.dfy): the `java.lang.String` operations the engine relies on. These are lower-casing, `indexOf`/`contains`, `trim`, `TextUtils.join` and `split("&&")`.
- `Patterns` (patterns.dfy): an abstract engine for the user-configured regular expressions. The regular expressions fixed in the code (numeric text, alphanumeric text, the `[a-z0-9]` keyword boundary, the postal-code table) are written out as predicates.
- `Geometry` (geometry.dfy): boxes, text units, blocks and frames. It also has the neighbour search that the right and below strategies do by filtering, sorting and taking the head.
- `Dictionary` (dictionary.dfy): the `OcrDictionary` class and the pure functions that specify its methods.
- `Detection` (detection.dfy): one frame, and a sequence of frames, stated on values. It covers the reset, the keyword scan with its postal fallback, the three strategies and the strategy chain, and what frames do to each field's result.
- `Processor` (processor.dfy): the `OcrDetectorProcessor` class. It keeps the records in an array updated in place, and every method is proved against the value model in `Detection`.
- `Legacy` (legacy.dfy): the bill-phrase, month and amount predicates, and the loops of `match_index`, `month_string` and `amount_string`.

The behaviour the model keeps from the code:

- **A later hit wins.** A later keyword hit in a frame overwrites an earlier one for the same field, within a block (`LastHitWins`) and across the blocks of the frame (`KeywordPassLastHit`).
- **Case-sensitive boundary.** The boundary test for short keywords runs on the original-case text, so "to" is accepted inside "Total" but rejected inside "total".
- **The chain stops early.** The strategy chain stops at the first strategy whose candidate validates, even when that candidate is not accepted.
- **Service-address name test.** The postal fallback selects fields whose lower-cased name contains "service address". The address assembly only runs for a field whose name equals "service address" ignoring case.

Two consequences of the code worth knowing:

- **Dead reset.** The right and below strategies clear the value of a field without a keyword index. That reset can never run: both strategies need a keyword unit, and a keyword unit always comes with a keyword index. `Settle` keeps the reset and `ResolveField` proves it has no effect.
- **`match_index` never returns 6.** The phrase "total amount due with discount" cannot be reported, because "total amount due" is tested first (`MatchIndexNeverSix`).

## Model

| member | source | states |
|---|---|---|
| Strings.SplitPiecesRoundTrip | src/android/camera/OcrCaptureActivity.java:397-402 | Joining the raw pieces of the "&&" split with "&&" gives back the configured string. The raw pieces are taken before Java drops trailing empty pieces. |
| Strings.SplitPiecesLeftmost | src/android/camera/OcrCaptureActivity.java:400 | The split cuts at the leftmost "&&": there is one piece iff the string holds no "&&". Otherwise the first piece ends where the first "&&" starts, and the other pieces are the split of the text after it. |
| Strings.ContainsTrimmed | src/android/camera/OcrDetectorProcessor.java:563-596 | For a phrase that starts and ends with a visible character, trimming the text never changes whether the lower-cased text contains it. |
| Dictionary.PatternsOf | src/android/camera/OcrCaptureActivity.java:397-402 | An empty pattern string gives no pattern list (null). Otherwise the list is the `split("&&")` of the string: no pattern contains "&&" and the last pattern is non-empty. Whenever the split drops no trailing empty piece, and in particular when the string does not end with "&&", joining the patterns with "&&" gives the string back. |
| Strings.SplitPatterns | src/android/camera/OcrCaptureActivity.java:400 | No piece of `split("&&")` contains "&&", the last piece of a non-empty input is non-empty, and an input without "&&" comes back whole. |
| Strings.SplitPatternsRoundTrip | src/android/camera/OcrCaptureActivity.java:400 | Whenever Java's `split("&&")` drops no trailing empty piece (there is no "&&", or the last raw piece is non-empty), joining its result with "&&" gives back the string. For example "a&&&" splits to "a" and "&" and joins back. |
| Strings.KeepsAllPiecesUnlessEnds | src/android/camera/OcrCaptureActivity.java:400 | A string that does not end with "&&" loses no trailing empty piece in the split. |
| Dictionary.HasPatternsOf | src/android/camera/OcrCaptureActivity.java:397-411 | `hasPatterns()` holds only for a non-empty configured string, and does hold for one whose split drops nothing. The string "&&" gives an empty, non-null list, so `hasPatterns()` is false for it. |
| Dictionary.ContainKeywordMeaning | src/android/camera/OcrCaptureActivity.java:442-460 | `checkContainKeyword` holds only when the lower-cased text contains the lower-cased key. A key longer than ten characters needs nothing more. A shorter key holds exactly when, in addition, no occurrence of it in the original-case text has a `[a-z0-9]` character right before or right after it. |
| Dictionary.ShortKeyRejectedInWord | src/android/camera/OcrCaptureActivity.java:442-460 | A short keyword touching a lower-case letter is rejected: "to" is not a keyword hit in "total due". |
| Dictionary.ShortKeyAcceptedInCapitalisedWord | src/android/camera/OcrCaptureActivity.java:442-460 | The boundary test is case-sensitive: "to" is a keyword hit in "Total due". |
| Dictionary.IndexKeywords | src/android/camera/OcrCaptureActivity.java:433-440 | The result is the index of the first keyword the text contains, with no earlier keyword contained. It is -1 exactly when no keyword is contained. |
| Dictionary.Longest | src/android/camera/OcrCaptureActivity.java:473-486 | The pattern loop's result is the first match of its pattern. No pattern's first match is longer, and every earlier pattern's first match is strictly shorter. |
| Dictionary.MatchValuePattern | src/android/camera/OcrCaptureActivity.java:462-493 | An empty candidate gives null. Without patterns the candidate itself comes back. Otherwise the result exists iff some pattern has a non-empty first match, and it is the longest such match, ties going to the earliest pattern. The result is always a non-empty piece of the candidate. |
| Dictionary.Accept | src/android/camera/OcrCaptureActivity.java:495-517 | A value is taken iff it validates and either the field is empty or the value is strictly longer. When it is taken, the value and its pattern index are recorded. Otherwise nothing changes. The keyword is never touched. |
| Dictionary.OcrDictionary.constructor | src/android/camera/OcrCaptureActivity.java:385-407 | The field holds the configured name, mandatory flag, keywords and split patterns. It has no keyword, no value and pattern index -1. |
| Dictionary.OcrDictionary.DisplayValue | src/android/camera/OcrCaptureActivity.java:417-419 | The display value is never empty. It is the value once `isSetValue()` holds, and "---" before. |
| Dictionary.AcceptSetsValue | src/android/camera/OcrCaptureActivity.java:429-431 | `isSetValue()` holds after an accepted candidate, and a field for which it holds keeps it whatever the candidate. |
| Dictionary.OcrDictionary.GetIndexKeywords | src/android/camera/OcrCaptureActivity.java:433-440 | The keyword loop answers `IndexKeywords`. |
| Dictionary.OcrDictionary.CheckMatchValuePattern | src/android/camera/OcrCaptureActivity.java:462-493 | The pattern loop answers `MatchValuePattern`. |
| Dictionary.OcrDictionary.SetValueIfAcceptable | src/android/camera/OcrCaptureActivity.java:495-517 | The new state and the answer are those of `Accept`. The value never gets shorter, and the answer is true iff the value changed. |
| Detection.FirstFieldFrom | src/android/camera/OcrDetectorProcessor.java:182-191 | The result is the first field, in list order, one of whose keywords the unit contains, or -1 when there is none. |
| Detection.AssignUnit | src/android/camera/OcrDetectorProcessor.java:180-191 | One unit changes only the first field whose keyword it contains. That field records the keyword index, the block and the unit index. No selection flag changes. |
| Detection.LastHitWins | src/android/camera/OcrDetectorProcessor.java:180-191 | After a block's units are scanned, a field holds the last unit assigned to it: a later hit overwrites an earlier one. |
| Detection.FirstUnitMatching | src/android/camera/OcrDetectorProcessor.java:159-168 | A result is a unit of the block that matches the postal code. It is None iff no unit of the block matches. |
| Detection.FirstUnitMatchingIsFirst | src/android/camera/OcrDetectorProcessor.java:160-167 | A result is the first matching unit in block order: every unit before it fails to match. |
| Detection.FirstPostalUnit | src/android/camera/OcrDetectorProcessor.java:156-171 | A result is a unit of the block that matches some code of the table. It is None iff no unit matches any code. |
| Detection.FirstPostalUnitIsFirst | src/android/camera/OcrDetectorProcessor.java:158-169 | The codes are tried in table order. A result is the first matching unit (`FirstUnitMatching`) of some code, and no earlier code in the table matches any unit. |
| Detection.PostalTargetIsFirstCandidate | src/android/camera/OcrDetectorProcessor.java:149-173 | The fallback picks exactly the first candidate field, and only when that field has no keyword index and no hit, the country has a table and a unit matches. |
| Detection.PostalCheck | src/android/camera/OcrDetectorProcessor.java:148-174 | Without a hit the records are unchanged. No selection flag changes. |
| Detection.PostalCheckChanges | src/android/camera/OcrDetectorProcessor.java:148-174 | A record the fallback changes belongs to the first field whose lower-cased name contains "service address" and that has no resolved keyword (:150-151). That field had no keyword index and no hit block (:153-154), and the country has a table with a matching unit (:156-171). The record gains the block and that unit and keeps everything else. |
| Detection.PostalCheckKeepsHit | src/android/camera/OcrDetectorProcessor.java:148-174 | The postal fallback never replaces a hit already recorded in the frame, and never changes a keyword index or a unit index. |
| Detection.KeywordPassLastHit | src/android/camera/OcrDetectorProcessor.java:175-199 | After the keyword scan over the blocks of a frame, a field's record holds the last unit assigned to it in block-then-unit order: the keyword index, that unit's block and its index in the block. A later unit overwrites an earlier hit, in the same block or in a later one, and the postal fallback does not replace it. |
| Detection.NoUnitInBlocksMeaning | src/android/camera/OcrDetectorProcessor.java:175-199 | The block-range condition that `KeywordPassLastHit` assumes holds exactly when no unit of any block in the range is assigned to the field. |
| Detection.KeywordPassNoUnitHit | src/android/camera/OcrDetectorProcessor.java:175-199 | A field to which no unit of the frame is assigned keeps its keyword index and its unit index through the scan. After the reset it therefore has no unit hit. |
| Detection.KeywordPassWellFormed | src/android/camera/OcrDetectorProcessor.java:175-199 | The keyword scan keeps every record well formed: a unit hit has a valid keyword index and a valid unit index into its block, and a postal hit carries its unit. |
| Detection.KeywordPassSkips | src/android/camera/OcrDetectorProcessor.java:175-199 | The keyword scan never touches a field that has no keywords and is not a "service address" field. |
| Patterns.AddressLikeMeaning | src/android/camera/OcrDetectorProcessor.java:223-225 | Numeric text (`^[0-9,.\\s]+$`) is also alphanumeric (`^[a-z0-9,.\\s]+$`, any case), so the units the address assembly keeps are exactly the alphanumeric ones holding at least one ASCII letter. |
| Patterns.PostalCodes | src/android/camera/OcrDetectorProcessor.java:634-652 | Only "Australia" has a postal-code table. |
| Patterns.PostalMatchContainsCode | src/android/camera/OcrDetectorProcessor.java:163 | A unit that a postal pattern matches contains the pattern's state code. |
| Patterns.PostalMatchAtEnd | src/android/camera/OcrDetectorProcessor.java:638-644 | Any text ending in a state code, then any whitespace, then four digits matches that code's pattern. |
| Detection.AddressRun | src/android/camera/OcrDetectorProcessor.java:220-229 | The collected parts are the values of the longest run of address-like units at the end of what was visited. The unit before the run is not address-like. |
| Detection.StopCount | src/android/camera/OcrDetectorProcessor.java:221-231 | The accumulation visits units up to and including the first one at the postal unit's top, or all units when none is at that top. |
| Detection.AfterKeyword | src/android/camera/OcrDetectorProcessor.java:246-248 | There is text after the keyword iff the lower-cased unit contains the lower-cased keyword. |
| Detection.FirstInlineKey | src/android/camera/OcrDetectorProcessor.java:245-260 | The result is the first keyword, in list order, whose trailing text validates, or -1 when none does. |
| Detection.Settle | src/android/camera/OcrDetectorProcessor.java:250-258 | The unit is always recorded. When the value is not cleared, the value changes iff the candidate is accepted, the field is selected iff it was or the value changed, and the result advances: a rejected candidate changes nothing in the saved result (value, keyword, pattern index). A new non-empty value is the validated match of the candidate, recorded with its pattern index. For the keyword strategies an accepted value also records the hit keyword, and the keyword changes in no other way. |
| Detection.InTextMeaning | src/android/camera/OcrDetectorProcessor.java:214-264 | With a keyword unit, the inline strategy has a candidate iff the trimmed text after some keyword validates, and it then offers the text after the first such keyword in list order, with the keyword unit. Without a keyword unit, it has a candidate iff the field's name is "service address" ignoring case, no keyword is resolved yet and the assembled address validates. It then offers that address, with the block's first unit. |
| Detection.InRightMeaning | src/android/camera/OcrDetectorProcessor.java:266-305 | Without a keyword unit there is no candidate. Otherwise only the head of the sorted list is tried: the first unit of the frame, on the keyword's row and right of it, with the least left edge. There is a candidate iff that unit exists and validates, and it is then offered. No other unit is tried when it fails. |
| Detection.InBelowMeaning | src/android/camera/OcrDetectorProcessor.java:307-345 | Without a keyword unit or without patterns there is no candidate. Otherwise only the head of the sorted list is tried: the first unit of the keyword's block below it with the least top. There is a candidate iff that unit exists and validates, and it is then offered. No other unit is tried when it fails. |
| Detection.ResolveField | src/android/camera/OcrDetectorProcessor.java:201-212 | A field without a hit block is left alone. Otherwise the strategy chain advances the field's result (when the value stays, the whole result stays) and selects the field iff its value changed. The keyword hit is kept and the record stays well formed. |
| Detection.ChainStopsAtFirstCandidate | src/android/camera/OcrDetectorProcessor.java:201-212 | For a field with a hit block, the first strategy among inline, right and below that has a validated candidate decides the field, whether or not the candidate is accepted. Later strategies are not tried. With no candidate at all the field is left alone. |
| Detection.ValidatedInlineShadowsRight | src/android/camera/OcrDetectorProcessor.java:203-210 | When a keyword's trailing text validates, the inline strategy decides the field even if its value is not accepted. The right and below strategies are never tried. |
| Detection.Located | src/android/camera/OcrDetectorProcessor.java:78-92 | After the reset and the keyword scan, every record is well formed and none is selected. |
| Detection.ProcessFrame | src/android/camera/OcrDetectorProcessor.java:75-93 | Over one frame every field keeps its configuration and advances. It is selected exactly when its value changed, and a field that no keyword scan can reach keeps its result. |
| Detection.SessionAdvances | src/android/camera/OcrDetectorProcessor.java:75-93 | Over any sequence of frames a field's value never gets shorter. Once set it is replaced only by a strictly longer value, and its keyword is one of its own. While the value stays the same, keyword and pattern index stay too. A field that no keyword scan can reach never changes. |
| Detection.SetValueStaysSet | src/android/camera/OcrCaptureActivity.java:495-517 | Once a session gives a field a value, every later frame leaves it with a non-empty value. |
| Processor.FindPostalUnit | src/android/camera/OcrDetectorProcessor.java:156-171 | The nested code and unit loops find `FirstPostalUnit`. |
| Processor.AssembleAddress | src/android/camera/OcrDetectorProcessor.java:220-232 | The builder loop produces the address run up to the postal unit's row, joined with ", ". |
| Processor.FindInlineValue | src/android/camera/OcrDetectorProcessor.java:245-260 | The keyword loop finds `FirstInlineKey` and the trimmed text after that keyword. |
| Processor.PostalTarget | src/android/camera/OcrDetectorProcessor.java:149-173 | The field loop finds the field the fallback picks, and the matching unit whenever one is picked. |
| Processor.NearestRight | src/android/camera/OcrDetectorProcessor.java:269-292 | Collecting, sorting by left edge and taking the head gives the first leftmost unit on the keyword's row and right of it. |
| Processor.NearestBelow | src/android/camera/OcrDetectorProcessor.java:311-332 | Collecting, sorting by top and taking the head gives the first topmost unit of the block below the keyword's top. |
| Geometry.NearestIndex | src/android/camera/OcrDetectorProcessor.java:285-292 | The head of the stable sort is a qualifying unit with the least key and comes before every other unit with that key. It is -1 iff no unit qualifies. |
| Processor.OcrDetectorProcessor.constructor | src/android/camera/OcrDetectorProcessor.java:55-65 | There is one fresh detection record per configured field, with no keyword index, block, unit or value. |
| Processor.OcrDetectorProcessor.ReceiveDetections | src/android/camera/OcrDetectorProcessor.java:75-93 | After one frame the fields are exactly what `ProcessFrame` says of the fields before it. |
| Processor.OcrDetectorProcessor.ResetRecords | src/android/camera/OcrDetectorProcessor.java:78-87 | Every record loses its selection, hit block, unit index and value unit, and keeps its keyword index. |
| Processor.OcrDetectorProcessor.FindKeyword | src/android/camera/OcrDetectorProcessor.java:175-199 | The records end as `KeywordPass` over all blocks of the frame. |
| Processor.OcrDetectorProcessor.ScanBlock | src/android/camera/OcrDetectorProcessor.java:180-192 | The records end as `ScanUnits` over all units of the block. |
| Processor.OcrDetectorProcessor.RecordKeywordHit | src/android/camera/OcrDetectorProcessor.java:182-191 | The records end as `AssignUnit` for the unit. |
| Processor.OcrDetectorProcessor.CheckServiceAddressEx | src/android/camera/OcrDetectorProcessor.java:148-174 | The records and the answer are those of `PostalCheck`. |
| Processor.OcrDetectorProcessor.FindValue | src/android/camera/OcrDetectorProcessor.java:201-212 | Every field and its record end as `ResolveField` of their state before. |
| Processor.OcrDetectorProcessor.ResolveAt | src/android/camera/OcrDetectorProcessor.java:204-210 | The field ends as `ResolveField` says, and no other record changes. |
| Processor.OcrDetectorProcessor.Offer | src/android/camera/OcrDetectorProcessor.java:293-302 | The field and its record end as `Settle` says, and no other record changes. |
| Processor.OcrDetectorProcessor.FindValueInText | src/android/camera/OcrDetectorProcessor.java:214-264 | The method answers true iff the inline strategy finds a validated candidate, and then leaves the field as `InText` says. Otherwise nothing changes. |
| Processor.OcrDetectorProcessor.FindValueInRight | src/android/camera/OcrDetectorProcessor.java:266-305 | The method answers true iff the nearest unit to the right validates, and then leaves the field as `InRight` says. Otherwise nothing changes. |
| Processor.OcrDetectorProcessor.FindValueInBelow | src/android/camera/OcrDetectorProcessor.java:307-345 | The method answers true iff the field has patterns and the nearest unit below validates, and then leaves the field as `InBelow` says. Otherwise nothing changes. |
| Legacy.MatchIndex | src/android/camera/OcrDetectorProcessor.java:573-584 | A positive answer is one plus the position of the first bill phrase the lower-cased text contains. The answer is at most 0 iff no phrase is contained, and it is 0 iff additionally the trimmed text contains "Pty" and "ABN". |
| Legacy.MatchIndexNeverSix | src/android/camera/OcrDetectorProcessor.java:575-580 | `match_index` never answers 6, because the sixth phrase contains the fifth. |
| Legacy.CheckTextIffMatchIndex | src/android/camera/OcrDetectorProcessor.java:585-596 | `check_text` holds iff `match_index` is not -1, although only `check_text` trims before lower-casing. |
| Legacy.CheckMonthUntrimmed | src/android/camera/OcrDetectorProcessor.java:563-572 | `check_month` holds iff the lower-cased text contains a month abbreviation. Trimming does not matter. |
| Legacy.CheckAmountMeaning | src/android/camera/OcrDetectorProcessor.java:557-562 | `check_amount` throws iff the text is all blank. It holds iff the first visible character is "$". |
| Legacy.MonthStringMeaning | src/android/camera/OcrDetectorProcessor.java:521-533 | The answer is "" iff no unit after `count` names a month. Otherwise it is the first unit after `count` that does. |
| Legacy.AmountStringMeaning | src/android/camera/OcrDetectorProcessor.java:534-546 | The answer is an exception iff an all-blank unit comes before any "$" unit after `count`. Otherwise it is the first unit after `count` starting with "$", or "" when there is none. |
| Legacy.FindMonthString | src/android/camera/OcrDetectorProcessor.java:521-533 | The counting loop answers `MonthString`. |
| Legacy.FindAmountString | src/android/camera/OcrDetectorProcessor.java:534-546 | The counting loop answers `AmountString`, including its exception. |
| Legacy.FindMatchIndex | src/android/camera/OcrDetectorProcessor.java:573-584 | The phrase loop and the company-line test answer `MatchIndex`. |

## Left out

- Unicode: lower-casing and `equalsIgnoreCase` are modelled on ASCII letters only. Java's locale- and Unicode-aware case mapping (which can change a string's length) is not modelled.
- String lengths count Unicode scalar values, while Java's `String.length()` and substring offsets count UTF-16 code units. The two differ for characters outside the Basic Multilingual Plane, such as emoji. This affects the "strictly longer" acceptance test (src/android/camera/OcrCaptureActivity.java:505), the 10-character keyword threshold (:446) and the offset after the keyword (src/android/camera/OcrDetectorProcessor.java:248). For example, Java replaces a stored "12" with "😀1" (3 code units), while the model keeps "12" (both are 2 long).
- User-configured regular expressions go to an abstract engine (`Matcher`) that reports the first match's span. `PatternSyntaxException` from a malformed pattern is not modelled, and neither are the engine's internals.
- A keyword containing regular-expression metacharacters is read literally in the boundary test of `checkContainKeyword`. In the source such a keyword changes the boundary pattern or throws.
- `$` in the postal-code patterns is modelled with Java's default line-terminator rule (end of input, or before a final line terminator). `[\s]` is Java's ASCII whitespace class.
- Integer overflow in the comparators (`left - left`, `top - top`) and in `Math.abs` is not modelled. Box coordinates are unbounded integers.
- The sort-and-take-head of the right and below strategies is modelled as the first unit with the least key. For comparators without overflow this is what Java's stable `Collections.sort` puts first.
- Overlay drawing and colours (`receiveDetections` after the value pass), logging, `synchronized` access and `release` are outside the model.
- `block_f` and `mHeightRate` are left out. `find_keyword`, `find_amount` and `find_block` only write `block_f`: its only read (src/android/camera/OcrDetectorProcessor.java:141) is commented out. `mHeightRate` is never read.
- `find_amount`, `find_block` and `check_amount1` are not part of this model. The only call of `find_amount` (src/android/camera/OcrDetectorProcessor.java:127) is commented out, and nothing calls `check_amount1`. The predicates `find_amount` uses are modelled under `Legacy`.
- `getKeyName` and `getDisplayString` only build display strings and are not part of this model.
- Reading field configurations from JSON (`optString`, `optBoolean`, `optJSONArray`) is not modelled. The constructor takes the already-read name, mandatory flag, keywords and pattern string.
- `initPostalCode` is modelled as the constant table `PostalCodes` (Australia only). The JSON object and its `JSONException` path are not modelled.
- The country code (`OcrCaptureActivity.ocrCountry`) is a constructor parameter of the processor rather than a global read on every call.
- Detections arrive as a sequence of blocks of text units. The detector, its `SparseArray` and the camera are not modelled.
- Processor.OcrDetectorProcessor.CheckServiceAddressEx: the name and keyword test of each field is computed for all fields before the loop rather than inside it. Neither input changes during the loop, so the result is the same.
- Processor.OcrDetectorProcessor.ReceiveDetections: the fields must be distinct objects. The source builds one record per entry of the configured list, and no entry appears twice there.
