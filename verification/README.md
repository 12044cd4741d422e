# Transcript metadata extraction: a Dafny model

This project models the metadata classification-and-resolution engine of
the transcript extraction system. It proves properties of that model.

The engine reads OCR output of a scanned school transcript in two views:
- key/value blocks: field candidates, with their distance from the top of
  the page;
- text lines.

From these it extracts the student's first name, last name and graduation
year, plus the school in the legacy detectors. Any field it cannot
determine is reported as the sentinel `'NA'`.

The model covers these pieces:

- **Alias scorers.** Each detector's `__getScore__` and the legacy
  `__getSchool__` line scorer count alias and anti-alias substrings in the
  lower-cased texts. The two `__getScore__`s then add 2 for every
  named-entity span of the expected label; the line scorer has no
  recogniser term.
- **Selectors.** `classify` (an arg-max over attributes, first on ties),
  `__getMax__` (the earliest strictly greatest positive score) and the
  threshold filters of the detectors. The current detector appends kept
  pairs to a bucket; the legacy one replaces the bucket.
- **Name parsers.** The labelled-key scan, the loose comma grammar of the
  current key/value detector, and the strict grammar of the other
  detectors. Their unpack raises `ValueError` on more than one comma and
  `IndexError` on an all-blank name.
- **The block-graph transform and two-phase merge** of
  `MetadataExtraction/main.py`:
  - `extractIds`, `getValueIds`, `getText`, `getMapping`, `getRawText`;
  - the top-of-page filter (Top at most 0.3) of `getRemainder`;
  - `main`, which merges phase 2 over phase 1 only while some field is
    still `'NA'`.

Modelling choices:

- **Dictionaries.** Python's insertion-ordered dictionaries are sequences
  of key/value pairs (`OrderedMap`). Assignment replaces in place or
  appends, and `update` assigns in order.
- **Uncaught exceptions.** Each is an `Err` carrying the exception class
  (`Wrappers.PyError`): `IndexError`, `ValueError`, `TypeError`,
  `ZeroDivisionError`, `KeyError` and `UnboundLocalError`. The engine's
  error paths therefore appear in the contracts, not as preconditions.
- **External calls are parameters.** The named-entity recogniser is
  `Lexicon.Recognizer`, text to labelled spans. The date parser is
  `Dates.DateParser`, where `None` stands for its `ValueError`.
- **Numbers.** `Top` and `Confidence` are exact reals.

Modules follow the source files:
- `Text`, `Lexicon`, `OrderedMap`, `Select`, `Names` and `Dates` hold the
  string operations, configuration, dictionaries, selection, name grammar
  and date formats shared by all detectors.
- `KvDetector` and `RawDetector` model `MetadataExtraction/EntityDetector.py`
  and `MetadataExtraction/RawEntDetector.py`.
- `LegacyKvDetector` and `LegacyRawDetector` model the root-level
  `EntityDetector.py` and `RawEntDetector.py`.
- `Pipeline` models `MetadataExtraction/main.py`.

## Model

| member | source | states |
|---|---|---|
| Lexicon.AccumulateCountsHits | MetadataExtraction/EntityDetector.py:216-227 | a scorer loop adds its weight once per alias that occurs in the text, so the loop equals weight times the hit count |
| Lexicon.HitsAppend | MetadataExtraction/EntityDetector.py:222-224 | one more alias adds one hit exactly when it occurs in the text; containment counts, not occurrences |
| Lexicon.LabelCount | MetadataExtraction/EntityDetector.py:229-233 | the recogniser term counts spans of the expected label; it is zero exactly when no span carries that label |
| Text.LowerTitle | MetadataExtraction/EntityDetector.py:41-43 | lower-casing a title-cased text gives the lower-cased original, so the title-casing in `classify` does not change any alias hit |
| Text.TitleIsNeverNA | MetadataExtraction/RawEntDetector.py:69-85 | no title-cased text equals the sentinel 'NA', so a parsed name is never mistaken for an unresolved one |
| Text.StripTitle | MetadataExtraction/EntityDetector.py:170-172 | stripping spaces after title-casing gives the same text as title-casing after stripping, since spaces are uncased |
| Text.SplitOn | MetadataExtraction/RawEntDetector.py:72 | `split(sep=',')` yields one more part than there are commas, and no part holds a comma |
| Text.SplitOnJoin | MetadataExtraction/EntityDetector.py:163 | joining the comma-split parts with commas gives back the text |
| Text.SplitWs | MetadataExtraction/RawEntDetector.py:74 | `split()` yields only non-empty tokens free of whitespace |
| Text.SplitWsJoin | MetadataExtraction/RawEntDetector.py:80-82 | `split()` after a single-space join gives back the words, when each word is non-empty and space-free |
| Text.SplitWsEmptyIff | MetadataExtraction/RawEntDetector.py:80-81 | `split()` yields no token exactly when the text is all whitespace, the case where `part_name[0]` fails |
| Dates.DecimalRoundTrip | MetadataExtraction/EntityDetector.py:252 | the `%Y` numeral of a year reads back as that year |
| Dates.FormatFullRoundTrip | EntityDetector.py:151 | a `%Y/%m/%d` date splits on '/' into three numerals that read back as year, month and day |
| OrderedMap.Put | MetadataExtraction/main.py:81 | assigning a present key replaces its entry in place; assigning a new key appends it |
| OrderedMap.PutMaps | MetadataExtraction/main.py:81 | after `d[k] = v`, keys stay distinct, k maps to v alone, and every other key keeps exactly its old values |
| OrderedMap.Get | MetadataExtraction/main.py:107-108 | a lookup fails exactly when the key is absent, and otherwise returns a value the key maps to |
| OrderedMap.GetPut | MetadataExtraction/main.py:210 | after `d[k] = v`, looking up k gives v and every other key reads as before |
| OrderedMap.UpdateGet | MetadataExtraction/main.py:243-244 | `d.update(e)` keeps keys distinct; a key of e reads its value in e, any other key its value in d |
| Select.FirstMax | MetadataExtraction/EntityDetector.py:47 | `max(d, key=d.get)` picks a position of greatest value, strictly greater than every earlier one, so the first of equal maxima |
| Select.FirstMaxAppend | RawEntDetector.py:76 | a later candidate replaces the best one only when strictly greater |
| Select.MaxIndex | MetadataExtraction/EntityDetector.py:114-121 | nothing is chosen exactly when no score is positive; otherwise the earliest entry of greatest score, which is positive |
| Select.GetMax | MetadataExtraction/EntityDetector.py:114-121 | 'NA' when no score is positive; otherwise the value of an entry of greatest positive score with no earlier entry as good |
| Select.SingleMax | EntityDetector.py:78-85 | a one-entry bucket of positive score yields its value |
| Select.LabeledScan | MetadataExtraction/EntityDetector.py:149-158 | the scan reads entries up to the first point where both sides are known (or to the end); each side is the value of the last key labelled for it among the entries read, so a later same-labelled key overrides an earlier one and keys after the `break` are never read; a side is found exactly when some key is labelled for it, and a key naming both counts as 'first' |
| Select.LastLabelledIs | MetadataExtraction/EntityDetector.py:149-156 | the reference holds nothing exactly when no entry read is labelled for the side, else the value of the last entry read that is |
| Select.StopAt | MetadataExtraction/EntityDetector.py:157-158 | the scan stops after the least number of entries at which both sides are known, or at the end of the bucket |
| Select.StopAtSides | MetadataExtraction/EntityDetector.py:149-158 | stopping early loses no side: a side is known at the stop exactly when some key of the bucket is labelled for it, and then from the last such key read |
| Select.ScanLatestExample | MetadataExtraction/EntityDetector.py:149-158 | of 'First'=Jane, 'FIRST'=Janet, 'Last'=Doe the scan yields (Janet, Doe); of 'Last'=Doe, 'First'=Jane, 'first'=Janet it stops before Janet and yields (Jane, Doe) |
| Select.ScanUniqueLabels | MetadataExtraction/EntityDetector.py:149-158 | with one key labelled 'first' and one labelled 'last', the scan returns exactly their values |
| Select.ScanNeedsTwoEntries | EntityDetector.py:93-103 | a bucket of at most one entry never completes the labelled scan |
| Names.ParseName | MetadataExtraction/RawEntDetector.py:69-85 | the strict grammar raises ValueError exactly on two or more commas and IndexError exactly on a comma-free all-blank name; no other error, and a parsed name is never 'NA' |
| Names.CommaHalves | MetadataExtraction/RawEntDetector.py:72-78 | the two-target unpack fails exactly when the split has other than two parts |
| Names.OuterTokens | MetadataExtraction/RawEntDetector.py:80-82 | taking the first and last token fails with IndexError exactly on an empty token list |
| Names.ParseSole | MetadataExtraction/RawEntDetector.py:69-85 | ('NA', 'NA') comes back exactly when the candidate count is not one; one candidate is parsed |
| Names.ParseSpaceForm | MetadataExtraction/RawEntDetector.py:80-82 | "First Middle ... Last" yields the title-cased first and last words; middle words are ignored |
| Names.ParseCommaForm | MetadataExtraction/RawEntDetector.py:71-78 | "Last, First Middle ..." yields the title-cased first word after the comma and the stripped, title-cased text before it |
| Names.ParseCommaSingle | MetadataExtraction/RawEntDetector.py:74-78 | "Last, First" with one word after the comma yields that word, stripped and title-cased |
| Names.ParseCommaExample | MetadataExtraction/RawEntDetector.py:71-78 | "Doe, Jane Marie" parses as ('Jane', 'Doe') |
| Names.ParseSpaceExample | MetadataExtraction/RawEntDetector.py:80-82 | "Jane Marie Doe" parses as ('Jane', 'Doe') |
| KvDetector.Score | MetadataExtraction/EntityDetector.py:204-235 | the score is +1 per key alias and +2 per value alias found, -10 per key or value anti-alias found, +2 per span labelled with the attribute's entity type |
| KvDetector.ScoreValueAliasAdded | MetadataExtraction/EntityDetector.py:222-224 | one more value alias occurring in the value raises the score by exactly 2 |
| KvDetector.Classify | MetadataExtraction/EntityDetector.py:41-49 | the result is Name or Grad with its score, at least the other's score, and Grad only when strictly greater; title-casing leaves the alias part unchanged |
| KvDetector.Verdict | MetadataExtraction/EntityDetector.py:76-80 | a pair is kept exactly when its value is non-empty and its class score plus 1 - Top is strictly above 2, under its class |
| KvDetector.Bucketize | MetadataExtraction/EntityDetector.py:73-86 | an attribute none of whose pairs is kept has an empty bucket |
| KvDetector.RetainBounds | MetadataExtraction/EntityDetector.py:76-86 | every kept entry has a non-empty value and a total strictly above 2 |
| KvDetector.RetainEmpty | MetadataExtraction/EntityDetector.py:80-86 | a bucket is empty exactly when no pair is kept for its attribute |
| KvDetector.RetainKeys | MetadataExtraction/EntityDetector.py:81-86 | a key in a bucket is a key of the mappings |
| KvDetector.BucketizeRetains | MetadataExtraction/EntityDetector.py:73-86 | with distinct mapping keys each bucket is exactly the kept pairs of its attribute, in mapping order, since `update` only appends |
| KvDetector.BucketEntries | MetadataExtraction/EntityDetector.py:76-86 | every bucket entry has a non-empty value and a total strictly above 2 |
| KvDetector.GetName | MetadataExtraction/EntityDetector.py:145-180 | no candidates give ('NA', 'NA'); keys labelled 'first' and 'last' give the raw values of the last such keys read before the scan stops; otherwise the best value is parsed loosely; the only error is IndexError |
| KvDetector.ParseNameLoose | MetadataExtraction/EntityDetector.py:159-176 | the loose grammar fails, with IndexError, exactly on a comma-free all-blank name, and then never yields a last name of 'NA'; its values for each form are given by LooseAgreesStrict (at most one comma), LooseCommaForm (several words after the first comma) and LooseCommaShort (at most one word after the first comma, any further commas) |
| KvDetector.LooseCommaForm | MetadataExtraction/EntityDetector.py:162-172 | "Last, First Middle" yields the first word and the stripped last name, and text from a second comma on is ignored |
| KvDetector.LooseCommaShort | MetadataExtraction/EntityDetector.py:162-172 | "Last, First" with at most one word between the first comma and the next: that text, title-cased and stripped, is the first name, the stripped text before the comma is the last name, and anything from a second comma on is ignored |
| KvDetector.LooseSuffixWord | MetadataExtraction/EntityDetector.py:162-172 | "Last, Word, Suffix" with a single space-free word yields that word title-cased and the last name, whatever the suffix |
| KvDetector.LooseSuffixExample | MetadataExtraction/EntityDetector.py:162-172 | "Doe, Jane, Jr." yields ('Jane', 'Doe') |
| KvDetector.LooseAgreesStrict | MetadataExtraction/EntityDetector.py:162-176 | with at most one comma the loose grammar gives the strict grammar's result: the first and last word of "First ... Last", the first word or the stripped one-word remainder of "Last, First", and IndexError on an all-blank name |
| KvDetector.ProcessDate | MetadataExtraction/EntityDetector.py:249-256 | 'NA' exactly when the parser rejects the text; otherwise digits that read back as the parsed year |
| KvDetector.DetectEntityKV | MetadataExtraction/EntityDetector.py:68-98 | only IndexError can be raised; with no kept Name pair the name is ('NA', 'NA'); over distinct keys it fails exactly when the name of the retained Name pairs fails to resolve, and otherwise the name is that name and the year is the date of the best retained Grad value, 'NA' exactly when it does not parse |
| LegacyKvDetector.Score | EntityDetector.py:123-143 | the score is +1 per kv alias and -1 per kv anti-alias found in the lower-cased key, +2 per span of the value labelled with the attribute's entity type |
| LegacyKvDetector.ScoreAntiAliasAdded | EntityDetector.py:134-136 | one more key anti-alias occurring in the key lowers the score by exactly 1 |
| LegacyKvDetector.Classify | EntityDetector.py:28-36 | the result is Name, Grad or School with the greatest score, ties going to Name, then Grad |
| LegacyKvDetector.Accepts | EntityDetector.py:50-51 | a pair is kept exactly when its class score is strictly above 1 |
| LegacyKvDetector.Fill | EntityDetector.py:47-57 | every bucket holds at most one entry |
| LegacyKvDetector.LastIndex | EntityDetector.py:47-57 | the position of a pair kept under the class with no later one, or nothing exactly when none is kept |
| LegacyKvDetector.LastAccepted | EntityDetector.py:52-57 | the reference bucket has at most one entry and is empty exactly when no pair is kept under the class |
| LegacyKvDetector.FillFromIsLast | EntityDetector.py:47-57 | replacing the bucket on every kept pair leaves, per class, exactly the last kept pair with its score |
| LegacyKvDetector.FillIsLast | EntityDetector.py:47-57 | the Name, Grad and School buckets are each the last pair kept under that class |
| LegacyKvDetector.GetName | EntityDetector.py:90-118 | labelled first/last keys give the title-cased values of the last such keys read before the scan stops; otherwise, and always for at most one candidate, the best value is parsed strictly |
| LegacyKvDetector.GetNameEmpty | EntityDetector.py:104-118 | an empty Name bucket yields ('Na', 'Na'), the sentinel parsed as a one-word name |
| LegacyKvDetector.ProcessDate | EntityDetector.py:148-155 | 'NA' exactly when the parser rejects the text; otherwise three '/'-separated numerals reading back as year, month and day |
| LegacyKvDetector.DetectEntity | EntityDetector.py:41-73 | it fails exactly when the strict parse of the last Name pair fails; the name, date and school come from the last pair kept under each class |
| LegacyKvDetector.DetectEntityNoName | EntityDetector.py:59-62 | with no kept Name pair the form reads ('Na', 'Na') |
| LegacyKvDetector.DetectEntitySchool | EntityDetector.py:69-71 | the school is 'NA' when no School pair is kept, else the last kept School value, untransformed |
| LegacyKvDetector.LastAcceptedMax | EntityDetector.py:78-85 | the best of a bucket holding only the last kept pair is that pair's value, or 'NA' when it is empty |
| RawDetector.LineCopies | MetadataExtraction/RawEntDetector.py:65-67 | one copy of the line per PERSON span in it |
| RawDetector.PersonLines | MetadataExtraction/RawEntDetector.py:63-67 | the candidates number the PERSON spans of all lines, and each is one of the lines |
| RawDetector.GetName | MetadataExtraction/RawEntDetector.py:60-86 | ('NA', 'NA') exactly when the PERSON span count is not one; otherwise the strict parse of a text line |
| RawDetector.KindCountCovers | MetadataExtraction/RawEntDetector.py:63-67 | a line's PERSON spans are among the spans counted over all lines |
| RawDetector.TwoPersonsInOneLine | MetadataExtraction/RawEntDetector.py:63-69 | a single line with two PERSON spans already makes the answer ('NA', 'NA') |
| RawDetector.DetectEntity | MetadataExtraction/RawEntDetector.py:30-39 | 'First' missing: the form is First and Last of the parsed name, or the parse's error; otherwise an empty form |
| RawDetector.DetectEntityKeys | MetadataExtraction/RawEntDetector.py:30-39 | the form has a key exactly when 'First' was missing and the key is First or Last |
| LegacyRawDetector.LineScore | RawEntDetector.py:60-70 | a line scores 3 per School value alias and -10 per School value anti-alias found in the lower-cased line |
| LegacyRawDetector.AntiAliasExcludes | RawEntDetector.py:72-73 | a line with an anti-alias hit and at most three alias hits scores at most 1 and is not kept |
| LegacyRawDetector.Kept | RawEntDetector.py:60-73 | the kept lines each carry their score, which is strictly above 1 |
| LegacyRawDetector.BestLineIsBest | RawEntDetector.py:60-79 | the reference choice is nothing exactly when no line scores above 1, else the earliest line of greatest score |
| LegacyRawDetector.KeptBest | RawEntDetector.py:75-76 | the kept lines are non-empty exactly when a best line exists, and `max(scores, key=scores.get)` picks that line |
| LegacyRawDetector.GetSchool | RawEntDetector.py:54-81 | 'NA' exactly when no line scores above 1; otherwise the best line, title-cased |
| LegacyRawDetector.SpanTexts | RawEntDetector.py:31-33 | one text per PERSON span, each the text of such a span |
| LegacyRawDetector.PersonSpans | RawEntDetector.py:29-33 | the candidates number the PERSON spans of all lines |
| LegacyRawDetector.GetName | RawEntDetector.py:26-52 | ('NA', 'NA') exactly when the PERSON span count is not one; otherwise the strict parse of that span's text |
| LegacyRawDetector.DetectEntity | RawEntDetector.py:11-24 | School missing: the form holds the school; else 'First' missing: TypeError or the name parse's error; else empty; never a First or Last key |
| Pipeline.LastWithId | MetadataExtraction/main.py:79-81 | the position of a block with the id and no later one, or nothing exactly when no block has it |
| Pipeline.IdMap | MetadataExtraction/main.py:79-81 | the block map has distinct ids |
| Pipeline.IdMapGet | MetadataExtraction/main.py:79-81 | looking an id up in the block map finds the last block with that id |
| Pipeline.IdMapHasIds | MetadataExtraction/main.py:79-81 | every block id is a key of the block map |
| Pipeline.Positions | MetadataExtraction/main.py:79-85 | the reference lists every position of an accepted block exactly once, in increasing order, and no other position |
| Pipeline.KeyIds | MetadataExtraction/main.py:84-85 | the key ids are the ids of the KEY_VALUE_SET blocks with 'KEY' among their entity types, one per such block, in input order |
| Pipeline.KeyIdsMapped | MetadataExtraction/main.py:79-85 | every key id can be looked up in the block map |
| Pipeline.Mean | MetadataExtraction/main.py:86 | the mean fails, with ZeroDivisionError, exactly on an empty block list |
| Pipeline.MeanBounds | MetadataExtraction/main.py:82-86 | when every block carries a confidence in [lo, hi], so does the mean |
| Pipeline.MeanExamples | MetadataExtraction/main.py:82-86 | 90 and 80 average to 85; a block without a confidence still counts in the denominator, so 90 alone with it averages to 45 |
| Pipeline.ExtractIds | MetadataExtraction/main.py:75-87 | it fails exactly on an empty block list, with ZeroDivisionError; the map has distinct ids and holds every key id |
| Pipeline.LastValue | MetadataExtraction/main.py:92-96 | the position of a VALUE relationship with no later one, or nothing exactly when there is none |
| Pipeline.GetValueIds | MetadataExtraction/main.py:92-96 | KeyError exactly without Relationships, UnboundLocalError exactly without a VALUE relationship; otherwise the ids of the last VALUE relationship |
| Pipeline.WordOf | MetadataExtraction/main.py:107-113 | a child contributes exactly when it is a WORD (its text) or a SELECTED selection element ('X') |
| Pipeline.Entry | MetadataExtraction/main.py:200-210 | one key block's mapping entry fails exactly when its value ids cannot be read, with the same error; otherwise it is keyed by the key block's text and keeps the key's Top |
| Pipeline.GetText | MetadataExtraction/main.py:101-114 | a block without Relationships has the empty text |
| Pipeline.IdWordsSkips | MetadataExtraction/main.py:106-113 | a child id that is missing, unselected or of another type adds nothing |
| Pipeline.IdWordsOfWords | MetadataExtraction/main.py:104-110 | when every child names a WORD block, the words are their texts in child order |
| Pipeline.GetTextSplits | MetadataExtraction/main.py:101-114 | a block whose CHILD ids name WORD blocks of space-free text gives a text that splits back into those words |
| Pipeline.ValueBlocksPresent | MetadataExtraction/main.py:203-206 | when every value id is present, the value blocks are the blocks of those ids, in order |
| Pipeline.ValueBlocksSkip | MetadataExtraction/main.py:203-206 | a value id missing from the map adds no value text |
| Pipeline.GetMapping | MetadataExtraction/main.py:196-212 | it fails exactly when some present key block's value ids cannot be read, with KeyError or UnboundLocalError; the keys are distinct |
| Pipeline.MappingSkipsMissing | MetadataExtraction/main.py:198-199 | a key id missing from the map adds nothing |
| Pipeline.MappingPut | MetadataExtraction/main.py:207-210 | a later key with the same text overwrites the earlier entry; every other entry is unchanged |
| Pipeline.LineIds | MetadataExtraction/main.py:150-151 | the line ids are the ids of the LINE blocks, one per such block, in input order |
| Pipeline.LineTops | MetadataExtraction/main.py:153-159 | it fails, with KeyError, exactly when a line id is missing from the map; the line texts are distinct |
| Pipeline.LineTopsPut | MetadataExtraction/main.py:153-159 | of two lines with the same text the later one's Top is kept; other lines are unchanged |
| Pipeline.GetRawText | MetadataExtraction/main.py:139-163 | it fails exactly on an empty block list, with ZeroDivisionError; every line id is found, and the confidence is the mean |
| Pipeline.TopLines | MetadataExtraction/main.py:178-181 | a text is passed on exactly when some line records it with Top at most 0.3 |
| Pipeline.TopLinesGet | MetadataExtraction/main.py:176-181 | with distinct texts, a text is passed on exactly when its recorded Top is at most 0.3 |
| Pipeline.GetRemainder | MetadataExtraction/main.py:172-189 | it fails exactly on an empty raw block list (ZeroDivisionError) or, when 'First' is missing, on a raw name parse error, which it passes on; its keys are distinct |
| Pipeline.RemainderGet | MetadataExtraction/main.py:183-189 | the phase-2 form holds Confidence, the raw mean, and First and Last from the raw name exactly when 'First' was missing; no other key |
| Pipeline.GetKeyValues | MetadataExtraction/main.py:119-136 | it fails exactly on an empty block list, an unreadable key or a detector error; otherwise the form is First, Last, Grad, Confidence, holding the detector's fields over the mapping of the key blocks, and the mean confidence |
| Pipeline.KvEntries | MetadataExtraction/main.py:131-134 | the form holds the detector's First, Last and Grad in that order and gains 'Confidence' last |
| Pipeline.UpdateBlank | MetadataExtraction/main.py:223-229 | updating the blank form with the detector's form gives that form itself |
| Pipeline.MergeBlank | MetadataExtraction/main.py:228-229 | the merged form is the detector's form with distinct keys, or the detector's exception |
| Pipeline.Phase1 | MetadataExtraction/main.py:223-229 | phase 1 succeeds exactly when `getKeyValues` does, and yields its form |
| Pipeline.Phase1Resolves | MetadataExtraction/main.py:119-136 | phase 1 fails exactly on an empty block list, an unreadable key or an unparsable name; otherwise First and Last are the name resolved from the retained Name pairs of the mapping, Grad the year of the best retained Grad pair, Confidence the blocks' mean |
| Pipeline.NaKeys | MetadataExtraction/main.py:234-237 | a key is listed exactly when some entry maps it to 'NA' |
| Pipeline.NaKeysExact | MetadataExtraction/main.py:234-239 | with distinct keys, a key is listed exactly when it reads 'NA'; the list is non-empty exactly when some value is 'NA' |
| Pipeline.Main | MetadataExtraction/main.py:222-249 | an empty key/value block list raises ZeroDivisionError; a phase-1 error propagates; with no 'NA' left the result is the phase-1 form; when phase 2 runs, the result fails exactly when `getRemainder` does, with its error; keys stay distinct |
| Pipeline.MainGet | MetadataExtraction/main.py:239-246 | when phase 2 runs, a key reads its phase-2 value if phase 2 wrote it, else its phase-1 value |
| Pipeline.MainKeepsGrad | MetadataExtraction/main.py:243-244 | phase 2 never alters the graduation year |
| Pipeline.MainOverwritesName | MetadataExtraction/main.py:239-244 | with First 'NA' after phase 1, phase 2 writes First and Last from the raw name, overwriting a resolved Last, and the raw confidence replaces the phase-1 one |

## Behaviour worth noting

- An empty block list makes `extractIds` and `getRawText` divide by zero,
  so `main` raises `ZeroDivisionError` (`Pipeline.Mean`,
  `Pipeline.GetRemainder`, `Pipeline.Main`).
- When First is still 'NA' after phase 1, phase 2 writes both First and
  Last, so it overwrites a Last that phase 1 resolved. It always replaces
  Confidence with the raw blocks' mean (`Pipeline.MainOverwritesName`).
- Phase 2 never resolves Grad: that branch is commented out in the
  detector (`Pipeline.MainKeepsGrad`). The form of `main` has no School
  field.
- The labelled scan of `__getName__` tests `v != ''`
  (MetadataExtraction/EntityDetector.py:151,154). `v` is a dictionary, so
  the test always holds and no labelled key is ever skipped
  (`Select.LabeledScan`).

## Left out

- Named-entity recognition (spaCy, `spacy.load`, `doc.ents`) is the parameter `Recognizer`: an external model.
- Date parsing (dateutil) is the parameter `DateParser`: an external library. `strftime` is modelled for `%Y` and `%Y/%m/%d` only.
- String operations are modelled on ASCII (`lower`, `title`, `split`, `isspace`): Unicode case and space tables are out of scope.
- `Top` and `Confidence` are exact reals, not IEEE floats: rounding is out of scope.
- Dates.FormatYear: `%Y` is the unpadded decimal year, as glibc's `strftime` writes it; Python builds that zero-pad `%Y` to four digits differ for years below 1000, which the model does not follow.
- `lambda_handler`, `getFileContent`, `loadData` and the `__main__` block of `MetadataExtraction/main.py` are left out: AWS, S3, DynamoDB and file I/O.
- `getLocation` is left out: it has no body.
- The `spacy.load` call inside `getRemainder` is left out: it only loads the model.
- `MetadataExtraction/ProgressReport.py`, the root `main.py`, `StartOCR/startOCR.py` and `GetOCRResults/main.py` are left out: plotting, statistics and AWS calls.
- All `print` diagnostics are left out: they have no effect on results.
- Block records are assumed to carry `Id`, `BlockType`, `EntityTypes`, `Text`, `SelectionStatus` and `Geometry`. A `KeyError` from one of these missing is not modelled. Only the optional `Confidence` and `Relationships` entries are modelled as possibly absent.
- LegacyRawDetector.DetectEntity: the name branch passes two dictionaries to `dict.update`, which raises `TypeError`; it is modelled as that error, not as a working path.
- LegacyRawDetector.Kept: the text lines are taken as distinct, as the keys of the dictionary the source iterates. Each kept line is therefore appended, never replaced.
- RawDetector.GetName: the contract names some text line whose strict parse is the result. It does not say which line; the count of PERSON spans pins it to the single candidate.
- Pipeline.GetText: the contract states only the case without relationships. The join of child words is stated through Pipeline.IdWordsOfWords and Pipeline.GetTextSplits for WORD children, and Pipeline.IdWordsSkips for the rest.
