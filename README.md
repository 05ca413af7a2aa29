# Invoice extraction core, modelled in Dafny

This project models the core of a configuration-driven invoice text extractor. Its input is the text of a PDF. It identifies which configured tenant issued the document by summing the weights of identifier patterns. It then sends the text to one of two engines:

- the **generic engine**: per configured block, a flat segmentation or a context-aware line scan, chosen by the block's field definitions;
- the **radio engine**: a line scan that tracks the current city, with date and timeband scoring.

Either engine fills an extraction result whose accuracy is the share of non-null values.

Regular expressions are an abstract oracle (`Regex.Oracle`). An oracle says whether a pattern compiles, finds a match with its groups, and parses a double. Everything built on it is modelled as the source does it:

- pure helpers are functions;
- loops over lines, buffers, maps and counters are methods with loop invariants. Each is proved equal to a specification function over values, and the properties are proved about those functions.

The modules, in dependency order:

| file | module | models |
|---|---|---|
| wrappers.dfy | Wrappers | `Option`, `Result` |
| java_text.dfy | JavaText | `String.trim`, `isBlank`, ASCII `toUpperCase`/`toLowerCase`, `split("\n")`, `Integer.parseInt`, `int` wrap-around, buffer joins |
| regex.dfy | Regex | the pattern oracle |
| entities.dfy | Entities, Errors | tenants, identifiers, field definitions, block and radio configurations, city mappings; the exceptions that escape |
| extracted_row.dfy | ExtractedRows | `ExtractedRow`: an insertion-ordered field map plus a separate score |
| extraction_result.dfy | ExtractionResults | `ExtractionResult`, `calculateAccuracy`, `empty` |
| tenant_config.dfy | TenantConfig | `getAllActiveTenants`, `getCityMappings`, `invalidateCache` |
| tenant_identification.dfy | TenantIdentification | `scoreTenant`, `identifyTenant` |
| generic_fields.dfy | GenericFields | `preprocessText`, `tryExtractField`, `parseValue`, `compilePattern`, `passesRequiredCheck`, the city lookup, the field-filling loop, the `fct` rule |
| generic_segmentation.dfy | GenericSegmentation | `segmentTextImproved` |
| generic_simple.dfy | GenericSimple | `extractRow`, `extractSimple` |
| generic_context.dfy | GenericContext | `extractWithContext`, `flushDataRow`, `isHeaderLine`/`isFooterLine` |
| generic_engine.dfy | GenericEngine | `GenericExtractionEngine.extract` |
| radio_engine.dfy | RadioEngine | `RadioExtractionEngine`: `extract`, `detectCity`, `flushBuffer`, date/timeband/generic field extraction, `tryExtract`, `parseValue`, `resolveRowStartPattern` |
| invoice_service.dfy | InvoiceService | `InvoiceExtractionService.extract`, `isRadioTenant` |

Exceptions that escape a call are `Err` values of `Errors.Error`:

- `DuplicateKey`: `Collectors.toMap` met a repeated key;
- `NoRadioConfig`: the radio engine found no configuration;
- `InvalidPattern`: the radio row-start pattern does not compile;
- `NoTenantMatched`: the service identified no tenant.

Exceptions the source catches are modelled as the fallback it takes.

## Model

All source paths are under `src/main/java/com/invoice/extraction/`; the table writes them in full.

| member | source | states |
|---|---|---|
| JavaText.Wrap32Add | src/main/java/com/invoice/extraction/service/TenantIdentificationService.java:58 | Adding to an already wrapped `int` total wraps the same as adding to the exact sum, so `+=` in a loop yields the wrapped exact sum |
| JavaText.IntAddWrapped | src/main/java/com/invoice/extraction/service/TenantIdentificationService.java:58 | Adding an `int` to a wrapped exact sum is the wrapped sum of the exact values, so the loop total is always the wrapped exact total |
| JavaText.Trim | src/main/java/com/invoice/extraction/service/GenericExtractionEngine.java:166 | `String.trim()`: the result has no character `<= ' '` at either end, is the input when already trimmed, is empty iff every character is trim-space, and holds only characters of the input |
| JavaText.TrimCutsOnlyEnds | src/main/java/com/invoice/extraction/service/GenericExtractionEngine.java:166 | The trimmed text is a contiguous slice of the input with only trim-space characters before and after it |
| JavaText.TrimKeepsNonSpace | src/main/java/com/invoice/extraction/service/GenericExtractionEngine.java:495 | On text without control characters, trimming removes only `\s` characters: the non-space characters are kept, in order |
| JavaText.TrimIdempotent | src/main/java/com/invoice/extraction/service/GenericExtractionEngine.java:276 | Trimming a trimmed string changes nothing |
| JavaText.TrimKeepsSingleSpaced | src/main/java/com/invoice/extraction/service/GenericExtractionEngine.java:450 | Trimming a single-spaced text leaves it single-spaced |
| JavaText.TrimKeepsInside | src/main/java/com/invoice/extraction/service/GenericExtractionEngine.java:450 | When the first part ends and the last part starts above U+0020, trimming the whole trims those two parts only and keeps the middle as it is |
| JavaText.ToUpper | src/main/java/com/invoice/extraction/service/TenantConfigService.java:39 | `toUpperCase()`: same length, every letter `a`-`z` upper-cased and every other character unchanged |
| JavaText.CollapseWhitespace | src/main/java/com/invoice/extraction/service/GenericExtractionEngine.java:498 | `replaceAll("\\s+", " ")`: the only whitespace left is single spaces, a leading non-space character is kept, and every non-space character comes from the input; `CollapseRun` and `CollapseSingleSpaced` state that each run becomes one space in place and the rest is kept |
| JavaText.CollapseKeepsNonSpace | src/main/java/com/invoice/extraction/service/GenericExtractionEngine.java:498 | Collapsing whitespace keeps every non-space character of the input, in order, and adds none |
| JavaText.CollapseKeepsEdges | src/main/java/com/invoice/extraction/service/GenericExtractionEngine.java:498 | The result starts (ends) with a space iff the input starts (ends) with a `\s` character |
| JavaText.CollapseConcat | src/main/java/com/invoice/extraction/service/GenericExtractionEngine.java:498 | Cutting a text where no `\s` run is split, collapsing the whole is collapsing each part and joining the results |
| JavaText.CollapseRun | src/main/java/com/invoice/extraction/service/GenericExtractionEngine.java:498 | Each maximal `\s` run becomes exactly one space, in place: `a + run + b` collapses to `a` collapsed, one space, `b` collapsed |
| JavaText.CollapseSingleSpaced | src/main/java/com/invoice/extraction/service/GenericExtractionEngine.java:498 | A single-spaced text is unchanged: a text without `\s` characters comes back as it is, and collapsing twice is collapsing once |
| JavaText.KeepDigits | src/main/java/com/invoice/extraction/service/GenericExtractionEngine.java:525 | `replaceAll("[^0-9]", "")`: only digits remain; a one-character input is kept iff it is a digit; empty iff the input has no digit |
| JavaText.KeepDigitsConcat | src/main/java/com/invoice/extraction/service/GenericExtractionEngine.java:525 | Keeping digits distributes over concatenation, so the result is the input's digits in their order |
| JavaText.KeepDigitsAndDots | src/main/java/com/invoice/extraction/service/GenericExtractionEngine.java:529 | `replaceAll("[^0-9.]", "")`: only digits and dots remain, never more characters than the input; a one-character input is kept iff it is a digit or a dot |
| JavaText.KeepDigitsAndDotsConcat | src/main/java/com/invoice/extraction/service/GenericExtractionEngine.java:529 | The filter works character by character: the result is the input's digits and dots in their order |
| JavaText.ParseInt | src/main/java/com/invoice/extraction/service/GenericExtractionEngine.java:526 | `Integer.parseInt` of a digit string succeeds iff it is non-empty and its value fits in `int`, and then returns that value |
| JavaText.NatToStringRoundTrip | src/main/java/com/invoice/extraction/model/ExtractedRow.java:22 | The decimal string form of a natural reads back as the same number |
| JavaText.IntToString | src/main/java/com/invoice/extraction/model/ExtractedRow.java:22 | `String.valueOf(int)`: a non-negative value is a non-empty digit string of that value; a negative one is `-` followed by the digits of its magnitude |
| JavaText.NonSpaceRemoveChar | src/main/java/com/invoice/extraction/service/GenericExtractionEngine.java:497 | Removing a character commutes with dropping `\s` characters |
| JavaText.RemoveCharConcat | src/main/java/com/invoice/extraction/service/GenericExtractionEngine.java:497 | `replaceAll(",", "")` works character by character: removing from `a + b` is removing from each part |
| JavaText.DoubleToInt | src/main/java/com/invoice/extraction/model/ExtractedRow.java:26 | `Number.intValue()` of a double truncates toward zero and saturates at the `int` bounds |
| JavaText.Split | src/main/java/com/invoice/extraction/service/GenericExtractionEngine.java:162 | `split("\n")`: no piece contains the separator; a text without the separator is one piece; no trailing empty piece when the separator occurs; joining the pieces with the separator gives the input less its trailing separators |
| JavaText.TerminatedTrim | src/main/java/com/invoice/extraction/service/RadioExtractionEngine.java:102 | A buffer of trimmed lines each followed by a space, once trimmed, is the lines joined by single spaces |
| JavaText.JoinTrimIdentity | src/main/java/com/invoice/extraction/service/GenericExtractionEngine.java:276 | A space-join of trimmed non-empty lines is already trimmed, and non-empty when there is a line |
| JavaText.JoinOfJoins | src/main/java/com/invoice/extraction/service/GenericExtractionEngine.java:406 | Joining the joined groups equals joining all their lines |
| Entities.SortBySortOrder | src/main/java/com/invoice/extraction/service/GenericExtractionEngine.java:446-448 | Sorting by `sortOrder` keeps the same definitions with the same multiplicities |
| Entities.SortBySortOrderSorted | src/main/java/com/invoice/extraction/service/GenericExtractionEngine.java:446-448 | The sorted list is ordered by `sortOrder` and has exactly the input's members |
| Entities.SortBySortOrderStable | src/main/java/com/invoice/extraction/service/GenericExtractionEngine.java:446-448 | The sort is stable: for every sort order, the definitions with that order keep their relative order from the input |
| Entities.InsertBySortOrderClass | src/main/java/com/invoice/extraction/service/GenericExtractionEngine.java:446-448 | Inserting a definition places it ahead of the definitions of its own sort order and leaves their order unchanged |
| Entities.FieldsWithContextFlag | src/main/java/com/invoice/extraction/service/GenericExtractionEngine.java:138-146 | Filtering on `isContext` keeps exactly the definitions with that flag, each one of the input |
| Entities.FieldsWithContextFlagConcat | src/main/java/com/invoice/extraction/service/GenericExtractionEngine.java:138-146 | The filter keeps encounter order and multiplicity: filtering `a + b` is filtering `a` followed by filtering `b` |
| Entities.FieldsWithContextFlagSingle | src/main/java/com/invoice/extraction/service/GenericExtractionEngine.java:138-146 | One definition is kept once if its context flag matches, and dropped otherwise |
| Entities.FieldsOfBlock | src/main/java/com/invoice/extraction/service/GenericExtractionEngine.java:45-46 | `groupingBy(blockName)` for one name: exactly the definitions of that block |
| Entities.FieldsOfBlockConcat | src/main/java/com/invoice/extraction/service/GenericExtractionEngine.java:45-46 | The grouping keeps encounter order and multiplicity: the block of `a + b` is the block of `a` followed by the block of `b` |
| Entities.FieldsOfBlockSingle | src/main/java/com/invoice/extraction/service/GenericExtractionEngine.java:45-46 | One definition lands in the block once if its block name matches, and not at all otherwise |
| Entities.FirstDuplicate | src/main/java/com/invoice/extraction/service/GenericExtractionEngine.java:49-50 | Where `Collectors.toMap` throws: None iff all keys are distinct; otherwise a key that occurs twice |
| ExtractedRows.OrderedMap.Put | src/main/java/com/invoice/extraction/model/ExtractedRow.java:15 | `LinkedHashMap.put`: the value is updated; a new key goes to the end and an existing key keeps its place |
| ExtractedRows.OrderedMap.PutAll | src/main/java/com/invoice/extraction/service/GenericExtractionEngine.java:323 | `putAll`: the other map's entries override, others keep their values; the key order is the existing keys followed by the other map's new keys in the other map's order (`NewKeys`) |
| ExtractedRows.OrderedMap.PutEachKeys | src/main/java/com/invoice/extraction/service/GenericExtractionEngine.java:323 | A run of `put` calls appends to the key order exactly the keys not yet present, each once at its first occurrence, in the order of the run |
| ExtractedRows.NewKeys | src/main/java/com/invoice/extraction/service/GenericExtractionEngine.java:323 | The keys a run of puts appends: exactly the run's keys that are not already present, each once |
| ExtractedRows.OrderedMap.Values | src/main/java/com/invoice/extraction/model/ExtractionResult.java:29 | `values()`: one value per key, in key order |
| ExtractedRows.OrderedMap.SizeIsEntryCount | src/main/java/com/invoice/extraction/service/RadioExtractionEngine.java:182 | `size()` counts the entries: the key list is as long as the map |
| ExtractedRows.ExtractedRow.constructor | src/main/java/com/invoice/extraction/model/ExtractedRow.java:15-18 | A new row has no fields and score 0 |
| ExtractedRows.ExtractedRow.Put | src/main/java/com/invoice/extraction/model/ExtractedRow.java:15 | Puts one field; the score is untouched |
| ExtractedRows.ExtractedRow.PutAll | src/main/java/com/invoice/extraction/service/GenericExtractionEngine.java:323 | Merges a map into the fields; the score is untouched |
| ExtractedRows.ExtractedRow.Size | src/main/java/com/invoice/extraction/model/ExtractedRow.java:15-18 | `size()` is the number of field entries; the score is not an entry |
| ExtractedRows.ExtractedRow.Score | src/main/java/com/invoice/extraction/model/ExtractedRow.java:17-18 | Fluent `score(int)`: sets the score, returns the row, fields unchanged |
| ExtractedRows.ExtractedRow.SetScore | src/main/java/com/invoice/extraction/model/ExtractedRow.java:37-39 | `setScore`: the score read back is the one set, fields unchanged |
| ExtractedRows.ExtractedRow.GetString | src/main/java/com/invoice/extraction/model/ExtractedRow.java:21-23 | null iff the key is absent; otherwise `String.valueOf` of the value: a string as it is, an `int` in decimal (`IntToString`; the digit value of a non-negative one equals the value), a double by `Double.toString`, and null as `"null"` |
| ExtractedRows.ExtractedRow.GetInteger | src/main/java/com/invoice/extraction/model/ExtractedRow.java:25-27 | null iff the key is absent; a failed cast iff the value is not a number; otherwise the value's `intValue()` |
| ExtractedRows.ExtractedRow.GetDouble | src/main/java/com/invoice/extraction/model/ExtractedRow.java:29-31 | null iff the key is absent; a failed cast iff the value is not a number; otherwise the value's `doubleValue()` |
| ExtractedRows.Views | src/main/java/com/invoice/extraction/model/ExtractionResult.java:12 | The values stored for a list of rows: one per row, each that row's fields and score |
| ExtractionResults.NonNullCount | src/main/java/com/invoice/extraction/model/ExtractionResult.java:29-34 | `presentFields <= totalFields`, with equality iff no value is null |
| ExtractionResults.NonNullCountConcat | src/main/java/com/invoice/extraction/model/ExtractionResult.java:27-35 | The non-null count over concatenated value lists is the sum of the counts, so the nested loops count row by row |
| ExtractionResults.AccuracyBounds | src/main/java/com/invoice/extraction/model/ExtractionResult.java:38 | Accuracy lies in [0, 100]; 0 with no values; 100 when there are values and none is null; 0 when every value is null |
| ExtractionResults.ExtractionResult.constructor | src/main/java/com/invoice/extraction/model/ExtractionResult.java:10-16 | A new result has no tenant, no blocks, no warnings, accuracy 0 and status SUCCESS |
| ExtractionResults.ExtractionResult.Empty | src/main/java/com/invoice/extraction/model/ExtractionResult.java:41-47 | `empty(reason)`: status EMPTY, warnings exactly `[reason]`, accuracy 0, no blocks |
| ExtractionResults.ExtractionResult.PutBlock | src/main/java/com/invoice/extraction/model/ExtractionResult.java:12 | Puts a block's rows into the insertion-ordered block map; nothing else changes |
| ExtractionResults.ExtractionResult.CalculateAccuracy | src/main/java/com/invoice/extraction/model/ExtractionResult.java:21-39 | The nested counting loops set the accuracy to the present-over-total percentage of all values of all rows of all blocks; nothing else changes |
| TenantConfig.ActiveTenantsAreTheActiveOnes | src/main/java/com/invoice/extraction/service/TenantConfigService.java:28-32 | Exactly the stored tenants with status ACTIVE are loaded |
| TenantConfig.CityRows | src/main/java/com/invoice/extraction/service/TenantConfigService.java:35-36 | The query returns exactly the tenant's rows of mapping type CITY |
| TenantConfig.CityMapFailsIffRepeatedCode | src/main/java/com/invoice/extraction/service/TenantConfigService.java:38-41 | Building the table fails iff two codes are equal once upper-cased |
| TenantConfig.CityMapFailureNamesRepeatedCode | src/main/java/com/invoice/extraction/service/TenantConfigService.java:38-41 | A failure is a duplicate-key error naming an upper-cased code that repeats |
| TenantConfig.CityMapTable | src/main/java/com/invoice/extraction/service/TenantConfigService.java:37-41 | On success the keys are exactly the upper-cased codes, each mapped to its row's display name, and every key is upper case |
| TenantConfig.PutAllPairsLastWins | src/main/java/com/invoice/extraction/service/TenantConfigService.java:38-41 | A key not repeated later maps to the value at its own position |
| TenantConfig.InvalidateCache | src/main/java/com/invoice/extraction/service/TenantConfigService.java:45-49 | No state changes |
| TenantIdentification.ScoreTenant | src/main/java/com/invoice/extraction/service/TenantIdentificationService.java:51-67 | The loop returns the wrapped `int` sum of the scores of the identifiers whose pattern compiles and is found |
| TenantIdentification.NoMatchScoresZero | src/main/java/com/invoice/extraction/service/TenantIdentificationService.java:51-67 | A tenant none of whose patterns is found scores 0 |
| TenantIdentification.BrokenPatternIsSkipped | src/main/java/com/invoice/extraction/service/TenantIdentificationService.java:55-63 | A pattern that does not compile adds nothing and does not stop later identifiers from counting |
| TenantIdentification.Best | src/main/java/com/invoice/extraction/service/TenantIdentificationService.java:29-40 | The argmax fold: no index iff every score is <= 0; otherwise the index of a positive score >= every score and > every earlier score |
| TenantIdentification.NoTenantIffNoPositiveScore | src/main/java/com/invoice/extraction/service/TenantIdentificationService.java:42-48 | No tenant is identified iff every tenant scores <= 0 |
| TenantIdentification.IdentifiedTenantIsFirstBest | src/main/java/com/invoice/extraction/service/TenantIdentificationService.java:32-40 | The identified tenant scores > 0, >= every tenant, and > every earlier tenant, so ties go to the first |
| TenantIdentification.IdentifyTenant | src/main/java/com/invoice/extraction/service/TenantIdentificationService.java:26-49 | The loop returns the specified choice among the active tenants in store order |
| GenericFields.PreprocessText | src/main/java/com/invoice/extraction/service/GenericExtractionEngine.java:80-97 | null gives `""`; the output has no `'\r'`, no tab, none of U+200B-U+200D or U+FEFF, and no two spaces in a row; what it keeps is stated by `PreprocessTextKeepsNonSpace` and `PreprocessTextKeepsCleanLine` |
| GenericFields.PreprocessTextKeepsNonSpace | src/main/java/com/invoice/extraction/service/GenericExtractionEngine.java:80-97 | Only `\s` characters and the zero-width ones change: the output's non-space characters are the input's less U+200B-U+200D and U+FEFF, in order |
| GenericFields.PreprocessTextKeepsCleanLine | src/main/java/com/invoice/extraction/service/GenericExtractionEngine.java:80-97 | A line with no `'\r'`, `'\n'`, tab, zero-width character or double space comes out unchanged |
| GenericFields.ReplaceCrLfConcat | src/main/java/com/invoice/extraction/service/GenericExtractionEngine.java:84 | `\r\n` is rewritten pair by pair: cutting a text anywhere but inside such a pair lets each part be rewritten on its own |
| GenericFields.RemoveInvisibleConcat | src/main/java/com/invoice/extraction/service/GenericExtractionEngine.java:87 | The zero-width characters are removed one by one: removing from `a + b` is removing from each part |
| GenericFields.CollapseSpacesAndTabs | src/main/java/com/invoice/extraction/service/GenericExtractionEngine.java:91 | `[ \t]+` to one space: no tab, no double space, no new characters but the space |
| GenericFields.CollapseSpacesAndTabsConcat | src/main/java/com/invoice/extraction/service/GenericExtractionEngine.java:91 | Cutting a text where no run of spaces and tabs is split, the whole collapses as each part does |
| GenericFields.CollapseSpacesAndTabsRun | src/main/java/com/invoice/extraction/service/GenericExtractionEngine.java:91 | Each maximal run of spaces and tabs becomes exactly one space, in place: `a + run + b` gives `a` collapsed, one space, `b` collapsed |
| GenericFields.CollapseSpacesAndTabsKeeps | src/main/java/com/invoice/extraction/service/GenericExtractionEngine.java:91 | A text without tabs or double spaces comes back unchanged |
| GenericFields.CollapseBlankLinesNoDoubleSpace | src/main/java/com/invoice/extraction/service/GenericExtractionEngine.java:94 | Collapsing `\n\s*\n\s*\n` to `\n\n` creates no double space |
| GenericFields.CollapseBlankLinesChars | src/main/java/com/invoice/extraction/service/GenericExtractionEngine.java:94 | Collapsing blank lines introduces no new character |
| GenericFields.CollapseBlankLinesKeepsNonSpace | src/main/java/com/invoice/extraction/service/GenericExtractionEngine.java:94 | Collapsing blank lines removes only `\s` characters: the non-space characters stay, in order |
| GenericFields.Normalize | src/main/java/com/invoice/extraction/service/GenericExtractionEngine.java:450 | The normalized text is trimmed and single-spaced; `NormalizeRun` and `NormalizeKeepsNonSpace` state what it keeps |
| GenericFields.NormalizeRun | src/main/java/com/invoice/extraction/service/GenericExtractionEngine.java:450 | A `\s` run between two words becomes one space, in place: `a + run + b` normalizes to `a` normalized, one space, `b` normalized |
| GenericFields.NormalizeKeepsNonSpace | src/main/java/com/invoice/extraction/service/GenericExtractionEngine.java:478 | On text without control characters, normalizing keeps the non-space characters of the text, in order |
| GenericFields.CleanCapture | src/main/java/com/invoice/extraction/service/GenericExtractionEngine.java:495-498 | A cleaned capture is trimmed, single-spaced and comma-free; `CleanCaptureRun` and `CleanCaptureKeepsNonSpace` state what it keeps |
| GenericFields.CleanCaptureRun | src/main/java/com/invoice/extraction/service/GenericExtractionEngine.java:495-498 | A `\s` run between two words that do not end or start with a comma becomes one space, in place: each side is cleaned on its own |
| GenericFields.CleanCaptureKeepsNonSpace | src/main/java/com/invoice/extraction/service/GenericExtractionEngine.java:495-498 | On a capture without control characters, the cleaned value holds the capture's non-space characters in order, less every comma |
| GenericFields.AttemptCandidate | src/main/java/com/invoice/extraction/service/GenericExtractionEngine.java:490-501 | A candidate throws iff it matches with a group whose capture is null; it yields a value iff it matches with a non-null group 1 whose cleaned form is not blank, and the value is that cleaned capture |
| GenericFields.TryPattern | src/main/java/com/invoice/extraction/service/GenericExtractionEngine.java:486-505 | A value only from a compiling pattern, and exactly when the original text yields one, or when the original yields nothing (without throwing) and the normalized text yields one; that value is returned; a null group on the original abandons the pattern |
| GenericFields.TryExtractField | src/main/java/com/invoice/extraction/service/GenericExtractionEngine.java:482-513 | A returned value is non-blank, trimmed, single-spaced and comma-free; which pattern and which candidate text give it is stated by `TryExtractFieldFirstMatch`, `TryPattern` and `AttemptCandidate` |
| GenericFields.TryExtractFieldFirstMatch | src/main/java/com/invoice/extraction/service/GenericExtractionEngine.java:483-512 | null iff no pattern yields a value; otherwise the value of the first pattern that does, in list order |
| GenericFields.FirstSomeSpec | src/main/java/com/invoice/extraction/service/GenericExtractionEngine.java:483-512 | The first-match search returns the first present entry, or nothing iff none is present |
| GenericFields.ParseValue | src/main/java/com/invoice/extraction/service/GenericExtractionEngine.java:518-538 | Blank gives null; STRING and DATE give the input; INTEGER keeps the digits and gives null iff there are none or they overflow `int`; DOUBLE parses the digits and dots |
| GenericFields.CompilePattern | src/main/java/com/invoice/extraction/service/GenericExtractionEngine.java:555-564 | A pattern iff the regex is present, not blank and compiles, with the case-insensitive and multiline flags |
| GenericFields.PassesRequiredCheck | src/main/java/com/invoice/extraction/service/GenericExtractionEngine.java:543-550 | True iff every required field name is a key of the row |
| GenericFields.CityLookup | src/main/java/com/invoice/extraction/service/GenericExtractionEngine.java:459-462 | A mapped name iff the field is `cityName`, the table is non-empty and holds the upper-cased trimmed capture; it is that entry |
| GenericFields.ParsedFieldSpec | src/main/java/com/invoice/extraction/service/GenericExtractionEngine.java:453-466 | A field contributes iff a value is extracted and parses; its value is the city mapping when one applies, the parsed value otherwise |
| GenericFields.FillFoldKeys | src/main/java/com/invoice/extraction/service/GenericExtractionEngine.java:452-468 | The filled row's keys are exactly the names of the definitions that contribute |
| GenericFields.FillFoldValues | src/main/java/com/invoice/extraction/service/GenericExtractionEngine.java:452-468 | Each key holds the value of the last contributing definition with that name |
| GenericFields.FillFoldScore | src/main/java/com/invoice/extraction/service/GenericExtractionEngine.java:465 | The score is the wrapped `int` sum of the weights of exactly the definitions that contribute |
| GenericFields.ContributionIgnoresTable | src/main/java/com/invoice/extraction/service/GenericExtractionEngine.java:457-462 | Whether a field contributes does not depend on the city table |
| GenericFields.PutContributions | src/main/java/com/invoice/extraction/service/GenericExtractionEngine.java:452-468 | The filling loop leaves the row and total equal to the specified fold; the row's score is untouched |
| GenericFields.FctValue | src/main/java/com/invoice/extraction/service/GenericExtractionEngine.java:307-318 | `fct` is derived iff absent, spots and duration are present numbers and both > 0; it is their wrapped `int` product (the exact one when it fits) |
| GenericSegmentation.KeptLines | src/main/java/com/invoice/extraction/service/GenericExtractionEngine.java:397-399 | The kept lines are trimmed and non-empty |
| GenericSegmentation.SegGroupsProperties | src/main/java/com/invoice/extraction/service/GenericExtractionEngine.java:390-430 | The groups flatten to the kept lines in order; each holds 1 to 50 lines; only its first line may be a start; every boundary is a start line or a 50-line cut |
| GenericSegmentation.SegmentsCoverText | src/main/java/com/invoice/extraction/service/GenericExtractionEngine.java:390-435 | The segments joined by spaces equal the kept lines joined by spaces, and each segment is trimmed and non-empty |
| GenericSegmentation.SegmentTextImproved | src/main/java/com/invoice/extraction/service/GenericExtractionEngine.java:378-436 | The method returns the specified segments: the whole text for GLOBAL mode or a missing, blank or bad start pattern, and one joined group each otherwise |
| GenericSegmentation.SegmentLines | src/main/java/com/invoice/extraction/service/GenericExtractionEngine.java:390-435 | The buffer loop returns one space-joined segment per specified group |
| GenericSegmentation.StepBoundaries | src/main/java/com/invoice/extraction/service/GenericExtractionEngine.java:401-424 | One line step keeps every boundary explained by a start line or the 50-line cut |
| GenericSegmentation.StepSizesBounded | src/main/java/com/invoice/extraction/service/GenericExtractionEngine.java:417-424 | One line step keeps every group within 50 lines |
| GenericSimple.RowOfKeys | src/main/java/com/invoice/extraction/service/GenericExtractionEngine.java:441-472 | A key is in the row iff some definition of that name yields a parsed value |
| GenericSimple.RowOfScore | src/main/java/com/invoice/extraction/service/GenericExtractionEngine.java:465-470 | The row's score is the wrapped sum of the weights of the contributing definitions, in `sortOrder` |
| GenericSimple.ExtractRow | src/main/java/com/invoice/extraction/service/GenericExtractionEngine.java:441-472 | The method builds the specified row |
| GenericSimple.KeepRowIfAccepted | src/main/java/com/invoice/extraction/service/GenericExtractionEngine.java:114-122 | The body of the segment loop appends the segment's row exactly when it is accepted |
| GenericSimple.ExtractBlockRows | src/main/java/com/invoice/extraction/service/GenericExtractionEngine.java:110-124 | The segment loop returns the accepted rows of all segments, in order |
| GenericSimple.KeptRowsExactly | src/main/java/com/invoice/extraction/service/GenericExtractionEngine.java:114-122 | Exactly the rows with score >= minScore that pass the required check are kept, in order |
| GenericSimple.SimpleRowsExactly | src/main/java/com/invoice/extraction/service/GenericExtractionEngine.java:103-125 | A row is returned iff it is the row of some segment and is accepted |
| GenericSimple.ExtractSimple | src/main/java/com/invoice/extraction/service/GenericExtractionEngine.java:103-125 | The method returns the specified rows |
| GenericContext.FlushOutSpec | src/main/java/com/invoice/extraction/service/GenericExtractionEngine.java:274-335 | A flush adds at most one row; it adds one iff the text is not header, footer or short, the row has data, and its score >= minScore |
| GenericContext.ShortBufferYieldsNothing | src/main/java/com/invoice/extraction/service/GenericExtractionEngine.java:279 | Trimmed text shorter than 3 characters gives no row |
| GenericContext.FlushOutMonotoneInMinScore | src/main/java/com/invoice/extraction/service/GenericExtractionEngine.java:328 | A row kept under a higher minScore is kept, unchanged, under a lower one |
| GenericContext.BuildDataRow | src/main/java/com/invoice/extraction/service/GenericExtractionEngine.java:286-323 | The field loop builds a fresh row equal to the specified context row and returns its score |
| GenericContext.ContextRowSpec | src/main/java/com/invoice/extraction/service/GenericExtractionEngine.java:286-323 | The score counts data fields only; the keys are the data keys plus the context keys; context values override same-named data fields |
| GenericContext.FctOfContextRow | src/main/java/com/invoice/extraction/service/GenericExtractionEngine.java:306-323 | `fct` comes from the context when present there, from the data when extracted, and otherwise from the spots × duration rule |
| GenericContext.FlushDataRow | src/main/java/com/invoice/extraction/service/GenericExtractionEngine.java:266-335 | The method appends exactly the specified flush output |
| GenericContext.ContextHitFirst | src/main/java/com/invoice/extraction/service/GenericExtractionEngine.java:172-196 | No hit iff no context field extracts a value; otherwise the first one that does, in sort order |
| GenericContext.ContextValue | src/main/java/com/invoice/extraction/service/GenericExtractionEngine.java:177-180 | For `cityName` a mapping hit replaces the value; a miss keeps the value as extracted |
| GenericContext.DetectContext | src/main/java/com/invoice/extraction/service/GenericExtractionEngine.java:172-196 | The loop returns the specified first context hit |
| GenericContext.FirstPresent | src/main/java/com/invoice/extraction/service/GenericExtractionEngine.java:172-196 | The first context field with a value, or none |
| GenericContext.Classify | src/main/java/com/invoice/extraction/service/GenericExtractionEngine.java:164-211 | Blank iff the trimmed line is empty; a context line iff not blank and some context field extracts a value, and then it carries the first such field's name, value and reset flag; otherwise a data line of the non-empty trimmed line, a row start iff the start pattern is present and found in it |
| GenericContext.ClassifyLine | src/main/java/com/invoice/extraction/service/GenericExtractionEngine.java:164-211 | The method classifies the line as specified |
| GenericContext.ContextLineStep | src/main/java/com/invoice/extraction/service/GenericExtractionEngine.java:172-199 | A context line updates only its field, never enters the buffer, and on reset-on-match flushes a non-empty buffer under the old context first |
| GenericContext.DataLineStep | src/main/java/com/invoice/extraction/service/GenericExtractionEngine.java:203-250 | A data line leaves the context alone; a row start flushes only a non-empty buffer; the line accumulates iff there is no start pattern, it is a start, or the buffer is non-empty |
| GenericContext.ContextOnlyGrows | src/main/java/com/invoice/extraction/service/GenericExtractionEngine.java:152-251 | Along the scan, context keys are never removed and flushed rows are never withdrawn |
| GenericContext.ScanWellFormed | src/main/java/com/invoice/extraction/service/GenericExtractionEngine.java:214-250 | Pending lines are trimmed and non-empty, and with a start pattern each buffer begins at a row start |
| GenericContext.SmartJoinSpec | src/main/java/com/invoice/extraction/service/GenericExtractionEngine.java:235-248 | The smart join always inserts exactly one space, so the buffer is the trimmed lines joined by single spaces |
| GenericContext.SmartJoinIsSpace | src/main/java/com/invoice/extraction/service/GenericExtractionEngine.java:235-248 | Before a trimmed non-empty line, the buffer never ends in a space and the line never starts with one, so one space is inserted and the buffer stays the space-join of its lines |
| GenericContext.ScanLine | src/main/java/com/invoice/extraction/service/GenericExtractionEngine.java:164-250 | One loop iteration keeps the real context, rows and buffer in step with the specified scan |
| GenericContext.ScanLines | src/main/java/com/invoice/extraction/service/GenericExtractionEngine.java:164-251 | The loop ends in step with the specified scan of all lines |
| GenericContext.ExtractWithContext | src/main/java/com/invoice/extraction/service/GenericExtractionEngine.java:131-261 | The method returns the specified rows, including the final flush |
| GenericEngine.BlockOutputs | src/main/java/com/invoice/extraction/service/GenericExtractionEngine.java:55-66 | A block without field definitions contributes nothing; otherwise it contributes its rows |
| GenericEngine.PutBlocksSpec | src/main/java/com/invoice/extraction/service/GenericExtractionEngine.java:55-69 | With distinct names, the block keys are the contributing blocks in order, each holding its own rows |
| GenericEngine.BlocksOfOutputs | src/main/java/com/invoice/extraction/service/GenericExtractionEngine.java:58-68 | The result holds exactly the blocks that have field definitions, each with its rows |
| GenericEngine.GenericExtractionErrors | src/main/java/com/invoice/extraction/service/GenericExtractionEngine.java:49-52 | extract fails iff a block name repeats or two city codes collide; a repeated block name is reported; every failure is a duplicate key |
| GenericEngine.GenericExtractionShape | src/main/java/com/invoice/extraction/service/GenericExtractionEngine.java:37-72 | On success: the given tenant, SUCCESS, no warnings, accuracy in [0, 100]; exactly the blocks with field definitions, each from the context scan iff a definition is a context field (`BlockRows`) |
| GenericEngine.ExtractBlock | src/main/java/com/invoice/extraction/service/GenericExtractionEngine.java:62-66 | The method picks the strategy and returns its rows |
| GenericEngine.ExtractBlocks | src/main/java/com/invoice/extraction/service/GenericExtractionEngine.java:38-71 | The block loop and accuracy step build the specified result |
| GenericEngine.Extract | src/main/java/com/invoice/extraction/service/GenericExtractionEngine.java:37-72 | The method fails or succeeds as specified and returns a fresh result equal to the specification |
| RadioEngine.DetectCity | src/main/java/com/invoice/extraction/service/RadioExtractionEngine.java:123-144 | A city iff the pattern is present, compiles, is found and has a group; then it is the display name from the table when the table is not empty and holds the trimmed, upper-cased capture, and that upper-cased capture otherwise |
| RadioEngine.DetectedCityIsMappedOrUpper | src/main/java/com/invoice/extraction/service/RadioExtractionEngine.java:131-138 | A detected city is a mapped display name or upper case; with no table, or a capture the table lacks, it is the upper-cased trimmed capture |
| RadioEngine.CityCodeResolvesToDisplayName | src/main/java/com/invoice/extraction/service/RadioExtractionEngine.java:131-136 | A captured code equal to a stored code once upper-cased resolves to that row's display name |
| RadioEngine.DateEntries | src/main/java/com/invoice/extraction/service/RadioExtractionEngine.java:191-206 | Score 0 or 2, with no entries exactly on 0; `startDate` first and `endDate` only second; values trimmed. Which match gives which entries: `DateEntriesOfMatch` |
| RadioEngine.DateEntriesOfMatch | src/main/java/com/invoice/extraction/service/RadioExtractionEngine.java:191-206 | Score 2 iff the pattern compiles, finds, and group 1 took part; `startDate` is group 1 trimmed; `endDate` is present iff group 2 exists and took part, and is group 2 trimmed |
| RadioEngine.TimebandEntries | src/main/java/com/invoice/extraction/service/RadioExtractionEngine.java:210-227 | Score 0 or 1, no entries on 0, at most timebandStart and timebandEnd, values trimmed. Which match gives which entries: `TimebandEntriesOfMatch` |
| RadioEngine.TimebandEntriesOfMatch | src/main/java/com/invoice/extraction/service/RadioExtractionEngine.java:210-227 | Score 1 iff the pattern compiles and finds; then `timebandStart` and `timebandEnd`, in that order, each present iff its group exists and took part, each its group trimmed |
| RadioEngine.PutStringsOverrides | src/main/java/com/invoice/extraction/service/RadioExtractionEngine.java:196-219 | Putting the entries overrides the row's map with them |
| RadioEngine.RadioTryPattern | src/main/java/com/invoice/extraction/service/RadioExtractionEngine.java:266-277 | A value only from a compiling pattern, and exactly when the original text yields one, or when the original yields nothing (without throwing) and the normalized text yields one; that value is returned, non-blank and comma-free |
| RadioEngine.RadioAttempt | src/main/java/com/invoice/extraction/service/RadioExtractionEngine.java:268-272 | A candidate throws iff it matches with a null group 1; it yields a value iff group 1 is present and its trimmed, comma-free form is not blank, and the value is that form |
| RadioEngine.RadioCleanKeepsNonSpace | src/main/java/com/invoice/extraction/service/RadioExtractionEngine.java:271 | On a capture without control characters, the cleaned value holds the capture's non-space characters in order, less every comma |
| RadioEngine.RadioTryExtractFirstMatch | src/main/java/com/invoice/extraction/service/RadioExtractionEngine.java:264-280 | null iff no pattern yields a value; otherwise the first pattern's value, non-blank and comma-free |
| RadioEngine.RadioParseAgreesWithGeneric | src/main/java/com/invoice/extraction/service/RadioExtractionEngine.java:282-294 | On non-blank input the radio `parseValue` equals the generic one; on blank STRING or DATE input they differ |
| RadioEngine.PutFoldOverrides | src/main/java/com/invoice/extraction/service/RadioExtractionEngine.java:236-245 | The generic fields override the city and date entries already in the row |
| RadioEngine.ContextEntriesSpec | src/main/java/com/invoice/extraction/service/RadioExtractionEngine.java:164-174 | The row starts with `cityName` set to the current city, plus startDate when dates scored |
| RadioEngine.ContextScore | src/main/java/com/invoice/extraction/service/RadioExtractionEngine.java:167-174 | The date and timeband score lies in [0, 3] and is >= 2 iff date entries were put |
| RadioEngine.ContextScoreOfMatches | src/main/java/com/invoice/extraction/service/RadioExtractionEngine.java:167-174 | The score is 2 when the date pattern is configured, compiles, finds and group 1 took part, plus 1 when the time pattern is configured, compiles and finds |
| RadioEngine.FillOverContext | src/main/java/com/invoice/extraction/service/RadioExtractionEngine.java:236-259 | The initial keys stay; extracted fields override them |
| RadioEngine.RadioRowCity | src/main/java/com/invoice/extraction/service/RadioExtractionEngine.java:164 | Every built row has `cityName`, equal to the current city unless a field definition overrides it |
| RadioEngine.RadioRowFields | src/main/java/com/invoice/extraction/service/RadioExtractionEngine.java:164-178 | Extracted fields other than `fct` are present with their values; startDate is present when dates scored |
| RadioEngine.RadioRowScore | src/main/java/com/invoice/extraction/service/RadioExtractionEngine.java:161-179 | The score is the wrapped sum of the date/timeband score and the contributed weights |
| RadioEngine.KeptRowHasMoreThanCity | src/main/java/com/invoice/extraction/service/RadioExtractionEngine.java:182 | `size() > 1` iff the row holds a key besides `cityName` |
| RadioEngine.ExtractDateFields | src/main/java/com/invoice/extraction/service/RadioExtractionEngine.java:191-206 | The method puts the specified date entries and returns their score |
| RadioEngine.ExtractTimebandFields | src/main/java/com/invoice/extraction/service/RadioExtractionEngine.java:210-227 | The method puts the specified timeband entries and returns their score |
| RadioEngine.ExtractGenericFields | src/main/java/com/invoice/extraction/service/RadioExtractionEngine.java:232-262 | The method puts the contributing fields over the row, applies the `fct` rule, and returns the wrapped weight sum |
| RadioEngine.BuildContext | src/main/java/com/invoice/extraction/service/RadioExtractionEngine.java:160-174 | A fresh row holding the city and the date and timeband entries, with their score |
| RadioEngine.BuildRadioRow | src/main/java/com/invoice/extraction/service/RadioExtractionEngine.java:160-179 | The method builds the specified row |
| RadioEngine.FlushBuffer | src/main/java/com/invoice/extraction/service/RadioExtractionEngine.java:152-187 | The buffer is always cleared; the rows grow by exactly the specified flush output |
| RadioEngine.FlushOutHoldsCityAndData | src/main/java/com/invoice/extraction/service/RadioExtractionEngine.java:155-186 | A flushed row has `cityName` and more than one entry |
| RadioEngine.Classify | src/main/java/com/invoice/extraction/service/RadioExtractionEngine.java:83-98 | Blank iff the trimmed line is empty; a city line iff not blank and `detectCity` yields a city, and then it carries that city; otherwise a data line of the non-empty trimmed line, a row start iff the row-start pattern is present and found in it |
| RadioEngine.ClassifyLine | src/main/java/com/invoice/extraction/service/RadioExtractionEngine.java:83-98 | The method classifies the line as specified |
| RadioEngine.AllFlushesShape | src/main/java/com/invoice/extraction/service/RadioExtractionEngine.java:82-109 | The flushed buffers hold every data line once, in order; each is non-empty and only its first line may be a row start |
| RadioEngine.NoCityLineMeansNA | src/main/java/com/invoice/extraction/service/RadioExtractionEngine.java:77 | With no city line the city in force is "N/A" |
| RadioEngine.LastCityLineInForce | src/main/java/com/invoice/extraction/service/RadioExtractionEngine.java:88-92 | The city in force is that of the last city line |
| RadioEngine.FlushUnderOldCity | src/main/java/com/invoice/extraction/service/RadioExtractionEngine.java:88-97 | A flush on a city or row-start line carries the pending lines under the city in force before the line |
| RadioEngine.RowsHoldCityAndData | src/main/java/com/invoice/extraction/service/RadioExtractionEngine.java:76-111 | Every emitted row has `cityName` and more than one entry |
| RadioEngine.ScanLine | src/main/java/com/invoice/extraction/service/RadioExtractionEngine.java:82-106 | One loop iteration keeps the real city, rows and buffer in step with the specified scan |
| RadioEngine.ScanLines | src/main/java/com/invoice/extraction/service/RadioExtractionEngine.java:82-106 | The loop ends in step with the specified scan |
| RadioEngine.ExtractRows | src/main/java/com/invoice/extraction/service/RadioExtractionEngine.java:76-109 | The scan and final flush return the specified rows |
| RadioEngine.ExtractWithSetup | src/main/java/com/invoice/extraction/service/RadioExtractionEngine.java:76-112 | Once the setup is resolved, the scan, the "invoice" put and the accuracy step build a fresh result equal to the specified one |
| RadioEngine.FirstInvoiceStart | src/main/java/com/invoice/extraction/service/RadioExtractionEngine.java:309-312 | The start pattern of the first "invoice" block config that has one; none iff there is no such config |
| RadioEngine.ResolveRowStartPattern | src/main/java/com/invoice/extraction/service/RadioExtractionEngine.java:302-315 | The radio override first, then the first invoice block pattern, then none; a chosen pattern that does not compile is an error |
| RadioEngine.InvoiceFields | src/main/java/com/invoice/extraction/service/RadioExtractionEngine.java:64-67 | The "invoice" definitions sorted by `sortOrder` |
| RadioEngine.RadioExtractionShape | src/main/java/com/invoice/extraction/service/RadioExtractionEngine.java:52-114 | On success: SUCCESS for the given tenant, one block "invoice" whose rows all have a city and more data, accuracy in [0, 100] |
| RadioEngine.RadioExtractionErrors | src/main/java/com/invoice/extraction/service/RadioExtractionEngine.java:58-73 | No configuration is reported first, then a repeated city code, then a row-start pattern that does not compile; nothing else fails |
| RadioEngine.Extract | src/main/java/com/invoice/extraction/service/RadioExtractionEngine.java:52-114 | The method fails or succeeds as specified and returns a fresh result equal to the specification |
| RadioEngine.InvoiceResult | src/main/java/com/invoice/extraction/service/RadioExtractionEngine.java:53-55 | The result holds the tenant, the rows under "invoice", and the accuracy of those rows |
| InvoiceService.EmptyIffNoText | src/main/java/com/invoice/extraction/service/InvoiceExtractionService.java:50-52 | The result is the empty one iff the text is null or blank; it then carries the reason as its only warning, no blocks, accuracy 0 |
| InvoiceService.NoTenantIffNoPositiveScoreOnText | src/main/java/com/invoice/extraction/service/InvoiceExtractionService.java:55-57 | The no-tenant failure occurs iff the text has content and no active tenant scores above 0 |
| InvoiceService.RoutedToIdentifiedTenant | src/main/java/com/invoice/extraction/service/InvoiceExtractionService.java:62-64 | Otherwise the outcome is the radio engine's iff the identified tenant has a radio config, else the generic engine's; success reports the identified tenant, which is active and has the top positive score |
| InvoiceService.RouteOutcome | src/main/java/com/invoice/extraction/service/InvoiceExtractionService.java:62-82 | The engine's outcome passes through: it never reports no tenant, and success is SUCCESS for the routed tenant |
| InvoiceService.NoRadioConfigNeverEscapes | src/main/java/com/invoice/extraction/service/InvoiceExtractionService.java:89-91 | Routing by radio config means the missing-configuration error never leaves the service |
| InvoiceService.RadioOutcome | src/main/java/com/invoice/extraction/service/InvoiceExtractionService.java:63 | For a radio tenant the radio engine fails only on a duplicate key or a bad pattern |
| InvoiceService.GenericOutcome | src/main/java/com/invoice/extraction/service/InvoiceExtractionService.java:64 | The generic engine fails only on a duplicate key |
| InvoiceService.Extract | src/main/java/com/invoice/extraction/service/InvoiceExtractionService.java:46-83 | The method's outcome is the specified one, returned unchanged |

## Left out

- String lengths are counts of characters. Java's `length()` counts UTF-16 code units, so a character outside the Basic Multilingual Plane counts twice there and once here. This affects the guards `text.length() < 3` (`GenericExtractionEngine.java:279`), `length() < 80` (`:348`) and `length() < 100` (`:364`). They are modelled in `GenericContext.IsNonDataText`, `GenericContext.FlushDataRow`, `GenericFields.IsHeaderLine` and `GenericFields.IsFooterLine`. Emptiness tests such as `length() > 0`, and any text made only of Basic Multilingual Plane characters, behave the same in both.
- Text extraction from the PDF (PDFBox) is not modelled. The service takes the text as an `Option<string>` input, with None for null.
- Java regular expressions are an uninterpreted oracle: compilation, `find`, groups and flags. So are `Double.parseDouble`, `Double.toString` and `Character.isLetterOrDigit`. The header and footer regexes of `isHeaderLine`/`isFooterLine` are oracle queries; their explicit length guards (< 80, < 100) are modelled on the length of the character sequence.
- `toUpperCase`/`toLowerCase` act on ASCII letters only. Locale-dependent and non-ASCII case mapping is not modelled.
- DOUBLE values are exact reals from the oracle. IEEE arithmetic is not modelled, and accuracy is an exact `real` ratio.
- Null entity fields are not modelled (a null block name, field name, field list or pattern list). Null optional patterns are `Option`s.
- Map iteration order is not modelled. Tenants, identifiers, block configurations and mapping rows are taken as given sequences. The generic engine fills blocks in the order of the block configurations, whereas the source iterates a `HashMap`, whose order is unspecified.
- Aliasing of rows is not modelled. The result's block map stores value snapshots of the rows. No code changes a row after storing it.
- Logging, line-number tracking (`rowStartLineNum`), Spring caching and the HTTP controller are not modelled.
- The QR step is not modelled: it is commented out in the service, so the engine's result is returned as it is.
- `TenantFieldCalculation` and `TenantSummaryRule` are not modelled: they are configuration that no shown code evaluates.
- PreprocessText: the blank-line step (`\n\s*\n\s*\n` to `\n\n`) is stated by what it keeps (every non-space character, in order; a text without `'\n'` unchanged) and by the double spaces it cannot create. Where each replacement lands is not stated. The steps before it are each stated character by character and over concatenation.
- GenericFields.FctValue: Java's `spots * duration` wraps at 32 bits; this is written out with `Wrap32`, and the exact product is stated only when it fits in `int`.
- RadioEngine.ResolveRowStartPattern: a blank radio row-start pattern is passed to the oracle like any other, as in the source; what an empty pattern matches is the oracle's business.

## Findings

None.
