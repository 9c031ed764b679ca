# sheet2cert record pipeline: a Dafny model

This project models the record pipeline of a certificate-emission front end. An uploaded spreadsheet
comes in as a list of headers and rows of cells. The pipeline:

1. maps the headers to five canonical columns (`nome`, `cpf`, `telefone`, `certificado`, `email`) by
   case-insensitive keyword search. When several headers match a column, the last one wins;
2. reports the required columns that were not found;
3. turns each row into a processed record. The name is cleaned and upper-cased, the CPF (Brazilian
   taxpayer number) and the phone are masked, and the e-mail is trimmed. The record is then validated into an
   ordered error list, and its "emit certificate" flag is read from an allow-list;
4. counts approved, rejected and invalid records;
5. projects the records onto the four-field payload of the emission service.

Modules (one file each):

- `Text` (`text.dfy`) holds the parts of the ECMAScript string library the code relies on:
  - `\d` is ASCII digits only;
  - `\s` and `trim` use the exact ECMAScript white-space set;
  - `toLowerCase`/`toUpperCase` are restricted to ASCII and Latin-1;
  - `includes`;
  - `length` counts UTF-16 code units.
- `Records` (`records.dfy`) holds the record shapes: `ProcessedData`, `ValidationResult`, `SpreadsheetStats`,
  `EmissionData` and the three validation errors with their display labels.
- `Formatters` (`formatters.dfy`): `formatCPF`, `formatPhone`, `formatName`. Each regular expression
  is a hand-written matcher with the same leftmost-match semantics: `FirstDigitRunFrom` and
  `FirstCopyTailFrom`.
- `Validators` (`validators.dfy`): `isValidEmail`, `isValidCPF`, `isValidName`, `shouldEmitCertificate`,
  `validateRecord`.
- `Spreadsheet` (`spreadsheet.dfy`):
  - `identifyColumns` is an imperative loop over the headers that overwrites a map. It is proved
    against the specification function `Identified` and the "last matching header" function `LastMatch`;
  - the required-columns filter;
  - `processData`;
  - `calculateStats`;
  - the page's selection of records to emit.
- `Converters` (`converters.dfy`): `convertToEmissionData`, `convertToEmissionDataArray`.

Where the code differs from what its comments or the documentation suggest, the model follows the code:

- **CPF with more than eleven digits.** The CPF mask regular expression is neither anchored nor global.
  With more than eleven digits, the first eleven are masked and the rest are appended unchanged
  (`"123456789012"` becomes `"123.456.789-012"`). The unmasked input is not returned.
- **Trailing white space after the marker's digits keeps the copy marker.** The copy-marker expression of
  `formatName` is anchored at the end and runs before `trim`. White space after the marker's digits therefore
  keeps it: `"  John Doe copy 2  "` becomes `"JOHN DOE COPY 2"`, not `"JOHN DOE"`. A marker without digits is
  still removed, because its second `\s*` takes the trailing white space: `"Ana copy "` becomes `"ANA"`.
- **Unmapped column.** For a column the mapping lacks, `row[columnMapping[k]]` reads the row under the
  key `"undefined"`. The model does the same (`RawValue`).
- **Masked empty CPF.** An empty CPF cell is padded to `"000.000.000-00"`, which passes the CPF check.
- **Unreachable phone fallback.** The last `return phone` of `formatPhone` cannot be reached. The model
  keeps the branch, and `FormatPhoneAlwaysMasked` shows that ten or more digits always give a mask.

## Model

| member | source | states |
|---|---|---|
| Text.Digits | src/utils/formatters.ts:6 | `replace(/\D/g, "")` keeps only ASCII digits and is never longer than its input |
| Text.DigitsAppend | src/utils/formatters.ts:6 | digit extraction distributes over concatenation |
| Text.ToUpper | src/utils/formatters.ts:54 | `toUpperCase` keeps the length and maps each character by the model's case map (`CaseMapChar` gives its properties) |
| Text.ToLower | src/utils/validators.ts:30 | `toLowerCase` keeps the length and maps each character by the model's case map |
| Text.Trim | src/utils/spreadsheet.ts:16 | `trim` returns the slice of the input between an all-white-space prefix and suffix; the slice neither starts nor ends with white space |
| Text.TrimOf | src/utils/spreadsheet.ts:16 | trimming `a + r + b`, with white-space `a` and `b` and `r` not starting or ending with white space, gives exactly `r` |
| Text.TrimIgnoresSurroundingSpace | src/utils/validators.ts:30 | extra white space around a string does not change its trim |
| Text.TrimToLower | src/utils/validators.ts:30 | lower-casing and trimming commute |
| Text.CaseMapChar | src/utils/formatters.ts:54 | for the ASCII and Latin-1 case maps of the model: upper-casing leaves no lower-case letter, case maps keep white space and digits, and lower-casing undoes upper-casing |
| Text.Contains | src/utils/spreadsheet.ts:21 | `includes(p)`: the empty pattern is in every string, and a pattern longer than the string is in none; `ContainsOccurs` characterises it |
| Text.ContainsOccurs | src/utils/spreadsheet.ts:21 | `includes(p)` holds exactly when `p` occurs at some index |
| Text.Utf16Length | src/utils/validators.ts:16 | `length` counts UTF-16 code units: at least the number of characters and at most twice it |
| Text.Utf16LengthInBmp | src/utils/validators.ts:23 | inside the Basic Multilingual Plane, `length` equals the number of characters |
| Formatters.FirstDigitRunFrom | src/utils/formatters.ts:12 | the unanchored `\d{n}` search finds the leftmost run of `n` digits, or reports that there is none |
| Formatters.PadStart | src/utils/formatters.ts:9 | `padStart(n, c)` returns the input unchanged at the end, preceded by as many copies of `c` as bring the length up to `n`; a string already `n` long is unchanged |
| Formatters.CpfMask | src/utils/formatters.ts:12 | the CPF mask changes its input exactly when the input holds a run of eleven digits |
| Formatters.FormatCPF | src/utils/formatters.ts:4-13 | `formatCPF` (digits, `padStart` to eleven, mask the first eleven-digit run) always lays the mask `DDD.DDD.DDD-DD` over the padded digits and never returns the string unmasked; `FormatCpfShort`, `FormatCpfOverlong` and `FormatCpfEmpty` spell out the result |
| Formatters.FormatCpfShort | src/utils/formatters.ts:4-13 | with at most eleven digits the output has length 14, the shape `DDD.DDD.DDD-DD`, and its digits are the input's digits padded with '0' |
| Formatters.FormatCpfOverlong | src/utils/formatters.ts:9-12 | with n > 11 digits the output is the mask of the first eleven followed by the other digits; its length is n + 3 |
| Formatters.FormatCpfDependsOnDigits | src/utils/formatters.ts:6 | inputs with the same digits give the same CPF |
| Formatters.FormatCpfEmpty | src/utils/formatters.ts:9-12 | the empty string gives `000.000.000-00` |
| Formatters.LandlineMask | src/utils/formatters.ts:27 | the landline mask changes its input exactly when the input holds a run of ten digits |
| Formatters.MobileMask | src/utils/formatters.ts:32 | the mobile mask changes its input exactly when the input holds a run of eleven digits |
| Formatters.FormatPhone | src/utils/formatters.ts:18-44 | `formatPhone` (digits; fewer than ten: the input; ten: landline mask; eleven: mobile mask; more: the first eleven in the mobile layout) gives, from ten digits on, a string starting with `(` of length 14 for ten digits and 15 otherwise; `FormatPhoneTooShort`, `FormatPhoneLandline`, `FormatPhoneMobile` and `FormatPhoneOverlong` spell out each branch |
| Formatters.FormatPhoneTooShort | src/utils/formatters.ts:20-23 | with fewer than ten digits the input is returned exactly |
| Formatters.FormatPhoneLandline | src/utils/formatters.ts:26-28 | ten digits give `(DD) DDDD-DDDD`, length 14, with the same digits |
| Formatters.FormatPhoneMobile | src/utils/formatters.ts:31-33 | eleven digits give `(DD) DDDDD-DDDD`, length 15, with the same digits |
| Formatters.FormatPhoneOverlong | src/utils/formatters.ts:36-40 | more than eleven digits give the eleven-digit layout of the first eleven digits |
| Formatters.FormatPhoneAlwaysMasked | src/utils/formatters.ts:18-44 | ten or more digits always give one of the two masks, so the final `return phone` is unreachable |
| Formatters.FirstCopyTailFrom | src/utils/formatters.ts:52 | the copy-marker search finds the leftmost index from which the rest of the string is `\s*copy\s*\d*`, case-insensitively, or none |
| Formatters.StripCopy | src/utils/formatters.ts:52 | the copy-marker removal keeps a prefix of the name; it changes nothing exactly when no suffix matches `\s*copy\s*\d*`, and otherwise what it removes is the longest suffix that matches |
| Formatters.FormatName | src/utils/formatters.ts:49-55 | the name has no white space at either end and no lower-case letter |
| Formatters.DigitlessMarkerTakesTrailingSpace | src/utils/formatters.ts:52 | a marker without digits is removed together with the white space after it: `"Ana copy "` loses `" copy "` |
| Formatters.FormatNameDigitlessMarker | src/utils/formatters.ts:49-55 | `formatName("Ana copy ")` is `"ANA"` |
| Formatters.StripCopyRemovesMarker | src/utils/formatters.ts:52 | a marker at the very end is removed, and what is left is a prefix of the text before it |
| Formatters.TrailingSpaceBlocksStrip | src/utils/formatters.ts:52-53 | white space after a marker's digits stops the marker from being removed, because the pattern is anchored at the end and runs before `trim` |
| Validators.IndexOf | src/utils/validators.ts:7 | returns the first index of the character, or none when it does not occur |
| Validators.IsValidEmail | src/utils/validators.ts:6-9 | the e-mail pattern, decided by locating the only '@' and a '.' inside the domain; an accepted address contains '@' and has at least five characters. `ValidEmailHasShape` and `ShapeIsValidEmail` prove it equal to the pattern's language |
| Validators.ValidEmailHasShape | src/utils/validators.ts:6-9 | an accepted e-mail is `user@host.tld` with three non-empty parts free of white space and '@' |
| Validators.ShapeIsValidEmail | src/utils/validators.ts:6-9 | every such `user@host.tld` is accepted |
| Validators.ValidEmailHasOneAt | src/utils/validators.ts:7 | an accepted e-mail contains exactly one '@' |
| Validators.IsValidCPF | src/utils/validators.ts:14-17 | the CPF check is the pattern and `length === 14`, and it holds exactly when the pattern does: the length test adds nothing. `ValidCpfPositions` gives the position-by-position form |
| Validators.CpfPatternInBmp | src/utils/validators.ts:15-16 | a string matching the CPF pattern is 14 UTF-16 code units long |
| Validators.ValidCpfPositions | src/utils/validators.ts:14-17 | a CPF is accepted exactly when it has 14 characters, with digits at 0-2, 4-6, 8-10 and 12-13, '.' at 3 and 7 and '-' at 11 |
| Validators.FormatCpfValidIff | src/utils/validators.ts:14-17 | a formatted CPF passes the CPF check exactly when the input has at most eleven digits |
| Validators.FormatCpfKeepsValid | src/utils/formatters.ts:4-13 | formatting an accepted CPF returns it unchanged |
| Validators.IsValidName | src/utils/validators.ts:22-24 | `length >= 2` in UTF-16 code units: two characters always pass and the empty name never does; `ValidNameLength` gives the exact test inside the Basic Multilingual Plane |
| Validators.ValidNameLength | src/utils/validators.ts:22-24 | two characters always make a valid name; inside the Basic Multilingual Plane the test is exactly "at least two characters" |
| Validators.ShouldEmitCertificate | src/utils/validators.ts:29-32 | lower-case, trim, test against the allow-list; an affirmative flag is one to four characters once trimmed. The `ShouldEmit…` lemmas below give its other properties |
| Validators.ShouldEmitTrimFirst | src/utils/validators.ts:29-32 | the flag test does not depend on whether trimming or lower-casing comes first |
| Validators.ShouldEmitIgnoresSurroundingSpace | src/utils/validators.ts:29-32 | white space around the flag is ignored |
| Validators.ShouldEmitIgnoresCase | src/utils/validators.ts:29-32 | for ASCII and Latin-1 text, letter case of the flag is ignored |
| Validators.ShouldEmitUpperSim | src/utils/validators.ts:30-31 | `"SIM"` is affirmative |
| Validators.ShouldEmitPaddedYes | src/utils/validators.ts:30-31 | `" Yes "` is affirmative |
| Validators.ShouldEmitNao | src/utils/validators.ts:30-31 | `"não"` is not affirmative |
| Validators.ShouldEmitEmpty | src/utils/validators.ts:30-31 | an empty flag is not affirmative |
| Validators.ValidateRecord | src/utils/validators.ts:37-60 | the record is valid exactly when there are no errors, exactly when name, CPF and e-mail all pass their checks; an error is present exactly when its check fails; errors appear in the order name, CPF, e-mail |
| Validators.ValidateRecordErrorsDistinct | src/utils/validators.ts:42-54 | no error repeats, so there are at most three |
| Validators.LabelsDistinct | src/utils/validators.ts:45-53 | the three display labels are pairwise different |
| Spreadsheet.LastWhereIsLast | src/utils/spreadsheet.ts:15-61 | the backward search finds nothing exactly when no element qualifies, and otherwise an element that qualifies with none after it |
| Spreadsheet.LastMatchIsLast | src/utils/spreadsheet.ts:15-61 | a column is unmatched exactly when no header matches it; otherwise it gets a matching header that no later header matches |
| Spreadsheet.AddHeader | src/utils/spreadsheet.ts:16-60 | one header overwrites the entry of exactly the columns it matches, with the header itself, and leaves every other entry as it was |
| Spreadsheet.Identified | src/utils/spreadsheet.ts:12-65 | the mapping after all headers, in order; every mapped column holds a header that matches it. `IdentifiedIsLastMatch` says which one |
| Spreadsheet.IdentifyColumns | src/utils/spreadsheet.ts:12-65 | the loop over the headers builds the mapping `Identified(headers)`, one header at a time |
| Spreadsheet.ApplyHeader | src/utils/spreadsheet.ts:15-61 | one callback run overwrites exactly the entries of the fields whose keywords the normalised header contains, in the order name, CPF, phone, certificate, e-mail |
| Spreadsheet.IdentifiedIsLastMatch | src/utils/spreadsheet.ts:15-61 | in the finished mapping every column holds the last header that matches it, and is absent when none does |
| Spreadsheet.IdentifiedValuesAreHeaders | src/utils/spreadsheet.ts:24-60 | every mapped value is one of the input headers, unmodified |
| Spreadsheet.MappedWhenMatched | src/utils/spreadsheet.ts:16-61 | a column gets a non-empty header exactly when some header, lower-cased and trimmed, contains one of its keywords |
| Spreadsheet.EmptyHeaderMatchesNothing | src/utils/spreadsheet.ts:16-61 | an empty header matches no column |
| Spreadsheet.HeaderWithKeywordMatches | src/utils/spreadsheet.ts:16-61 | a lower-case, trimmed header matches every column one of whose keywords occurs in it |
| Spreadsheet.OneHeaderTwoFields | src/utils/spreadsheet.ts:19-61 | the field tests are independent: `"email aluno"` matches both the name and the e-mail column |
| Spreadsheet.MissingColumns | src/components/UploadFile.tsx:54-55 | `requiredColumns.filter((col) => !columnMapping[col])` lists exactly the required columns with no header or an empty one, at most four |
| Spreadsheet.MissingColumnsOfIdentified | src/components/UploadFile.tsx:54-55 | after column identification, a required column is reported missing exactly when no header matches it |
| Spreadsheet.Filter | src/components/UploadFile.tsx:55 | `filter` keeps exactly the elements that satisfy the predicate and never grows the list |
| Spreadsheet.FilterAppend | src/utils/spreadsheet.ts:111-117 | filtering distributes over concatenation |
| Spreadsheet.RawValue | src/utils/spreadsheet.ts:75-79 | the cell `row[columnMapping[k]]`, or `""` when it is empty or absent, is either `""` or the contents of one of the row's cells: nothing is invented |
| Spreadsheet.RawValueDefaults | src/utils/spreadsheet.ts:75-79 | a column without a header (unless the sheet has a column literally named `undefined`), or a row without that cell, reads as `""` |
| Spreadsheet.ProcessRow | src/utils/spreadsheet.ts:74-100 | the record's name, CPF, phone and e-mail are `formatName`, `formatCPF`, `formatPhone` and `trim` of their cells; a record is valid exactly when it has no errors, exactly when its name, CPF and e-mail pass their checks; an error is present exactly when its check fails, and errors appear in the order name, CPF, e-mail; the emit flag is the allow-list test of the certificate cell |
| Spreadsheet.ProcessedNameAndEmail | src/utils/spreadsheet.ts:81-84 | the processed name has no white space at either end and no lower-case letter; the processed e-mail is trimmed |
| Spreadsheet.ProcessedCpf | src/utils/spreadsheet.ts:76-90 | the CPF error is absent exactly when the cell has at most eleven digits; an empty cell becomes `000.000.000-00` |
| Spreadsheet.ProcessedPhone | src/utils/spreadsheet.ts:78-83 | a phone cell with ten or more digits is masked; otherwise it is kept as typed |
| Spreadsheet.EmitIndependentOfValidity | src/utils/spreadsheet.ts:87-99 | the emit flag depends only on the certificate cell, and validity never reads it |
| Spreadsheet.ProcessData | src/utils/spreadsheet.ts:70-102 | one record per row, and record i is the processing of row i |
| Spreadsheet.MapAppend | src/utils/spreadsheet.ts:74 | `map` over a concatenation is the concatenation of the mapped parts |
| Spreadsheet.ProcessDataLocal | src/utils/spreadsheet.ts:74 | record i depends only on row i |
| Spreadsheet.ProcessDataAppend | src/utils/spreadsheet.ts:74 | processing a concatenation concatenates the processed parts: order is kept and no row is dropped |
| Spreadsheet.StatsPartition | src/utils/spreadsheet.ts:110-117 | every record is in exactly one of approved, rejected and invalid |
| Spreadsheet.CalculateStats | src/utils/spreadsheet.ts:107-125 | the total is the number of records, and approved + rejected + invalid equals the total |
| Spreadsheet.StatsAppend | src/utils/spreadsheet.ts:107-125 | the statistics of a concatenation are the sums of the parts' statistics |
| Spreadsheet.ValidData | src/pages/Home.tsx:19-22 | the records offered for emission are exactly the valid, flagged ones, and there are as many as the approved count |
| Converters.ConvertToEmissionData | src/utils/converters.ts:7-16 | name, CPF, phone and e-mail are copied unchanged |
| Converters.ConvertSameIff | src/utils/converters.ts:10-15 | two records give the same payload exactly when their four personal fields agree; validity, errors and the flag are dropped |
| Converters.ConvertRebuild | src/utils/converters.ts:10-15 | the record is the payload plus the three dropped fields |
| Converters.ConvertToEmissionDataArray | src/utils/converters.ts:21-25 | the output has the input's length, and element i is the conversion of input element i |
| Converters.ConvertArrayAppend | src/utils/converters.ts:24 | converting a concatenation concatenates the conversions |
| Converters.ConvertKeepsEveryRecord | src/utils/converters.ts:21-25 | nothing is filtered: every record, valid or not, is converted |
| Converters.ApprovedPayload | src/utils/converters.ts:21-25 | converting the page's selection gives one entry per approved record, each from a valid, flagged record |

## Left out

- Unicode case mapping beyond ASCII and Latin-1 is not modelled: `ß`, `µ`, the final sigma and other
  scripts. `IsLowerChar`/`IsUpperChar` mark the letters the model maps.
- Validators.ShouldEmitIgnoresCase: holds for ASCII and Latin-1 flags only. ECMAScript upper-cases `ſ` (U+017F)
  to `S` and `ı` (U+0131) to `I`, so `shouldEmitCertificate("yeſ")` is false but is true after
  `toUpperCase`. The model's case maps leave both letters unchanged.
- Text.CaseMapChar: "lower-casing undoes upper-casing" and "upper-casing leaves no lower-case letter" are
  properties of the model's ASCII and Latin-1 case maps. They fail in ECMAScript for letters such as `ſ`
  and `ı`, whose upper-case forms lower-case to different letters.
- Spreadsheet decoding (`XLSX.read`, `sheet_to_json`) is not modelled. Its output is the input of the model:
  a header list and rows mapping headers to `Option<string>` cells.
- `.toString()` on non-string cells is not modelled. With `raw: false` the cells are strings already.
- The React components, the toasts, the file reader and the HTTP client for the emission service are
  rendering and I/O and are not modelled. The inline copy of the same pipeline in
  `components/SpreadsheetUpload.tsx` is not modelled separately, because it duplicates the utility functions.
- Spreadsheet.CalculateStats: the three counts are given by their filters rather than by an ensures.
  `StatsPartition` and `ValidData` state what they mean.
