# MedTranslation term store and translation validator in Dafny

MedTranslation keeps an English–Vietnamese medical glossary and checks proposed
translations against it. This project models its two central pieces.

* **The term store** (`MedicalDictionary`). It maps each normalised English key
  (`english.lower().strip()`) to a record. A record holds the current Vietnamese
  translation, its category, source and confidence, two timestamps, and an
  append-only list of versions. The store supports the following operations:
  * `add_term` is an unconditional upsert.
  * `update_term` appends a version to an existing key.
  * `get_translation` looks up a term.
  * `get_similar_terms` is a fuzzy search. It scores every key with difflib's
    Ratcliff/Obershelp ratio, keeps the keys scoring above 0.6, sorts them
    stably by descending score and keeps the first `n`.
  * The row logic of `export_csv` and `import_csv`.
* **The validator** (`TranslationValidator`). It has two character-level checks
  on a proposed translation: a diacritic heuristic and a formatting whitelist.
  `validate_translation` combines them with the store's own answer into a
  verdict. `suggest_improvements` turns the same checks into a list of hints.

Module layout:

* `text.dfy` has Python's `str.isspace`, `str.lower` (on ASCII, Latin-1 and
  the Vietnamese letters only), `str.strip`, and key normalisation.
* `similarity.dfy` has `SequenceMatcher(None, a, b).ratio()`: the longest block
  search, the recursive match count, and the ratio.
* `ranking.dfy` has `sorted(..., key=score, reverse=True)` as a stable insertion
  sort, plus the slice `[:n]`.
* `medical_dictionary.dfy` has the store's value (`Store`, which is the key
  insertion order plus the record map). It also has the store's invariant
  (`StoreOk`) and the pure specifications of every operation. The class
  `MedicalDictionary` has fields `keys`, `terms` and a ghost `clock`; its
  methods are proved equal to those specifications.
* `translation_validator.dfy` has the checks, the verdict and the suggestion
  list as pure functions of what the store answers. The class
  `TranslationValidator` builds them step by step, as the source does.

A Python dict keeps insertion order, and that order matters twice: it is the
order of the CSV export, and it is the tie order of the similarity ranking. The
model therefore keeps the keys as a sequence with no duplicates, next to the
map.

Facts the proofs bring out about the source:

* The diacritic heuristic can never fire (`Validator.NeverMissingDiacritics`).
  Each of the letters it treats as a sign of Vietnamese text (`ăâđêôơư`) is
  itself one of the marked letters. So "looks Vietnamese" and "has no marked
  letter" never hold together. The "Missing diacritical marks" issue and the
  "Add appropriate diacritical marks" hint cannot appear.
* `validate_translation` compares the stored translation case-insensitively,
  but `suggest_improvements` compares it exactly. A proposal that differs only
  in case raises no mismatch issue, yet it still draws the "Consider using
  established translation" hint (`Validator.CaseOnlyDifference`).
* The formatting whitelist allows `Đ` but no other accented capital. Any
  accented capital letter, for example `Ố`, fails the formatting check
  (`Validator.UpperCaseAccentedRejected`).
* Exporting to CSV and importing into an empty store restores keys,
  translations, categories and confidences, provided every text cell reads
  back as it was written (no carriage return inside a cell, see "## Left
  out"). It does not restore histories: `add_term` starts every record over
  at one version (`Dictionary.ExportImportRoundTrip`).

## Model

| member | source | states |
|---|---|---|
| Text.IsSpace | data/dictionaries/medical_dictionary.py:67 | the whitespace set of `str.isspace`, which `strip()` removes and `\s` matches; its use is stated by `Text.StripHasNoEdgeSpace` and `Validator.CheckFormattingIff` |
| Text.LowerChar | data/dictionaries/medical_dictionary.py:66 | `lower()` on one character; a character it changes is not whitespace and neither is its result, and its result is already lower case (`Text.LowerCharIdempotent`) |
| Text.Lower | data/dictionaries/medical_dictionary.py:66 | `lower()` on a string, within the modelled letters: it keeps the length and works character by character; its result is lower case (`Text.LowerIsLower`) |
| Text.Strip | data/dictionaries/medical_dictionary.py:67 | `strip()`: drops the leading, then the trailing whitespace; what that yields is stated by `Text.StripRemovesEdgeSpace`, `Text.StripHasNoEdgeSpace`, `Text.StripFixedPoint` and `Text.StripIdempotent` |
| Text.Normalize | data/dictionaries/medical_dictionary.py:66 | the key normalisation `lower().strip()`; its result is a key (`Text.NormalizeIsKey`) and normalising is idempotent (`Text.NormalizeIdempotent`) |
| Text.LowerIsLower | data/dictionaries/medical_dictionary.py:66 | lower-cased text is lower case |
| Text.StripKeepsLower | data/dictionaries/medical_dictionary.py:66 | stripping lower-case text leaves it lower case |
| Text.LowerCharIdempotent | data/dictionaries/medical_dictionary.py:66 | lower-casing a character twice is lower-casing it once |
| Text.StripRemovesEdgeSpace | data/dictionaries/medical_dictionary.py:67 | the strip is one contiguous piece of the text, and everything cut off before and after it is whitespace |
| Text.StripHasNoEdgeSpace | data/dictionaries/medical_dictionary.py:67 | `strip()` never leaves whitespace at either end |
| Text.StripFixedPoint | medical_translation/translation_validator.py:114 | text equals its own strip exactly when it is empty or neither begins nor ends with whitespace |
| Text.StripIdempotent | data/dictionaries/medical_dictionary.py:67 | stripping twice is stripping once |
| Text.NormalizeIsKey | data/dictionaries/medical_dictionary.py:66 | a normalised key is lower case and stripped |
| Text.KeyIsNormal | data/dictionaries/medical_dictionary.py:152-153 | a lower-case stripped key normalises to itself, so a stored key looks itself up |
| Text.NormalizeIdempotent | data/dictionaries/medical_dictionary.py:152-153 | normalising twice is normalising once |
| Similarity.Run | data/dictionaries/medical_dictionary.py:170 | the length of the common block starting at a pair of positions; it stays inside both strings, and `Similarity.RunFacts` states that it is a common block that cannot be extended |
| Similarity.RunFacts | data/dictionaries/medical_dictionary.py:170 | the run at a position is a common block that cannot be extended |
| Similarity.Scan | data/dictionaries/medical_dictionary.py:170 | the row-major scan that keeps only strictly longer blocks; the block it returns lies inside both strings |
| Similarity.ScanIsLongest | data/dictionaries/medical_dictionary.py:170 | once every earlier start has been tried, the scan returns a longest block, the earliest one among equally long blocks |
| Similarity.Longest | data/dictionaries/medical_dictionary.py:170 | `find_longest_match` on the whole of both strings; the block lies inside both strings |
| Similarity.LongestIsLongest | data/dictionaries/medical_dictionary.py:170 | the block `find_longest_match` documents: no common block is longer, every equally long one starts later, and it is (0,0,0) when nothing matches |
| Similarity.LongestIsBlock | data/dictionaries/medical_dictionary.py:170 | the longest block is the same text in both strings |
| Similarity.MatchCount | data/dictionaries/medical_dictionary.py:170 | the matched length never exceeds either string's length |
| Similarity.MatchAround | data/dictionaries/medical_dictionary.py:170 | the matched length around a block is no more than either string's length |
| Similarity.MatchCountParts | data/dictionaries/medical_dictionary.py:170 | when the matched length is the whole of both strings, the longest block sits at the same offset in both, and the parts on either side of it match in full |
| Similarity.MatchCountStep | data/dictionaries/medical_dictionary.py:170 | a full match hands full matches on strictly shorter strings to both sides of the longest block, and if both sides agree the strings are equal |
| Similarity.Ratio | data/dictionaries/medical_dictionary.py:170 | the ratio lies between 0.0 and 1.0 |
| Similarity.MatchCountFull | data/dictionaries/medical_dictionary.py:170 | when the matched length is the whole of both strings, the strings are equal |
| Similarity.RatioOne | data/dictionaries/medical_dictionary.py:170 | only identical strings score exactly 1.0 |
| Similarity.RatioSelf | data/dictionaries/medical_dictionary.py:170-171 | a string scores exactly 1.0 against itself, so an exact key passes the 0.6 threshold |
| Ranking.Insert | data/dictionaries/medical_dictionary.py:175 | one step of the stable sort: the list grows by one, and the new front is the inserted entry or the old front; `Ranking.InsertSorted`, `Ranking.InsertPermutes` and `Ranking.WithScoreInsert` state the rest |
| Ranking.SortDesc | data/dictionaries/medical_dictionary.py:175 | `sorted(..., key=score, reverse=True)`: same length as its input; sorted, a permutation and stable by `Ranking.SortDescSorted`, `Ranking.SortDescPermutes` and `Ranking.SortDescStable` |
| Ranking.InsertSorted | data/dictionaries/medical_dictionary.py:175 | inserting into a descending list keeps it descending |
| Ranking.InsertPermutes | data/dictionaries/medical_dictionary.py:175 | inserting adds the entry and loses none |
| Ranking.SortDescSorted | data/dictionaries/medical_dictionary.py:175 | the sort's result is in descending score order |
| Ranking.SortDescPermutes | data/dictionaries/medical_dictionary.py:175 | the sort's result is a permutation of its input |
| Ranking.WithScoreInsert | data/dictionaries/medical_dictionary.py:175 | an inserted entry goes before every entry with the same score |
| Ranking.SortDescStable | data/dictionaries/medical_dictionary.py:175 | for every score, the entries with that score leave the sort in the order they entered it |
| Ranking.Take | data/dictionaries/medical_dictionary.py:175 | Python's `[:n]`: a prefix of length `min(n, len)`, with a negative `n` counting from the end |
| Ranking.TakeTop | data/dictionaries/medical_dictionary.py:175 | a prefix of a descending list keeps its best entries: every entry left out scores no higher than every entry kept |
| Ranking.TakeSorted | data/dictionaries/medical_dictionary.py:175 | a prefix of a descending list is descending |
| Ranking.WithScorePrefix | data/dictionaries/medical_dictionary.py:175 | cutting a prefix keeps, for each score, a prefix of that score's entries |
| Dictionary.NewRecord | data/dictionaries/medical_dictionary.py:66-82 | the new record has one version; that version and the current fields carry the stripped translation, the confidence and the source |
| Dictionary.NewRecordOk | data/dictionaries/medical_dictionary.py:66-82 | a new record keeps the record invariant: its fields match its last version, its translation is stripped and its timestamps are ordered |
| Dictionary.RecordOk | data/dictionaries/medical_dictionary.py:69-82 | the record invariant `add_term` and `update_term` keep: at least one version, the current translation, confidence and source equal the last version's, the translation is stripped, and the timestamps are ordered and no later than the clock |
| Dictionary.StoreOk | data/dictionaries/medical_dictionary.py:66-84 | the store invariant: the key order lists every stored key once, every key is normalised, and every record meets `Dictionary.RecordOk`; `AddTerm`, `UpdateTerm` and `ImportCsv` keep it |
| Dictionary.AddKey | data/dictionaries/medical_dictionary.py:84 | the key order after a dict assignment: a new key goes at the end, an existing key keeps its place (stated through `Dictionary.Upsert`) |
| Dictionary.Upsert | data/dictionaries/medical_dictionary.py:84 | dict assignment: the key gets the record, every other key keeps its record, a new key goes at the end of the key order, an existing key keeps its place |
| Dictionary.UpsertOk | data/dictionaries/medical_dictionary.py:84 | storing a valid record under a normalised key keeps the store invariant (no duplicate key, map and key order agree) |
| Dictionary.WithVersion | data/dictionaries/medical_dictionary.py:118-132 | one version is appended and the old ones are untouched; translation, confidence, source and `last_updated` are overwritten; category and `added_date` are kept |
| Dictionary.WithVersionOk | data/dictionaries/medical_dictionary.py:118-132 | an updated record keeps the record invariant |
| Dictionary.UpdateOk | data/dictionaries/medical_dictionary.py:114-132 | `update_term` on a stored key keeps the store invariant |
| Dictionary.MedicalDictionary.constructor | data/dictionaries/medical_dictionary.py:10-12 | a store with no backing file starts empty and valid, with the clock at zero, so a first `add_term`, `update_term` or `import_csv` can be called |
| Dictionary.MedicalDictionary.AddTerm | data/dictionaries/medical_dictionary.py:46-87 | keeps the store valid, always reports success, and leaves the store as `Upsert` of the normalised key with the new record |
| Dictionary.MedicalDictionary.UpdateTerm | data/dictionaries/medical_dictionary.py:110-136 | succeeds exactly when the normalised key is stored; on failure nothing changes; on success only that key's record changes, to `WithVersion` of it; the key order never changes; the store stays valid |
| Dictionary.Lookup | data/dictionaries/medical_dictionary.py:152-153 | `get_translation` on a record map: the record at the normalised term, or none; stated by `Dictionary.MedicalDictionary.GetTranslation`, `Dictionary.LookupNormalized` and `Dictionary.LookupOk` |
| Dictionary.MedicalDictionary.GetTranslation | data/dictionaries/medical_dictionary.py:152-153 | finds a record exactly when the normalised term is a key, and that record is the one stored there |
| Dictionary.LookupNormalized | data/dictionaries/medical_dictionary.py:152-153 | looking up a normalised term gives the same answer as the raw term, and every stored key finds its own record |
| Dictionary.LookupOk | data/dictionaries/medical_dictionary.py:152-153 | in a valid store a lookup succeeds exactly when the normalised term is a key, and what it finds keeps the record invariant |
| Dictionary.Candidates | data/dictionaries/medical_dictionary.py:166-172 | the `matches` list; `Dictionary.CandidatesFacts` states it is exactly the keys above the threshold with their ratios |
| Dictionary.CandidatesFacts | data/dictionaries/medical_dictionary.py:166-172 | the matches are exactly the keys scoring above 0.6, each paired with its own ratio; every score is in (0.6, 1.0] |
| Dictionary.CandidatesSound | data/dictionaries/medical_dictionary.py:166-172 | every match is a stored key paired with its own ratio, scoring above 0.6 and at most 1.0 |
| Dictionary.CandidatesStep | data/dictionaries/medical_dictionary.py:169-172 | scanning one more key appends it exactly when it scores above the threshold |
| Dictionary.MedicalDictionary.GetSimilarTerms | data/dictionaries/medical_dictionary.py:155-175 | the scan loop builds the matches in key order, and the result is the stable descending sort of those matches, cut to `n` |
| Dictionary.Ranked | data/dictionaries/medical_dictionary.py:155-175 | `get_similar_terms(term, n)` on a key order; stated by `Dictionary.RankedBounds`, `Dictionary.RankedOrder`, `Dictionary.RankedTop` and `Dictionary.RankedStable` |
| Dictionary.RankedBounds | data/dictionaries/medical_dictionary.py:166-175 | at most `n` pairs come back, each a stored key with its ratio against the normalised term, strictly above 0.6 |
| Dictionary.RankedOrder | data/dictionaries/medical_dictionary.py:174-175 | scores never increase, and when `n` is large enough the result is a permutation of all matches |
| Dictionary.RankedTop | data/dictionaries/medical_dictionary.py:174-175 | "top n": with `n >= 0` exactly `min(n, matches)` pairs come back, all of them matches, and every match left out scores no more than every match returned |
| Dictionary.RankedStable | data/dictionaries/medical_dictionary.py:169-175 | keys with equal scores come out in store key order |
| Dictionary.ExactKeyCandidate | data/dictionaries/medical_dictionary.py:169-172 | a stored key queried as it is matches with score 1.0 |
| Dictionary.ExactKeyRanksFirst | data/dictionaries/medical_dictionary.py:166-175 | a stored key queried as it is comes out first: the first pair is that key itself with score 1.0 |
| Dictionary.MedicalDictionary.ExportCsv | data/dictionaries/medical_dictionary.py:189-196 | one row per key, in key order, with that key's translation, category, confidence and `last_updated`; the rows are `Dictionary.ExportRows` of the store, the rows the round trip is proved about |
| Dictionary.ExportRows | data/dictionaries/medical_dictionary.py:189-196 | one exported row per key |
| Dictionary.RowOf | data/dictionaries/medical_dictionary.py:189-196 | the exported row of one key: the key, the translation, the category, the confidence and `last_updated` |
| Dictionary.ReadBack | data/dictionaries/medical_dictionary.py:213-214 | reading back an exported file gives one row per exported row |
| Dictionary.Reread | data/dictionaries/medical_dictionary.py:212-214 | the row the reader gives back for an exported row, every cell present; it takes text and float cells to read back unchanged, which "## Left out" qualifies |
| Dictionary.Accepted | data/dictionaries/medical_dictionary.py:215-220 | a row reaches `add_term`: `row['English']` and `row['Vietnamese']` exist and `float()` of the confidence, when there is a column for it, succeeds |
| Dictionary.RowCategory | data/dictionaries/medical_dictionary.py:218 | `row.get('Category', 'general')` |
| Dictionary.RowConfidence | data/dictionaries/medical_dictionary.py:220 | `float(row.get('Confidence', 1.0))` on an accepted row |
| Dictionary.MedicalDictionary.ImportCsv | data/dictionaries/medical_dictionary.py:211-226 | `add_term` row by row in file order; the first row without English or Vietnamese, or with an unparseable confidence, ends the import, and earlier rows stay applied; the store stays valid; the clock ends at the last reading of the last row imported (`Dictionary.ImportedClock`), never earlier than before and never later than the file's last reading, so the store accepts further changes |
| Dictionary.Imported | data/dictionaries/medical_dictionary.py:211-226 | `import_csv` on a store value; stated by `Dictionary.ImportedStep`, `Dictionary.ImportedStopsAt`, `Dictionary.ImportedSnoc`, `Dictionary.LastRowWins` and `Dictionary.ExportImportRoundTrip` |
| Dictionary.ImportedClock | data/dictionaries/medical_dictionary.py:214-221 | the clock after `import_csv`: the last reading `add_term` took for the last row imported; bounded by `Dictionary.ImportedClockBounds` |
| Dictionary.ImportedClockBounds | data/dictionaries/medical_dictionary.py:214-221 | an import never moves the clock back, and leaves it no later than the last reading of the file's rows |
| Dictionary.ImportedStep | data/dictionaries/medical_dictionary.py:214-221 | an accepted first row is one `add_term` with the column defaults `general` and 1.0, then the import of the rest |
| Dictionary.ImportedStopsAt | data/dictionaries/medical_dictionary.py:211-226 | importing a file whose row `i` is rejected is importing only its first `i` rows |
| Dictionary.ImportedSnoc | data/dictionaries/medical_dictionary.py:214-221 | one more accepted row after accepted rows is one more `add_term` on the result |
| Dictionary.LastRowWins | data/dictionaries/medical_dictionary.py:214-221 | with all rows accepted, the last row's key ends up holding exactly the record that row built |
| Dictionary.ReimportOne | data/dictionaries/medical_dictionary.py:189-221 | the reread row of an exported key is accepted, normalises back to that key, and re-adds it to the end of what has been reimported |
| Dictionary.ExportImportRoundTrip | data/dictionaries/medical_dictionary.py:189-221 | export then import into an empty store gives back the same keys in the same order with the same translation, category and confidence; each history restarts at one version with the import source |
| Validator.HasMissingDiacritics | medical_translation/translation_validator.py:79-97 | `_has_missing_diacritics`: some Vietnamese letter and no marked letter after `lower()`; `Validator.NeverMissingDiacritics` states it never holds |
| Validator.CheckFormatting | medical_translation/translation_validator.py:99-125 | `_check_formatting`, rule by rule in the source's order; `Validator.CheckFormattingIff` states what it accepts |
| Validator.Allowed | medical_translation/translation_validator.py:122 | the characters the whitelist regex admits: ASCII letters and digits, the marked lower-case letters, `Đ`, `\s`, `-`, `.`, `,`, `(` and `)`; `Validator.CheckFormattingIff` states the verdict through it |
| Validator.HasDoubleSpace | medical_translation/translation_validator.py:118 | `'  ' in text`: two spaces in a row somewhere in the text |
| Validator.Differs | medical_translation/translation_validator.py:46-47 | a stored record exists and its translation differs from the proposal once both are lower-cased |
| Validator.DictionaryCheck | medical_translation/translation_validator.py:44-51 | the dictionary step of the verdict; `Validator.ValidationFacts` states its issue, suggestion and factor 0.7 exactly when `Validator.Differs` holds |
| Validator.DiacriticCheck | medical_translation/translation_validator.py:53-57 | the diacritic step; `Validator.ValidationFacts` and `Validator.NeverMissingDiacritics` state that it never changes the verdict |
| Validator.FormattingCheck | medical_translation/translation_validator.py:59-63 | the formatting step; `Validator.ValidationFacts` states its issue and factor 0.9 exactly when `Validator.CheckFormatting` fails |
| Validator.WithSimilar | medical_translation/translation_validator.py:65-75 | `similar_terms` is attached only when some key is similar, as the entries of `Validator.SimilarTerms` |
| Validator.LettersAreMarked | medical_translation/translation_validator.py:90-94 | each of `ăâđêôơư` is one of the marked letters |
| Validator.NeverMissingDiacritics | medical_translation/translation_validator.py:79-97 | `_has_missing_diacritics` is false on every text |
| Validator.CheckFormattingIff | medical_translation/translation_validator.py:99-125 | the formatting check holds exactly when the text is non-empty, has no whitespace at either end, has no two spaces in a row, and has only whitelisted characters |
| Validator.MarkedLettersAreLower | medical_translation/translation_validator.py:90 | every marked letter is lower case |
| Validator.UpperCaseAccentedRejected | medical_translation/translation_validator.py:122 | any upper-case letter the model lower-cases, other than A–Z and `Đ`, fails the formatting check |
| Validator.StoreKeysOk | data/dictionaries/medical_dictionary.py:152-153 | a valid store meets what the validator needs: every key is stored and normalised |
| Validator.RankedFound | medical_translation/translation_validator.py:66-71 | every key `get_similar_terms` returns finds its own record, so the lookup at line 71 never yields `None` |
| Validator.SimilarTerms | medical_translation/translation_validator.py:68-75 | one entry per similar key |
| Validator.Validation | medical_translation/translation_validator.py:24-77 | `validate_translation` as a function of the store's answers; stated by `Validator.ValidationFacts` |
| Validator.ValidationFacts | medical_translation/translation_validator.py:37-77 | the verdict is invalid exactly when some issue was found; the issues are the dictionary mismatch (case-insensitive), then bad formatting; a suggestion is made only on a mismatch, and it is the stored translation; confidence is the product of 0.7 and 0.9 for the checks that failed, so one of 1.0, 0.7, 0.9 or 0.63; `similar_terms` is present exactly when there are similar keys, and lists each in order with its stored translation and score |
| Validator.TranslationValidator.constructor | medical_translation/translation_validator.py:7-8 | the validator holds the given store |
| Validator.TranslationValidator.ValidateTranslation | medical_translation/translation_validator.py:24-77 | the check-by-check verdict equals `Validation` on the store's lookup and ranking for the term |
| Validator.TranslationValidator.SimilarEntries | medical_translation/translation_validator.py:68-75 | the list built with `get_translation` equals the similar keys with their stored translations |
| Validator.RelatedLine | medical_translation/translation_validator.py:161 | the line is `- `, the key, `: `, then the translation |
| Validator.RelatedLines | medical_translation/translation_validator.py:159-161 | one line per related key |
| Validator.RelatedLinesStep | medical_translation/translation_validator.py:159-161 | one more related key adds its line at the end |
| Validator.RelatedFound | medical_translation/translation_validator.py:159 | the first three similar keys are a prefix of the similar keys and each finds its record |
| Validator.Hints | medical_translation/translation_validator.py:140-153 | the hints from the three checks; stated by `Validator.HintsFacts` |
| Validator.Related | medical_translation/translation_validator.py:155-161 | the lines about related keys; stated by `Validator.RelatedFacts` |
| Validator.Suggestions | medical_translation/translation_validator.py:127-163 | `suggest_improvements` as a function of the store's answers: the hints, then the related lines (`Validator.HintsFacts`, `Validator.RelatedFacts`) |
| Validator.HintsFacts | medical_translation/translation_validator.py:140-153 | the check hints are the "use the established translation" hint when a stored translation differs exactly, then the formatting hint when formatting fails; the diacritic hint never appears |
| Validator.RelatedFacts | medical_translation/translation_validator.py:155-161 | no lines without similar keys; otherwise the header, then one line for each of the first three (at most) similar keys, in ranking order, with its stored translation |
| Validator.TranslationValidator.SuggestImprovements | medical_translation/translation_validator.py:127-163 | the list built step by step equals `Suggestions` on the store's lookup and ranking for the term |
| Validator.TranslationValidator.RelatedSuggestions | medical_translation/translation_validator.py:159-161 | the loop over the related keys builds exactly their lines |
| Validator.CaseOnlyDifference | medical_translation/translation_validator.py:144 | for a proposal differing from the stored translation only in case, the verdict (line 47 compares after `lower()`) has no mismatch issue, yet the first hint is still to use the stored translation |

## Left out

- Persistence: loading the JSON file at start-up and saving it after every change are not modelled. A store starts empty and every save is a no-op. A failed or partial save cannot be expressed.
- Logging is not modelled.
- Clock readings: each `datetime.now()` call is a parameter (`Stamps`, `versionAt`, `updatedAt`), and timestamps are whole numbers, not ISO strings. The readings are required not to go backwards; this is an assumption about the clock, not something the source checks.
- Floating point: confidences, ratios and confidence factors are exact reals. Python's binary64 rounding is not modelled, and neither is the float text that `export_csv` writes and `float()` reads back (`Reread` assumes it round-trips).
- Dictionary.ExportImportRoundTrip and Dictionary.Reread: a text cell is taken to read back exactly as written, which does not hold for a key, translation or category containing a carriage return. `export_csv` opens its file with `newline=''` (medical_dictionary.py:185) but `import_csv` does not (medical_dictionary.py:212), so Python's universal-newline reading turns `\r` and `\r\n` inside a quoted cell into `\n`, and `add_term` strips only the ends of its arguments. A key `a\rb` comes back as the different key `a\nb`, and a translation `x\r\ny` as `x\ny`; the round trip is promised only for texts without `\r`.
- CSV text: quoting, encodings and `float()` parsing are below the model. Import rows arrive already split into optional columns. An absent column is `None`, and a confidence cell is either `Parsed` or `Unparseable`.
- Short CSV rows, which `csv.DictReader` pads with `None`, are not modelled; the model only knows whether a column is absent from the file. In the source the outcome depends on the missing cell. In a file with a Confidence column (every exported file has one), a row missing its confidence cell makes `float(None)` raise in `import_csv` itself (medical_dictionary.py:220), and the handler at lines 225-226 ends the import. A row whose only missing value is the category stores `None` as the category. A row with a confidence cell but no English or Vietnamese value makes `add_term` raise, catch the error and return `False`, and the import goes on with the next row.
- The header row of `export_csv` (medical_dictionary.py:187) is not modelled: exported rows are records, and import rows arrive keyed by column.
- Dictionary.MedicalDictionary.AddTerm: the exception path (returning `False`) is not modelled, because with every input a valid string nothing in its body can raise.
- Dictionary.MedicalDictionary.UpdateTerm: the exception path is left out for the same reason; the not-found path is modelled.
- difflib's junk handling: no `isjunk` is passed and the autojunk rule only applies to strings of 200 characters or more; strings that long are compared as if autojunk were off.
- `str.lower` is modelled for ASCII, Latin-1, the capitals Ă Đ Ĩ Ũ Ơ Ư, and the Vietnamese letters of Latin Extended Additional (U+1EA0 to U+1EF9). Every other character is left unchanged, including Latin capitals that Python does lower-case, such as Ā (U+0100) and Ą (U+0104), and the capitals of other scripts. Two English terms that differ only in such a letter are one key in the source but two keys in the model, and the case-insensitive comparison of translation_validator.py:47 tells them apart in the model.
- Aliasing: records are values, so the in-place mutation of a record dict that another holder shares is not modelled. `get_translation` returns the record itself in Python, which a caller could then mutate; the model returns a copy.
- The `diacritic_patterns` table built in the validator's constructor (translation_validator.py:14-22) is never read by the source and is not modelled.
- Validator.TranslationValidator.ValidateTranslation and Validator.TranslationValidator.SuggestImprovements require of the store only that every key is stored and normalised (`KeysOk`), which every valid store meets (`Validator.StoreKeysOk`).
- The paper retrieval and Crossref client modules are not part of this model.
