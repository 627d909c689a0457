# Dictionary ingestion core, modelled in Dafny

This project models the dictionary-ingestion logic of an English–Vietnamese dictionary collector, as pure functions over sequences. It then proves properties about that model.

It covers the following parts:

- **The StarDict importer** (`StarDictAnhViet.import_dict_file`, `_is_sample_dict`):
  - the cursor that decodes `word ‖ 0x00 ‖ 4 skipped bytes ‖ big-endian length ‖ definition` records;
  - the definition cleanup;
  - the sample-dictionary test;
  - the import gate around them.
- **The definition-segmentation pipeline** (`StarDictAnhViet.get_word_data`, `_convert_pos_to_english`):
  - the exact and then case-insensitive lookup over the stored rows;
  - pronunciation extraction;
  - the six part-of-speech marker families, tried in order;
  - span slicing;
  - the parenthesis-aware sense split;
  - example markers by list priority;
  - the bilingual example split;
  - the bare-name fallback;
  - first-seen deduplication.
- **The merge rules:**
  - `VDictScraper._merge_data` and the None rule of `VDictScraper.get_word_data`;
  - `DictionaryManager._combine_data_prioritizing_vi`;
  - `filter_dictionary_sources`;
  - the `.ifo` path and source-name derivation;
  - the decision of `check_dictionary_quality`.
- **The line-level importers:**
  - the tab-separated text files of `processors/text.py`;
  - the short-phrase filter of `processors/parallel.py` and of the OPUS collector;
  - the WordNet synset lines.
- **The string utilities of `utils.py`:** `clean_text`, `escape_sql`, `normalize_word`, `is_valid_word_entry` and `batch_process`.

Modules follow the program's structure:

| module | file | contents |
|---|---|---|
| `Optional` | optional.dfy | the `Option` type |
| `Text` | text.dfy | Python's whitespace class, `strip`, `split()`, `join`, `lower`, substring search, `split(c)` and `replace` |
| `Seqs` | seqs.dfy | append-unless-seen, first occurrences, filter and subsequence |
| `Patterns` | patterns.dfy | hand-written scanners for the delimited-group and `pronunciation: ` patterns |
| `Utils` | utils.dfy | `utils.py` |
| `StarDictImport` | stardict_import.dfy | the decoder, cleanup, sample test and import outcome |
| `StarDictSegment` | stardict_segment.dfy | segmentation of one stored definition |
| `StarDictQuery` | stardict_query.dfy | lookup, aggregation and deduplication |
| `Records` | records.dfy | the optional-key word records the merges exchange |
| `VDictMerge` | vdict_merge.dfy | the VDict merge |
| `DictionaryManager` | dictionary_manager.dfy | the priority merge, the source filter, path derivation and the quality decision |
| `LineParsers` | line_parsers.dfy | the text, parallel-corpus and WordNet parsers |

No general regular-expression engine is modelled. Each pattern the code uses is a hand-written scanner with the same leftmost-match semantics.

## Behaviour as written

Where a reader might expect otherwise, the model follows the code:

- **Empty meanings are kept.** A sense whose text before the example marker is empty still gives a definition with an empty `definition_vi`. The code appends `pure_meaning` unconditionally (scrapers/stardict_anh_viet.py:291-296).
- **Markers by list priority.** Example markers are chosen by their order in the list, not by leftmost position. So `": "` shadows `"Ex: "` and `"VD: "`, which both end in `": "`: neither is ever the chosen marker (`StarDictSegment.ColonShadowsExAndVD`).
- **Spans are stripped.** Each part-of-speech span is stripped before the sense split.
- **Repeated pronunciation pattern.** The third pronunciation pattern is the first one again. It is never the pattern whose group is used (`StarDictSegment.FirstPronPattern`). In the fallback, deleting pronunciations applies it a second time.
- **The `<pos>` family cannot match.** The import cleanup replaces every `<…>` span with a space (`StarDictImport.StripTagsIdempotent`), so stored text never contains a match for the `<pos>` marker family.
- **Bilingual split.** An example splits at the leftmost separator position. The separator's surrounding whitespace is removed by stripping both sides.
- **Over-long counts.** `int` raises on more than 4300 digits. In the explicit `.ifo` this makes the import return False (`StarDictImport.ParseIntTooLong`). In the sample test the `except` passes, so the dictionary is not a sample however small the count (`StarDictImport.SampleByDigits`).
- **Quality-check patterns.** `check_dictionary_quality` uses five sample patterns, without `local`. The import and the source filter use six.

## Model

| member | source | states |
|---|---|---|
| StarDictImport.BE32OfEncode | scrapers/stardict_anh_viet.py:109 | reading four bytes as a big-endian unsigned integer inverts writing any value below 2^32 |
| StarDictImport.EncodeOfBE32 | scrapers/stardict_anh_viet.py:109 | writing back the value read from any four bytes gives those bytes |
| StarDictImport.FindZero | scrapers/stardict_anh_viet.py:98-100 | `find(b'\0', offset)`: the first zero byte at or after the offset, or none when every later byte is non-zero |
| StarDictImport.DecodeFrom | scrapers/stardict_anh_viet.py:96-131 | every decoded word is the run before a null byte, so holds no null; each record used at least nine bytes of the buffer |
| StarDictImport.DecodeFromAt | scrapers/stardict_anh_viet.py:96-131 | one loop turn: from a null at `idx` with declared size `size` fitting the buffer, the record is `(buf[offset..idx], buf[idx+9..idx+9+size])`, and decoding resumes at `idx+9+size` |
| StarDictImport.DecodeStopsNoNull | scrapers/stardict_anh_viet.py:98-100 | with no further null byte the loop stops and yields nothing more |
| StarDictImport.DecodeStopsShortHeader | scrapers/stardict_anh_viet.py:106-107 | fewer than 9 bytes from the null to the end stops the loop |
| StarDictImport.DecodeStopsShortPayload | scrapers/stardict_anh_viet.py:109-114 | a declared payload running past the end stops the loop |
| StarDictImport.EncodedZero | scrapers/stardict_anh_viet.py:98 | in an encoded record the null found is the one right after the word |
| StarDictImport.EncodedLength | scrapers/stardict_anh_viet.py:109 | the length read at `idx+5..idx+9` of an encoded record is its definition's length |
| StarDictImport.EncodedFields | scrapers/stardict_anh_viet.py:103-116 | the word and definition slices of an encoded record are its word and definition |
| StarDictImport.DecodeStep | scrapers/stardict_anh_viet.py:96-131 | a well-formed record at the cursor decodes to its pair, and the next record starts right after its payload |
| StarDictImport.DecodeEncoded | scrapers/stardict_anh_viet.py:96-131 | N well-formed records laid out back to back decode to their N pairs in order, followed by whatever the rest decodes to |
| StarDictImport.DecodeRoundTrip | scrapers/stardict_anh_viet.py:96-131 | decoding the encoding of well-formed records gives exactly their pairs, in order |
| StarDictImport.TruncatedInWord | scrapers/stardict_anh_viet.py:98-100 | a tail cut inside a word has no null byte, so nothing is decoded from it |
| StarDictImport.TruncatedAfterWord | scrapers/stardict_anh_viet.py:106-114 | a tail cut after the null but before the payload ends stops the loop |
| StarDictImport.DecodeTruncatedTail | scrapers/stardict_anh_viet.py:96-114 | any strict prefix of one encoded record decodes to nothing |
| StarDictImport.DecodeTruncated | scrapers/stardict_anh_viet.py:96-114 | truncation is tolerated: complete records followed by a cut record decode to the complete records' pairs |
| StarDictImport.StripTags | scrapers/stardict_anh_viet.py:119 | replacing `<…>` spans by one space never lengthens the text |
| StarDictImport.StripTagsIdempotent | scrapers/stardict_anh_viet.py:119 | no `<…>` span survives the replacement, and a second application changes nothing |
| StarDictImport.CollapseSpaceWords | scrapers/stardict_anh_viet.py:120 | collapsing whitespace runs keeps the sequence of words |
| StarDictImport.CollapseSpaceCollapsed | scrapers/stardict_anh_viet.py:120 | after collapsing, every whitespace character is a single space not followed by whitespace |
| StarDictImport.StripCollapsedSingleSpaced | scrapers/stardict_anh_viet.py:120 | stripping collapsed text gives words separated by single spaces, with no space at either end |
| StarDictImport.CleanDefinitionIsCleanText | scrapers/stardict_anh_viet.py:119-120 | the cleanup equals `clean_text` of the tag-stripped text: single-spaced, with the same words |
| StarDictImport.RowsOf | scrapers/stardict_anh_viet.py:122-128 | a record is stored, with the import's source, exactly when its decoded word and cleaned definition are both non-empty |
| StarDictImport.StoredRows | scrapers/stardict_anh_viet.py:96-131 | every stored row has a non-empty word and definition and the import's source, and there are no more rows than records |
| StarDictImport.StoredRowsCount | scrapers/stardict_anh_viet.py:123-128 | the number of stored rows is the number of records with a non-empty word and cleaned definition |
| StarDictImport.StoredRowsAppend | scrapers/stardict_anh_viet.py:96-131 | storing two runs of records in turn stores the rows of each, in order |
| StarDictImport.DecodeDict | scrapers/stardict_anh_viet.py:85-131 | the loop as written stores exactly the rows of the decoded records in order, and `word_idx` equals their number |
| StarDictImport.TakeDigits | scrapers/stardict_anh_viet.py:174 | `\d+`: the longest run of decimal digits of any script (Unicode category Nd) at the start |
| StarDictImport.DigitsValueOfShow | scrapers/stardict_anh_viet.py:176 | `int` of a number's decimal digits is that number |
| StarDictImport.FindWordcount | scrapers/stardict_anh_viet.py:174 | the leftmost `wordcount=` followed by a digit, and none before it |
| StarDictImport.WordcountDigits | scrapers/stardict_anh_viet.py:174-175 | the search captures something exactly when some position matches `wordcount=\d`, and what it captures is a non-empty run of digits |
| StarDictImport.WordcountDigitsOfHeader | scrapers/stardict_anh_viet.py:174-175 | after a leading `wordcount=` the whole run of digits up to the first non-digit is captured |
| StarDictImport.SearchWordcount | scrapers/stardict_anh_viet.py:174-176 | the search finds a count exactly when some position matches `wordcount=\d` |
| StarDictImport.SearchWordcountOfHeader | scrapers/stardict_anh_viet.py:174-176 | a header `wordcount=<n>` followed by a non-digit yields n |
| StarDictImport.ArabicIndicFive | scrapers/stardict_anh_viet.py:174-176 | a digit of another script counts: `wordcount=` followed by an Arabic-Indic five yields 5 |
| StarDictImport.IsSampleDict | scrapers/stardict_anh_viet.py:152-183 | sample iff the lowercased name mentions one of six patterns, or the readable size is below 50000, or the derived `.ifo` declares a wordcount below 100 in at most 4300 digits; a longer count makes `int` raise, the `except` passes, and the dictionary is not a sample |
| StarDictImport.SampleByDigits | scrapers/stardict_anh_viet.py:172-183 | with an unremarkable name and an unreadable size, the captured digits make a sample exactly when there are at most 4300 of them and their value is below 100 |
| StarDictImport.ParseIntOfShow | scrapers/stardict_anh_viet.py:73 | `int` parses a number's decimal digits back to the number, or raises when they are more than 4300 |
| StarDictImport.ParseIntOfDigits | scrapers/stardict_anh_viet.py:73 | `int` of a run of digits is its value when the run is non-empty and at most 4300 long, and raises otherwise |
| StarDictImport.ParseIntTooLong | scrapers/stardict_anh_viet.py:73 | 4301 digits make `int` raise, even when all but one are leading zeros, while a minus sign before 4300 digits does not count towards the limit |
| StarDictImport.ParseInt | scrapers/stardict_anh_viet.py:73 | `int` accepts exactly an optional sign followed by at least one and at most 4300 decimal digits, and nothing else; without a minus sign the value is not negative |
| StarDictImport.TranslateNewlines | scrapers/stardict_anh_viet.py:70-71 | text-mode reading leaves no carriage return, and text without one is unchanged |
| StarDictImport.LineEndsAlike | scrapers/stardict_anh_viet.py:70-71 | a line ended by `\r\n`, by `\r` or by `\n` is read as the same line ending in `\n` |
| StarDictImport.Lines | scrapers/stardict_anh_viet.py:70-71 | the lines laid end to end are the translated text; each is non-empty and holds one newline, at its end, except the last, which may have none |
| StarDictImport.CarriageReturnEndsWordcount | scrapers/stardict_anh_viet.py:70-73 | in `foo\rwordcount=abc\r` the carriage returns end lines, so the wordcount value `abc` is read and `int` rejects it |
| StarDictImport.IfoWordcountParses | scrapers/stardict_anh_viet.py:67-74 | a file without a `wordcount=` line never makes the import fail |
| StarDictImport.ImportDictFile | scrapers/stardict_anh_viet.py:43-150 | a missing file gives False. A skipped sample gives False and no rows. A source with rows gives True and nothing new. Otherwise an explicit `.ifo` whose wordcount does not parse, or an unreadable dictionary, gives False and no rows; else the result is True and the store gains exactly the stored rows of the decoded records, after the old ones |
| StarDictImport.ImportIdempotent | scrapers/stardict_anh_viet.py:58-65 | importing the same files again returns the same flag and adds nothing |
| StarDictImport.ImportIgnoresWordcount | scrapers/stardict_anh_viet.py:67-91 | a parsable declared wordcount has no effect on the outcome |
| StarDictSegment.ConvertPos | scrapers/stardict_anh_viet.py:381-395 | the result is one of the ten English names or "unknown", and "unknown" exactly for names outside the table |
| StarDictSegment.ConvertPosTable | scrapers/stardict_anh_viet.py:383-394 | each Vietnamese name maps to the English name at its position |
| StarDictSegment.SearchGroup | scrapers/stardict_anh_viet.py:229-231 | a pattern's group, when found, is non-empty |
| StarDictSegment.FirstPronPattern | scrapers/stardict_anh_viet.py:221-234 | the repeated third pattern is never the first to match |
| StarDictSegment.Pronunciation | scrapers/stardict_anh_viet.py:221-234 | a pronunciation is found iff some pattern matches, and it is stripped |
| StarDictSegment.SubAllKeeps | scrapers/stardict_anh_viet.py:322-323 | deleting patterns that do not match leaves the text unchanged |
| StarDictSegment.SubAll | scrapers/stardict_anh_viet.py:322-323 | deleting the pronunciation patterns in turn never lengthens the text |
| StarDictSegment.NoPronunciationKeepsText | scrapers/stardict_anh_viet.py:322-323 | text without a pronunciation reaches the fallback search unchanged |
| StarDictSegment.FirstFit | scrapers/stardict_anh_viet.py:238-243 | the alternation takes the first name in list order that fits, and no earlier one fits |
| StarDictSegment.MarkerAt | scrapers/stardict_anh_viet.py:237-244 | a match starts at its position and ends inside the text; the `^`-anchored bare-name family matches only at position 0 |
| StarDictSegment.FindMarkers | scrapers/stardict_anh_viet.py:249 | `finditer`: matches in order, non-overlapping, each a match of the family at its start |
| StarDictSegment.FindMarkersComplete | scrapers/stardict_anh_viet.py:249 | no match is skipped: every matching position lies inside a reported match |
| StarDictSegment.LeadingAtMostOne | scrapers/stardict_anh_viet.py:243 | the `^`-anchored family yields at most one match |
| StarDictSegment.ChooseFamily | scrapers/stardict_anh_viet.py:246-252 | the family used is the first in order with a match; all earlier ones have none |
| StarDictSegment.RawSpans | scrapers/stardict_anh_viet.py:256-265 | one span per marker |
| StarDictSegment.RawSpansRebuild | scrapers/stardict_anh_viet.py:256-265 | markers and spans put back together give the text from the first marker on, so text before it is the only part discarded |
| StarDictSegment.CloseAheadIff | scrapers/stardict_anh_viet.py:269 | the lookahead `(?![^(]*\))` fails iff a `)` occurs before any `(` |
| StarDictSegment.Senses | scrapers/stardict_anh_viet.py:269-273 | every sense is non-empty and stripped |
| StarDictSegment.SensesAvoidSeparators | scrapers/stardict_anh_viet.py:269 | no sense contains `;` `◦` `•` `·` or `※` |
| StarDictSegment.SplitExamples | scrapers/stardict_anh_viet.py:275-288 | without a marker the sense is the meaning and there are no examples; the example phrases are non-empty and stripped |
| StarDictSegment.SplitExamplesAtFirst | scrapers/stardict_anh_viet.py:279-288 | the chosen marker is the first in list order that occurs, and the meaning before the split contains no occurrence of it, so the split is at its first occurrence |
| StarDictSegment.ColonShadowsExAndVD | scrapers/stardict_anh_viet.py:275-280 | a sense containing "Ex: " or "VD: " always splits at ": " |
| StarDictSegment.ChosenMarker | scrapers/stardict_anh_viet.py:275-281 | the marker chosen occurs in the sense, and no marker earlier in the list does; none is chosen when no marker occurs |
| StarDictSegment.FindBiSep | scrapers/stardict_anh_viet.py:302 | the leftmost separator position, with none before it |
| StarDictSegment.SplitBilingual | scrapers/stardict_anh_viet.py:302-308 | both sides are stripped; with no separator the result is `(phrase.strip(), "")` |
| StarDictSegment.EnglishSideHasNoSeparator | scrapers/stardict_anh_viet.py:302-305 | the English side contains no `:`, `=` or `→`, since the split is at the leftmost one |
| StarDictSegment.ExamplesOf | scrapers/stardict_anh_viet.py:299-317 | at most one example per phrase; every kept example has a non-empty English side and carries the span's part of speech and the row's source |
| StarDictSegment.SpanDefinitions | scrapers/stardict_anh_viet.py:263-296 | one definition per sense of the stripped span, each with the word, part of speech and source |
| StarDictSegment.MarkedDefinitions | scrapers/stardict_anh_viet.py:256-296 | every definition of the marked branch has one of the ten English parts of speech |
| StarDictSegment.MarkedExamples | scrapers/stardict_anh_viet.py:256-317 | every example of the marked branch has a non-empty text and one of the ten English parts of speech |
| StarDictSegment.MarkedDefinitionsCount | scrapers/stardict_anh_viet.py:256-296 | the marked branch yields exactly one definition per sense over all spans |
| StarDictSegment.FindSimplePos | scrapers/stardict_anh_viet.py:326 | the leftmost occurrence of one of the eight names, with no occurrence of any before it |
| StarDictSegment.FallbackPos | scrapers/stardict_anh_viet.py:326-345 | the fallback never yields "determiner" or "article", and yields "unknown" exactly when none of the eight names occurs |
| StarDictSegment.Fallback | scrapers/stardict_anh_viet.py:319-345 | the fallback definition keeps the word and the source, and its meaning is no longer than the text |
| StarDictSegment.Segment | scrapers/stardict_anh_viet.py:219-345 | the pronunciation is the one the pattern search finds. Every definition carries the word, the row's source and a mapped part of speech or "unknown". Every example has a text and a mapped part of speech. With no marker family, the result is the single fallback definition and no examples |
| StarDictQuery.TakeFilter | scrapers/stardict_anh_viet.py:192-198 | a `LIMIT 10` lookup is empty iff no row matches, and returns only matching rows |
| StarDictQuery.LookupRows | scrapers/stardict_anh_viet.py:191-202 | None iff no row matches case-insensitively. Otherwise 1 to 10 matching rows, all exact matches when one exists |
| StarDictQuery.FoundPronunciations | scrapers/stardict_anh_viet.py:228-234 | every pronunciation recorded is non-empty and stripped |
| StarDictQuery.AllDefinitions | scrapers/stardict_anh_viet.py:219-345 | every definition carries the looked-up word and the source of one of the rows |
| StarDictQuery.AllExamples | scrapers/stardict_anh_viet.py:219-345 | every example has a text and the source of one of the rows |
| StarDictQuery.CollectedPos | scrapers/stardict_anh_viet.py:294-343 | every collected part of speech is one of the ten English names or "unknown", and examples never get "unknown" |
| StarDictQuery.GetWordData | scrapers/stardict_anh_viet.py:185-373 | None iff neither lookup finds a row; otherwise the record is for the word asked |
| StarDictQuery.SourcesCollected | scrapers/stardict_anh_viet.py:213-216 | the sources are without repeats, and are exactly the rows' sources |
| StarDictQuery.PronunciationsCollected | scrapers/stardict_anh_viet.py:228-233 | the pronunciations are without repeats, non-empty and stripped |
| StarDictQuery.GetWordDataShape | scrapers/stardict_anh_viet.py:205-373 | sources and pronunciations have no repeats. Definitions are unique by `(pos, definition_vi)` and examples by `(text, text_vi)`, and no key of the collected lists is lost |
| StarDictQuery.GetWordDataPos | scrapers/stardict_anh_viet.py:291-345 | the final parts of speech are mapped names or "unknown" |
| StarDictQuery.AppendAbsent | scrapers/stardict_anh_viet.py:214-216 | the loop appending an element unless present computes the first-seen list |
| StarDictQuery.QueryWord | scrapers/stardict_anh_viet.py:185-373 | the lookup as written, with its dedup loops, computes the functional result: None iff no row matches |
| Patterns.DelimitedAtIff | scrapers/stardict_anh_viet.py:222-223 | `/([^/]+)/` matches at i iff the opener is at i and the next closer is not right after it |
| Patterns.SearchDelimited | scrapers/stardict_anh_viet.py:229 | the leftmost match position, with no match before it |
| Patterns.UnmatchedIff | scrapers/stardict_anh_viet.py:119 | the recursive no-match test agrees with "no position matches" |
| Patterns.SubDelimitedLeavesNoMatch | scrapers/stardict_anh_viet.py:119 | after `re.sub` no delimited span remains |
| Patterns.SubDelimitedKeepsUnmatched | scrapers/stardict_anh_viet.py:323 | `re.sub` leaves text without a match unchanged |
| Patterns.SubDelimitedIdempotent | scrapers/stardict_anh_viet.py:119 | substituting twice is substituting once |
| Patterns.SearchLabel | scrapers/stardict_anh_viet.py:225 | the leftmost `pronunciation: ` followed by a character other than a newline |
| Patterns.LabelGroup | scrapers/stardict_anh_viet.py:225 | `(.+)` is non-empty and stops at the line end |
| Patterns.SubLabelKeepsUnlabelled | scrapers/stardict_anh_viet.py:323 | deleting the label pattern changes nothing where it does not match |
| Patterns.SubLabelShrinks | scrapers/stardict_anh_viet.py:323 | a match deletes at least the label and one character |
| DictionaryManager.Basename | dictionary_manager.py:89 | `os.path.basename`: the slash-free tail of the path, preceded by a slash when shorter than the path |
| DictionaryManager.SourceName | dictionary_manager.py:89 | the name contains neither `.` nor `/` |
| DictionaryManager.SourceNameOfDictFile | dictionary_manager.py:89 | `dir/stem.ext` is named `stem` |
| DictionaryManager.IfoPathOfDictFile | dictionary_manager.py:90 | `base.dict.dz` and `base.dict` both pair with `base.ifo` |
| DictionaryManager.FilterSources | dictionary_manager.py:103-121 | only non-sample sources are kept |
| DictionaryManager.FilterSourcesKeeps | dictionary_manager.py:103-121 | exactly the non-sample sources are kept, in original order |
| DictionaryManager.QualityRule | dictionary_manager.py:520-570 | with one group per distinct source, the check passes iff a dictionary is loaded, there are at least 100 rows, and some source is not sample-named (or there are no groups at all) |
| DictionaryManager.QualityOk | dictionary_manager.py:520-570 | passing needs a loaded dictionary and at least 100 rows; with those it passes when there are more sources than groups, or when no source is sample-named |
| DictionaryManager.AddNewPosRule | dictionary_manager.py:202-212 | appended definitions come from the candidates in order, each with a new part of speech, no two the same, and every candidate's part of speech is covered |
| DictionaryManager.AddNewTextsRule | dictionary_manager.py:215-225 | appended examples come from the candidates in order, each with a new non-empty text, no two the same, and every candidate text is covered |
| DictionaryManager.AddNewPos | dictionary_manager.py:202-212 | the result is the old definitions followed by the first candidate of each part of speech not already present, in candidate order |
| DictionaryManager.AddNewTexts | dictionary_manager.py:215-225 | the result is the old examples followed by the first candidate with each new non-empty text, in candidate order |
| DictionaryManager.VDictStage | dictionary_manager.py:193-225 | existing pronunciations are kept, and definitions and examples only grow at the end |
| DictionaryManager.FillDefinition | dictionary_manager.py:249-251 | filling in the translation keeps the part of speech and leaves a `definition_vi` |
| DictionaryManager.FillExample | dictionary_manager.py:266-268 | filling in the translation keeps the text and leaves a `text_vi` |
| DictionaryManager.EnglishStage | dictionary_manager.py:229-271 | one English source only appends, and keeps pronunciations already present |
| DictionaryManager.EnglishStageRule | dictionary_manager.py:234-271 | an English source appends only definitions of new parts of speech, no two the same, and only examples with a new non-empty text; each appended entry is an entry of the source with its Vietnamese filled in |
| DictionaryManager.EnglishStageTranslated | dictionary_manager.py:241-271 | an English source keeps every definition translated and every example after a given index translated and non-empty |
| DictionaryManager.CombineEnglishTranslated | dictionary_manager.py:227-271 | when StarDict and VDict give no definition, every combined definition has `definition_vi`, and every example after theirs has a non-empty text and `text_vi` |
| DictionaryManager.EnglishStages | dictionary_manager.py:227-271 | English sources change nothing once a definition exists |
| DictionaryManager.Combine | dictionary_manager.py:159-285 | None iff every source is falsy. When StarDict and VDict give a definition, the result's lists are theirs alone |
| DictionaryManager.CombineStarDictFirst | dictionary_manager.py:175-191 | StarDict's definitions and examples open the result in order, and its pronunciations win when present |
| DictionaryManager.StarDictStage | dictionary_manager.py:175-191 | priority 1: with StarDict data its three lists are taken over unchanged; without, all three start empty |
| DictionaryManager.CombineVDictRules | dictionary_manager.py:193-225 | VDict adds only definitions of new parts of speech, and only examples with a new non-empty text |
| VDictMerge.Merge | scrapers/vdict_scraper.py:201-237 | a falsy source changes nothing; otherwise every list only grows at the end |
| VDictMerge.MergeKeepsDistinct | scrapers/vdict_scraper.py:207-237 | lists without repeats stay without repeats |
| VDictMerge.MergeDefinitions | scrapers/vdict_scraper.py:213-224 | appended definitions are exactly the first source definition of each `(definition_vi, pos)` key new to the target, in source order; no two share a key, and every source key is present afterwards |
| VDictMerge.MergeExamples | scrapers/vdict_scraper.py:227-237 | examples are deduplicated on `text` alone, in the same sense: exactly the first source example of each new text is appended |
| VDictMerge.MergeIdempotent | scrapers/vdict_scraper.py:201-237 | merging the same source twice equals merging it once |
| VDictMerge.MergeIntoEmpty | scrapers/vdict_scraper.py:201-237 | merging into empty lists leaves a list empty iff the source's is empty |
| VDictMerge.GetWordData | scrapers/vdict_scraper.py:17-44 | a result always has a definition or an example |
| VDictMerge.GetWordDataNone | scrapers/vdict_scraper.py:33-44 | None iff neither source brings a definition or an example |
| Utils.CleanText | utils.py:92-103 | the result is single-spaced, with the words of the input |
| Utils.CleanTextIsJoin | utils.py:98-101 | the result is the input's words joined by single spaces |
| Utils.CleanTextIdempotent | utils.py:92-103 | cleaning twice is cleaning once |
| Utils.CleanTextFixedPoints | utils.py:92-103 | a text is unchanged by cleaning iff it is already single-spaced |
| Utils.EscapeSql | utils.py:105-109 | the output is longer than the input by the number of quotes |
| Utils.EscapeQuotes | utils.py:109 | the quote doubling is `replace("'", "''")` |
| Utils.EscapeSqlRoundTrip | utils.py:105-109 | replacing `''` by `'` recovers the input |
| Utils.NormalizeWord | utils.py:111-119 | the result is stripped and lower-case, with the words of the lowercased input |
| Utils.NormalizeWordIdempotent | utils.py:111-119 | normalising twice is normalising once |
| Utils.IsValidWordEntry | utils.py:143-160 | valid iff both required fields of the direction are present, are strings and are non-empty |
| Utils.ChunksPartition | utils.py:166-167 | the batches concatenate back to the items; all but the last have `batch_size` items, and none is empty |
| Utils.BatchingTransparent | utils.py:162-171 | for a process that distributes over concatenation, batching changes nothing |
| Utils.BatchProcess | utils.py:162-171 | the loop concatenates the processed batches in order; a negative batch size processes nothing |
| Text.StripIsInfix | utils.py:98 | `strip()` removes only whitespace, and only at the ends |
| Text.StripEmptyIffAllSpace | utils.py:94-98 | the stripped text is empty iff the text is all whitespace |
| Text.WordsOfJoin | utils.py:101 | splitting words joined by single spaces gives the words back |
| Text.JoinWordsSingleSpaced | utils.py:101 | words joined by single spaces are single-spaced |
| Text.StripLower | utils.py:117 | lowercasing and stripping commute |
| Text.ContainsIffIndexOf | scrapers/stardict_anh_viet.py:280-281 | `marker in meaning` iff `split(marker, 1)` finds an occurrence |
| Text.SplitOnJoin | processors/text.py:14 | splitting separator-free pieces joined by the separator gives the pieces back |
| Text.SplitOnSplits | processors/text.py:14-15 | `split('\t')` gives at least two fields iff the line has a tab |
| Seqs.AppendUnseenDistinct | scrapers/vdict_scraper.py:207-210 | what the append-unless-seen loop appends has no two equal keys |
| Seqs.AppendUnseenSubseq | scrapers/vdict_scraper.py:207-210 | what it appends comes from the candidates, in order |
| Seqs.AppendUnseenTwice | scrapers/vdict_scraper.py:207-237 | running it again with the same candidates appends nothing |
| Seqs.FirstOccurrencesDistinct | scrapers/stardict_anh_viet.py:350-371 | first-seen deduplication keeps a subsequence with distinct keys |
| Seqs.DedupKeepFirst | scrapers/stardict_anh_viet.py:350-359 | the `seen`-set loop computes the first occurrences, with distinct keys and no key lost |
| Seqs.FilterKeeps | dictionary_manager.py:111-119 | filtering keeps a subsequence and every element passing the test |
| LineParsers.Fields | processors/text.py:10-15 | a line gives fields iff, stripped, it is non-empty, not a `#` comment and has a tab; the fields are tab-free |
| LineParsers.ParseEnViLine | processors/text.py:10-30 | an entry exists iff the line is accepted, with a non-empty English word and stripped, tab-free fields |
| LineParsers.ParseViEnLine | processors/text.py:46-64 | the same for the Vietnamese-English reader |
| LineParsers.ParseAllFrom | processors/text.py:24-30 | each entry comes from some line of the file |
| LineParsers.ParseAllAppend | processors/text.py:8-30 | parsing two runs of lines in turn gives the entries of each, in order |
| LineParsers.ParseLines | processors/text.py:8-30 | the loop over lines computes the per-line parse of the whole file |
| LineParsers.ProcessEnVi | processors/text.py:3-37 | as many entries as accepted lines, each with a non-empty English word and stripped, tab-free fields |
| LineParsers.ProcessViEn | processors/text.py:39-71 | as many entries as accepted lines, each with a non-empty Vietnamese word and stripped, tab-free fields |
| LineParsers.FieldsOfJoin | processors/text.py:10-22 | a tab-joined line of clean fields parses back to those fields, with trailing empty ones read as "" |
| LineParsers.ParseEnViLineRoundTrip | processors/text.py:10-30 | parsing a formatted entry gives the entry back |
| LineParsers.ParseViEnLineRoundTrip | processors/text.py:46-64 | parsing a formatted entry gives the entry back |
| LineParsers.ProcessEnViRoundTrip | processors/text.py:3-37 | a file of formatted entries parses back to those entries, in order |
| LineParsers.ProcessViEnRoundTrip | processors/text.py:39-71 | a file of formatted entries parses back to those entries, in order |
| LineParsers.ParallelCount | processors/parallel.py:17 | the number of pairs examined is `min(len(en), len(vi), max_entries)` |
| LineParsers.ParallelCorpus | processors/parallel.py:4-53 | the outputs mirror each other. Every kept pair is stripped with one to three words on each side. Type, pronunciation and example are empty |
| LineParsers.ParallelCorpusKeeps | processors/parallel.py:17-25 | the kept pairs are the examined pairs with both sides short, in order |
| LineParsers.ParallelCorpusPrefix | processors/parallel.py:17 | lines past the examined count are never read |
| LineParsers.ProcessParallelCorpus | processors/parallel.py:4-53 | the loop as written computes the filtered, mirrored corpus |
| LineParsers.OpusCorpus | collectors/opus.py:77-151 | the outputs mirror each other, and every pair has one to three words on each side |
| LineParsers.OpusEnViIsParallel | collectors/opus.py:92-121 | with `en-vi` alignment the collector equals the parallel-corpus processor when the cap does not bite |
| LineParsers.OpusAlignmentSwapsFiles | collectors/opus.py:122-139 | any other alignment reads the source file as Vietnamese: it equals `en-vi` with the files exchanged |
| LineParsers.SynsetPos | collectors/wordnet.py:38-46 | the part of speech is empty iff the id is empty or starts with none of n, v, a, s, r |
| LineParsers.SynsetPosIsEnglishPos | collectors/wordnet.py:38-46 | a non-empty WordNet part of speech is one of the English names the StarDict parser uses |
| LineParsers.SynsetOf | collectors/wordnet.py:32-35 | a line yields a synset iff its stripped text has a tab; its words are non-empty, stripped and comma-free |
| LineParsers.SynsetEntries | collectors/wordnet.py:50-70 | one mirrored entry pair per Vietnamese word, with `wordnet-<id>`, the part of speech and `WordNet synset: <id>` |
| LineParsers.WordNetLine | collectors/wordnet.py:31-70 | the outputs mirror each other, and a line without a tab gives nothing |
| LineParsers.SynsetWordDecodes | collectors/wordnet.py:50 | the English word gives the synset id back |
| LineParsers.WordNetLineNames | collectors/wordnet.py:50-70 | every entry of a line carries that line's synset word, example and part of speech |
| LineParsers.WordNetLineWords | collectors/wordnet.py:52-58 | every entry carries one non-empty, stripped, comma-free Vietnamese word |
| LineParsers.WordNetLineRoundTrip | collectors/wordnet.py:32-70 | a line `id⇥w1,…,wn` of clean words gives exactly n entries, the i-th for wi |
| LineParsers.EnViRecordValid | utils.py:143-152 | an `en_vi` entry is valid iff its English word and Vietnamese meaning are non-empty |
| LineParsers.ViEnRecordValid | utils.py:153-160 | a `vi_en` entry is valid iff its Vietnamese word and English meaning are non-empty |
| LineParsers.ParallelCorpusValid | processors/parallel.py:25-41 | every entry the parallel-corpus processor produces passes `is_valid_word_entry` |
| LineParsers.WordNetLineValid | collectors/wordnet.py:52-70 | every entry a WordNet line produces passes `is_valid_word_entry` |

## Left out

- **I/O and storage.**
  - File reading, `os.path.exists` and `getsize` are inputs: the `Files` record, and a file as the sequence of its lines.
  - gzip/dictzip decompression is one of those inputs: the decompressed bytes, or none when it fails.
  - UTF-8 decoding with `errors='ignore'` is a function parameter `decode`.
  - The SQLite store is a sequence of `(word, definition, source)` rows in insertion order. `SELECT ... LIMIT 10` returns rows in that order. SQLite does not promise this order.
- **SQL `LOWER`** is modelled as ASCII-only case folding, as SQLite's built-in does. Python's `lower()` is modelled for ASCII, Latin-1 and the Vietnamese letters only, not the whole of Unicode.
- **Python whitespace** (`str.isspace`, `\s`) is written out for the ASCII and Unicode space characters. Combining characters and normalisation are not modelled.
- **The translator** is a function parameter of `DictionaryManager.Combine`. Because it is pure, filling translations before the novelty rules selects the same entries as filling only the appended ones.
- **Dictionary mutation.** The Python code mutates appended source definitions and examples in place. The model returns new records instead.
- **Falsy collector results.** A falsy collector result (None or an empty dict) is `None`. A missing list and an empty list are read alike.
- DictionaryManager.Combine: synonyms and antonyms come out of Python `set`s, whose order is unspecified, so they are modelled as sets and only their elements are stated.
- DictionaryManager.Combined: the `etymologies` key is always the empty list (dictionary_manager.py:168), so it is not represented.
- StarDictImport.ImportDictFile: these are modelled as returning False with the store unchanged:
  - exceptions raised while reading the `.ifo` file or decompressing;
  - in the sample test, an unreadable size or `.ifo`, which counts as absent.

  A failure in the middle of the insert loop would also roll back. Partial writes are not modelled.
- StarDictImport.IfoWordcountParses: the declared wordcount only sizes the progress bar. Only whether `int` accepts it is modelled, because a parse error makes the import return False. Python's `int` also accepts underscores between digits; these are not modelled. Decimal digits of every script are modelled, for `int` and for `\d` alike. The limit on the length of the digit string `int` converts is CPython's default of 4300 (`MaxStrDigits`); a different limit set with `PYTHONINTMAXSTRDIGITS` or `sys.set_int_max_str_digits`, and older Pythons without a limit, are not modelled.
- Utils.BatchProcess: `batch_size == 0` raises in `range` and is excluded by a precondition. A non-list `items` is not modelled.
- Utils.EscapeSql: `str(text)` of a non-string argument is not modelled; the argument is a string.
- Utils.IsValidWordEntry: the Python function returns the last truthy operand rather than a boolean. The model returns its truth value.
- LineParsers.WordNetLine: the surrounding per-file loop and `batch_insert_*` are database calls and are left out. So are the download and the per-line exception handler.
- **Not modelled:**
  - progress bars (`tqdm`);
  - logging;
  - timing (`format_time`, `timer`);
  - HTTP scraping of VDict and Tra câu;
  - the Oxford, Wiktionary and WordNet scrapers, and the nltk lookups;
  - the pandas CSV importers;
  - download helpers;
  - concurrency.

  These are I/O, foreign libraries or floating point. The merge models take the scrapers' results as inputs.
