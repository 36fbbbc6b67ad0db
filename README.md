# SAP export automation — a Dafny model

These Python scripts post-process the two tab- or comma-separated exports of
an ERP system, `sap1_*.txt` (document lines) and `sap2_*.txt` (their
counterpart lines), one folder per date range
(`YYYY-MM-DD_to_YYYY-MM-DD`). The model covers the scripts' core:

- **Keyword split.** Every body line of sap1 that holds the keyword
  ("ส่วนลดติดลบ", a negative discount) goes to `minus_0/sap1_only_negative.txt`.
  The other lines go to `minus_0/sap1_without_negative.txt`. The occurrences are
  counted, and the trimmed DocNums of the keyword lines are gathered.
- **DocNum match.** Every sap2 body line whose trimmed DocNum is one of those
  goes to `minus_0/sap2_match_negative_docnums.txt`; the rest go to
  `minus_0/sap2_without_negative_docnums.txt`.
- **Repricing.**
  - Automation.py and Edit_minus0.py load `code → MSRP` from a master table.
  - For a row whose upper-cased item code is a key, they write the MSRP into
    GPBefDisc and PriceAfVAT and MSRP × Quantity into GTotal.
  - Automation.py also removes the "(แถม)" ("free gift") note from the
    description.
  - The main sap2 file is replaced in place (backup, temporary file, rename) or
    written beside it.
- **DocNum maintenance.**
  - Double_Docnum.py extracts the lines whose DocNum occurs more than once.
  - ChangDocNum.py renumbers repeated DocNums.
  - check_delect0_SAP1_2.py runs the split and match on fixed paths.
- **Download helpers.** These are the date detection from URL and contents,
  filename sanitising, the retry backoff, LINE recipient batching, URL
  normalisation and the numbered rename on a name collision.
  Automation2.py, pipeline_api_to_checks.py and import_file_api.py carry
  copies, differing only in comments and layout, of `normalize_url`,
  `sanitize_filename`, `backoff_sleep`, `extract_date_from_text`,
  `extract_date_from_url` and `detect_file_date`. The `Download` and `Dates`
  members model all three copies; their rows cite one of them.
- **Payout.py.** This covers the Gmail query, collecting the body text from a
  MIME tree, extracting Google-Sheet ids in first-seen order, and numbering the
  saved sheets.
- **Watchers.** Auto_Checkminus_0.py and Alert.py process a folder once it
  appears. Alert.py also decides which LINE notice is due: "found" when the
  count is positive, "failed" when processing raised.

Files are a `FileStore` class whose `files: map<string, string>` the write, copy
and replace methods update. Folders are the sorted names in that map. A
script's loops are `while` loops in methods. Each method is proved against a
function, and each function's meaning is stated in lemmas.

Several things are parameters rather than code:

- the csv sniffer's guess (`sniff`);
- the column lookup of the repricing steps (`resolve`);
- whether the environment refuses a copy;
- what a download produced (`Fetch`);
- the clock's time stamp;
- the master table as `csv.DictReader` has already parsed it (`CsvTable`:
  the field names and one map per record);
- the Gmail message payloads (`Part` trees), the base64 decoder
  (`decode`) and the Drive sheet export (`exportCsv`);
- the LINE token and recipient (`token`, `toId`), and the header row count
  and keyword that the watchers read from the environment.

## Model

| member | source | states |
|---|---|---|
| Strings.Strip | Automation.py:258 | `str.strip()`: the result neither starts nor ends with whitespace and is no longer than the input |
| Strings.StripSlice | Automation.py:258 | the stripped text is a contiguous slice of the input |
| Strings.StripRemovesSpace | Automation.py:258 | every character strip removes, at either end, is whitespace |
| Strings.StripIdempotent | Automation.py:258 | stripping twice is stripping once |
| Strings.StripEmpty | Automation.py:259 | strip gives "" exactly when every character is whitespace, so `if not t` rejects exactly blank text |
| Strings.LowerFolds | Automation.py:437 | lower-casing is idempotent, leaves no ASCII capital, and undoes an earlier upper-casing, so names that differ only in case fold to one |
| Strings.UpperFolds | Automation.py:463 | upper-casing is idempotent, leaves no ASCII small letter, and undoes an earlier lower-casing, so item codes that differ only in case fold to one |
| Strings.LowerKeeps | Automation.py:437 | text without ASCII capitals is its own lower-case form |
| Strings.CountZero | Automation.py:382 | `line.count(kw)` is 0 exactly when `kw` does not occur in the line |
| Strings.ReplaceLength | Automation.py:222 | every replaced occurrence changes the length by the difference of the two patterns |
| Strings.RemoveChars | Automation.py:262-263 | no character of the set remains, and the result is no longer than the input |
| Strings.RemoveCharsAbsent | Automation.py:262-263 | removing characters that do not occur changes nothing |
| Strings.Split | Automation2.py:239 | `split(c)` never gives an empty list; no piece holds the separator and every piece character is from the input |
| Strings.JoinSplit | Automation2.py:239 | joining the pieces of a split with the separator gives back the text |
| Strings.SplitJoin | Automation2.py:239 | splitting a join of separator-free pieces gives back the pieces |
| Strings.JoinChars | Payout.py:31 | every character of a join comes from a piece or is the separator |
| Strings.NatToStr | ChangDocNum.py:89 | `str(n)` is a non-empty run of decimal digits |
| Strings.NatToStrValue | ChangDocNum.py:89 | reading back the digits of `str(n)` gives `n` |
| Strings.Pad2 | Payout.py:20 | `{idx:02d}` is a run of at least two digits |
| Strings.LexLeAntisym | Automation.py:367 | the order `sorted` uses is antisymmetric, so the first path in sorted order is unique |
| Table.Lines | Automation.py:236 | `splitlines(keepends=True)`: the lines concatenate back to the text and none is empty |
| Table.LinesCons | Automation.py:236 | splitting a line followed by more text puts that line first |
| Table.LinesSingle | Automation.py:236 | a last line without "\n" is one line |
| Table.LinesConcat | Automation.py:236 | splitting the concatenation of well-formed lines gives those lines back |
| Table.IterRows | Automation.py:235-237 | `iter_rows`: header and body concatenate back to the lines, with the header holding the first `min(n, len)` lines (Python slice clamping) |
| Table.DetectDialect | Automation.py:226-233 | a valid dialect: the tab fallback, or the sniffed delimiter (tab when the sniffer offers none) |
| Table.RecordText | Automation.py:249 | the reader's first record holds no "\r" or "\n" and is a prefix of the line |
| Table.ParseRow | Automation.py:249 | `next(csv.reader(...))`: every field is plain (no delimiter, no line break) and a blank record is no fields rather than [""] |
| Table.RowRoundTrip | Automation.py:474-475 | writing a row the reader produced and reading it back gives the same row |
| Table.SerializedIsLine | Automation.py:474-475 | a written row is one line ending in "\n" |
| Table.GetFieldOfWritten | Automation.py:247-253 | `get_field` on a line written from plain fields gives back the field written at that index, and None past the last one |
| Table.LastIndexOf | Automation.py:436 | the `{c.strip().lower(): i}` lookup: the last column with that normalised name, None when no column has it |
| Table.FirstIndexOf | Edit_minus0.py:37-44 | the first column with that normalised name, None when none has it |
| Table.LastIndexDistinct | Automation.py:436 | two different names never resolve to the same column |
| Table.FindIndexCIFirst | Automation.py:239-245 | `find_index_ci` answers with the column of the first name that has one |
| Table.FindIndexCINone | Automation.py:239-245 | `find_index_ci` answers None exactly when no name has a column |
| Table.FindIndexCIHit | Automation.py:239-245 | a hit of `find_index_ci` is the hit of one of the names |
| Table.FindIndexCILast | Automation.py:239-245 | a hit is a column whose normalised name is one of the names, and the last column with that name |
| Table.FindIndexCIApart | Automation.py:239-245 | two disjoint lists of lower-case names never resolve to the same column |
| Table.FindColIndex | Double_Docnum.py:43-51 | `find_col_index`: a hit names a column equal to the lower-cased name with no earlier one; None exactly when no column is |
| Numbers.ParseFloat | Automation.py:256-267 | `parse_float`: None for None and for blank text |
| Numbers.ParseFloatSpec | Automation.py:256-267 | for all inputs: blank gives None; "(…)" gives the negation of the cleaned inside; otherwise the cleaned text converted |
| Numbers.ParseFloatBaht | Automation.py:262-265 | a baht sign and thousands commas are ignored: "฿" + w1 + "," + w2 parses as the number whose digits are w1 w2 |
| Numbers.ParseFloatAccounting | Automation.py:260-265 | "(w1,w2.cc)" parses as minus (w1w2 + cc/100), which is the accounting-style negative |
| Numbers.ParseFloatParens | Automation.py:260-261 | a value in parentheses parses as the negation of the value itself |
| Numbers.ParseFloatIgnoresSymbols | Automation.py:262-263 | two texts that agree once currency symbols, spaces and commas are deleted parse alike |
| Numbers.PlainParse | Automation.py:264-265 | text that starts and ends with a digit goes straight to conversion |
| Numbers.ParseFloatBlank | Automation.py:259 | a blank field is not a number |
| Numbers.Fmt2Chars | Automation.py:269 | `fmt2` writes digits, exactly one point with two digits after it, and perhaps a leading minus |
| Numbers.ParseFmt2 | Automation.py:269 | parsing what `fmt2` writes gives back the value rounded to cents |
| Numbers.ParenParse | Automation.py:260-261 | "(t)" parses as the negation of the cleaned `t` |
| Numbers.GroupedParse | Automation.py:263-265 | "w1,w2.cc" parses as w1w2 + cc/100 |
| Partition.Filter | Automation.py:380-389 | every kept element passes the test and no more elements are kept than given |
| Partition.Reject | Automation.py:380-389 | every rejected element fails the test and no more elements are rejected than given |
| Partition.FilterAppend | Automation.py:380-389 | filtering distributes over concatenation, so relative order is kept |
| Partition.FilterRejectSplit | Automation.py:380-389 | every line lands on exactly one side: the two sides together are a permutation of the input |
| Partition.FilterMember | Automation.py:380-389 | an element is kept exactly when it is in the input and passes the test |
| Partition.NoneSatisfy | Automation.py:412-417 | when no element passes, nothing is kept and everything is rejected |
| Partition.RejectAsFilter | Automation.py:380-389 | what is rejected is what the negated test keeps |
| Partition.FilterKeepsLines | Automation.py:392-393 | keeping some body lines after the header keeps every line well formed |
| Partition.ReadBack | Automation.py:392 | a file written as header plus kept lines reads back as that header and those lines |
| Partition.ReadBackRejected | Automation.py:393 | the same for the rejected lines |
| Partition.TotalOverMarked | Automation.py:382-384 | the keyword count over all body lines is the count over the lines that hold the keyword |
| Partition.KeywordPartition | Automation.py:380-389 | the keyword and non-keyword lines together are the body, each line once |
| Partition.KeywordPartitionAppend | Automation.py:380-389 | splitting the body into two pieces splits both outputs the same way |
| Partition.Gathered | Automation.py:385-387 | the gathered DocNums are non-empty and pairwise distinct |
| Partition.GatheredMembers | Automation.py:385-387 | a DocNum is gathered exactly when some keyword line contributes it |
| Partition.GatheredPrefix | Automation.py:385-387 | DocNums already gathered keep their places when more lines follow |
| Partition.GatheredUnresolved | Automation.py:385-387 | with the DocNum column unresolved nothing is gathered |
| Partition.RoutePartition | Automation.py:414-417 | each sap2 line goes to exactly one side, decided by membership of its trimmed DocNum |
| Partition.UnreadableNeverMatches | Automation.py:415-417 | with no "" among the keys, a line whose DocNum cannot be read is never matched |
| Partition.SplitByKeyword | Automation.py:380-389 | the sap1 loop returns the two line lists, the gathered DocNums and the count the spec functions define |
| Partition.TakeLine | Automation.py:381-389 | one loop pass: the line joins its output, its DocNum is gathered, its occurrences counted |
| Partition.KeywordStep | Automation.py:381-389 | one more line joins one of the outputs and adds its occurrences |
| Partition.GatheredSnoc | Automation.py:385-387 | one more line adds its key only when the key is new and non-empty |
| Partition.RouteByKey | Automation.py:414-417 | the sap2 loop returns exactly the matched and unmatched lines in order |
| Steps.OutPathNotInFolder | Automation.py:391 | an output under `minus_0` is never a file of the folder, so never picked as input |
| Steps.ReadLayout | Automation.py:373-376 | header, body, sniff sample, dialect and header cells; None exactly for an empty header (`head[-1]`) |
| Steps.MappedReadsBack | Automation.py:474-477 | replacing each body line by the line itself or by a line ending in "\n" reads back as the header and the new lines |
| Steps.LayoutMappedReadsBack | Automation.py:474-477 | the same for a text read as a layout |
| Steps.MappedKeepsLines | Automation.py:474-477 | replacing body lines by "\n"-terminated lines keeps the lines well formed |
| Folder.PickFirst | Automation.py:365-368 | a picked path is a file of the folder the rule accepts, with no accepted file before it in sorted order; None exactly when the rule accepts no file |
| Folder.PickUnique | Automation.py:365-368 | two picks from the same files are the same path |
| Files.FileStore.Write | Automation.py:392 | the path now holds the text and every other file is unchanged |
| Files.FileStore.Copy | Automation.py:560-563 | the copy fails exactly when the source is missing or the environment refuses, and then nothing changes; otherwise the destination holds the source |
| Files.FileStore.Replace | Automation.py:567 | the destination takes the source's content and the source disappears; nothing else changes |
| MasterData.Entry | Automation.py:289-291 | a record's entry, when there is one, has a non-empty code |
| MasterData.FoldKeys | Automation.py:287-291 | a code is a key exactly when some entry assigns it |
| MasterData.FoldLastWins | Automation.py:291 | the value kept for a code is that of the last entry assigning it |
| MasterData.MsrpMapNoEmptyKey | Automation.py:291 | the empty code is never a key |
| MasterData.MsrpMapKeys | Automation.py:287-291 | a code is a key exactly when some record has it with a parsable MSRP |
| MasterData.AssignsEntry | Automation.py:289-291 | a record's entry assigns a code exactly when the record has that code and a parsable MSRP |
| MasterData.MsrpMapLastWins | Automation.py:287-291 | a key's MSRP is that of the last record with that code and a parsable MSRP |
| MasterData.BuildMsrpMap | Automation.py:287-291 | the row loop returns the map the fold defines |
| MasterData.ColumnFor | Automation.py:274 | `_norm_cols(...).get(key)`: a header name with that key, None exactly when none has it |
| MasterData.MasterCols | Automation.py:284-286 | both master columns are non-empty header names with the configured keys; None when either key is absent |
| Automation.MasterMap | Automation.py:283-293 | the csv branch: no header, a missing column or an empty map is an error; otherwise the map of the records |
| Automation.LoadMsrpMap | Automation.py:272-296 | the loop fills exactly `MasterMap`'s map, or reports its error |
| Automation.SplitSap1Spec | Automation.py:364-394 | both outputs read back as header plus their lines; the lines split the body; the DocNums are the trimmed non-empty DocNum fields of keyword lines; the count is the total occurrences |
| Automation.KeywordDocNums | Automation.py:385-387 | the gathered DocNums are the trimmed non-empty DocNum fields of body lines holding the keyword |
| Automation.SplitSap1 | Automation.py:364-394 | step 1 on the file store: a missing sap1 is an error with nothing written; otherwise the two outputs hold `SplitSap1Text` and nothing else changes |
| Automation.Sap2MatchSpec | Automation.py:396-424 | a line is matched exactly when its trimmed DocNum is a key; the lists split the body; with the column unresolved every line goes to "others" |
| Automation.BuildSap2Match | Automation.py:396-424 | step 2 on the file store: a missing sap2 is an error; otherwise both outputs are written and the match path returned |
| Automation.PlanFor | Automation.py:446-449 | an error naming exactly the unresolved required columns, in order, else the plan |
| Automation.LookupsKeepApart | Automation.py:439-444 | neither the as-written nor the intended lookup resolves the description to the ItemCode column |
| Automation.ItemCodeAtZeroStopsStep | Automation.py:439 | with ItemCode only in column 0, the as-written lookup stops the step with MissingColumns naming ItemCode; the intended lookup never names ItemCode |
| Automation.StepStopsWithoutItem | Automation.py:446-449 | an unresolved ItemCode makes the step fail with MissingColumns naming ItemCode |
| Automation.StepFindsItem | Automation.py:446-449 | a resolved ItemCode is never named as missing |
| Automation.ItemNotMissing | Automation.py:446-447 | a resolved ItemCode is not in the missing list |
| Automation.EnrichTextSpec | Automation.py:451-477 | the written text reads back as the same header and one rewritten line per body line; the count is the number of priced lines |
| Automation.RewrittenSpec | Automation.py:451-477 | the same for the layout the text is read as and its plan |
| Automation.RewrittenReadsBack | Automation.py:474-477 | the rewritten text reads back as header followed by the rewritten lines |
| Automation.EnrichedAreLines | Automation.py:474-475 | every rewritten line ends in "\n" |
| Automation.ApplyMatch | Automation.py:426-479 | `apply_msrp_to_sap2_match`: a failed map load or missing columns write nothing; otherwise the file holds `EnrichText` and the count is its number of priced lines |
| Automation.Reprice | Automation.py:430-475 | the shared loop returns `EnrichText`'s lines and count |
| Automation.RepriceLayout | Automation.py:451-475 | the loop over a layout returns `EnrichLayout`'s result |
| Automation.OverwrittenSpec | Automation.py:557-567 | after the update the path holds the new text and the .tmp is gone; the .bak holds the old text unless the copy failed; nothing else changes |
| Automation.OverwriteInPlace | Automation.py:558-567 | backup (a failure only logged), write .tmp, rename over the file: the state `OverwrittenSpec` describes |
| Automation.ApplyMain | Automation.py:480-576 | `apply_msrp_to_sap2_main`: no sap2, a failed map load or missing columns change nothing; otherwise only target documents' rows are repriced and saved as `SaveMain` says |
| Automation.SaveMain | Automation.py:554-573 | overwrite in place, or write `minus_0/sap2_main_updated.txt` and leave the original as it was |
| AutomationApply.GiLowerCase | Automation.py:437 | for a name without capitals, `gi` is the lookup of that name |
| AutomationApply.Missing | Automation.py:447 | the missing list is empty exactly when every index resolved, and names every unresolved column |
| AutomationApply.MissingOnly | Automation.py:447 | every missing name is a required name whose index is None |
| AutomationApply.ItemCodeAtZeroIsMissing | Automation.py:439 | the `or` chain treats ItemCode at column 0 as absent, so "ItemCode" is reported missing |
| AutomationApply.AliasesApart | Automation.py:439-444 | the item and description alias lists are lower-case and disjoint |
| AutomationApply.ResolveIntendedApart | Automation.py:439-444 | the intended lookup never resolves the description to the ItemCode column |
| AutomationApply.ResolveIntendedFindsItem | Automation.py:439 | the intended lookup finds a present ItemCode column at any position, 0 included |
| AutomationApply.MapField | Automation.py:456-461 | the description is mapped only when present, in range and non-empty; all other fields stay |
| AutomationApply.TotalPlain | Automation.py:471 | a written total is non-empty and holds no delimiter or line break |
| AutomationApply.Mapped | Automation.py:451-475 | the written lines are one per body line, in order |
| AutomationApply.Flagged | Automation.py:472 | the count of flagged lines, at most the number of lines |
| AutomationApply.RewriteBody | Automation.py:451-475 | the loop returns `Mapped` and `Flagged` for the body |
| AutomationApply.PriceIfKnownSpec | Automation.py:463-472 | a row is priced exactly when its trimmed upper-cased code is a key; then GPBefDisc and PriceAfVAT hold fmt2(MSRP) and GTotal fmt2(MSRP × quantity, 0 when unparsable), each where in range |
| AutomationApply.RewriteRowSpec | Automation.py:527-549 | an ineligible row is untouched; an eligible one has its description cleaned and is priced as `PriceIfKnownSpec` says |
| AutomationApply.PriceIfKnownIdempotent | Automation.py:463-472 | pricing a priced row again changes nothing when the columns read and written differ |
| AutomationApply.RewriteRowIdempotent | Automation.py:527-549 | rewriting a rewritten row changes nothing when the columns are distinct |
| AutomationApply.EnrichRowIdempotent | Automation.py:451-472 | the enrichment of both steps is idempotent |
| AutomationApply.RewriteRowPlain | Automation.py:527-549 | a rewrite keeps a row of plain fields plain |
| AutomationApply.EnrichRowPlain | Automation.py:453-472 | rewriting a row the reader produced leaves every field plain |
| AutomationApply.EnrichLineReadsBack | Automation.py:474-475 | what is written for a line reads back as the rewritten row |
| AutomationApply.EnrichLineIsLine | Automation.py:474-475 | what is written for a line is one line ending in "\n" |
| AutomationApply.EnrichLineFlag | Automation.py:472 | a line is flagged exactly when it is priced |
| AutomationApply.FlaggedCount | Automation.py:472 | `updated` counts exactly the priced lines |
| AutomationApply.FlaggedFilter | Automation.py:472 | the flagged count equals the number of lines a predicate keeps |
| Enrich.LeadWs | Automation.py:459 | the length of the leading whitespace run, every character of it whitespace and the next one not |
| Enrich.MarkerMatch | Automation.py:459 | a match of `\s*\(แถม\)\s*` at the start has positive length within the text |
| Enrich.RemoveMarkerFree | Automation.py:459 | no "(แถม)" survives the substitution |
| Enrich.CollapseWsKeepsFree | Automation.py:460 | collapsing whitespace does not create a "(แถม)" |
| Enrich.CollapseWsHead | Automation.py:460 | the collapse starts with whitespace exactly when its input does |
| Enrich.CollapseWsNoDouble | Automation.py:460 | after `\s{2,}` → " " no two whitespace characters are adjacent |
| Enrich.StripKeepsFree | Automation.py:460 | stripping keeps a text free of "(แถม)" |
| Enrich.StripKeepsNoDouble | Automation.py:460 | stripping keeps a text free of doubled whitespace |
| Enrich.CleanDescProperties | Automation.py:459-460 | a cleaned description has no "(แถม)", no doubled whitespace and no whitespace at either end |
| Enrich.RemoveMarkerNoop | Automation.py:459 | without "(แถม)" the substitution changes nothing |
| Enrich.CollapseWsNoop | Automation.py:460 | without doubled whitespace the collapse changes nothing |
| Enrich.CleanDescIdempotent | Automation.py:459-460 | cleaning a cleaned description changes nothing |
| Enrich.RemoveMarkerChars | Automation.py:459 | every character left is a space or comes from the input |
| Enrich.CollapseWsChars | Automation.py:460 | every character left is a space or comes from the input |
| Enrich.CleanDescPlain | Automation.py:459-461 | cleaning a field with no delimiter or line break keeps it so |
| Enrich.FieldOrOfLine | Automation.py:463 | `row[i] if i < len(row) else ""` agrees with `get_field` with a missing field read as "", and gives back the field written at that index |
| Enrich.SetField | Automation.py:469 | the row keeps its length; field `i` becomes `v` when in range; all other fields stay |
| Enrich.WritePrices | Automation.py:469-471 | GPBefDisc and PriceAfVAT get the unit price and GTotal the total, each when in range, the later write winning on a shared column; all other fields stay |
| Enrich.WritePricesKeepsReads | Automation.py:463-471 | writing the prices leaves the code and quantity fields in place |
| Enrich.PriceRowIdempotent | Automation.py:469-471 | pricing a priced row again with the same values changes nothing |
| Enrich.Fmt2Plain | Automation.py:269 | what `fmt2` writes never holds a delimiter or line break |
| Enrich.PriceRowPlain | Automation.py:469-471 | a priced row of plain fields stays plain |
| EditMinus0.MasterMap | Edit_minus0.py:88-109 | header names compared lower-cased without trimming: None exactly when a column is missing; the empty code is never a key |
| EditMinus0.MasterMapSpec | Edit_minus0.py:99-105 | the map is the fold of the records, and an empty map is accepted: it is empty exactly when no record has a code and a parsable MSRP |
| EditMinus0.LoadMsrpMap | Edit_minus0.py:83-109 | the loop fills exactly `MasterMap`'s map, or reports its error |
| EditMinus0.ProductAtZero | Edit_minus0.py:127-134 | `find_col` tests `is not None`, so an ItemCode in column 0 is found |
| EditMinus0.RewriteRowsWithMsrp | Edit_minus0.py:112-174 | the loop returns exactly the lines `RewriteRowsSpec` describes |
| EditMinus0.KeepOrPriceSpec | Edit_minus0.py:146-172 | an unpriced line comes out byte for byte; a priced one is one "\n" line that reads back as the priced row |
| EditMinus0.KeepOrPricePriced | Edit_minus0.py:150-172 | a line whose code has an MSRP is written as the priced row |
| EditMinus0.PricedRowReadsBack | Edit_minus0.py:165-172 | a priced row with its code in place reads back as that row |
| EditMinus0.RewriteRowsSpec | Edit_minus0.py:112-174 | one output line per input line, in order; the body itself when a column is missing |
| EditMinus0.Sap1TextSpec | Edit_minus0.py:201-238 | the sap1 outputs read back as header plus the repriced keyword lines, and header plus the repriced other lines |
| EditMinus0.MarkedReadsBack | Edit_minus0.py:237 | the keyword output reads back as header plus the repriced keyword lines |
| EditMinus0.UnmarkedReadsBack | Edit_minus0.py:238 | the other output reads back as header plus the repriced other lines |
| EditMinus0.Sap1Contents | Edit_minus0.py:214-230 | the two halves share out the body; the count and DocNums come from the keyword lines |
| EditMinus0.RewriteHalfReadsBack | Edit_minus0.py:229-238 | a file that reads back as header plus lines still does once the lines are repriced |
| EditMinus0.Sap1Step | Edit_minus0.py:201-238 | the keyword loop and both rewrites return what `Sap1TextSpec` describes |
| EditMinus0.Sap1Rewrite | Edit_minus0.py:214-230 | the keyword loop over a layout, then the rewrite of each half |
| EditMinus0.ProcessFolder | Edit_minus0.py:177-283 | a missing input, an unreadable master or an empty sap1 header stops the run with nothing written; otherwise four outputs and the summary |
| EditMinus0.RunSteps | Edit_minus0.py:200-266 | sap1 is read and its outputs written before sap2 is read |
| EditMinus0.WriteAndRoute | Edit_minus0.py:233-266 | the sap1 writes leave the sap2 input as it was |
| Negative.SplitTextSpec | Automation2.py:388-410 | both sap1 outputs read back as header plus their lines; the lists split the body; the total is the occurrence count |
| Negative.SplitStep | Automation2.py:388-410 | the sap1 loop returns the two texts the spec describes |
| Negative.RouteTextSpec | Automation2.py:423-440 | with the column unresolved both sap2 outputs are header only; otherwise they hold the matched and other lines |
| Negative.RouteStep | Automation2.py:423-433 | no loop at all when the DocNum column is unresolved |
| Negative.OutcomeFrame | Automation2.py:402-440 | a run writes the four outputs and nothing else; inputs stay |
| Negative.RunSplitAndMatch | Automation2.py:375-460 | read sap1, split, write, then read sap2, route, write: the store ends as `Outcome` says |
| Negative.PickAndRun | Automation2.py:356-460 | the first sap1 and sap2 names in sorted order that the rules accept; a missing one gives zero counts and no output |
| Automation2.ProcessNegativeAndMatch | Automation2.py:356-460 | the counts of the run, or zero counts and nothing written when an input is missing |
| Automation2.NameRuleExamples | Automation2.py:362 | the escaped, case-ignoring rule takes "SAP1_A.TXT" and rejects "sap1_atxt" |
| Automation2.CaseIgnored | Automation2.py:362 | for every prefix, a name is accepted exactly when its lower-case form is |
| Automation2.MissingDotRejected | Automation2.py:362 | for every prefix, the prefix, any stem not ending in "." and "txt" is refused: the "." of ".txt" is required |
| Automation2.AnyStemAccepted | Automation2.py:362 | for every prefix, the prefix, any stem without a line break (the empty stem included) and ".txt" is accepted |
| Pipeline.ProcessNegativeAndMatch | pipeline_api_to_checks.py:257-364 | the counts of the run, or zero counts and nothing written when a candidate list is empty |
| Pipeline.NameRuleExamples | pipeline_api_to_checks.py:268 | as written the rule accepts "sap1_atxt", rejects "SAP1_A.txt" and accepts "sap1.txt" |
| Pipeline.LooseAnyCharBeforeTxt | pipeline_api_to_checks.py:268 | as written any character but a line break may stand in place of the "." of ".txt" |
| Pipeline.IntendedNeedsDot | pipeline_api_to_checks.py:268 | under the glob rule every accepted name has "." before "txt" |
| Pipeline.IntendedRuleExamples | pipeline_api_to_checks.py:268 | the glob rule rejects "sap1_atxt" and accepts "sap1_a.txt" and "sap1.txt" |
| Watch.ProcessFolder | Auto_Checkminus_0.py:66-158 | a missing input skips the folder with nothing written; otherwise the picked files are the first in sorted order and the store ends as `Outcome` says |
| Watch.OnCreated | Auto_Checkminus_0.py:162-176 | only a directory whose name the date-range pattern accepts is processed; anything else changes nothing; a processed folder behaves as `ProcessFolder` |
| Alert.NoticeFor | Alert.py:202-214 | a notice is due exactly when the run raised or counted the keyword; "found" carries the count and DocNum total, "failed" the error |
| Alert.OnCreated | Alert.py:223-240 | the watcher's folder step, then the notice due, sent only when LINE is configured |
| Alert.TotalPositive | Alert.py:203 | a sum of counts is positive exactly when one count is |
| Alert.TotalPositiveWhenMarked | Alert.py:141-146 | the keyword total is positive exactly when some line holds the keyword |
| Alert.FoundExactlyWhenMarked | Alert.py:141-214 | the found notice is due exactly when some sap1 body line holds the keyword |
| CheckDelect0.RunFrame | check_delect0_SAP1_2.py:67-131 | only the four outputs are written, never an input; all four on success; nothing changes when the source fails |
| CheckDelect0.RunKeepsInputs | check_delect0_SAP1_2.py:94-131 | every other file keeps its text |
| CheckDelect0.RunOnlyOutputs | check_delect0_SAP1_2.py:94-131 | no file other than the four outputs is created |
| CheckDelect0.RunSucceeds | check_delect0_SAP1_2.py:68-108 | the run succeeds exactly when both inputs exist and both have a header line |
| CheckDelect0.RunWritesAll | check_delect0_SAP1_2.py:94-131 | a successful run writes all four outputs |
| CheckDelect0.RunSrcFailure | check_delect0_SAP1_2.py:68-74 | a missing or header-less source stops the run before any write |
| CheckDelect0.InputsNotOutputs | check_delect0_SAP1_2.py:8-19 | the input and output paths are distinct |
| CheckDelect0.CheckDelect | check_delect0_SAP1_2.py:67-131 | the script: untrimmed DocNums, raw keyword count, four outputs, as `Run` describes |
| Dates.SearchLeftmost | Automation2.py:168 | `rx.search` finds the leftmost match, and none only when there is none |
| Dates.NormalizeDateSpec | Automation2.py:159-164 | "" exactly when the token is not a calendar date of its pattern, otherwise the YYYY-MM-DD text of that date |
| Dates.NormalizeDateRejects | Automation2.py:159-164 | 30/02/2025 gives "" |
| Dates.NormalizeDateLeapDay | Automation2.py:159-164 | 29/02/2024 gives "2024-02-29" |
| Dates.ExtractFromFound | Automation2.py:166-175 | extraction takes the first pattern that yields a date |
| Dates.FirstFoundSpec | Automation2.py:166-175 | "" when every pattern's value is, otherwise the value at the first non-empty position |
| Dates.ExtractDateSpec | Automation2.py:166-175 | the date is the normalised leftmost match of the first pattern, in order yyyy-mm-dd, dd/mm/yyyy, yyyymmdd, that yields one |
| Dates.FirstDateSpec | Automation2.py:168-173 | a non-empty result is the normalised token at a match with no match before it |
| Dates.ExtractDateFromText | Automation2.py:166-175 | the loop with its early return computes `ExtractDate` |
| Dates.BaseName | Automation2.py:178 | `os.path.basename`: the result holds no "/" or "\\" and is a suffix of the path |
| Dates.BaseNameOfChild | Automation2.py:178 | the base name of a path ending in a separator-free name is that name |
| Dates.DetectFileDateSpec | Automation2.py:181-195 | the file is read only when the URL yields no date, and then only its first 256 KiB are searched; a read error gives "" |
| Dates.Head | Automation2.py:181-187 | `f.read(max_bytes)` reads a prefix of the file of at most 256 KiB, and all of a file no longer than that |
| Dates.DateSuffixDetermines | pipeline_api_to_checks.py:393-397 | for YYYY-MM-DD dates the suffix determines the range it was made from |
| Dates.FolderNameMatchesRange | Alert.py:20 | a name passes the watchers' pattern exactly when it is the range name of two `\d{4}-\d{2}-\d{2}` texts, possibly followed by "\n" |
| DoubleDocnum.CountedValues | Double_Docnum.py:78-81 | every counted value is a non-empty DocNum field |
| DoubleDocnum.DuplicatesTwice | Double_Docnum.py:84 | a value is a duplicate exactly when two different counted lines carry it |
| DoubleDocnum.TallyStep | Double_Docnum.py:79-81 | one more line adds its counted value, if any, to the tally |
| DoubleDocnum.InSetCounted | Double_Docnum.py:88-91 | filtering on a set without "" keeps exactly the lines whose counted value is in it |
| DoubleDocnum.FilteredCounted | Double_Docnum.py:88-91 | each kept line contributes exactly one counted value |
| DoubleDocnum.FilteredTally | Double_Docnum.py:88-91 | the filter keeps all counts of values in the set and none of others |
| DoubleDocnum.DupLinesMembers | Double_Docnum.py:84-91 | a line is extracted exactly when its DocNum is counted more than once, in order |
| DoubleDocnum.DupLinesCounts | Double_Docnum.py:84-91 | the number of extracted lines is the sum of the duplicated values' counts |
| DoubleDocnum.ReportReadsBack | Double_Docnum.py:95-97 | the output reads back as header plus the extracted lines |
| DoubleDocnum.CountDocNums | Double_Docnum.py:77-81 | the counting loop computes the tally of the counted values |
| DoubleDocnum.CountLine | Double_Docnum.py:79-81 | one step counts the line's DocNum once more when present and non-empty |
| DoubleDocnum.CountAdd | Double_Docnum.py:81 | counting zero or one more value keeps the counts exact |
| DoubleDocnum.ExtractDuplicates | Double_Docnum.py:87-91 | the extraction loop returns exactly the lines with a duplicated DocNum |
| DoubleDocnum.DuplicateLines | Double_Docnum.py:76-91 | both loops: count, keep values counted twice or more, extract their lines |
| DoubleDocnum.FindDuplicates | Double_Docnum.py:63-97 | a missing target, an empty header or a missing DocNum column writes nothing; otherwise the report |
| DoubleDocnum.BuildReport | Double_Docnum.py:63-97 | the report text and its number of duplicate lines |
| DoubleDocnum.LayoutReport | Double_Docnum.py:72-97 | the report of a layout with a header line |
| ChangDocNum.ParseInt | ChangDocNum.py:79-82 | `int(s)`: Some exactly for an integer numeral, negative only with a leading "-" |
| ChangDocNum.ParseIntOfIntToStr | ChangDocNum.py:79-89 | `int(str(i)) == i` |
| ChangDocNum.IntToStrInjective | ChangDocNum.py:89 | two integers with the same text are equal |
| ChangDocNum.BumpedInjective | ChangDocNum.py:86-93 | different counts give different new DocNums for the same value |
| ChangDocNum.StripClean | ChangDocNum.py:76 | trimming a field the reader produced gives a clean key |
| ChangDocNum.IntToStrClean | ChangDocNum.py:89 | the text of an integer is a clean key |
| ChangDocNum.BumpedClean | ChangDocNum.py:86-93 | a new DocNum is non-empty, clean, and fits in its field |
| ChangDocNum.Renumber | ChangDocNum.py:84-93 | one entry per line (its meaning is stated by RenumberKeepsFirst) |
| ChangDocNum.Resolved | ChangDocNum.py:84-93 | one resolved DocNum per line |
| ChangDocNum.RenumberKeepsFirst | ChangDocNum.py:84-85 | a line keeps its DocNum exactly when it is the first with that DocNum |
| ChangDocNum.RenumberClean | ChangDocNum.py:84-93 | the renumbering only produces clean keys |
| ChangDocNum.RenumberCollides | ChangDocNum.py:84-89 | as written DocNums 5, 5, 6 become 5, 6, 6: a bumped DocNum can equal an existing one |
| ChangDocNum.CollideSteps | ChangDocNum.py:84-89 | line by line: the first 5 and the 6 stay, the second 5 becomes 6 |
| ChangDocNum.BumpDropsZeros | ChangDocNum.py:80-89 | a bumped DocNum loses its leading zeros: "007" bumped once is "8" |
| ChangDocNum.DistinctRenumber | ChangDocNum.py:84-93 | the intended renumbering: every repeat takes the first unused bumped value, so no two resolved DocNums are equal |
| ChangDocNum.BumpStep | ChangDocNum.py:86-93 | a repeated DocNum takes the first free bumped value |
| ChangDocNum.KeepStep | ChangDocNum.py:84-85 | a first occurrence keeps its DocNum |
| ChangDocNum.FirstStaysDistinct | ChangDocNum.py:84-85 | a first occurrence differs from every earlier resolved DocNum |
| ChangDocNum.FreeBump | ChangDocNum.py:86-93 | a free bumped value exists, the smallest count with an unused value |
| ChangDocNum.Keys | ChangDocNum.py:75-76 | one trimmed DocNum per body line |
| ChangDocNum.FixedLines | ChangDocNum.py:74-95 | one rewritten line per body line |
| ChangDocNum.FixedLineSpec | ChangDocNum.py:89-95 | a rewritten line is one "\n" line that reads back as the old row with the DocNum replaced |
| ChangDocNum.FixedLinesSpec | ChangDocNum.py:74-95 | every rewritten line keeps its fields but the DocNum, whose trimmed value is the resolved one |
| ChangDocNum.KeysClean | ChangDocNum.py:76 | the trimmed DocNums are clean keys |
| ChangDocNum.ReportReadsBack | ChangDocNum.py:98-100 | the output reads back as header plus one rewritten line per body line |
| ChangDocNum.DistinctOutput | ChangDocNum.py:74-100 | with the intended renumbering no two written lines share a DocNum, and every other field is kept |
| ChangDocNum.FixLines | ChangDocNum.py:71-95 | the loop counts each DocNum in `seen` and writes the lines `FixedLines` describes; None at the first row without a DocNum field |
| ChangDocNum.NewDocNum | ChangDocNum.py:85-93 | the new DocNum the loop's counter gives for a value counted `count` times |
| ChangDocNum.FixStep | ChangDocNum.py:75-95 | one pass: count the DocNum, then write the line as `Renumber` says |
| ChangDocNum.CountStep | ChangDocNum.py:84-89 | counting keeps `seen` equal to the spec count and gives `Renumber`'s new DocNum |
| ChangDocNum.FixDocNums | ChangDocNum.py:59-100 | a missing target, empty header, missing DocNum column or row without the field writes nothing; otherwise the output `BuildReport` describes |
| ChangDocNum.BuildReport | ChangDocNum.py:60-100 | the text to write for the target's text |
| ChangDocNum.LayoutReport | ChangDocNum.py:66-100 | the text to write for a layout |
| ChangDocNum.FixLinesDistinct | ChangDocNum.py:71-95 | the loop with the intended renumbering writes lines no two of which share a DocNum |
| Download.Sanitized | Automation2.py:75-78 | the length is kept, no reserved `<>:"/\\|?*` character remains, and every other character is unchanged |
| Download.ReplaceOneChar | Automation2.py:77 | `replace(c, "_")` for one character |
| Download.SanitizeFilename | Automation2.py:75-78 | the loop computes `Sanitized`; sanitising twice is sanitising once |
| Download.BackoffSchedule | Automation2.py:80-81 | the waits are 1, 2, 4, 8, 16, then 30 seconds; the delay never shrinks |
| Download.StripAllSettled | Automation2.py:239 | stripping the pieces again changes nothing; each stripped piece is its piece with only whitespace cut from the two ends |
| Download.StripNoComma | Automation2.py:239 | stripping a comma-free piece keeps it comma-free, and stripping is idempotent |
| Download.SplitIdsClean | Automation2.py:238-239 | no id is empty, surrounded by whitespace or holds a comma |
| Download.SplitIdsJoin | Automation2.py:238-239 | joining clean ids with commas and splitting gives them back |
| Download.MulticastBatches | Automation2.py:283-285 | consecutive batches of at most 500 users, none empty, all but the last full, concatenating to the list |
| Download.UserRequests | Automation2.py:270-290 | one push for one user, multicast batches for more; every user is addressed once, in order |
| Download.LStripSlash | Automation2.py:112 | `lstrip("/")`: the result does not start with "/" |
| Download.ReplaceAbsent | Automation2.py:109 | replacing an absent pattern changes nothing |
| Download.NormalizeUrlKeeps | Automation2.py:108-111 | an http(s) URL without "///" is kept as it is |
| Download.NormalizeUrlJoins | Automation2.py:108-112 | any other reference ends up below the base URL with leading slashes dropped |
| Download.LastDot | pipeline_api_to_checks.py:442 | the last "." before a position |
| Download.SplitExtSpec | pipeline_api_to_checks.py:442 | `splitext`: the parts rejoin to the name; the extension is one "." and no other |
| Download.NumberedInjective | pipeline_api_to_checks.py:445 | different numbers give different paths |
| Download.NextFree | pipeline_api_to_checks.py:441-449 | the first `i >= 2` whose numbered name is free; the loop ends since the files are finitely many |
| Download.TriedStep | pipeline_api_to_checks.py:444-449 | each tried number is new, so the tried set grows by one |
| Download.SaveDownload | pipeline_api_to_checks.py:420-454 | an entry without a link changes nothing; a failed download saves nothing and leaves at "<key>_<suffix>.txt" whatever it wrote before failing; otherwise the file is saved, and renamed to a free dated name when a date is found in the link or the file's first 256 KiB, never overwriting a file |
| Payout.FromClauseAppend | Payout.py:31 | one more sender adds its `from:` term after the others |
| Payout.BuildGmailQueryValue | Payout.py:30-33 | the query names both senders in order, the exact subject and a 30-day window |
| Payout.MatchLen | Payout.py:84 | a positive match length follows a link prefix and stays within the text |
| Payout.FindIdsSound | Payout.py:84-85 | every id found is the maximal run of id characters right after a sheet-link prefix |
| Payout.FoundIsMatched | Payout.py:85 | an id found from a position is the group of a match |
| Payout.DedupStep | Payout.py:87-89 | one more id is kept exactly when it was not seen before |
| Payout.DedupMembers | Payout.py:86-90 | the kept ids are exactly the found ids |
| Payout.DedupDistinct | Payout.py:86-90 | no id is returned twice |
| Payout.DedupOrder | Payout.py:86-90 | the ids come out in order of first appearance |
| Payout.GsheetIdsSpec | Payout.py:83-90 | each matched id once, each the id of a sheet link, in order of first appearance |
| Payout.ExtractGsheetIds | Payout.py:83-90 | the loop with its `seen` set computes `GsheetIds` |
| Payout.SegmentsPreOrder | Payout.py:61-69 | `add_part` visits a part's data before its nested parts at every depth |
| Payout.AddPart | Payout.py:61-69 | `segments` grows by the pre-order data of the part |
| Payout.BodyTextSources | Payout.py:71-81 | the payload's own body is read only when it has no parts |
| Payout.GetBodyText | Payout.py:55-81 | the segments joined with "\n" |
| Payout.Pad2Value | Payout.py:20 | `{idx:02d}` reads back as `idx` |
| Payout.SheetPathInjective | Payout.py:20 | two indexes never name the same file, whatever the time stamp |
| Payout.SavedSheets | Payout.py:115-129 | sheet `k` holds the `k`-th exported text: numbering starts at 01 and has no gaps |
| Payout.SavedAt | Payout.py:122-124 | sheet `k` holds the `k`-th text; no later save has its name |
| Payout.SavedKeeps | Payout.py:115-129 | a file that is none of the sheets keeps its text |
| Payout.SavedOnly | Payout.py:115-129 | every file after the saves was there before or is a sheet |
| Payout.SaveSheets | Payout.py:112-129 | every linked sheet exported and saved under the next number, as `Saved` describes |
| Payout.SaveMessageSheets | Payout.py:116-129 | the inner loop over one message's sheets |

## Left out

- Table.ParseRow: csv quoting is not modelled on read or write. A field holding
  the delimiter or a quote, and a quoted field, are read and written
  unquoted. A row with one empty field is written as a bare line, where
  `csv.writer` writes `""`.
- Table.Lines: `splitlines` breaks only on "\n". A lone "\r", "\x0b", "\x0c",
  "\x1c"–"\x1e", "\x85" and "\u2028" do not end a line in the model.
- Numbers.PyFloat: `float()` is an optional sign, digits and an optional
  fraction, over exact reals. Exponents ("1e3"), "inf", "nan", underscores
  ("1_000") and non-ASCII digits are rejected.
- ChangDocNum.ParseInt: `int()` accepts an optional sign and ASCII digits
  only, so underscores and non-ASCII digits are rejected.
- Numbers.Fmt2: `f"{x:.2f}"` rounds half up on an exact real. Python rounds
  the binary float half to even, so 0.125 gives "0.12" in Python and "0.13"
  here. `msrp * q` is exact real arithmetic, not a binary float.
- Strings.Lower: `str.lower`/`str.upper` change ASCII letters only.
- Download.SaveDownload: the 256 KiB head is counted in characters of the
  decoded text, not bytes, so a multi-byte character cut at the limit, and
  the latin-1 fallback of the decoding, are not modelled.
- Dates.MatchAt: `\d`, `\b` and IGNORECASE are ASCII only. A Thai letter
  glued to a date counts as a word boundary here, but not in Python.
- Download.NormalizeUrl: `urljoin` is modelled as base + "/" + reference
  without dot-segment resolution or other schemes, so "./x" gives
  base/./x where Python gives base/x.
- Table.DetectDialect: the csv Sniffer's heuristics are an unconstrained
  `sniff` parameter; only its restriction to `, \t | ;` and the tab fallback
  are modelled.
- Automation.LoadMsrpMap: the retry over the five encodings and the Excel
  (.xlsx/.xls) branch are not modelled. The table `csv.DictReader` produced
  is the parameter, so the reader's own parse (comma dialect, quoting,
  skipped blank rows, short rows read as None) and a failed decode are not
  modelled.
- Automation.LoadMsrpMap: a master-data file whose suffix is not .csv,
  .txt, .xlsx or .xls raises RuntimeError (Automation.py:320-321); that
  error is not modelled.
- EditMinus0.LoadMsrpMap: the retry over encodings is not modelled. A
  missing column fails once.
- Files.FileStore: a file holds text as the scripts see it in text mode.
  Reading turns "\r\n" into "\n", and a `"w"` write without `newline=""`
  (Double_Docnum.py:95, check_delect0_SAP1_2.py:94-129) writes "\n" as
  "\r\n" on Windows; neither translation is modelled.
- Files.FileStore.Write: a write never fails. A failed `.tmp` write in
  Automation.OverwriteInPlace and a failed output write are not modelled.
- Payout.SaveSheets: a failed `save_txt` is not modelled. In Payout.py,
  `idx += 1` runs before `save_txt`, so a failed write leaves a gap in the
  numbering. Only a failed export (which happens before the increment) is
  modelled.
- Folder.PickFirst: sorting and glob matching compare case-sensitively, by
  code point. On Windows, `glob` and `Path` ordering ignore case.
- Alert.OnCreated: the HTTP call of `line_push`, its token handling and its
  result are not modelled. Only which notice is due and whether the token and
  recipient are configured are modelled. The message text is not built.
- Download.UserRequests: the HTTP requests of `line_notify`, their status
  codes, the LINE_TO_ID push and the group pushes are not modelled.
- Watch.ProcessFolder: Alert.py creates `minus_0` before it looks for
  inputs, so a skipped folder still gains an empty directory. Directories are
  not modelled.
- Watch.OnCreated: the watchdog observer, its thread and the
  `time.sleep` pause are not modelled.
- Download.BackoffSchedule: only the computed delay is modelled, not the
  sleep.
- The API export (`post_export`, `safe_json`, `download_file`), the SFTP
  upload, the Gmail and Drive API calls and token handling, and
  push_to_server.py are network I/O and are not modelled. A download is a
  parameter holding the produced text, or, for a failed download, the text
  written before the failure, if the file had been opened.
- The `main` functions (argparse, environment variables, `.env` loading,
  default dates from the clock) are not modelled. Their values are
  parameters, except as the next line says.
- Alert.OnCreated: Alert.py:20 reads `FOLDER_NAME_PATTERN` from the
  environment; the model fixes it to its default
  `^\d{4}-\d{2}-\d{2}_to_\d{4}-\d{2}-\d{2}$` (Dates.FolderNameMatches),
  so a different pattern set in the environment is not modelled.
- Payout.GetBodyText: the `decode` parameter never fails. A malformed
  base64 payload makes `urlsafe_b64decode` raise (Payout.py:66, :78) and
  aborts the run; that case is not modelled. `iso_date` and `default_dates` are clock and formatting code
  and are not modelled.
- Printing and logging are not modelled.

## Findings

| source | as written | input that shows it | evidently intended | confidence | as-written member | corrected member |
|---|---|---|---|---|---|---|
| Automation.py:439 | `gi("itemcode") or colmap.get("code")` treats index 0 as false, so an ItemCode in the first column is reported missing (the same at :512) | header `ItemCode,GPBefDisc,PriceAfVAT,GTotal,Quantity` with no `code` column | a present ItemCode column is found at any position, 0 included, as Edit_minus0.py's `is not None` does | not executed | AutomationApply.ItemCodeAtZeroIsMissing | AutomationApply.ResolveIntendedFindsItem |
| ChangDocNum.py:84-89 | a repeated DocNum becomes `base + (count - 1)` with no check that the value is free | DocNums 5, 5, 6 become 5, 6, 6 | after renumbering no two lines share a DocNum | not executed | ChangDocNum.RenumberCollides | ChangDocNum.FixLinesDistinct |
| pipeline_api_to_checks.py:268 | `re.fullmatch(pat.replace("*", ".*"), x)` leaves "." unescaped, so any character may stand before "txt" | `sap1_atxt` is taken as a sap1 input | the glob `sap1*.txt`, with a literal "." | not executed | Pipeline.LooseAnyCharBeforeTxt | Pipeline.IntendedRuleExamples |
