# Credit-report analyser and bank-logo downloader, modelled in Dafny

This project models the decision logic of three Python scripts.

- **krm.py**, a credit-risk report (KRM) analyser, is modelled through its
  tables, not the PDF. Each page is given as a grid of optional text cells.
  - `parse_tables` reads the limit table ("LİMİT BİLGİLERİ") and the risk
    table ("RİSK BİLGİLERİ") of pages 1 and 2. It locates the columns with
    `find_column_indices`, normalises amounts with `clean_number` and dates
    with `parse_date`. It then builds one limit record and one risk record
    per source ("KAYNAK-…").
  - `identify_passive_sources` marks sources whose limit revision is
    overdue and whose total limit and total risk are both zero.
    `analyze_report` drops those sources.
  - `find_anomalies` applies five rules to every remaining source:
    - a cash limit exceeded or short;
    - a non-cash limit exceeded;
    - risk without a total limit;
    - overdue days;
    - total-limit usage above 95 % or 100 %.

    It sorts the findings CRITICAL first, then by source name.
  - `format_number` prints an amount with "." as the thousands separator.
- **logo_fetcher.py** downloads a logo for every bank of a spreadsheet.
  - `read_banks_from_excel` keeps the rows that name a bank and have a
    usable web address.
  - `clean_domain` and `sanitize_filename` prepare the domain and the file
    name.
  - `fetch_logo` asks three logo services in a fixed order for the domain.
    For a ".com.tr" domain it then asks them for its ".com" form. It saves
    the first reply with status 200 and more than 100 bytes, choosing the
    file extension from the Content-Type header or else from the first
    bytes of the body.
  - `fetch_all_logos` counts the saved logos and lists the failed banks.
- **logo_fetcher_simple.py** is the same downloader without the ".com"
  fallback.

The model has one module per concern:

- `Text` covers the Python string operations used: `in`, `replace`,
  `strip`, `lower` and `split`, plus decimal digits.
- `Numbers` covers `clean_number`, `format_number` and `parse_date`.
- `Columns` covers `find_column_indices`.
- `Extraction` covers `parse_tables`.
- `Anomalies` covers `find_anomalies`.
- `Analysis` covers `identify_passive_sources` and the split in
  `analyze_report`.
- `LogoFetcher` covers logo_fetcher.py.
- `LogoFetcherSimple` covers what differs in logo_fetcher_simple.py.

Code that updates state step by step is written as methods with loops. Each
such method is proved equal to a specification function, and that
function's properties are proved as lemmas. This covers:

- `FindColumnIndices`, `ParseTables`, `IdentifyPassiveSources` and
  `FindAnomalies`;
- `SanitizeFilename`, `FetchLogo`, `ReadBanks` and `FetchAllLogos`.

Expression-only code is written as functions: `clean_number`, `parse_date`,
`format_number` and `clean_domain`.

Where the code and its written description differ, the model follows the
code:

- **Usage at exactly 100 %.** The total limit is exceeded only when usage
  is *above* 100 %. Usage of exactly 100 % is still above 95 %, so it
  raises the high-usage WARNING (`Anomalies.UsageBoundaries`). The
  description expects nothing at that point.
- **Order of findings.** Findings are sorted CRITICAL before WARNING.
  Consider one source with a cash limit of 1000, cash risk of 1100, a
  total limit of 2000 and 45 days overdue. Its critical delay finding comes
  before its cash-limit warning (`Anomalies.SingleSourceExample`). The
  description lists them the other way round.
- **Column patterns.** A column matches a field when it contains *any one*
  of the field's patterns (krm.py:115), not all of them.
  - The non-cash limit patterns are `['gayrinakdi', 'limit']`, so the
    non-cash limit takes the first header cell that contains "limit"
    (`Extraction.NonCashLimitTakesFirstLimitColumn`). In the usual layout
    that cell is the group limit.
  - The non-cash risk patterns `['gayrinakdi', 'risk']` behave the same
    way.
- **Title containing both section titles.** A table whose title contains
  both "LİMİT BİLGİLERİ" and "RİSK" is never a limit table. If its title
  also contains "RİSK BİLGİLERİ", it is read as a risk table
  (`Extraction.BothTitlesMakeRiskTable`).
- **Tests that never decide.** Some tests in the sources can never change
  the outcome:
  - the spreadsheet filter's `strip().startswith(' ')` and `'banka'` tests
    (`LogoFetcher.RowFilter`);
  - the `'icon'` test of the extension choice, since "icon" contains "ico"
    (`LogoFetcher.IconMentionsIco`).

## Model

| member | source | states |
|---|---|---|
| Text.ContainsIffOccurs | krm.py:115 | `pat in s` holds exactly when `pat` occurs in `s` at some position |
| Text.ContainsInfix | krm.py:267 | a text that contains a pattern keeps containing it inside any longer text |
| Text.ReplaceAll | krm.py:184 | `str.replace`, left to right over non-overlapping occurrences; replacing a pattern by itself changes nothing; pinned further by ReplaceAbsent and the ReplaceChar lemmas |
| Text.ReplaceAbsent | logo_fetcher.py:58 | replacing a pattern that does not occur leaves the text unchanged |
| Text.ReplaceCharAt | krm.py:184 | replacing one character changes the length by (new length − 1) per occurrence; a one-character replacement changes only the occurrences |
| Text.ReplaceCharCount | krm.py:184 | after replacing `c` by a text without `c`, no `c` remains; each other character is counted as before plus its copies inside the replacements |
| Text.ReplaceCharAppend | krm.py:184 | character replacement distributes over concatenation |
| Text.IsSpace | krm.py:114 | exactly the code points Python's `isspace` accepts; none of them is a digit, an ASCII letter, `_`, `-`, `.` or `,`, so stripping never eats an amount, a key or a file name |
| Text.StripBy | logo_fetcher.py:92 | the stripped text is no longer than the input and starts and ends with a character that is not stripped |
| Text.Strip | krm.py:114 | `strip()` leaves no white space at either end |
| Text.StripChar | logo_fetcher.py:92 | `strip('_')` leaves no `_` at either end |
| Text.StripUntrimmed | krm.py:114 | stripping a text that has nothing to strip at its ends leaves it unchanged |
| Text.StripKeepsInfix | krm.py:267-270 | a pattern with no white space at its ends that occurs in a text still occurs after `strip()` |
| Text.LowerChar | krm.py:114 | `lower()` of one character leaves no ASCII capital and keeps lower-case letters, digits, `_` and `-` |
| Text.Lower | krm.py:114 | `lower()` leaves no ASCII capital and never shortens the text ("İ" becomes two characters) |
| Text.LowerAppend | logo_fetcher.py:61 | `lower()` distributes over concatenation |
| Text.LowerKeepsEnds | logo_fetcher.py:61 | lower-casing a text without white space at its ends adds none |
| Text.LowerAscii | krm.py:114 | on ASCII text `lower()` keeps the length and maps exactly 'A'–'Z' to 'a'–'z' |
| Text.Split | krm.py:202 | `split('/')` gives at least one part |
| Text.SplitCount | krm.py:202-203 | `split('/')` gives one part more than there are separators |
| Text.SplitWithoutSep | krm.py:202 | a text without separator splits into itself |
| Text.SplitAtFirst | krm.py:202 | the first part ends at the first separator |
| Text.DigitsValueAppend | krm.py:207 | the value of a digit string is the value of its head times a power of ten plus the value of its tail |
| Text.DigitsValueBound | krm.py:207 | n digits denote a value below 10^n |
| Text.NatToDigits | krm.py:532 | the decimal digits of n are non-empty and denote n |
| Text.PadDigits | krm.py:194 | the zero-padded digits of n have the given width and denote n |
| Numbers.NormalizeAmountText | krm.py:184 | the text handed to `float()` holds no newline and no comma; NormalizedPointsAreCommas adds that its points are exactly the input's commas |
| Numbers.ParseUnsigned | krm.py:185 | `float()` on digits with at most one point: it fails on the empty text and never yields a negative value; ParseUnsignedOfDigits pins plain digit strings |
| Numbers.ParseDecimal | krm.py:185 | `float()` on an optional sign and digits with at most one point: it fails on the empty text, and a negative value needs a leading "-"; pinned by ParseDecimalOfDigits and ParseDecimalPoint |
| Numbers.CleanNumber | krm.py:171-187 | None, "" and "0" give 0; any other non-zero result is the parse of the text after dropping newlines and "." and turning "," into "." |
| Numbers.NormalizedPointsAreCommas | krm.py:184 | after normalisation the text holds exactly as many "." as the input held "," |
| Numbers.ManyPointsDoNotParse | krm.py:185 | a text with two or more "." is not a number to `float()` |
| Numbers.TwoDecimalCommasGiveZero | krm.py:183-187 | an amount with two or more "," gives 0 instead of raising |
| Numbers.CleanNumberTwoCommasExample | krm.py:183-187 | "1,2,3" gives 0 |
| Numbers.CleanNumberDecimalComma | krm.py:184-185 | a "."-grouped integer part followed by "," and decimal digits is read as that fixed-point number |
| Numbers.CleanNumberGroupedExample | krm.py:184-185 | "1.234.567,89" is read as 1234567.89 |
| Numbers.GroupedExampleText | krm.py:532 | 1234567 with decimals "89" prints as "1.234.567,89" |
| Numbers.GroupedThousandsExample | krm.py:532 | 1234 prints as "1.234" |
| Numbers.GroupedChars | krm.py:532 | a grouped integer consists of digits and "." only |
| Numbers.UngroupedDigits | krm.py:532 | dropping the "." of a grouped integer gives its plain decimal digits |
| Numbers.NormalizeFormatted | krm.py:532 | the printed amount normalises to its plain digits, with "-" for negative amounts |
| Numbers.GroupThousands | krm.py:532 | the `,` thousands grouping of a whole amount, dots in place of commas: it is never empty and starts with a digit; GroupedChars pins its characters |
| Numbers.FormatNumber | krm.py:522-532 | the printed amount starts with "-" exactly when the amount is negative, followed by a digit; pinned by GroupedChars, NormalizeFormatted and FormatNumberRoundTrip |
| Numbers.FormatNumberRoundTrip | krm.py:522-532 | `clean_number` reads back every whole amount `format_number` prints |
| Numbers.ParseDecimalOfDigits | krm.py:185 | a digit string, optionally negated, is parsed as its value |
| Numbers.ParseDecimalPoint | krm.py:185 | digits, ".", and digits parse as the fixed-point value |
| Numbers.LaterDate | krm.py:278 | `max` of two dates is one of them and is before neither |
| Numbers.ParseInt | krm.py:207 | `int()` succeeds exactly on non-empty digit strings |
| Numbers.ExpandYear | krm.py:205-206 | a two-digit year falls in 1950–2049; any other width is read as it stands |
| Numbers.TwoDigitYearPivot | krm.py:206 | "49" becomes 2049 and "50" becomes 1950 |
| Numbers.TwoDigitYearExpands | krm.py:205-206 | the last two digits of a year in 1950–2049 expand back to that year |
| Numbers.ExpandTwoDigits | krm.py:206 | a two-digit year v becomes 2000 + v below 50 and 1900 + v otherwise |
| Numbers.ParseDate | krm.py:189-210 | a result is a valid calendar date whose day, month and year are the three "/"-separated parts; empty input and any other number of parts give None |
| Numbers.SplitThreeDigitParts | krm.py:202 | three digit strings joined by "/" strip to themselves and split back into the three |
| Numbers.ParseDateRoundTrip | krm.py:189-210 | every valid date written dd/mm/yyyy parses back to itself |
| Numbers.ParseDateTwoDigitYearRoundTrip | krm.py:189-210 | every valid date of 1950–2049 written dd/mm/yy parses back to itself |
| Columns.AnyPatternInIff | krm.py:115 | a cell matches a field exactly when some one of the field's patterns occurs in it |
| Columns.HeaderTexts | krm.py:113-114 | there is one normalised text per header cell |
| Columns.NormalizeHeader | krm.py:114 | `str(col).replace('\n', ' ').lower().strip()`: the compared text has no blank at either end; NormalizePlainHeader pins plain headers |
| Columns.LeftmostMatch | krm.py:113-117 | the scan stops at the first matching cell; every cell before it fails; None means no cell matches |
| Columns.FindColumnIndices | krm.py:91-118 | the loop computes the column resolution, and every index lies inside the header |
| Columns.ResolveColumns | krm.py:111-118 | the dictionary `find_column_indices` builds: every resolved index lies inside the header; ResolvedColumnIsLeftmostMatch and ResolvedKeysComeFromMapping pin which fields get which index |
| Columns.GrupCellMatches | krm.py:105-118 | the header "Grup Limit" matches the pattern "grup limit" |
| Columns.GrupCellIsNotNakdi | krm.py:105-118 | the header "Grup Limit" does not match the pattern "nakdi limit" |
| Columns.NakdiCellMatches | krm.py:105-118 | the header "Nakdi Limit" matches the pattern "nakdi limit" |
| Columns.ResolvedColumnIsLeftmostMatch | krm.py:111-118 | a field gets an index exactly when some cell matches it; the index is the leftmost matching cell |
| Columns.ResolvedKeysComeFromMapping | krm.py:111-118 | only fields of the mapping get an index |
| Columns.PatternInFirstCell | krm.py:115-117 | one pattern of a field occurring in the first cell is enough to resolve the field to column 0 |
| Columns.NoPatternWithout | krm.py:115 | a cell lacking a character that every pattern has matches none of them |
| Columns.NormalizePlainHeader | krm.py:114 | a plain ASCII header without newlines normalises to its lower-cased, trimmed text |
| Columns.DocumentedExample | krm.py:102-110 | the documented header and mapping give {grup: 0, nakdi: 1} |
| Extraction.FieldCell | krm.py:287-290 | a field's cell is present exactly when its column was resolved and lies inside the row |
| Extraction.Amount | krm.py:287-290 | an absent cell is the amount 0 |
| Extraction.DateField | krm.py:273-274 | a parsed date comes from a present cell and is a valid date |
| Extraction.LatestRevision | krm.py:276-282 | the revision date is missing only when both dates are; otherwise it is one of them and before neither |
| Extraction.Truncate | krm.py:329 | `int()` truncates toward zero |
| Extraction.BuildLimit | krm.py:272-293 | a limit record takes the latest revision date; it is overdue exactly when that date is before the cutoff; absent amounts are 0 |
| Extraction.BuildRisk | krm.py:324-330 | absent amounts are 0; overdue days are the integer part of the amount, rounded toward zero (at most the amount when it is not negative, at least the amount when it is negative, less than 1 away) |
| Extraction.Classify | krm.py:242-298 | a limit table exactly when the title names the limit section and not "RİSK"; a risk table exactly when it names the risk section, so such a title is never read as a limit table |
| Extraction.AcceptedRow | krm.py:267 | for a present first cell, a data row exactly when the cell contains "KAYNAK-": the emptiness test never decides |
| Extraction.RowKey | krm.py:270 | the stripped first cell: no longer than the cell and without a blank at either end; RowKeyIsSourceName adds that it keeps "KAYNAK-" |
| Extraction.AddTable | krm.py:234-332 | a table of fewer than three rows changes nothing; TableKeys pins the keys it adds |
| Extraction.AddTableTouchesOneKind | krm.py:242-298 | a table is read as a limit or a risk table, never both: one dictionary comes out unchanged |
| Extraction.ExtractDocument | krm.py:212-337 | a document of at most one page yields no records, since page 0 is never read; DocumentKeys and DocumentLimitsConsistent pin the rest |
| Extraction.ParseTables | krm.py:212-337 | the nested loops over pages, tables and rows compute the specification of the extraction |
| Extraction.NextPage | krm.py:229-235 | reading one more page appends that page's tables, or nothing for a missing page |
| Extraction.ReadTable | krm.py:234-332 | one table updates the two dictionaries as its kind prescribes |
| Extraction.ReadLimitRows | krm.py:266-295 | the row loop of a limit table stores each accepted row's record under its key |
| Extraction.ReadRiskRows | krm.py:318-332 | the row loop of a risk table stores each accepted row's record under its key |
| Extraction.BothTitlesMakeRiskTable | krm.py:242-298 | a title containing both section titles is read as a risk table |
| Extraction.RowKeyIsSourceName | krm.py:267-270 | the key of an accepted row contains "KAYNAK-" and has no surrounding white space |
| Extraction.LimitRowsKeys | krm.py:266-293 | a key is in the result exactly when it was there before or some accepted row has that key |
| Extraction.RiskRowsKeys | krm.py:318-330 | a key is in the result exactly when it was there before or some accepted row has that key |
| Extraction.LastLimitRowWins | krm.py:286 | a later row with the same key overwrites the earlier limit record |
| Extraction.LastRiskRowWins | krm.py:325 | a later row with the same key overwrites the earlier risk record |
| Extraction.DataRowsOfTable | krm.py:266 | the data rows are the rows after the title and the header |
| Extraction.TableKeys | krm.py:234-332 | one table adds exactly the keys of its accepted rows, to the dictionary of its kind |
| Extraction.TablesLimitKeys | krm.py:234-295 | a source is a limit key exactly when it was one before or keys an accepted row of some limit table |
| Extraction.TablesRiskKeys | krm.py:298-332 | a source is a risk key exactly when it was one before or keys an accepted row of some risk table |
| Extraction.TablesReadArePages1And2 | krm.py:229-235 | only the tables of pages 1 and 2 are read |
| Extraction.DocumentKeys | krm.py:212-337 | a source is in the result exactly when an accepted row of a table of pages 1–2 has it as key |
| Extraction.DocumentKeysAreSourceNames | krm.py:267-270 | every extracted key contains "KAYNAK-" and is trimmed |
| Extraction.DocumentLimitsConsistent | krm.py:276-284 | every limit record's revision date is valid, and the record is overdue exactly when that date is before the cutoff |
| Extraction.LimitColumnKeysDistinct | krm.py:249-256 | the limit fields are distinct, and the non-cash limit is sought with the patterns "gayrinakdi" and "limit" |
| Extraction.NonCashLimitTakesFirstLimitColumn | krm.py:252 | when the first header cell contains "limit", the non-cash limit resolves to column 0 |
| Anomalies.CashRule | krm.py:392-411 | fires exactly when cash risk exceeds a positive cash limit, valued by the excess; a WARNING exactly when a positive total limit covers the risk, else CRITICAL |
| Anomalies.NonCashRule | krm.py:413-433 | fires exactly when non-cash risk exceeds a positive non-cash limit; CRITICAL exactly when it also exceeds a positive total limit, then valued against it, else a WARNING valued against the non-cash limit |
| Anomalies.UnlimitedRule | krm.py:435-443 | a CRITICAL exactly when there is risk and the total limit is 0, valued by the risk |
| Anomalies.DelayRule | krm.py:445-453 | fires exactly when days are overdue, valued by the days; CRITICAL exactly beyond 30 days |
| Anomalies.UsageRule | krm.py:455-474 | fires only with a positive total limit; a total-limit excess is a CRITICAL valued by the excess, high usage a WARNING valued by the usage |
| Anomalies.UsageAbove | krm.py:457-467 | usage above a threshold is risk above that share of the limit |
| Anomalies.UsageRuleThresholds | krm.py:455-474 | the total limit is exceeded exactly when risk exceeds it; usage is high exactly when risk is above 95 % of the limit and at most the limit |
| Anomalies.UsageBoundaries | krm.py:458-467 | exactly 95 % raises nothing; exactly 100 % raises the high-usage WARNING |
| Anomalies.RulesFor | krm.py:392-474 | at most five findings per source, all about that source |
| Anomalies.RuleValuesArePositive | krm.py:392-474 | every finding's value is positive |
| Anomalies.CashLimitExamples | krm.py:392-411 | cash risk 1200 over a limit of 1000 is CRITICAL by 200 without a total limit, and a WARNING by 200 with a total limit of 5000 |
| Anomalies.SingleSourceExample | krm.py:365-476 | the example source yields exactly a CRITICAL delay followed by a cash-limit WARNING |
| Anomalies.LessIsStrictTotal | krm.py:476 | the sort key (severity rank, source) orders findings strictly and totally |
| Anomalies.StrLessTransitive | krm.py:476 | string order is transitive |
| Anomalies.StrLessTotal | krm.py:476 | any two different strings are ordered |
| Anomalies.Insert | krm.py:476 | insertion adds exactly one element |
| Anomalies.InsertSorted | krm.py:476 | inserting into a sorted list keeps it sorted |
| Anomalies.InsertStable | krm.py:476 | insertion places an element after every earlier one with the same key |
| Anomalies.SortAnomalies | krm.py:476 | the result is sorted, a permutation of the input, and keeps the order of findings with equal keys |
| Anomalies.SortedUnique | krm.py:476 | two sorted lists with the same findings per key are equal, so the result does not depend on the order in which sources are visited |
| Anomalies.SelectPicks | krm.py:379-474 | a selection keeps only findings of its severity and source, and no more than it was given |
| Anomalies.Expected | krm.py:377-474 | one source's findings of one severity: at most five, all of that severity and about that source; FindAnomalies and CollectFindings tie the engine to it |
| Anomalies.SummarizesAll | krm.py:377-474 | once every source is visited, the findings of each severity and source are exactly the expected ones, and every finding is about a known source |
| Anomalies.SelectOtherSource | krm.py:379-474 | a source's findings never appear among another source's |
| Anomalies.FindAnomalies | krm.py:365-476 | the result is sorted; per severity and source it holds exactly that source's rule findings in rule order; every finding names a source of the tables |
| Anomalies.CollectFindings | krm.py:377-474 | the loop over all sources collects, per severity and source, exactly the rule findings of that source |
| Anomalies.AppendRules | krm.py:379-474 | one visit appends the five rules' findings in order |
| Anomalies.SourcesSurviveSorting | krm.py:476 | sorting adds no source |
| Analysis.IsPassive | krm.py:352-361 | only limit sources are passive; a source without a risk record is passive exactly when its revision is overdue and its total limit is 0, since its risk defaults to 0 |
| Analysis.IdentifyPassiveSources | krm.py:339-363 | a source is listed exactly when it is a limit source with an overdue revision, total limit 0 and total risk 0; none is listed twice |
| Analysis.Restrict | krm.py:496-499 | the filtered dictionary holds exactly the active keys, with their records |
| Analysis.AnalyzeReport | krm.py:491-501 | the passive sources are exactly those that qualify; the active ones are all other sources; the findings are sorted and are those of the active sources alone |
| Analysis.ActiveFindingsUnchanged | krm.py:495-501 | an active source gets the same findings as over the whole tables; a passive one gets none |
| Analysis.PassiveSourcesRaiseNothing | krm.py:493-501 | no finding of the report names a passive source |
| LogoFetcher.CleanDomain | logo_fetcher.py:44-63 | None exactly for None, "", "http:" or an empty cleaned text; otherwise trimmed and without ASCII capitals (logo_fetcher_simple.py:37-42 is the same code) |
| LogoFetcher.CleanDomainDropsWww | logo_fetcher.py:57-63 | a leading "www." is removed |
| LogoFetcher.CleanDomainIsCaseSensitive | logo_fetcher.py:58-61 | "WWW." is not removed, only lower-cased, because removal precedes lowering |
| LogoFetcher.CleanDomainOnlyLowers | logo_fetcher.py:54-63 | any domain other than "http:" that has no "www." and no blank at either end is only lower-cased |
| LogoFetcher.ReplacementsGiveAsciiBase | logo_fetcher.py:76-83 | the twelve Turkish letters map to their ASCII base letters and every other character is left alone |
| LogoFetcher.FoldTurkish | logo_fetcher.py:82-83 | the replacement loop maps every character to its ASCII base |
| LogoFetcher.MaskNonWord | logo_fetcher.py:86 | every character outside `[A-Za-z0-9_-]` becomes `_`, every other is kept |
| LogoFetcher.CollapseUnderscores | logo_fetcher.py:89 | no `__` remains; no new characters appear; the first character is kept; the characters other than `_` are exactly those of the input, in order |
| LogoFetcher.CollapseRun | logo_fetcher.py:89 | a run of `_` of any length collapses exactly like a single `_` at the same place |
| LogoFetcher.Sanitize | logo_fetcher.py:65-94 | the sanitized name is never longer than the input, since the Turkish letters are folded before lowercasing; SanitizedIsSafe and SanitizeIdempotent pin its shape |
| LogoFetcher.SanitizeFilename | logo_fetcher.py:65-94 | the loop computes the sanitised name, and the name is safe (logo_fetcher_simple.py:44-55 is the same code) |
| LogoFetcher.SanitizedIsSafe | logo_fetcher.py:65-94 | a sanitised name consists of `[a-z0-9_-]`, has no `__` and no `_` at either end |
| LogoFetcher.SafeNameIsFixed | logo_fetcher.py:65-94 | a safe name sanitises to itself |
| LogoFetcher.SanitizeIdempotent | logo_fetcher.py:65-94 | sanitising twice is sanitising once |
| LogoFetcher.Head | logo_fetcher.py:162 | the sniffed head is the first 100 bytes of the body, or all of a shorter body |
| LogoFetcher.SniffExtension | logo_fetcher.py:156-165 | jpg exactly when the body starts with the JPEG magic; svg exactly when neither magic starts it and "<svg" is in the first 100 bytes; png exactly for the PNG magic or when nothing else matched; never webp or ico |
| LogoFetcher.MagicsExclusive | logo_fetcher.py:158-161 | no body starts with both the PNG and the JPEG magic |
| LogoFetcher.ChooseExtension | logo_fetcher.py:144-165 | the header is tested in the order png, jpeg/jpg, svg, webp, ico: the first type word it contains decides; a header with none of them leaves the choice to the body |
| LogoFetcher.IconMentionsIco | logo_fetcher.py:154 | a header containing "icon" contains "ico", so the second test never decides |
| LogoFetcher.ExtensionSources | logo_fetcher.py:146-165 | ico and webp come only from a header saying so; jpg needs a jpeg/jpg header or the JPEG magic; svg needs an svg header or "<svg" in the head |
| LogoFetcher.HeaderOverridesBody | logo_fetcher.py:146-151 | a header naming svg, and not png or jpeg, gives svg even for a body the sniffer would call png |
| LogoFetcher.JpegBodyGivesJpg | logo_fetcher.py:156-161 | under a header naming no image type, a body starting FF D8 FF is saved as jpg |
| LogoFetcher.SvgStartGivesSvg | logo_fetcher.py:156-163 | under a header naming no image type, a body opening with "<svg" is saved as svg |
| LogoFetcher.PngType | logo_fetcher.py:146-147 | "image/png" gives png |
| LogoFetcher.JpegType | logo_fetcher.py:148-149 | "image/jpeg" gives jpg |
| LogoFetcher.SvgType | logo_fetcher.py:150-151 | "image/svg+xml" gives svg |
| LogoFetcher.WebpType | logo_fetcher.py:152-153 | "image/webp" gives webp |
| LogoFetcher.IconType | logo_fetcher.py:154-155 | "image/x-icon" gives ico |
| LogoFetcher.HtmlHeaderSniffsBody | logo_fetcher.py:156-165 | "text/html" leaves the choice to the body |
| LogoFetcher.SvgHeaderWords | logo_fetcher.py:146-151 | "image/svg+xml" contains svg and none of png, jpeg, jpg |
| LogoFetcher.WebpHeaderWords | logo_fetcher.py:146-153 | "image/webp" contains webp and none of png, jpeg, jpg, svg |
| LogoFetcher.IconHeaderWords | logo_fetcher.py:146-155 | "image/x-icon" contains ico and none of png, jpeg, jpg, svg, webp |
| LogoFetcher.HtmlNamesNoImageType | logo_fetcher.py:146-156 | "text/html" contains none of the image type words |
| LogoFetcher.DomainsToTry | logo_fetcher.py:115-121 | the cleaned domain comes first; a second domain exists exactly for ".com.tr" domains, with ".com.tr" replaced by ".com" |
| LogoFetcher.TurkishDomainFallsBackToCom | logo_fetcher.py:118-121 | "name.com.tr" is tried as itself and then as "name.com" |
| LogoFetcher.RequestsFor | logo_fetcher.py:125-139 | one request per service, built from that service's URL template and timeout |
| LogoFetcher.Attempts | logo_fetcher.py:124-125 | three requests per domain |
| LogoFetcher.AttemptAt | logo_fetcher.py:124-127 | request 3d + s is service s asked about domain d |
| LogoFetcher.FirstAccepted | logo_fetcher.py:142 | the search stops at the first reply with status 200 and more than 100 bytes; every earlier reply fails that test |
| LogoFetcher.TryServices | logo_fetcher.py:125-181 | the service loop saves under the first accepted reply of one domain's three requests |
| LogoFetcher.TryDomains | logo_fetcher.py:124-183 | the nested loops save under the first accepted reply of all requests, domain by domain; None if none is accepted |
| LogoFetcher.AttemptsAppend | logo_fetcher.py:124 | the requests of two domain lists are those of the first followed by those of the second |
| LogoFetcher.FirstAfterRejected | logo_fetcher.py:124-183 | after rejected requests, the first accepted one of the next block is the first accepted overall |
| LogoFetcher.FirstAcceptedAt | logo_fetcher.py:142-174 | the logo is saved under the reply of the first accepted request |
| LogoFetcher.LogoPath | logo_fetcher.py:168 | the file is `<output_dir>/<safe name>.<extension>` |
| LogoFetcher.SaveFirstAccepted | logo_fetcher.py:124-183 | a path exactly when some request is accepted, named after the safe name |
| LogoFetcher.NoneAccepted | logo_fetcher.py:124-183 | when every request is rejected, no logo is saved |
| LogoFetcher.FirstAcceptedIs | logo_fetcher.py:124-174 | the first accepted request, after only rejections, is the one saved |
| LogoFetcher.SavedLogo | logo_fetcher.py:96-183 | nothing when the domain cleans to None; any saved path is `<output_dir>/<sanitized bank name>.<extension>`; FetchLogo equals it, and FirstAcceptedReplyWins pins which reply is saved |
| LogoFetcher.FetchLogo | logo_fetcher.py:96-183 | the method computes the specification of `fetch_logo` |
| LogoFetcher.FirstAcceptedReplyWins | logo_fetcher.py:142-174 | one accepted reply guarantees a saved logo; it is the one saved when every earlier reply failed |
| LogoFetcher.NoDomainNoLogo | logo_fetcher.py:108-110 | a missing, empty or "http:" domain saves nothing |
| LogoFetcher.AttemptOrder | logo_fetcher.py:26-42 | Clearbit (10 s), Google Favicon (10 s) and the site's own favicon (5 s) are asked in this order, all for the cleaned domain before any for the fallback |
| LogoFetcher.ServiceUrls | logo_fetcher.py:26-42 | the three URLs and timeouts for one domain |
| LogoFetcher.DomainOf | logo_fetcher.py:222 | a non-empty netloc of the address itself is used; otherwise the netloc of "http://" plus the stripped address; nothing when urlparse fails |
| LogoFetcher.BankOf | logo_fetcher.py:200-232 | a bank only from a row with name and address filled, and always a listable one; RowFilter pins exactly which rows qualify |
| LogoFetcher.RowFilter | logo_fetcher.py:204-229 | a row yields a bank exactly when name and address are filled, the lower-cased name contains "bank", the trimmed address is not "http://" and a usable domain results; the bank holds the trimmed name and address (logo_fetcher_simple.py:114-137 is the same filter) |
| LogoFetcher.BanksAreListable | logo_fetcher.py:200-233 | there are no more banks than rows; each bank has a usable domain and a trimmed address other than "http://" |
| LogoFetcher.BanksOf | logo_fetcher.py:185-233 | every listed bank is the bank of some row; BanksAreListable bounds the count by the rows |
| LogoFetcher.ReadBanks | logo_fetcher.py:185-233 | the row loop keeps exactly the rows that pass the filter, in order |
| LogoFetcher.SavedOrFailed | logo_fetcher.py:276-293 | every bank is counted either as saved or as failed |
| LogoFetcher.FailedAreListed | logo_fetcher.py:284-285 | every failed name is a listed bank whose logo was not saved |
| LogoFetcher.FetchEach | logo_fetcher.py:276-291 | the loop counts the saved logos and lists the failed banks in order |
| LogoFetcher.OneMoreBank | logo_fetcher.py:279-285 | one more bank adds one to the count or its name to the failed list |
| LogoFetcher.FetchAllLogos | logo_fetcher.py:235-293 | returns the saved count, the number of banks and the failed names; saved plus failed is the total |
| LogoFetcherSimple.SavedLogo | logo_fetcher_simple.py:57-102 | nothing when the domain cleans to None; any saved path is `<output_dir>/<sanitized bank name>.<extension>`; SameWithoutFallback and SimpleSuccessCarriesOver relate it to the full fetcher |
| LogoFetcherSimple.FetchLogo | logo_fetcher_simple.py:57-102 | the method saves under the first accepted reply of the three requests for the cleaned domain only |
| LogoFetcherSimple.FirstAcceptedInPrefix | logo_fetcher_simple.py:65-99 | further requests do not change an accepted first reply |
| LogoFetcherSimple.FullStartsWithSimple | logo_fetcher_simple.py:65-67 | the full downloader asks the simple one's three requests first, then the fallback's |
| LogoFetcherSimple.SameWithoutFallback | logo_fetcher_simple.py:57-102 | without a ".com.tr" domain both downloaders save the same logo |
| LogoFetcherSimple.SimpleSuccessCarriesOver | logo_fetcher_simple.py:57-102 | a logo saved by the simple downloader is saved by the full one too |
| LogoFetcherSimple.FetchEach | logo_fetcher_simple.py:175-187 | the download loop of `main` counts the saved logos and lists the failed banks; saved plus failed is the number of banks |
| LogoFetcherSimple.FullSavesAtLeastAsMany | logo_fetcher_simple.py:175-187 | over the same banks the full downloader saves at least as many logos as the simple one |

## Left out

- The PDF and its OCR are not modelled. A document is a list of pages,
  each a list of tables of optional text cells, and a missing page stands
  for `pdf.pages[i]` raising.
- `parse_header`, the report metadata (file name, company, dates, the
  success and error entries of `analyze_report`), `generate_pdf`, the
  console output, `main` of krm.py and the directory and file discovery
  are I/O and presentation, so they are not modelled.
- The `detail` strings of the findings are not modelled. They depend on
  float formatting; findings keep source, type, severity and value.
- Amounts and usage percentages are exact reals, not IEEE floats, so
  rounding near the 95 % and 100 % boundaries is not captured.
- The cutoff date is a parameter because it depends on `datetime.now()`.
  The 180-day default is not modelled.
- Numbers.ParseDecimal: digits with an optional fraction and sign are
  accepted. `float()`'s white space, exponents, "inf", "nan" and digit
  underscores are treated as parse failures.
- Numbers.ParseInt: only plain digit strings are accepted. `int()` also
  accepts a sign, surrounding white space and underscores. A year part
  such as "1 " is therefore rejected here, although `int()` would take it.
- Numbers.FormatNumber: modelled for whole amounts only. The rounding of
  `,.0f` on fractional amounts is not modelled.
- Numbers.CleanNumber and Numbers.ParseDate: cells are text or None. The
  number and datetime cell values that `str()` would print are not
  modelled.
- Extraction.BuildLimit: `revize_gecmis` is a boolean. Python stores None
  when no revision date exists, which behaves like False everywhere it is
  read.
- Text.Lower: lower-casing covers ASCII, Latin-1 capitals and the Turkish
  capitals (İ becomes "i" plus a combining dot). The rest of Unicode is
  left unchanged.
- Dictionary and set iteration order is not modelled. The loops over
  sources pick any remaining source. The results are proved not to depend
  on that choice, because they are sorted (Anomalies.SortedUnique) or
  given as sets.
- HTTP is an oracle from request to reply: a response with status,
  Content-Type and body, or a raised exception. The User-Agent header,
  redirects and timeouts themselves are not modelled; the timeout is
  recorded in the request.
- A failure while writing the logo file would make `fetch_logo` move on to
  the next service. File writes are not modelled; the saved path is
  `output_dir + "/" + name + "." + extension`.
- `urlparse(...).netloc` is an oracle from address text to domain.
  Spreadsheet loading is not modelled: a row is its name cell and its
  address cell, both given as text.
- `time.sleep`, the progress bar, creating the output directory and the
  spreadsheet-existence check of the simple `main` are not modelled.
