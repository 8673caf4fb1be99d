# Papieri picking-sheet extractor: a Dafny model

`app_expedicao.py` reads a sales-order PDF from Papieri and turns it into two outputs: a table
of result rows (one per order item, carrying the order header) and a large-print picking sheet
for the shipping floor. This project models the logic between the PDF text and those outputs,
and proves what that logic guarantees:

- `mascarar`: masks tax IDs (CNPJ/CPF), phone numbers and e-mail addresses, in that order.
- `extrair_header`: extracts the seven header fields of a page.
  - The order number, city/state, inclusion date-time, billing forecast and shipping note come
    from label-anchored regular expressions.
  - The client comes from a bounded look-ahead after the "Informações do Cliente" line.
- `extrair_itens`: extracts the order items.
  - It cuts out the item section.
  - It cleans the section's lines.
  - It matches each line against the item layout.
  - It parses the Brazilian-format quantity.
- `extrair_do_pdf`: masks each page and merges the page header into every item of that page.
- `guia_pdf`: builds the content of the picking sheet.
  - The title block comes from the first row.
  - A six-label column row is followed by one row per result row.
  - Quantities are formatted as `1.234,50`.

## Modules

- `wrappers.dfy`: `Option` and `Result`.
- `text.dfy`: characters and string helpers.
  - Python's `str.isspace` whitespace set.
  - `strip()` and `splitlines()`.
  - Case folding and `\w`, both as far as Latin-1.
- `pattern.dfy`: a small backtracking matcher for the regular-expression fragment the program
  uses.
  - It handles sequences of greedy character-class repetitions and `\b`.
  - A match is recorded as a trace of positions, which gives the captures.
  - `re.search` and `re.sub` are modelled on top of it.
- `masking.dfy`: `mascarar`.
- `header.dfy`: `extrair_header`.
  - The client look-ahead is an imperative method, proved against a functional definition.
- `quantity.dfy`: the quantity.
  - Quantities are exact decimals (`Decimal(mant, exp)`, value `mant / 10^exp`).
  - It models the `float(...)` parse of a quantity token and the `:,.2f` plus separator-swap
    formatting of the sheet.
- `items.dfy`: `extrair_itens`.
  - The section search, line cleaning and the item-line scanner.
  - The loop that collects items, proved against a fold over the section lines.
- `pipeline.dfy`: the page loop of `extrair_do_pdf`.
  - Header and item dictionaries are merged into result rows, keyed by an enumeration of the
    eleven column names.
- `sheet.dfy`: the title lines and table rows `guia_pdf` lays out.

## Model

| member | source | states |
|---|---|---|
| Masking.Mascarar | app_expedicao.py:15-20 | the masked text is the three substitutions in the source's order; text without digits and `@` comes back unchanged; every digit or `@` of the result was already in the input; what it replaces is stated by `MaskHidesTaxId`, `MaskHidesPhone` and `MaskHidesEmail` |
| Masking.Mask | app_expedicao.py:15-20 | text with no digit and no `@` comes back unchanged, because none of the three patterns can match it; every digit or `@` of the masked text was already in the input |
| Masking.MaskHidesTaxId | app_expedicao.py:17-20 | when `re.search` finds a tax ID in the text, the masked text contains `***.***.***-**`, which the phone and e-mail passes leave alone |
| Masking.MaskHidesPhone | app_expedicao.py:18-20 | when a phone number is found in the text the tax-ID pass leaves, the masked text contains `***-****`, which the e-mail pass leaves alone |
| Masking.MaskHidesEmail | app_expedicao.py:19-20 | when an e-mail address is found in the text the first two passes leave, the masked text contains `[email oculto]` |
| Masking.PlaceholdersApart | app_expedicao.py:17-19 | the tax-ID and phone placeholders start and end with `*`, which no repetition of the later patterns admits, and hold no character of the element those patterns require (`\d` or `@`) |
| Masking.PlaceholdersPlain | app_expedicao.py:17-19 | none of the three placeholders contains a digit or an `@` |
| Masking.MatchesAreNonEmpty | app_expedicao.py:17-19 | every match of each of the three patterns is non-empty, so `re.sub`'s empty-match rules never apply |
| Text.Strip | app_expedicao.py:31-32 | `strip()` gives `""` exactly for a blank line; otherwise it gives the contiguous part of the line between its leading and trailing whitespace, with no whitespace at either end |
| Text.StripStripped | app_expedicao.py:32 | stripping a line that has no outer whitespace changes nothing |
| Text.StripChars | app_expedicao.py:32 | every character of a stripped line comes from the line |
| Text.SplitLines | app_expedicao.py:27 | `splitlines()` gives lines without line breaks, and no lines for an empty text |
| Text.SplitLinesCuts | app_expedicao.py:27 | the lines `splitlines()` gives, each followed by the terminator it cut off (`\r\n` as one, none only after a non-empty last line), spell out the text again |
| Text.SplitOfUnique | app_expedicao.py:27 | any break-free lines that spell out the text with such terminators are exactly the lines `splitlines()` gives, so the cut is unique |
| Text.AsciiUpper | app_expedicao.py:64 | `upper()` of a unit maps each lower-case ASCII letter to its capital and keeps the length |
| Pattern.MatchAt | app_expedicao.py:17-19 | an anchored match attempt returns a trace that matches the pattern element by element from the start position |
| Pattern.Greedy | app_expedicao.py:17-19 | the count a repetition tries first is the largest that both the run of its class and its upper bound allow |
| Pattern.MatchGreedy | app_expedicao.py:17-19 | a leading repetition takes the largest count, up to that first try, after which the rest of the pattern still matches, as `re`'s backtracking does |
| Pattern.MatchLastGreedy | app_expedicao.py:24 | a final repetition, such as the `(\d+)` of the order number, takes the whole run its class and bound allow |
| Pattern.MatchComplete | app_expedicao.py:17-19 | backtracking is complete: if any trace matches at a position, the anchored match succeeds there |
| Pattern.SearchFrom | app_expedicao.py:24 | search returns the leftmost position at which the pattern matches, and fails only when no position matches |
| Pattern.Search | app_expedicao.py:24 | `re.search` returns a match trace starting at the leftmost position where the pattern matches; it fails exactly when no position matches |
| Pattern.SearchFinds | app_expedicao.py:35 | whenever some trace of the pattern exists, search succeeds at or before it |
| Pattern.SubUnchanged | app_expedicao.py:17-19 | substitution leaves the text unchanged when the pattern matches nowhere |
| Pattern.SubFrom | app_expedicao.py:17-19 | substituting from a position onwards brings in no character that is in neither the text nor the replacement; `SubFromStep` states each step |
| Pattern.Sub | app_expedicao.py:17-19 | every character after a substitution comes from the text or the replacement; `SubFirstMatch` states that the first match is replaced |
| Pattern.SubWithoutClass | app_expedicao.py:17-19 | a pattern that needs a character of a class absent from the text leaves the text unchanged |
| Pattern.SubFromStep | app_expedicao.py:17-19 | one step of the scan: a non-empty match at a position is replaced and the scan resumes at its end; otherwise the character there is copied |
| Pattern.SubSkip | app_expedicao.py:17-19 | positions where only empty matches or none start are copied unchanged |
| Pattern.SubFirstMatch | app_expedicao.py:17-19 | when search finds a non-empty match, `re.sub` copies the text before it, puts the replacement in its place and goes on after it |
| Pattern.TraceCovers | app_expedicao.py:17-19 | every character a match covers is admitted by one of the pattern's repetitions |
| Pattern.MatchStopsBefore | app_expedicao.py:17-19 | a match starting before a character no repetition admits ends at or before it |
| Pattern.SubFromPiece | app_expedicao.py:17-19 | the scan copies a piece whose characters all miss a required element's class and whose last character no repetition admits |
| Pattern.ScanReaches | app_expedicao.py:17-19 | when no non-empty match crosses a position, the scan's output from an earlier position runs through the output from that position |
| Pattern.SubKeeps | app_expedicao.py:17-19 | a later substitution leaves such a piece in place when its first character is also outside every repetition, so an earlier placeholder survives |
| Text.ContainsAt | app_expedicao.py:17-19 | a piece standing at some position of a text is contained in it |
| Pattern.StarThen | app_expedicao.py:24 | a leading `\s*` before an element that cannot start with a blank matches exactly when the rest matches at the end of the blank run |
| Pattern.FixedThen | app_expedicao.py:38 | a leading fixed-count repetition such as `[0-9/]{10}` matches exactly when those characters are in the class and the rest matches after them |
| Pattern.LastRun | app_expedicao.py:24 | a final greedy repetition such as `(\d+)` matches the whole maximal run, and fails when the run is too short |
| Pattern.LabelThen | app_expedicao.py:24 | a label pattern with one character class in it matches followed by the rest exactly when the label stands at the position and the rest matches after it |
| Pattern.CaptureShape | app_expedicao.py:35-44 | a captured group has the length bounds and the character class of its repetition |
| Header.PedidoAt | app_expedicao.py:24 | a match of the order pattern at a position needs the label with `º` or `°` there, and captures a non-empty run of digits |
| Header.NumberAfter | app_expedicao.py:24 | `\s*(\d+)` after the label skips blanks and takes the whole maximal digit run |
| Header.NumberTailMatch | app_expedicao.py:24 | the regular-expression tail `\s*(\d+)` matches exactly when the maximal digit run after the blanks is non-empty, capturing it |
| Header.PedidoMatch | app_expedicao.py:24 | the pattern matches at a position exactly when the order number is found there, and group 1 is that number |
| Header.PedidoSearch | app_expedicao.py:24-25 | `re.search` fails exactly when no position holds an order number, and otherwise returns the number at the first position that holds one |
| Header.PedidoOf | app_expedicao.py:24-25 | the order number is a non-empty digit string or `""`, and is `""` when the label is absent |
| Header.PedidoFirst | app_expedicao.py:24-25 | the order number is `""` exactly when no position holds one, and otherwise is the number at the first position that holds one |
| Header.ClientOf | app_expedicao.py:26-34 | the client is a stripped line |
| Header.ClientFound | app_expedicao.py:26-34 | a non-empty client is the stripped first non-blank line in the window of at most five lines after the first label line |
| Header.ClientMissing | app_expedicao.py:26-34 | the client is `""` if and only if no line holds the label, or every line in the window after the first label line is blank |
| Header.FirstLabelUnique | app_expedicao.py:28-29 | only the first line holding the label counts; later label lines play no part |
| Header.FindClient | app_expedicao.py:26-34 | the nested loops with `break` compute exactly the client the functional definition gives |
| Header.LookAhead | app_expedicao.py:30-33 | the inner loop returns the stripped first non-blank line of the window, or `""` when all are blank |
| Header.CityStateOf | app_expedicao.py:35-37 | the city is stripped and made of ASCII letters, blanks and characters in `À`..`ú` (which include `×` and `÷`); the state is `""` or two capital letters |
| Header.CityField | app_expedicao.py:35-36 | group 1 of a match, stripped, keeps only characters of the city class |
| Header.StateField | app_expedicao.py:35-37 | group 2 of a match is exactly two capital letters |
| Header.CityStateMissing | app_expedicao.py:35-37 | the state is `""` exactly when the pattern is not found; the city is then `""` too; both are `""` when no `CEP` occurs |
| Header.DateAfter | app_expedicao.py:38 | `\s*([0-9/]{10})` skips blanks and takes the next ten characters when all are date characters |
| Header.ClockAfter | app_expedicao.py:38 | `\s*([0-9:]{8})` skips blanks and takes the next eight characters when all are time characters |
| Header.TimeAfter | app_expedicao.py:38 | what follows the date, `\s*às\s*([0-9:]{8})`, gives eight time characters |
| Header.StampAt | app_expedicao.py:38-39 | a date-time found after the label is ten date characters, a space and eight time characters |
| Header.InclusionAt | app_expedicao.py:38 | a match of the inclusion pattern at a position needs the label with `i` or `í` there, in any case |
| Header.DateTailMatch | app_expedicao.py:40 | the tail `\s*([0-9/]{10})` matches exactly when ten date characters follow the blanks, capturing them |
| Header.ClockTailMatch | app_expedicao.py:38 | the tail `\s*([0-9:]{8})` matches exactly when eight time characters follow the blanks, capturing them |
| Header.AsWordMatch | app_expedicao.py:38 | `às\s*([0-9:]{8})` matches exactly when `às`, in any case, is followed by a time, capturing it |
| Header.AfterDateMatch | app_expedicao.py:38 | the part after the date matches exactly when a time follows, and captures it |
| Header.StampMatch | app_expedicao.py:38-39 | the date-and-time tail matches exactly when a date-time is found, which is group 1, a space and group 2 |
| Header.InclusionMatch | app_expedicao.py:38-39 | the pattern matches at a position exactly when an inclusion date-time is found there, built from groups 1 and 2 |
| Header.InclusionSearch | app_expedicao.py:38-39 | `re.search` fails exactly when no position holds an inclusion date-time, and otherwise returns the one at the first position that holds one |
| Header.InclusionOf | app_expedicao.py:38-39 | the inclusion field is `""` or ten date characters, a space and eight time characters, and is `""` when the label is absent |
| Header.InclusionFirst | app_expedicao.py:38-39 | the inclusion field is `""` exactly when no position holds a date-time, and otherwise is the one at the first position that holds one |
| Header.ForecastAt | app_expedicao.py:40 | a match of the forecast pattern at a position needs the label with `a` or `ã` there, in any case, and gives ten date characters |
| Header.ForecastMatch | app_expedicao.py:40 | the pattern matches at a position exactly when a forecast is found there, and group 1 is that forecast |
| Header.ForecastSearch | app_expedicao.py:40-41 | `re.search` fails exactly when no position holds a forecast, and otherwise returns the one at the first position that holds one |
| Header.ForecastOf | app_expedicao.py:40-41 | the forecast is `""` or ten characters of `[0-9/]`, and is `""` when the label is absent |
| Header.ForecastFirst | app_expedicao.py:40-41 | the forecast is `""` exactly when no position holds one, and otherwise is the one at the first position that holds one |
| Header.ObsOf | app_expedicao.py:42-44 | the note is stripped and holds no newline; it is `""` when the label is absent |
| Header.HeaderOf | app_expedicao.py:23-47 | every one of the seven fields has its shape |
| Header.ExtractHeader | app_expedicao.py:23-47 | the imperative extraction gives the functional header, whose fields all have their shapes |
| Items.FindNoCase | app_expedicao.py:52 | the case-insensitive search returns the first occurrence at or after the start |
| Items.SectionEnd | app_expedicao.py:52 | the lazy section ends at the first "Outras Informações" (with or without the cedilla and tilde, in any case) or at the end of the text, or just before a final newline |
| Items.SectionOf | app_expedicao.py:52-54 | there is no section exactly when the label is absent; otherwise it is the text from after the first label to the section end |
| Items.NonBlank | app_expedicao.py:55 | the indices of the non-blank lines, increasing: an index is listed exactly when its line is not blank |
| Items.CleanLines | app_expedicao.py:55 | one cleaned line per non-blank line |
| Items.CleanLinesKept | app_expedicao.py:55 | cleaned line `m` is the stripped `m`-th non-blank line, so the non-blank lines are kept in order and nothing else is |
| Items.SectionLines | app_expedicao.py:55 | the section's lines are the stripped non-blank lines of `splitlines()`, in order, each non-empty and clean |
| Items.CleanLinesShape | app_expedicao.py:55 | every cleaned line is non-empty, stripped and free of line breaks |
| Items.ScanItemLine | app_expedicao.py:58-61 | a line the scanner accepts has the item layout (quantity characters, blanks, letters, blanks, code characters, blanks, then a description), and the groups are the text between those cuts |
| Items.ScanComplete | app_expedicao.py:58-61 | every line with the item layout is accepted, with those very groups |
| Items.RunsLayout | app_expedicao.py:58 | the cuts at the ends of the maximal runs form the item layout |
| Items.ClassMembers | app_expedicao.py:58 | the three token classes are `[0-9.,]`, `[A-Za-z]` and `[A-Z0-9-/]` |
| Items.ClassesApart | app_expedicao.py:58 | no token class contains whitespace, so each token ends where the blanks start |
| Items.ScanQtyToken | app_expedicao.py:58-63 | the quantity group of a matched line is a non-empty token of digits, points and commas |
| Items.MakeItem | app_expedicao.py:62-64 | the item keeps the parsed quantity; its unit is the group with each lower-case ASCII letter made capital; code and description are stripped, and empty only for blank groups |
| Items.MatchedItem | app_expedicao.py:62-64 | an item has its unit upper-cased, and code and description exactly as they stand in the line; all three are non-empty |
| Items.LineResult | app_expedicao.py:59-64 | a line yields an item or the parse error exactly when it matches the item layout; other lines are skipped |
| Items.Outcomes | app_expedicao.py:59-64 | one result per section line, in line order |
| Items.Picked | app_expedicao.py:59-64 | the indices of the lines that give an item, increasing, never more than the lines |
| Items.Collect | app_expedicao.py:59-64 | collecting succeeds only when every line's outcome does, with at most one item per line, and fails with the error of some failing line |
| Items.CollectInOrder | app_expedicao.py:59-64 | on success, the items are exactly those of the lines that give one, in line order |
| Items.FirstFailure | app_expedicao.py:63 | the first line whose quantity fails to parse, every earlier line succeeding |
| Items.CollectFailure | app_expedicao.py:63 | collecting fails exactly when some line fails, with the error of the first failing line |
| Items.ItemsOf | app_expedicao.py:50-54 | with no item-section label the item list is empty |
| Items.ItemsOfLines | app_expedicao.py:59-64 | the items of the lines never outnumber the lines |
| Items.ItemsOfLinesStep | app_expedicao.py:59-64 | one more line keeps an error, adds its item, skips a non-item, or raises its own error |
| Items.ExtractItems | app_expedicao.py:50-65 | the imperative loop computes the functional item list, or the error |
| Items.ItemsFailureStays | app_expedicao.py:63 | once a line fails, the remaining lines cannot change the outcome |
| Items.ItemsInLineOrder | app_expedicao.py:59-64 | on success the item count equals the number of lines that give an item, and item `m` is the item of the `m`-th such line |
| Items.ItemsFailure | app_expedicao.py:63 | extraction fails if and only if some line's quantity fails to parse; the error is that of the first such line, all earlier lines succeeding |
| Items.ItemsOfCount | app_expedicao.py:55-64 | a page never gives more items than its section has non-blank lines |
| Items.ItemsWellFormed | app_expedicao.py:62-64 | every extracted item has a non-empty upper-case unit, a non-empty code of code characters and a non-empty stripped description |
| Quantity.ParseQty | app_expedicao.py:63 | parsing succeeds exactly when the token has at most one comma and some digit; the value is the token's digits read as a whole number, scaled by the number of digits after the comma |
| Quantity.ParseQtyShape | app_expedicao.py:63 | the rewrite `replace(".", "").replace(",", ".")` yields digits and points, and `float` of it has the value stated by `ParseQty` |
| Quantity.Rewrite | app_expedicao.py:63 | the rewritten token has no comma, has a point exactly when the token had a comma, and otherwise keeps exactly the token's characters other than commas |
| Quantity.ReplaceChars | app_expedicao.py:63 | every character after `replace(a, b)` is a character of the text other than `a` or one of `b`; every character other than `a` stays; when `a` occurs, the characters of `b` appear |
| Quantity.RewriteChars | app_expedicao.py:63 | the rewritten token has only digits and points, and a point exactly where the token had a comma |
| Quantity.RewriteNoComma | app_expedicao.py:63 | without a comma the rewrite keeps exactly the digits |
| Quantity.CommaSplit | app_expedicao.py:63 | at the first comma, the rewrite is the digits before it, a point, and the rewrite of the rest |
| Quantity.ParseFloat | app_expedicao.py:63 | `float` of digits and points succeeds exactly when there is at most one point and some digit; the value is the digits read as a whole number, scaled by the digits after the point; otherwise `ValueError` |
| Quantity.FloatParts | app_expedicao.py:63 | the digits before and after the first point are all of the string's digits, and form a valid number exactly when no second point follows and some digit exists |
| Quantity.ParseFloatInteger | app_expedicao.py:63 | `float` of a digit string succeeds exactly when it is non-empty, with that whole value |
| Quantity.ParseFloatFraction | app_expedicao.py:63 | `float` of digits, a point and more succeeds exactly when no second point follows and some digit exists |
| Quantity.ParseQtyThousands | app_expedicao.py:63 | `"1.234,50"` parses to 1234.50 |
| Quantity.ParseQtyWhole | app_expedicao.py:63 | `"200,00"` parses to the value 200 |
| Quantity.ParseQtyRejects | app_expedicao.py:63 | `"1,2,3"` and `"..."` make `float` fail |
| Quantity.RoundHalfEven | app_expedicao.py:126 | the rounded quotient is within half a unit of the exact one, and ties go to the even neighbour |
| Quantity.Hundredths | app_expedicao.py:126 | the quantity in hundredths is within half a hundredth of the exact value |
| Quantity.FormatQtyExact | app_expedicao.py:126 | a quantity with at most two decimals is shown without rounding |
| Quantity.PythonFixed2 | app_expedicao.py:126 | `:,.2f` gives a comma-grouped integer part, a point and two decimals whose digits, read together, are the quantity in hundredths |
| Quantity.FormatQty | app_expedicao.py:126 | the cell is the integer part grouped by `.` in threes, a `,` and the two-digit cents |
| Quantity.FormatQtySwap | app_expedicao.py:126 | the three `replace` calls turn `:,.2f` output (`1,234.50`) into `1.234,50` |
| Quantity.SwapSeparator | app_expedicao.py:126 | the first and third replace calls turn every group separator into the new one and keep the decimal mark and the decimals |
| Quantity.SwapPoint | app_expedicao.py:126 | the second replace turns the decimal point into a comma and touches nothing else |
| Quantity.FormatQtyShape | app_expedicao.py:126 | the cell ends in a comma and exactly two digits, preceded by a well-grouped integer part |
| Quantity.GroupedWell | app_expedicao.py:126 | thousands grouping gives one to three leading digits, then groups of a separator and three digits |
| Quantity.GroupedUngroups | app_expedicao.py:126 | dropping the separators of a grouping gives the digits back |
| Quantity.RegroupSeparator | app_expedicao.py:126 | replacing the separator of a grouping by another gives the grouping with that one |
| Quantity.FormatQtyRoundTrip | app_expedicao.py:126 | the sheet's quantity cell is a valid quantity token, and parsing it gives back the rounded quantity |
| Quantity.ParseCell | app_expedicao.py:63 | parsing grouped digits, a comma and cents gives the digits as a value with the cents' scale |
| Pipeline.ColumnNameRoundTrip | app_expedicao.py:45-64 | each column key names its own column, so distinct columns have distinct dictionary keys |
| Pipeline.HeaderRow | app_expedicao.py:45-47 | the header dictionary has exactly the seven header keys, each holding its field as text |
| Pipeline.ItemRow | app_expedicao.py:64 | the item dictionary has exactly the four item keys; `Quantidade` holds the number and the rest hold text |
| Pipeline.Merge | app_expedicao.py:76 | `{**h, **it}` has the keys of both; the item's value wins on a shared key, and the header's value stays elsewhere |
| Pipeline.KeysDisjoint | app_expedicao.py:45-64 | header and item keys are disjoint, eleven in all |
| Pipeline.JoinedRowKeeps | app_expedicao.py:76 | a merged row has all eleven keys and keeps every header field and every item field |
| Pipeline.JoinedRowWellFormed | app_expedicao.py:74-76 | a merged row has the eleven keys, a numeric `Quantidade` and text elsewhere |
| Pipeline.ItemRows | app_expedicao.py:64 | one item dictionary per item, in order |
| Pipeline.JoinRows | app_expedicao.py:75-76 | one merged row per item dictionary, in order |
| Pipeline.JoinPage | app_expedicao.py:74-76 | a page gives one row per item, in order, each merging the page's header with that item |
| Pipeline.PageRows | app_expedicao.py:72-76 | a page gives rows exactly when its items parse, and otherwise fails with their error |
| Pipeline.PageRowsJoin | app_expedicao.py:75-76 | a page gives one row per item, in order, each merging the page's header with that item |
| Pipeline.PageResultAt | app_expedicao.py:71-76 | the outcome of page `p` is the masked header and items of that page's text |
| Pipeline.JoinAll | app_expedicao.py:69-77 | joining the page results succeeds only when every page succeeded |
| Pipeline.JoinAllFailed | app_expedicao.py:69-77 | a failed join carries the error of one of the pages |
| Pipeline.JoinAllStep | app_expedicao.py:71-76 | one more page appends its rows, or ends the extraction with its error |
| Pipeline.JoinAllFailureStays | app_expedicao.py:71-76 | once a page fails, later pages cannot change the outcome |
| Pipeline.ExtractPage | app_expedicao.py:72-76 | the imperative page step computes the functional outcome of the page |
| Pipeline.JoinItems | app_expedicao.py:75-76 | the append loop computes the merged rows of the page, in order |
| Pipeline.ExtractFromPdf | app_expedicao.py:68-77 | the imperative page loop computes the functional result of the document |
| Pipeline.JoinAllSuccess | app_expedicao.py:69-76 | extraction succeeds exactly when every page does, and the row count is then the sum of the per-page counts |
| Pipeline.JoinAllAt | app_expedicao.py:69-76 | row `m` of page `p` sits at the offset of `p`, after all rows of earlier pages |
| Pipeline.OffsetMonotone | app_expedicao.py:69-76 | later pages start no earlier |
| Pipeline.JoinAllFirstError | app_expedicao.py:71-76 | the first failing page's error is the error of the extraction |
| Pipeline.FirstRow | app_expedicao.py:69-76 | the first row is the first row of the first page that gives any |
| Pipeline.RowsOf | app_expedicao.py:69-77 | the document gives rows only when the items of every page parse |
| Pipeline.RowsOfFailed | app_expedicao.py:69-77 | a failed document fails with the error of one of its pages' items |
| Pipeline.PagesSucceed | app_expedicao.py:71-76 | in a successful extraction every page's items parse |
| Pipeline.RowOfPage | app_expedicao.py:69-76 | in a successful extraction, item `m` of page `p` becomes the row at that page's offset plus `m`, carrying that page's own header |
| Pipeline.RowsWellFormed | app_expedicao.py:69-77 | every result row has the eleven keys, a numeric `Quantidade` and text elsewhere |
| Pipeline.JoinPageWellFormed | app_expedicao.py:74-76 | every row of a page is well formed |
| Pipeline.JoinAllWellFormed | app_expedicao.py:69-76 | concatenating well-formed page rows gives well-formed rows |
| Sheet.TitleLines | app_expedicao.py:110-118 | five title lines, each its label followed by the row's text for its field (order number, client, inclusion, forecast, note), the label alone when the row has no text there |
| Sheet.BodyRow | app_expedicao.py:125-135 | six cells: the quantity, the unit, two empty cells for manual checking, the code and the description of the row |
| Sheet.BodyRowQuantity | app_expedicao.py:126 | the quantity cell is a quantity token that parses back to the quantity rounded to hundredths, and to the quantity itself when it has at most two decimals |
| Sheet.SheetOf | app_expedicao.py:102-135 | no rows give only "Sem itens."; otherwise the title comes from row 0, and the table is the six labels followed by one body row per result row, in order |
| Sheet.BuildSheet | app_expedicao.py:102-135 | the loop that fills `linhas` builds exactly that sheet |
| Sheet.BodyRowOfItem | app_expedicao.py:125-135 | the body row of an extracted item is its formatted quantity, unit, two empty cells, code and description |
| Sheet.TitleOfItem | app_expedicao.py:110-118 | the title lines of an extracted row show its page header's order number, client, inclusion, forecast and note |
| Sheet.ExtractedRowsFit | app_expedicao.py:125-126 | every row of a successful extraction has the numeric quantity the table formats |
| Sheet.SheetTitle | app_expedicao.py:107-118 | the title shows the header of the first page that yields rows, whatever later pages hold |

## Left out

- Reading the PDF with `pdfplumber` is not modelled. A document is the sequence of what
  `extract_text()` returns per page, `None` when a page has no text.
- The `reportlab` layout is not modelled: page template, fonts, spacers, column widths, styles
  and the rendering itself. The sheet is modelled as its title strings and table cells.
  - `Paragraph` markup (`<b>…</b>`) is kept as literal text.
  - The description cell is its string, not a `Paragraph` object.
- The `datetime.now()` footer is left out because it is nondeterministic.
- The Streamlit UI, the pandas `DataFrame` and the CSV export are left out.
  - Result rows are dictionaries (maps) in a sequence.
  - A missing cell is read with `get(k, "")`.
- Floating point is not modelled.
  - A quantity is the exact decimal that `float` approximates.
  - `:,.2f` rounds that exact value half-to-even to hundredths. Python rounds the nearest
    binary float. A tie that binary represents exactly, such as 0.125, rounds the same way in
    both (to 0.12). A tie that binary cannot represent, such as 0.005 or 2.675, can round
    differently: the model rounds 0.005 to 0.00 and 2.675 to 2.68, while Python rounds 0.005 to
    0.01 and 2.675 to 2.67.
  - Exponent notation cannot occur for quantity tokens, which hold only digits, points and
    commas.
- Quantity.ParseQty: exact, with no overflow. `float` gives `inf` once the value reaches about
  1.8·10^308, the largest double. That covers every token with 310 or more integer digits after
  its leading zeros, and some with 309. The sheet then shows `inf`; the model instead keeps the
  exact value and formats it. Leading zeros alone do not overflow: a `1` followed by 308 zeros
  parses to 1e308, and 400 zeros followed by `12,5` parse to 12.5.
- `\w`, `\b` and case-insensitive matching are exact only within Latin-1.
  - Characters beyond Latin-1 are treated as non-word and fold to themselves.
  - Python's `re` folds some of them (the long s, the Kelvin sign).
- `\d` is modelled as ASCII digits. Python also accepts other Unicode decimal digits, which
  `float` would then parse.
- Whitespace (`\s`, `strip()`, `splitlines()`) follows Python's full Unicode lists.
- Header.PedidoOf, Header.InclusionOf, Header.ForecastOf: their own contracts give the shape
  only. That the field is found at the first position holding it, and is `""` exactly when no
  position does, is stated by `PedidoFirst`, `InclusionFirst` and `ForecastFirst`.
- Header.ObsOf: states the note's shape and its absence without the label. It does not say where
  the note starts, because `OBS[:\s]+(.+)` backtracks over blanks in ways the
  shape contract does not track.
- Header.CityStateOf: states only the shapes of city and state. The class `À-ú` is a code-point
  range, so the city may also hold `×` and `÷`, exactly as in the source. Which text the leftmost,
  greedy city group captures is left to `Pattern.SearchFrom`.
- Items.ScanItemLine: defined for the stripped, break-free lines `extrair_itens` passes it.
  - For such lines `^…(.+)$` is the rest of the line, and the anchors need no separate model.
  - On other strings the scanner is not claimed to agree with `re.match`.
- Pipeline.ExtractFromPdf: builds the rows of each page and then appends them, rather than
  appending to one list item by item. The resulting sequence is the same.
- `float` raising `ValueError` on a malformed quantity is modelled as a `Failure` that ends the
  whole extraction, as the uncaught exception does in the source.
- Masking.MaskHidesTaxId, Masking.MaskHidesPhone, Masking.MaskHidesEmail: each promises a
  placeholder only where `re.search` finds a match, as the code does; masking is not claimed to
  hide every tax ID, phone or address. A tax ID glued to a preceding letter, such as
  `"CNPJ12.345.678/0001-95"`, has no word boundary before its first digit, so the tax-ID pattern
  does not match there; nor does the phone pattern, which needs six digits broken only by an optional `)` and blank, so the
  code leaves that tax ID in the clear. The phone and e-mail lemmas
  are stated on the text the earlier passes leave, since that is the text each pass searches.
- Masking is not claimed to be idempotent, and the code's masking is not. Masking
  `"11 98765-432112.345.678/0001-95"` once masks the phone number, which exposes a word
  boundary before the tax ID. A second masking then masks the tax ID as well.
