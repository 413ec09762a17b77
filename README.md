# logseq-metrics, modelled in Dafny

logseq-metrics is a Logseq plugin that records numeric metrics ("Weight",
"Sleep / Morning", ...) and shows them as cards and charts inside
the user's notes. This project models the core of the plugin and proves
properties of it. The core is:

- **The metric store** (`DataUtils`, `StoreProperties`). The store lives on
  the data page `metrics-plugin-data`. There is one top-level block per
  metric name. Under it sit either the data points or child-name blocks
  that hold the data points. A data point is a block whose content is a
  JSON object with `date` and `value`. `enterMetric` files a point and
  `loadMetrics` reads the points back. The host editor (`Page`, `Host`) is
  a deterministic state: whether the page exists, its block forest, the
  next uuid, and a script of refused write requests. The plugin's methods
  work on it through a `Host.Editor` object. Each method is proved equal to
  a function of the page it started from.
- **String helpers** (`Text`). These are `trim`, `splitBy` (split at runs
  of delimiter characters), `split` on one character, and `replace` /
  `replaceAll` for a one-character pattern.
- **The visualization registry** (`Visualizations`). It is the class-wide
  map from block uuid and slot to a visualization instance. Its
  operations are `create`, `getInstanceFor`, `setInstanceFor` and
  `releaseAll`, plus the table of the fourteen visualization names.
- **Cards and charts** (`Cards`, `Charts`). Cards are the `sum`,
  `average`, `latest` and `count` aggregators and the card title. Charts
  are the per-key bar sums and the CSV export of a line chart.
- **The entry form** (`EntryForm`). It covers input validation, the data
  point the form builds, and the list of blocks to refresh after an entry.
- **Metric-name autocompletion** (`AutoComplete`). This is
  `AutoComplete.search`: scoring, dropping candidates that score nothing,
  and a stable sort by descending score. The main model (`Search`,
  `RankBy`, `RankByFacts`) is the stateless reading, where every `test`
  starts at the beginning of the word. The code as written reuses global
  regexes, whose `lastIndex` carries over from one `test` to the next;
  that version is modelled too (`SearchAsWritten`), and the difference is
  under "## Findings".

Some of the source's inputs are parameters of the model:

- `JSON.parse` is a `Decoder`; `None` means it throws.
- `Number.parseFloat` is a `Parser` over exact reals; `None` means NaN.
- The date order of `sortMetricsByDate` is a key function.
- `new Date(...).toISOString()` is a `toIso` function.
- `clearName` is a function parameter.

`findBlock` and `findOrCreateBlock` answer the *last* block with the
name. The `return` inside their `forEach` callback (data-utils.js:23 and
data-utils.js:106) only leaves the callback, so a later match overwrites
an earlier one.

## Model

| member | source | states |
|---|---|---|
| DataUtils.NewMetric | data-utils.js:9-12 | A metric has a date (value) exactly when the object has one, and it is the object's; nothing else is kept |
| DataUtils.Lookup | data-utils.js:16-30 | null exactly when no block has the name; otherwise the uuid of a block with the name after which no block has it (last match wins) |
| DataUtils.FindBlock | data-utils.js:16-30 | The scan over the blocks answers the last-match lookup |
| DataUtils.FindOrCreateBlock | data-utils.js:97-126 | The page and the answer are those of a lookup that, on a miss, inserts a block with the name as the next sibling of the last block; a non-empty tree is required, as the code reads its last element |
| StoreProperties.FindOrCreateTwice | data-utils.js:97-126 | When it answers a uuid, the top level is unchanged or has one new block with the name at the end; asking again answers the same uuid and writes nothing |
| DataUtils.EnterMetric | data-utils.js:32-95 | The new page and the outcome are those of the entry function: create the page if missing, resolve or create the metric block, the child block, then append the point; every early return is an outcome |
| StoreProperties.EnterThenLoad | data-utils.js:32-95 | After a successful entry under a child name, loading that metric and child yields the earlier load followed by the new point |
| StoreProperties.EnterFailureKeepsLoad | data-utils.js:32-95 | Whenever the entry fails, with or without a child name, the load of that metric and child reads what it read before, or nothing when the failed call created the page; the same holds for the corrected load without a child name |
| StoreProperties.EnterKeepsOtherLoads | data-utils.js:32-95 | Whether the entry succeeds or fails, it changes no other series: a load of another metric, plain or corrected, and a load of another child name of the same metric read what they read before, or nothing when the call created the page; the one exception is a point entered without a child name whose text is that other child name |
| StoreProperties.EntryShadowsChild | data-utils.js:86-88 | The exception on a concrete page: a point entered without a child name, whose text equals an existing child name, becomes the last block with that name, and that child's load then reads nothing |
| StoreProperties.EnterBelowRewrites | data-utils.js:66-91 | The child step and the point insert change only the children of the metric block, and a load of another child name reads what it read before |
| StoreProperties.ResolveMetricKeepsOthers | data-utils.js:49-64 | Resolving or creating the metric block leaves the load of every other metric, plain and corrected, as it was |
| StoreProperties.LoadAt | data-utils.js:128-160 | On a well-formed page, a load reads only the last top-level block with the name: nothing when there is none, and otherwise what lies below that block |
| StoreProperties.EnterBelowFailureKeepsLoad | data-utils.js:66-91 | A failed child step or failed point insert leaves the load of that metric and child unchanged |
| StoreProperties.FirstChildKeepsLoad | data-utils.js:69-74 | Creating the first child block adds no point to that child's load |
| StoreProperties.LastChildKeepsLoad | data-utils.js:75-82 | Creating a further child block adds no point to that child's load |
| StoreProperties.EnterBelowAppends | data-utils.js:66-88 | Below the metric block, a successful child step and insert appends exactly the new point to the child's load |
| StoreProperties.ResolveMetricLocates | data-utils.js:53-64 | After the metric step the metric block is the last block with the name, and what a load reads is unchanged |
| StoreProperties.PageStep | data-utils.js:33-44 | The page step keeps the page valid and leaves what a load reads as before (nothing, on a new page) |
| StoreProperties.LoadThroughPath | data-utils.js:135-150 | A load with a child name decodes the children of the last child block with that name under the last metric block |
| StoreProperties.EnterWithoutChildUnseen | data-utils.js:151-157 | As written, a successful entry without a child name leaves that metric's load unchanged |
| StoreProperties.EnteredPointNotLoaded | data-utils.js:151-157 | On a missing page, entering one "Weight" point succeeds with a known page, yet the load yields no metrics; the corrected load yields the point |
| StoreProperties.EnterThenLoadFixed | data-utils.js:128-161 | With the corrected load, an entry without a child name is read back after the earlier points |
| StoreProperties.DecodePointsOnLabels | data-utils.js:151-157 | The corrected load agrees with the original when every child of the metric block is a child-name block |
| StoreProperties.DecodePointsOnPoints | data-utils.js:151-157 | When every child of the metric block is a data point, the corrected load reads exactly those |
| DataUtils.LoadMetrics | data-utils.js:128-161 | The result is the load function of the page: rejected for a missing page, [] for a missing metric or child block, else the decoded points |
| DataUtils.DecodeAll | data-utils.js:145-150 | Loaded exactly when every block decodes, with one metric per block in order |
| DataUtils.DecodeEach | data-utils.js:146-149 | The loop appends the decoded blocks to the metrics so far, or fails when one does not decode |
| DataUtils.DecodeAllConcat | data-utils.js:152-157 | Decoding two runs of blocks is decoding each and concatenating, failing if either fails |
| StoreProperties.LastMatchSnoc | data-utils.js:20-25 | A block added at the end is the match when it has the name; otherwise the match is unchanged |
| Text.Trim | index.js:246-249 | The result is a contiguous piece of the input with only white space before and after it in the input, and it neither starts nor ends with white space: exactly the white-space runs at both ends are removed |
| Text.StripFacts | index.js:223-224 | Stripping keeps a contiguous piece of the input and is idempotent |
| Text.SplitByPieces | index.js:217-226 | No piece holds a delimiter, and only the empty text gives no pieces |
| Text.SplitByKept | index.js:222-225 | The pieces, concatenated, are the text with every delimiter removed |
| Text.SplitByNonEmpty | index.js:222-225 | No piece is empty unless the text is all delimiters, which gives one empty piece |
| Text.SplitByJoin | index.js:217-226 | Splitting non-empty, delimiter-free pieces joined by a delimiter gives the pieces back |
| Text.SplitOn | ui.js:408 | At least one piece, and no piece holds the separator |
| Text.JoinSplitOn | ui.js:421 | Joining the pieces of a split with the separator gives the string back |
| Text.SplitOnJoin | ui.js:421 | Splitting separator-free pieces joined by the separator gives the pieces back |
| Text.ReplaceAllSplits | index.js:399 | Replacing every occurrence of the character is splitting the text at it and joining the pieces with the replacement, so each occurrence becomes the replacement and nothing else changes |
| Text.ReplaceAllKeeps | index.js:399 | Any other character not in the replacement is present after replacing exactly when it was present before |
| Text.ReplaceFirst | index.js:586 | Only the first occurrence is replaced; no occurrence, no change |
| Text.Occurs | ui.js:424 | True exactly when the pattern occurs at some index of the text |
| Visualizations.KindOfRow | index.js:251-258 | A name listed in a row of the table selects that row's class |
| Visualizations.KindOfUnlisted | index.js:251-268 | A name listed in no row selects nothing |
| Visualizations.FindKind | index.js:260-268 | The loop over the table returns the class of the name, or none |
| Visualizations.SelectKind | index.js:249-266 | The class selected is that of the trimmed visualization name |
| Visualizations.ChildLabel | index.js:247-248 | The stored child name is never "-": a trimmed name other than "-" is kept as it is, and "-" becomes empty |
| Visualizations.Lookup | index.js:271-276 | An instance is found exactly when the place is occupied; it is the instance held there, and a registered one |
| Visualizations.PlacedLookup | index.js:278-284 | After placing, that place holds the new instance and every other place is unchanged |
| Visualizations.PlacedRegistered | index.js:278-284 | Placing registers the new instance and drops at most the one it displaces; nothing is dropped when the place was empty |
| Visualizations.Registry.GetInstanceFor | index.js:271-276 | The instance at (uuid, slot), or null |
| Visualizations.Registry.SetInstanceFor | index.js:278-284 | The instance is placed, the previous occupant (if any) is released, and nothing else changes |
| Visualizations.Registry.Create | index.js:241-269 | An occupied place returns its instance and changes nothing; an unknown name returns null and changes nothing; otherwise a new instance with trimmed names is registered there |
| Visualizations.Registry.Build | index.js:246-268 | On an empty place: a new instance of the selected class is registered, or null for an unknown name |
| Visualizations.Registry.ReleaseAll | index.js:232-239 | The registry is emptied; the release log keeps the earlier releases and grows by exactly one release per occupied (uuid, slot) place, and the new releases are exactly the instances the registry held |
| Visualizations.Registry.ReleaseBlock | index.js:233-237 | One pass of the outer loop: one release per slot of the block, exactly that block's instances, and the block's entry deleted |
| Cards.Sum | index.js:342-350 | The loop yields the sum of the numeric values |
| Cards.SumOfConcat | index.js:342-350 | The sum over two runs of metrics is the sum of their sums |
| Cards.SumOfIgnoresNonNumeric | index.js:345-347 | Missing and NaN values contribute nothing |
| Cards.SumOfNonNegative | index.js:342-350 | No negative value, no negative sum |
| Cards.Count | index.js:364-366 | The raw number of metrics, numeric or not |
| Cards.Average | index.js:352-356 | 0 for no metrics; otherwise the average times the raw count (non-numeric entries included) is the sum |
| Cards.LatestIndex | index.js:358-362 | The position read after a stable ascending sort by date: a greatest date, and no later metric has it |
| Cards.Latest | index.js:358-362 | null exactly for no metrics; otherwise the value of a latest-dated metric that no later metric ties |
| Cards.Title | index.js:395-401 | The title is the metric name, followed by " / " and the child name when there is one, with every dash and every space written as "&nbsp;" (one pass over the name), so no dash or space remains |
| Cards.ReplaceTwice | index.js:399 | Replacing dashes by spaces and then spaces by "&nbsp;" is the same as one pass writing "&nbsp;" for each dash or space |
| Cards.TitleCharacters | index.js:395-401 | Any other character outside "&nbsp;" is in the title exactly when it is in the metric name, or (with a child name) is "/" or in the child name |
| Charts.BarData | index.js:632-657 | One label per key in key order, and each value is the sum of that key's metrics |
| Charts.BarsAddUp | index.js:637-648 | The bars together add up to the sum over all charted metrics |
| Charts.StampCharacters | index.js:586 | The date column holds only characters of the time stamp and the space put in for "T" |
| Charts.Lines | index.js:581-588 | The header line, then one line per point in order |
| Charts.ConvertToCsv | index.js:567-591 | null exactly for missing or empty data; otherwise the header and point lines, each ended by the line delimiter |
| Charts.CsvLinesParseBack | index.js:567-591 | Splitting the CSV at a delimiter that no field holds gives back the header, the point lines and a final empty piece |
| Charts.CsvFieldsParseBack | index.js:582-587 | Splitting a line at a column delimiter that no field holds gives back its fields and a final empty piece |
| EntryForm.Input.MakeInvalid | ui.js:210-217 | The valid classes are removed and the invalid ones added; the text is kept |
| EntryForm.Input.MakeValid | ui.js:219-226 | The invalid classes are removed and the valid ones added; the text is kept |
| EntryForm.Input.ValidateNotEmpty | ui.js:199-208 | True exactly for non-empty text; the input is then marked valid, and invalid otherwise |
| EntryForm.Form.Validate | ui.js:175-197 | Both names are cleaned; true exactly when all four required fields are non-empty; each of the four fields gets exactly the class change of its own emptiness (valid classes swapped for invalid ones, or the reverse), and the child name's classes are untouched |
| EntryForm.Form.FormatMetric | ui.js:153-157 | The point has exactly a date (the ISO form of "date time") and the typed value |
| EntryForm.EnteredFormLoads | ui.js:72-77 | When the stringified form object parses back, a successful entry of it is read back by the load of that metric and child as one more metric, dated with the ISO form of "date time" and holding the typed value unparsed (through the corrected load when there is no child name) |
| EntryForm.BlocksToRefresh | ui.js:87-92 | Each uuid appears once, and the uuids are exactly those of the registered visualizations of the entered metric |
| EntryForm.AddShowing | ui.js:89-92 | One block's instances add their uuids (for the metric) without duplicates, keeping the earlier list as a prefix |
| AutoComplete.Hits | ui.js:423-426 | At most one hit per pattern, and zero exactly when no pattern matches the word |
| AutoComplete.ScoreOf | ui.js:422-427 | Zero exactly when no word of the label has a hit |
| AutoComplete.ScorePositive | ui.js:418-435 | A candidate scores exactly when some pattern matches some word of its label |
| AutoComplete.CandidateScore | ui.js:419-427 | The outer loop computes the candidate's score |
| AutoComplete.TokenHits | ui.js:423-426 | The inner loop counts the patterns that match one word |
| AutoComplete.ScoredSound | ui.js:418-435 | Every kept match names a candidate and carries its positive score |
| AutoComplete.ScoredInOrder | ui.js:418-435 | Kept matches are in the candidates' order |
| AutoComplete.ScoredComplete | ui.js:418-435 | Every candidate with a positive score is kept |
| AutoComplete.SortPermutes | ui.js:438-440 | The sort only reorders the matches |
| AutoComplete.SortRanked | ui.js:438-440 | Sorting matches given in original order yields descending scores, ties in original order (a stable sort) |
| AutoComplete.InsertRanked | ui.js:438-440 | One stable insertion keeps the list ranked |
| AutoComplete.RankBy | ui.js:418-440 | The ranking is ranked, a permutation of the kept matches, and sound |
| AutoComplete.RankByFacts | ui.js:407-449 | Results carry their candidates' positive scores, are in non-increasing score, with ties in input order, each candidate at most once, and every scoring candidate appears |
| AutoComplete.Search | ui.js:407-449 | The results are the candidates of the ranking, in its order |
| AutoComplete.Collect | ui.js:443-446 | One candidate per match, in the matches' order |
| AutoComplete.TestFrom | ui.js:413-426 | `test` on a global regex: a hit means the pattern occurs in the word (case ignored) and moves `lastIndex` past the pattern; a miss resets `lastIndex` to 0 |
| AutoComplete.TestFromStart | ui.js:424 | From `lastIndex` 0 the global regex hits exactly when the pattern matches the word |
| AutoComplete.HitsFrom | ui.js:423-426 | The inner loop as written: never more hits than the stateless count, and each pattern's new `lastIndex` depends only on its own old one and the word |
| AutoComplete.ScoreFrom | ui.js:422-427 | The words of a label as written: never more than the stateless score |
| AutoComplete.CandidateFrom | ui.js:419-427 | One candidate as written: never more than its stateless score |
| AutoComplete.AsWrittenSound | ui.js:418-435 | Every candidate the written code keeps also scores in the stateless reading, with a score at least as high |
| AutoComplete.AsWrittenAtMost | ui.js:418-435 | The written code keeps candidates in their order, each at most once |
| AutoComplete.RankingAsWritten | ui.js:407-440 | The written ranking is ranked (descending score, ties in input order) and within the stateless scores |
| AutoComplete.SearchAsWritten | ui.js:407-449 | The written results are the candidates of the written ranking, in its order |
| AutoComplete.RepeatedWordAsWritten | ui.js:413-428 | When a word hit from the start is missed from the end of that hit, a later label repeating the word scores nothing |
| AutoComplete.GlobalRegexDropsCandidate | ui.js:413-449 | For the input "mo", the written code returns only "Mood" of "Mood" and "Mood am"; the stateless reading returns both |

## Left out

- Rendering, the DOM, events, Chart.js, `downloadCSV`, `inline.js`, `index.ts` and `settings.js` are not part of this model. The entry form keeps only the text and class list of its inputs.
- `clearName`, `sortMetricsByDate`, `interpretUserDate`, `propertiesQuery`, `loadMetricNames` and `addToJournal` are not part of this model. `clearName` is a function parameter. The date order of `sortMetricsByDate` is a key function, and the sort is taken to be a stable ascending sort.
- Cards.Average: states the quotient before `toFixed(2)`; the rounding and the conversion to text are not modelled, because numbers are exact reals.
- Cards.Sum: `Number.parseFloat` is a parameter and floating-point rounding of the additions is not modelled.
- `new Date(...)` and `toISOString` are the parameter `toIso`, and the Date object is folded into the text that `JSON.stringify` writes for it (EntryForm.Form.FormatMetric).
- `JSON.stringify` and `JSON.parse` are the parameters `encode` and `decode`; that they read each other's output back is a precondition of EntryForm.EnteredFormLoads, not proved.
- Text.SplitBy: the delimiters are a set of literal characters (Text.InClass); the regular-expression class syntax of `[${delimeters}]+` (a `-` range, a leading `^`, `\` escapes, `]`) is not modelled. Every caller passes the default `" |:"` (Text.DefaultDelimiters), where the two readings agree.
- StoreProperties.EnterKeepsOtherLoads: excludes a point entered without a child name whose text is the other child name, because the code does change that load then (StoreProperties.EntryShadowsChild).
- Charts.Point: `iso` is the already formatted time stamp; `new Date(x).toISOString()` itself, and the `RangeError` it throws on an invalid date, are not modelled.
- AutoComplete.Matches: each input word is matched as literal text; regular-expression metacharacters in the input are not interpreted. Matches is `test` from the start of the word. The written code's regexes carry the `g` flag, so it can score a matching word 0 (AutoComplete.TestFrom, "## Findings").
- AutoComplete.Search, AutoComplete.RankByFacts, AutoComplete.ScoredComplete: describe the stateless reading. The written code can return fewer candidates and other scores (AutoComplete.GlobalRegexDropsCandidate); what it does promise is stated by AutoComplete.AsWrittenSound and AutoComplete.RankingAsWritten.
- Strings are sequences of Unicode scalar values. JavaScript strings are UTF-16 code units, so a character outside the Basic Multilingual Plane is one element here and two code units there; lengths and indexes (`lastIndex`, slices) differ for such text.
- Case folding is ASCII only.
- `async`/`await` ordering and concurrent calls are not modelled; every host call completes before the next one.
- The order of `Object.keys`, `Object.values` and `Object.entries` is left open. The refresh list is specified as a set without duplicates, and bar groups are given as a sequence in key order.
- JSON values other than strings, and a label that is `undefined`, are not modelled.
- The host editor is modelled, not called. `insertBlock` with `sibling: false` appends the new block as the last child, and with `sibling: true` places it right after its target. A refused write resolves to null.
- Visualization instances are values with a serial number standing for object identity; `release()` is recorded in the registry's `released` log rather than run.

## Findings

| source | as written | input that shows it | evidently intended | confidence | as-written member | corrected member |
|---|---|---|---|---|---|---|
| ui.js:413-426 | Each input word becomes one `RegExp` with the `g` flag, built once and reused for every word of every candidate. `test` starts at the regex's `lastIndex`, which a hit moves to the end of the hit and a miss resets to 0 | `search("mo", [Mood, Mood am])`: "Mood" leaves `lastIndex` at 2, the `test` on the word "Mood" of "Mood am" starts at 2 and misses, and "Mood am" scores 0, so only "Mood" is returned | Every candidate with a word containing an input word is returned, scored by the number of matching (word, input word) pairs | not executed | AutoComplete.GlobalRegexDropsCandidate | AutoComplete.RankByFacts |
| data-utils.js:151-157 | Without a child name, `loadMetrics` reads only the children of the metric block's children, while `enterMetric` without a child name (data-utils.js:86-88) puts the point directly under the metric block | On an empty store, `enterMetric("Weight", "", entry)` succeeds, then `loadMetrics("Weight", "")` yields [] | A point entered without a child name is read back by the load without a child name | not executed | StoreProperties.EnteredPointNotLoaded | StoreProperties.EnterThenLoadFixed |
