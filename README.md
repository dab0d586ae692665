# Verified model of the README builder of node-backend-in-korea

The repository lists Korean companies that run Node.js backends. Each
company is described by one JSON file. `scripts/makeReadme.js` does four things:

- It reads the files.
- It normalises each company record.
- It sorts the records: official listings first, then by the share of
  Node.js backend developers, then by the share of Node.js projects.
- It formats one table row per company, lays the table out with the json2md
  library, centres the columns, translates the column headers into Korean and
  appends the table to a fixed template.

This Dafny project models that pipeline and proves what each step promises.

| file | module | models |
|---|---|---|
| `wrappers.dfy` | `Wrappers` | `Option`, standing for JavaScript's `undefined` |
| `corp_info.dfy` | `CorpInfos` | the parsed and normalised records, `Array.prototype.join`, the loader callback of `getCorpInfosFromFiles` |
| `comparator.dfy` | `Comparator` | `sortByCorpInfo` and an independent lexicographic reference order |
| `sorting.dfy` | `Sorting` | `.sort(sortByCorpInfo)` as an in-place insertion sort on an array, and `getCorpInfosFromFiles` |
| `row_format.dfy` | `RowFormat` | `convertCorpInfoToRow`, decimal text of a rate and its inverse, and `corpInfos.map(convertCorpInfoToRow)` |
| `center_align.dfy` | `Alignment` | the regular-expression rewrite `/[-]{2,}/g` and its inverse |
| `headers.dfy` | `Headers` | the key and label tables, `String.prototype.replace` with a string pattern, and the header loop |
| `readme_builder.dfy` | `ReadmeBuilder` | `getNewMarkdown` and `makeReadme` |

## Behaviour of the code worth noting

- **Failed files.** A file that fails to load is not dropped: the `map`
  callback returns `undefined` for it. The file may be a non-`.json` name,
  may fail to parse, or may lack `army` or `frameworks`. The `undefined`
  entry stays in the array, and `sort` moves it to the end. Then
  `corpInfos.map(convertCorpInfoToRow)` reads a field of it and throws, so
  one bad entry means no document at all. The model keeps the entry as
  `None`, and `ConvertAll`, `GetNewMarkdown` and `MakeReadme` return `None`
  in that case.
- **Hyphen rewrite.** The rewrite touches every run of two or more hyphens
  anywhere in the table text, data cells included, not only the separator
  row. `Alignment.DataCellRewritten` shows this on a cell holding `a--b`.
- **Non-official cell.** A non-official company's `official` cell is the
  boolean `false`, not an empty string. `RowFormat.Cell` keeps the two apart.
- **Header substitution.** The code replaces the first substring occurrence
  of each key, not an exact cell. `Headers.HeaderRowTranslated` states when
  this still yields the translated header row.
  `Headers.CorpInfoKeysStartFresh` proves that the script's own tables meet
  that condition.

## Model

| member | source | states |
|---|---|---|
| CorpInfos.RateOrZero | scripts/makeReadme.js:36-37 | a missing rate becomes 0; a present rate is kept (so 0 stays 0) |
| CorpInfos.Normalize | scripts/makeReadme.js:29-38 | defined exactly when both lists are present; name, link, official and remoteWork are copied; the lists are comma-joined; the rates are defaulted |
| CorpInfos.NormalizeFaithful | scripts/makeReadme.js:29-35 | for non-empty lists of comma-free strings, splitting the joined `army` and `frameworks` at commas gives back the lists |
| CorpInfos.NormalizeRates | scripts/makeReadme.js:36-37 | for every input, a normalised rate is 0 exactly when it was missing or 0 |
| CorpInfos.Join | scripts/makeReadme.js:32-35 | `.join(',')`: the text starts with the first element; `SplitJoin` proves that splitting it gives the list back, and `JoinSmall` gives the empty and one-element cases |
| CorpInfos.Split | scripts/makeReadme.js:32 | splitting yields at least one piece, and a single piece is the whole text |
| CorpInfos.SplitJoin | scripts/makeReadme.js:32-35 | joining comma-free strings with `,` loses nothing: splitting restores the list |
| CorpInfos.SplitJoinStep | scripts/makeReadme.js:32-35 | splitting the join of two or more pieces gives the first piece followed by the pieces of the rest |
| CorpInfos.SplitSeparatorFirst | scripts/makeReadme.js:32-35 | a text starting with the separator splits into an empty piece and the pieces of the rest |
| CorpInfos.JoinSmall | scripts/makeReadme.js:32-35 | an empty list joins to "" and a one-element list to that element |
| CorpInfos.HasJsonExtension | scripts/makeReadme.js:22 | `path.extname(f) === ".json"` on a bare name: a passing name is a non-empty stem followed by ".json"; `JsonExtensionOf` gives the converse |
| CorpInfos.JsonExtensionOf | scripts/makeReadme.js:22 | a name passes the `.json` extension test exactly when it is a non-empty stem followed by ".json" |
| CorpInfos.LoadEntry | scripts/makeReadme.js:21-42 | an entry is defined exactly when the name has the `.json` extension, the file parsed and both lists are present, and it is then the normalised record |
| CorpInfos.LoadAll | scripts/makeReadme.js:21-42 | one entry per listed name, in listing order |
| CorpInfos.LoadAllKeepsFailures | scripts/makeReadme.js:21-42 | a non-JSON or unparsable file leaves an `undefined` entry rather than being dropped |
| Comparator.BoolToNumber | scripts/makeReadme.js:49 | the coercion maps true to 1 and false to 0 |
| Comparator.AheadTransitive | scripts/makeReadme.js:13-14 | the descending lexicographic reference order is transitive |
| Comparator.AheadTrichotomy | scripts/makeReadme.js:13-14 | two key sequences are equal, or exactly one is ahead of the other |
| Comparator.AheadOnThree | scripts/makeReadme.js:13-14 | on three keys, the reference order compares official, then developer rate, then project rate |
| Comparator.SortByCorpInfo | scripts/makeReadme.js:46-59 | negative exactly when `a` is lexicographically ahead on (official, nodeDeveloperRate, nodeProjectRate) descending; positive exactly when `b` is; zero exactly when the keys agree |
| Comparator.ComparatorZeroIff | scripts/makeReadme.js:46-59 | the result is 0 exactly when official, nodeDeveloperRate and nodeProjectRate are all equal |
| Comparator.ComparatorAntisymmetric | scripts/makeReadme.js:46-59 | swapping the arguments negates the result |
| Comparator.ComparatorReflexive | scripts/makeReadme.js:46-59 | a record compared with itself gives 0 |
| Comparator.ComparatorTransitive | scripts/makeReadme.js:46-59 | "no later than" and "strictly first" are both transitive |
| Comparator.OfficialFirst | scripts/makeReadme.js:48-50 | an official record goes before a non-official one whatever the rates |
| Comparator.DeveloperRateNext | scripts/makeReadme.js:53-55 | with equal official flags, the higher developer rate goes first whatever the project rates |
| Sorting.Before | scripts/makeReadme.js:43-59 | an entry may stand before another exactly when the other is `undefined`, or both are records and the other is not strictly ahead in the descending (official, developer rate, project rate) order; `BeforeTotal` and `BeforeTransitive` make it a total preorder |
| Sorting.BeforeTotal | scripts/makeReadme.js:43 | any two entries can be ordered one way or the other |
| Sorting.BeforeTransitive | scripts/makeReadme.js:43 | the entry order, with `undefined` last, is transitive |
| Sorting.SortedSnoc | scripts/makeReadme.js:43 | appending an entry that may follow every entry of a sorted sequence keeps it sorted |
| Sorting.InsertBack | scripts/makeReadme.js:43 | inserting from the back adds one entry; `InsertBackMultiset`, `InsertBackSorted` and `InsertBackStable` state what it keeps |
| Sorting.SortSeq | scripts/makeReadme.js:43 | the order `.sort(sortByCorpInfo)` produces has one entry per input entry; `SortSeqPermutation`, `SortSeqSorted` and `SortSeqStable` prove it is a stable sorted permutation with `undefined` last |
| Sorting.InsertBackMultiset | scripts/makeReadme.js:43 | inserting an entry adds exactly that entry |
| Sorting.InsertBackSorted | scripts/makeReadme.js:43 | inserting from the back into a sorted sequence keeps it sorted |
| Sorting.SortSeqPermutation | scripts/makeReadme.js:43 | the sorted order is a permutation of the entries |
| Sorting.SortSeqSorted | scripts/makeReadme.js:43-59 | in the sorted order every entry may precede every later one, with `undefined` last |
| Sorting.TiedIff | scripts/makeReadme.js:46-59 | two entries are tied exactly when both are `undefined`, or both are records with equal official flag, developer rate and project rate |
| Sorting.TiedWith | scripts/makeReadme.js:43 | the entries picked out are all tied with the given one and are no more than the sequence holds |
| Sorting.TiedWithSnoc | scripts/makeReadme.js:43 | appending an entry appends it to the tied entries exactly when it is tied |
| Sorting.InsertBackStable | scripts/makeReadme.js:43 | inserting an entry leaves the order of every tie class as it was, the new entry joining its own class at the end |
| Sorting.SortSeqStable | scripts/makeReadme.js:43 | the sort is stable: the entries tied with any entry keep their listing order, as `Array.prototype.sort` guarantees since ECMAScript 2019 |
| Sorting.SortCorpInfos | scripts/makeReadme.js:43 | the array ends up in the stable sorted order of its old contents, so it is sorted and a permutation of them |
| Sorting.NextPrefix | scripts/makeReadme.js:43 | the sorted order of one more entry is the sorted order so far with that entry inserted |
| Sorting.InsertIntoPrefix | scripts/makeReadme.js:43 | one insertion step leaves the first `i + 1` entries as the old prefix with the old entry `i` inserted from the back, and leaves every later entry in place |
| Sorting.SwapStep | scripts/makeReadme.js:43 | exchanging the moving entry with its predecessor moves it one place forward and keeps every other entry |
| Sorting.InsertBackStep | scripts/makeReadme.js:43 | passing an entry that must come after the moving one is one step of the insertion from the back |
| Sorting.InsertBackStop | scripts/makeReadme.js:43 | the insertion stops behind an entry the moving one may follow, or at the front |
| Sorting.SortedAdjacent | scripts/makeReadme.js:43-59 | each adjacent pair of records is in descending lexicographic key order, so an official record is never after a non-official one |
| Sorting.SortedUndefinedLast | scripts/makeReadme.js:43 | once an `undefined` entry appears, every later entry is `undefined` |
| Sorting.SortedOfficialFirst | scripts/makeReadme.js:43-50 | every official record stands before every non-official one |
| Sorting.GetCorpInfosFromFiles | scripts/makeReadme.js:20-44 | the result is the stable sorted order of the loader's entries, hence sorted and a permutation of them |
| Sorting.AllDefinedPreserved | scripts/makeReadme.js:43 | sorting neither creates nor removes `undefined` entries |
| Sorting.OneBadOneGood | scripts/makeReadme.js:21-43 | an unparsable file beside a good one gives exactly [record, undefined] |
| Sorting.OfficialBeforeHigherRate | scripts/makeReadme.js:43-50 | an official record with a lower developer rate still sorts before a non-official one with a higher rate |
| RowFormat.DigitChar | scripts/makeReadme.js:73-74 | a digit below ten becomes the character with that value |
| RowFormat.NatToString | scripts/makeReadme.js:73-74 | decimal text is non-empty digits, with a leading zero only for 0, and one digit exactly below ten |
| RowFormat.ParseNatToString | scripts/makeReadme.js:73-74 | decimal text reads back to the number |
| RowFormat.IntToString | scripts/makeReadme.js:73-74 | a negative number is a minus sign followed by digits; any other number is digits only |
| RowFormat.ParseIntToString | scripts/makeReadme.js:73-74 | the text of an integer reads back to it |
| RowFormat.RateCell | scripts/makeReadme.js:73-74 | the cell is empty exactly for 0; otherwise it is the decimal text followed by `%` |
| RowFormat.RateCellRoundTrip | scripts/makeReadme.js:73-74 | a rate cell determines its rate |
| RowFormat.ConvertCorpInfoToRow | scripts/makeReadme.js:65-76 | name, link, army and frameworks pass through; official becomes the icon markup or `false`; remoteWork becomes "O" or "X"; the rates become rate cells |
| RowFormat.RowRoundTrip | scripts/makeReadme.js:65-76 | formatting loses nothing: the row determines the record |
| RowFormat.SampleRow | scripts/makeReadme.js:65-76 | the sample official record with rates 90 and 80 gives the icon, "90%", "80%" and "O" |
| RowFormat.ConvertAll | scripts/makeReadme.js:79 | defined exactly when every entry is defined, and then it is the formatted rows, index for index |
| Alignment.HyphenRun | scripts/makeReadme.js:81 | the leading hyphen run is all hyphens and is maximal |
| Alignment.CenterAlign | scripts/makeReadme.js:81 | the `/[-]{2,}/g` rewrite never shortens the text; `UnalignCenterAlign` proves it loses nothing, and `CenterAlignKeepsHyphens`, `CenterAlignLength` and `CenterAlignUnchangedIff` what it changes |
| Alignment.CenterAlignStart | scripts/makeReadme.js:81 | the rewrite keeps a first character that is not a hyphen, and never starts its output with two hyphens |
| Alignment.WrappedRunOf | scripts/makeReadme.js:81 | the inverse recognises every wrapped run the rewrite produces, whatever follows it |
| Alignment.UnwrapRun | scripts/makeReadme.js:81 | the inverse turns " :"+run+":" back into the run and continues with the rest |
| Alignment.NoWrappedRunAtPlain | scripts/makeReadme.js:81 | a character the rewrite copies is never mistaken by the inverse for the start of a wrapped run |
| Alignment.UnalignCenterAlign | scripts/makeReadme.js:81 | unwrapping every " :"+run+":" gives back the original text, so the rewrite loses nothing |
| Alignment.CenterAlignKeepsHyphens | scripts/makeReadme.js:81 | the number of hyphens is unchanged |
| Alignment.CenterAlignLength | scripts/makeReadme.js:81 | the text never gets shorter, and gets longer whenever it holds two hyphens in a row |
| Alignment.CenterAlignUnchangedIff | scripts/makeReadme.js:81 | the text is unchanged exactly when it holds no two hyphens in a row, so single hyphens and other characters are left alone |
| Alignment.CenterAlignAfterPlainPrefix | scripts/makeReadme.js:81 | a hyphen-free prefix passes through, and the rest is rewritten on its own |
| Alignment.DataCellRewritten | scripts/makeReadme.js:81 | a double hyphen inside a data cell is wrapped as well |
| Headers.KeyTablesAligned | scripts/makeReadme.js:9-10 | the key and label tables both have 8 entries |
| Headers.FindFrom | scripts/makeReadme.js:83 | the result is the first occurrence at or after the start index, or none exists |
| Headers.ReplaceFirst | scripts/makeReadme.js:83 | `replace` with a string pattern: a text without the pattern is unchanged, and otherwise one occurrence is swapped for the label, changing the length by their difference; `ReplaceFirstOccurrence` pins the first occurrence |
| Headers.ReplaceFirstOccurrence | scripts/makeReadme.js:83 | when the key first occurs at a position, the text before it is kept, the key there becomes the label and the rest follows unchanged |
| Headers.ReplaceFirstAbsent | scripts/makeReadme.js:83 | a text in which the key does not occur is left unchanged |
| Headers.ReplaceEach | scripts/makeReadme.js:82-84 | the `forEach` pass as an ordered fold of first-occurrence replacements; with equal-length keys and labels the length is kept; `ReplaceEachNoKey` and `HeaderRowTranslated` state its effect |
| Headers.TranslateHeaders | scripts/makeReadme.js:82-84 | the loop applies the first-occurrence replacement for each key in order |
| Headers.ReplaceEachNoKey | scripts/makeReadme.js:82-84 | a text holding none of the keys is unchanged |
| Headers.ReplaceFirstAfter | scripts/makeReadme.js:83 | when the key's first character does not occur before a position, the occurrence at that position is the first one replaced |
| Headers.HeaderRowTranslated | scripts/makeReadme.js:82-84 | a header row of the keys, followed by any text, becomes the header row of the labels followed by the same text |
| Headers.CorpInfoKeysStartFresh | scripts/makeReadme.js:9-10 | the script's keys cannot be matched earlier in the row, inside a label already substituted |
| ReadmeBuilder.PostProcess | scripts/makeReadme.js:80-84 | the hyphen rewrite followed by the header pass; `PostProcessHeaderRow` and `PostProcessPlainText` state its effect |
| ReadmeBuilder.GetNewMarkdown | scripts/makeReadme.js:78-89 | the document is defined exactly when every entry is; it is the template, a newline, and then json2md's table post-processed |
| ReadmeBuilder.MakeReadme | scripts/makeReadme.js:91-104 | the records are the stable sorted order of the loaded entries, so tied records keep their listing order; a document exists exactly when every listed file loads, and it is the template, a newline and the post-processed table of those records |
| ReadmeBuilder.KeysHaveNoHyphen | scripts/makeReadme.js:9 | the header row of the keys holds no hyphen |
| ReadmeBuilder.PostProcessHeaderRow | scripts/makeReadme.js:80-84 | when the table starts with the English header row, it ends up starting with the Korean one, and the remainder is only centre-aligned |
| ReadmeBuilder.PostProcessPlainText | scripts/makeReadme.js:81-84 | text with no double hyphen and no key comes out unchanged |

## Left out

- File-system work is not modelled. This covers `fs.readdirSync`, `fs.readFileSync`, `fs.writeFile` with its callback, and the fixed paths. The listing and the template are inputs, and the document is returned, not written.
- Logging through `console.error` and `console.log` is left out. It has no effect on the result.
- `JSON.parse` and the `try`/`catch` are not modelled as a parser. Each file entry carries the parsed object, or `None` when reading or parsing throws.
- The json2md library is code outside this repository. Its table layout is the function parameter `json2md` of `GetNewMarkdown` and `MakeReadme`.
- CorpInfos.RawCorpInfo: `name`, `link`, `official` and `remoteWork` are assumed present with their JSON types. An absent field copied as `undefined`, and the `NaN` that the comparator would then compute, are not modelled. Array elements of `army` and `frameworks` are assumed to be strings.
- CorpInfos.HasJsonExtension: models `path.extname` only for the bare names that `readdirSync` returns. Names containing `/` are not covered.
- RowFormat.IntToString: rates are integers. JavaScript's number-to-string for fractions, `NaN`, and magnitudes of 10^21 and above (exponent notation) is not modelled. Nor is a rate given as a non-number.
- Headers.ReplaceFirst: the `$` patterns of a JavaScript replacement string are not interpreted. The script's labels contain no `$`.
- Sorting.SortCorpInfos: the engine's own sort algorithm is not modelled; an insertion sort stands for it. Since ECMAScript 2019, `Array.prototype.sort` must be stable, so records with equal keys keep their `readdirSync` listing order. `Sorting.SortSeqStable` proves the model keeps that order too. The model does not capture an older engine whose sort is not stable.
