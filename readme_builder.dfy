/** `getNewMarkdown` and `makeReadme`: format the sorted records, let json2md
    lay out the table, centre the columns, translate the headers and put the
    table after the template. The json2md library and the file system are
    outside the model: the table layout is a function parameter, the
    template an input, and the document is returned instead of written. */
module ReadmeBuilder {
  import opened Wrappers
  import opened CorpInfos
  import opened Sorting
  import opened RowFormat
  import opened Alignment
  import opened Headers

  /** The two post-processing passes over json2md's table text. */
  function PostProcess(rawTable: string): string
  {
    ReplaceEach(CenterAlign(rawTable), CorpInfoKeys, CorpInfoKeysKr)
  }

  /** `getNewMarkdown`: None when some entry is `undefined`, because mapping
      `convertCorpInfoToRow` over it throws; otherwise the template, a newline
      and the processed table. */
  method GetNewMarkdown(corpInfos: seq<Option<CorpInfo>>, json2md: seq<Row> -> string, defaultReadme: string)
    returns (doc: Option<string>)
    ensures doc.Some? <==> forall i :: 0 <= i < |corpInfos| ==> corpInfos[i].Some?
    ensures doc.Some? ==>
      && |doc.value| > |defaultReadme|
      && doc.value[..|defaultReadme|] == defaultReadme
      && doc.value[|defaultReadme|] == '\n'
      && doc.value[|defaultReadme| + 1..] == PostProcess(json2md(ConvertAll(corpInfos).value))
  {
    var rows := ConvertAll(corpInfos);
    if rows.None? {
      return None;
    }
    var tableMarkdown := json2md(rows.value);
    tableMarkdown := CenterAlign(tableMarkdown);
    tableMarkdown := TranslateHeaders(tableMarkdown, CorpInfoKeys, CorpInfoKeysKr);
    var text := defaultReadme + "\n" + tableMarkdown;
    assert text[..|defaultReadme|] == defaultReadme;
    assert text[|defaultReadme| + 1..] == tableMarkdown;
    doc := Some(text);
  }

  /** `makeReadme`: load and sort the listing, then build the document. It
      is produced exactly when every listed name is a `.json` file that parses
      and has both lists; any other entry stays `undefined` and makes the
      formatting step throw. */
  method MakeReadme(files: seq<FileEntry>, defaultReadme: string, json2md: seq<Row> -> string)
    returns (corpInfos: seq<Option<CorpInfo>>, newReadme: Option<string>)
    ensures corpInfos == SortSeq(LoadAll(files))
    ensures Sorted(corpInfos) && multiset(corpInfos) == multiset(LoadAll(files))
    ensures newReadme.Some? <==> forall i :: 0 <= i < |files| ==> LoadEntry(files[i]).Some?
    ensures newReadme.Some? <==> forall i :: 0 <= i < |corpInfos| ==> corpInfos[i].Some?
    ensures newReadme.Some? ==>
      newReadme.value == defaultReadme + "\n" + PostProcess(json2md(ConvertAll(corpInfos).value))
  {
    corpInfos := GetCorpInfosFromFiles(files);
    AllDefinedPreserved(corpInfos, LoadAll(files));
    newReadme := GetNewMarkdown(corpInfos, json2md, defaultReadme);
    if newReadme.Some? {
      var d := newReadme.value;
      Reassemble(d, defaultReadme, PostProcess(json2md(ConvertAll(corpInfos).value)));
    }
  }

  /** A text made of a prefix, a newline and a suffix is their concatenation. */
  lemma Reassemble(d: string, head: string, tail: string)
    requires |d| > |head| && d[..|head|] == head && d[|head|] == '\n' && d[|head| + 1..] == tail
    ensures d == head + "\n" + tail
  {
    assert d == d[..|head|] + [d[|head|]] + d[|head| + 1..];
  }

  /** None of the column keys contains a hyphen. */
  lemma KeysHaveNoHyphen()
    ensures '-' !in HeaderRow(CorpInfoKeys)
  {
    CharNotInCells('-', CorpInfoKeys);
  }

  /** When json2md's text starts with the header row of the keys, the
      processed table starts with the header row of the Korean labels and the
      rest of the text is only centre-aligned. */
  lemma PostProcessHeaderRow(rest: string)
    ensures PostProcess(HeaderRow(CorpInfoKeys) + rest) == HeaderRow(CorpInfoKeysKr) + CenterAlign(rest)
  {
    KeysHaveNoHyphen();
    CenterAlignAfterPlainPrefix(HeaderRow(CorpInfoKeys), rest);
    CorpInfoKeysStartFresh();
    HeaderRowTranslated(CorpInfoKeys, CorpInfoKeysKr, CenterAlign(rest));
  }

  /** A table text without a double hyphen and without any column key comes
      out of post-processing unchanged. */
  lemma PostProcessPlainText(rawTable: string)
    requires !HasDoubleHyphen(rawTable)
    requires forall i: nat, j: nat :: i < |CorpInfoKeys| ==> !OccursAt(rawTable, CorpInfoKeys[i], j)
    ensures PostProcess(rawTable) == rawTable
  {
    CenterAlignUnchangedIff(rawTable);
    ReplaceEachNoKey(rawTable, CorpInfoKeys, CorpInfoKeysKr);
  }
}
