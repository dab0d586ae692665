/** The header translation of `getNewMarkdown`: for each column key in order,
    `tableMarkdown.replace(key, label)` rewrites the first occurrence of the
    English key into the Korean label at the same index. */
module Headers {
  import opened Wrappers

  /** The column keys, in table order. */
  const CorpInfoKeys: seq<string> :=
    ["official", "name", "nodeDeveloperRate", "nodeProjectRate", "frameworks", "link", "remoteWork", "army"]

  /** The Korean column labels, index for index. */
  const CorpInfoKeysKr: seq<string> :=
    ["공식 여부", "회사명", "NodeJS/BE 개발자 비율", "NodeJS 프로젝트 비율", "사용 프레임워크", "채용 링크", "원격 근무", "병역 특례"]

  lemma KeyTablesAligned()
    ensures |CorpInfoKeys| == |CorpInfoKeysKr| == 8
  {
  }

  // ---------------------------------------------------------------------------
  // String.prototype.replace with a string pattern

  /** `pat` occurs in `s` starting at index `i`. */
  predicate OccursAt(s: string, pat: string, i: nat)
  {
    i + |pat| <= |s| && s[i..i + |pat|] == pat
  }

  /** The first index at or after `from` where `pat` occurs. */
  function FindFrom(s: string, pat: string, from: nat): (r: Option<nat>)
    ensures r.Some? ==> from <= r.value && OccursAt(s, pat, r.value)
    ensures r.Some? ==> forall j: nat :: from <= j < r.value ==> !OccursAt(s, pat, j)
    ensures r.None? ==> forall j: nat :: from <= j ==> !OccursAt(s, pat, j)
    decreases |s| + 1 - from
  {
    if from + |pat| > |s| then None
    else if OccursAt(s, pat, from) then Some(from)
    else FindFrom(s, pat, from + 1)
  }

  /** `s.replace(pat, rep)`. */
  function ReplaceFirst(s: string, pat: string, rep: string): (r: string)
    ensures FindFrom(s, pat, 0).None? ==> r == s
    ensures FindFrom(s, pat, 0).Some? ==> |r| == |s| - |pat| + |rep|
  {
    match FindFrom(s, pat, 0)
    case None => s
    case Some(i) => s[..i] + rep + s[i + |pat|..]
  }

  /** Only the first occurrence is replaced. */
  lemma ReplaceFirstOccurrence(s: string, pat: string, rep: string, i: nat)
    requires OccursAt(s, pat, i)
    requires forall j: nat :: j < i ==> !OccursAt(s, pat, j)
    ensures ReplaceFirst(s, pat, rep) == s[..i] + rep + s[i + |pat|..]
  {
  }

  /** A text without an occurrence is returned unchanged. */
  lemma ReplaceFirstAbsent(s: string, pat: string, rep: string)
    requires forall j: nat :: !OccursAt(s, pat, j)
    ensures ReplaceFirst(s, pat, rep) == s
  {
  }

  /** The `forEach` over the keys, as a fold: the first `n` replacements. */
  function ReplaceEach(s: string, keys: seq<string>, labels: seq<string>): (r: string)
    requires |keys| == |labels|
    ensures (forall i :: 0 <= i < |keys| ==> |keys[i]| == |labels[i]|) ==> |r| == |s|
    decreases |keys|
  {
    if |keys| == 0 then s
    else
      ReplaceFirst(
        ReplaceEach(s, keys[..|keys| - 1], labels[..|labels| - 1]),
        keys[|keys| - 1], labels[|labels| - 1])
  }

  /** The loop of `getNewMarkdown` that reassigns the table text once per
      key (called with CorpInfoKeys and CorpInfoKeysKr). */
  method TranslateHeaders(table: string, keys: seq<string>, labels: seq<string>) returns (t: string)
    requires |keys| == |labels|
    ensures t == ReplaceEach(table, keys, labels)
  {
    t := table;
    var i := 0;
    while i < |keys|
      invariant 0 <= i <= |keys|
      invariant t == ReplaceEach(table, keys[..i], labels[..i])
    {
      assert keys[..i + 1][..i] == keys[..i];
      assert labels[..i + 1][..i] == labels[..i];
      t := ReplaceFirst(t, keys[i], labels[i]);
      i := i + 1;
    }
    assert keys[..i] == keys && labels[..i] == labels;
  }

  /** A text holding none of the keys passes through the pass unchanged. */
  lemma {:induction false} ReplaceEachNoKey(s: string, keys: seq<string>, labels: seq<string>)
    requires |keys| == |labels|
    requires forall i: nat, j: nat :: i < |keys| ==> !OccursAt(s, keys[i], j)
    ensures ReplaceEach(s, keys, labels) == s
    decreases |keys|
  {
    if |keys| > 0 {
      ReplaceEachNoKey(s, keys[..|keys| - 1], labels[..|labels| - 1]);
      var last := keys[|keys| - 1];
      assert forall j: nat :: !OccursAt(s, last, j);
      ReplaceFirstAbsent(s, last, labels[|labels| - 1]);
    }
  }

  // ---------------------------------------------------------------------------
  // A header row `| k0 | k1 | … |` followed by any text

  /** The cells of a pipe-delimited row after its leading `|`. */
  function Cells(cs: seq<string>): string
    decreases |cs|
  {
    if |cs| == 0 then "" else " " + cs[0] + " |" + Cells(cs[1..])
  }

  function HeaderRow(cs: seq<string>): string
  {
    "|" + Cells(cs)
  }

  lemma {:induction false} CellsAppend(a: seq<string>, b: seq<string>)
    ensures Cells(a + b) == Cells(a) + Cells(b)
    decreases |a|
  {
    if |a| == 0 {
      assert a + b == b;
    } else {
      assert (a + b)[0] == a[0] && (a + b)[1..] == a[1..] + b;
      CellsAppend(a[1..], b);
    }
  }

  /** A character that is neither a separator nor in any cell is not in the row. */
  lemma {:induction false} CharNotInCells(c: char, cs: seq<string>)
    requires c != ' ' && c != '|'
    requires forall j :: 0 <= j < |cs| ==> c !in cs[j]
    ensures c !in Cells(cs)
    decreases |cs|
  {
    if |cs| > 0 {
      CharNotInCells(c, cs[1..]);
    }
  }

  /** When the first character of `k` does not appear in `p`, the first
      occurrence of `k` in `p + k + x` is the one right after `p`. */
  lemma ReplaceFirstAfter(p: string, k: string, x: string, rep: string)
    requires |k| > 0 && k[0] !in p
    ensures ReplaceFirst(p + k + x, k, rep) == p + rep + x
  {
    var s := p + k + x;
    assert OccursAt(s, k, |p|) by {
      assert s[|p|..|p| + |k|] == k;
    }
    assert forall j: nat :: j < |p| ==> !OccursAt(s, k, j);
    ReplaceFirstOccurrence(s, k, rep, |p|);
    assert s[..|p|] == p && s[|p| + |k|..] == x;
  }

  /** Every key starts with a character that is no separator and appears in
      none of the labels that replace the keys before it. */
  predicate KeysStartFresh(keys: seq<string>, labels: seq<string>)
    requires |keys| == |labels|
  {
    forall i :: 0 <= i < |keys| ==>
      |keys[i]| > 0 && keys[i][0] != ' ' && keys[i][0] != '|'
      && forall j :: 0 <= j < i ==> keys[i][0] !in labels[j]
  }

  lemma CellsCons(cs: seq<string>)
    requires |cs| > 0
    ensures Cells(cs) == " " + cs[0] + " |" + Cells(cs[1..])
  {
  }

  lemma Regroup(a: string, b: string, c: string, d: string, e: string, f: string, g: string)
    ensures (a + b + c) + d + (e + f + g) == a + (b + (c + d + e)) + f + g
  {
  }

  lemma CellsSingle(c: string)
    ensures Cells([c]) == " " + c + " |"
  {
    assert [c][1..] == [];
  }

  /** One replacement on a partly translated header row: the next key
      becomes its label. */
  lemma ReplaceFirstOnHeader(keys: seq<string>, labels: seq<string>, rest: string, n: nat)
    requires |keys| == |labels| && n < |keys|
    requires KeysStartFresh(keys, labels)
    ensures ReplaceFirst("|" + Cells(labels[..n]) + Cells(keys[n..]) + rest, keys[n], labels[n])
      == "|" + Cells(labels[..n + 1]) + Cells(keys[n + 1..]) + rest
  {
    var k, l := keys[n], labels[n];
    assert |k| > 0 && k[0] != ' ' && k[0] != '|';
    assert forall j :: 0 <= j < |labels[..n]| ==> k[0] !in labels[..n][j];
    var done, todo := Cells(labels[..n]), Cells(keys[n + 1..]);
    CharNotInCells(k[0], labels[..n]);
    var p := "|" + done + " ";
    var x := " |" + todo + rest;
    CellsCons(keys[n..]);
    assert keys[n..][1..] == keys[n + 1..];
    assert "|" + done + Cells(keys[n..]) + rest == p + k + x;
    ReplaceFirstAfter(p, k, x, l);
    CellsAppend(labels[..n], [l]);
    assert labels[..n] + [l] == labels[..n + 1];
    CellsSingle(l);
    Regroup("|", done, " ", l, " |", todo, rest);
  }

  /** After `i` replacements on a header row of the keys, the first `i` cells
      hold their labels and the rest of the text is untouched. */
  lemma {:induction false} ReplaceEachOnHeader(keys: seq<string>, labels: seq<string>, rest: string, i: nat)
    requires |keys| == |labels| && i <= |keys|
    requires KeysStartFresh(keys, labels)
    ensures ReplaceEach(HeaderRow(keys) + rest, keys[..i], labels[..i])
      == "|" + Cells(labels[..i]) + Cells(keys[i..]) + rest
    decreases i
  {
    if i == 0 {
      assert keys[0..] == keys;
      return;
    }
    var n := i - 1;
    assert keys[..i][..n] == keys[..n] && labels[..i][..n] == labels[..n];
    ReplaceEachOnHeader(keys, labels, rest, n);
    ReplaceFirstOnHeader(keys, labels, rest, n);
  }

  /** The whole pass on a header row of the keys yields the header row of the
      labels, whatever follows it. */
  lemma HeaderRowTranslated(keys: seq<string>, labels: seq<string>, rest: string)
    requires |keys| == |labels|
    requires KeysStartFresh(keys, labels)
    ensures ReplaceEach(HeaderRow(keys) + rest, keys, labels) == HeaderRow(labels) + rest
  {
    ReplaceEachOnHeader(keys, labels, rest, |keys|);
    WholeSlices(keys);
    WholeSlices(labels);
    NothingLeft(labels, rest);
  }

  lemma WholeSlices<T>(s: seq<T>)
    ensures s[..|s|] == s && s[|s|..] == []
  {
  }

  lemma NothingLeft(labels: seq<string>, rest: string)
    ensures "|" + Cells(labels) + Cells([]) + rest == HeaderRow(labels) + rest
  {
    assert Cells([]) == "";
  }

  /** The characters the Korean labels are made of: spaces, the slash, upper
      case Latin letters, the letters of "ode" and Hangul. */
  predicate LabelChar(c: char)
  {
    c == ' ' || c == '/' || 'A' <= c <= 'Z' || c == 'o' || c == 'd' || c == 'e' || c > '~'
  }

  lemma LabelsUseLabelChars()
    ensures forall j, c :: 0 <= j < |CorpInfoKeysKr| && c in CorpInfoKeysKr[j] ==> LabelChar(c)
  {
  }

  /** Every key after the first starts with a letter no label contains. */
  lemma KeysStartOutsideLabelChars()
    ensures forall i :: 1 <= i < |CorpInfoKeys| ==>
      |CorpInfoKeys[i]| > 0 && !LabelChar(CorpInfoKeys[i][0]) && CorpInfoKeys[i][0] != '|'
    ensures |CorpInfoKeys[0]| > 0 && CorpInfoKeys[0][0] == 'o'
  {
  }

  /** The key and label tables of the script meet that condition. */
  lemma CorpInfoKeysStartFresh()
    ensures KeysStartFresh(CorpInfoKeys, CorpInfoKeysKr)
  {
    LabelsUseLabelChars();
    KeysStartOutsideLabelChars();
    KeyTablesAligned();
  }
}
