/** The record loader of `getCorpInfosFromFiles`: each directory entry becomes
    either a normalised company record or `undefined` (None). */
module CorpInfos {
  import opened Wrappers

  /** A company object as `JSON.parse` hands it over. `army` and `frameworks`
      are None when the field is absent or not an array (then `.join` throws);
      the two rates are None when absent. */
  datatype RawCorpInfo = RawCorpInfo(
    name: string,
    link: string,
    army: Option<seq<string>>,
    official: bool,
    remoteWork: bool,
    frameworks: Option<seq<string>>,
    nodeProjectRate: Option<int>,
    nodeDeveloperRate: Option<int>)

  /** The normalised record: lists flattened, rates defaulted. */
  datatype CorpInfo = CorpInfo(
    name: string,
    link: string,
    army: string,
    official: bool,
    remoteWork: bool,
    frameworks: string,
    nodeProjectRate: int,
    nodeDeveloperRate: int)

  /** One name listed in the data directory, with the outcome of reading it and
      running `JSON.parse` on its text (None when either throws). */
  datatype FileEntry = FileEntry(name: string, parsed: Option<RawCorpInfo>)

  // ---------------------------------------------------------------------------
  // Array.prototype.join and its inverse

  /** `xs.join(sep)` on an array of strings. */
  function Join(xs: seq<string>, sep: char): (r: string)
    ensures |xs| > 0 ==> xs[0] <= r
  {
    if |xs| == 0 then ""
    else if |xs| == 1 then xs[0]
    else xs[0] + [sep] + Join(xs[1..], sep)
  }

  /** `s.split(sep)` for a one-character separator: the pieces between the
      separators, always at least one. */
  function Split(s: string, sep: char): (r: seq<string>)
    ensures |r| >= 1
    ensures |r| == 1 ==> r[0] == s
    decreases |s|
  {
    if |s| == 0 then [""]
    else
      var rest := Split(s[1..], sep);
      if s[0] == sep then [""] + rest
      else [[s[0]] + rest[0]] + rest[1..]
  }

  /** Splitting a text that starts with a separator-free piece `a`. */
  lemma {:induction false} SplitPrefix(a: string, t: string, sep: char)
    requires sep !in a
    ensures Split(a + t, sep) == [a + Split(t, sep)[0]] + Split(t, sep)[1..]
    decreases |a|
  {
    if |a| > 0 {
      assert (a + t)[1..] == a[1..] + t;
      SplitPrefix(a[1..], t, sep);
      assert [a[0]] + (a[1..] + Split(t, sep)[0]) == a + Split(t, sep)[0];
    } else {
      var r := Split(t, sep);
      assert a + t == t && a + r[0] == r[0];
      assert r == [r[0]] + r[1..];
    }
  }

  /** Joining separator-free pieces is undone by splitting: the flattened
      `army` and `frameworks` texts still determine their lists. */
  lemma {:induction false} SplitJoin(xs: seq<string>, sep: char)
    requires |xs| >= 1
    requires forall i :: 0 <= i < |xs| ==> sep !in xs[i]
    ensures Split(Join(xs, sep), sep) == xs
    decreases |xs|
  {
    if |xs| == 1 {
      SplitPrefix(xs[0], "", sep);
      assert xs[0] + "" == xs[0];
    } else {
      SplitJoin(xs[1..], sep);
      SplitJoinStep(xs, sep);
    }
  }

  /** The inductive step of `SplitJoin`: the first piece, then the rest. */
  lemma SplitJoinStep(xs: seq<string>, sep: char)
    requires |xs| >= 2 && sep !in xs[0]
    requires Split(Join(xs[1..], sep), sep) == xs[1..]
    ensures Split(Join(xs, sep), sep) == xs
  {
    var rest := Join(xs[1..], sep);
    var t := [sep] + rest;
    assert Join(xs, sep) == xs[0] + t;
    assert Split(t, sep) == [""] + xs[1..] by {
      SplitSeparatorFirst(rest, sep);
    }
    SplitPrefix(xs[0], t, sep);
    assert [xs[0] + ""] + xs[1..] == xs by {
      assert xs[0] + "" == xs[0];
    }
  }

  /** A text starting with the separator splits into an empty first piece
      and the pieces of the rest. */
  lemma SplitSeparatorFirst(rest: string, sep: char)
    ensures Split([sep] + rest, sep) == [""] + Split(rest, sep)
  {
    assert ([sep] + rest)[1..] == rest;
  }

  /** Join of no element and of one element. */
  lemma JoinSmall(x: string, sep: char)
    ensures Join([], sep) == ""
    ensures Join([x], sep) == x
  {
  }

  // ---------------------------------------------------------------------------
  // Normalisation

  /** `v || 0` on an optional number: a missing or zero (falsy) rate gives 0. */
  function RateOrZero(v: Option<int>): (r: int)
    ensures v.None? ==> r == 0
    ensures v.Some? ==> r == v.value
  {
    v.GetOr(0)
  }

  /** The object literal of the loader: None when `army.join` or
      `frameworks.join` would throw. */
  function Normalize(raw: RawCorpInfo): (r: Option<CorpInfo>)
    ensures r.Some? <==> raw.army.Some? && raw.frameworks.Some?
    ensures r.Some? ==>
      && r.value.name == raw.name
      && r.value.link == raw.link
      && r.value.official == raw.official
      && r.value.remoteWork == raw.remoteWork
      && r.value.army == Join(raw.army.value, ',')
      && r.value.frameworks == Join(raw.frameworks.value, ',')
      && r.value.nodeProjectRate == RateOrZero(raw.nodeProjectRate)
      && r.value.nodeDeveloperRate == RateOrZero(raw.nodeDeveloperRate)
  {
    match (raw.army, raw.frameworks)
    case (Some(army), Some(frameworks)) =>
      Some(CorpInfo(
        raw.name, raw.link, Join(army, ','), raw.official, raw.remoteWork,
        Join(frameworks, ','),
        RateOrZero(raw.nodeProjectRate), RateOrZero(raw.nodeDeveloperRate)))
    case _ => None
  }

  /** The lists of a successfully normalised record can be traced back to the
      parsed object: comma-free list elements are recovered by splitting. */
  lemma NormalizeFaithful(raw: RawCorpInfo)
    requires raw.army.Some? && raw.frameworks.Some?
    requires |raw.army.value| >= 1 && forall i :: 0 <= i < |raw.army.value| ==> ',' !in raw.army.value[i]
    requires |raw.frameworks.value| >= 1 && forall i :: 0 <= i < |raw.frameworks.value| ==> ',' !in raw.frameworks.value[i]
    ensures Normalize(raw).Some?
    ensures Split(Normalize(raw).value.army, ',') == raw.army.value
    ensures Split(Normalize(raw).value.frameworks, ',') == raw.frameworks.value
  {
    SplitJoin(raw.army.value, ',');
    SplitJoin(raw.frameworks.value, ',');
  }

  /** Whatever the lists hold, a normalised rate is 0 exactly when it was
      missing or given as 0. */
  lemma NormalizeRates(raw: RawCorpInfo)
    ensures Normalize(raw).Some? ==>
      (Normalize(raw).value.nodeProjectRate == 0 <==> raw.nodeProjectRate.None? || raw.nodeProjectRate == Some(0))
    ensures Normalize(raw).Some? ==>
      (Normalize(raw).value.nodeDeveloperRate == 0 <==> raw.nodeDeveloperRate.None? || raw.nodeDeveloperRate == Some(0))
  {
  }

  // ---------------------------------------------------------------------------
  // Loading a directory listing

  /** `path.extname(name) === ".json"` for a bare file name: the name ends in
      ".json" and the dot is not its first character. */
  predicate HasJsonExtension(name: string)
    ensures HasJsonExtension(name) ==>
      |name| > 5 && name[..|name| - 5] != "" && name == name[..|name| - 5] + ".json"
  {
    |name| > 5 && name[|name| - 5..] == ".json"
  }

  lemma JsonExtensionOf(stem: string, ext: string)
    requires |ext| == 5
    ensures HasJsonExtension(stem + ext) <==> stem != "" && ext == ".json"
  {
    assert (stem + ext)[|stem + ext| - 5..] == ext;
  }

  /** The callback of `files.map`: None for a non-JSON name, for a file that
      cannot be read or parsed, and for one whose lists cannot be joined. */
  function LoadEntry(file: FileEntry): (r: Option<CorpInfo>)
    ensures r.Some? <==>
      HasJsonExtension(file.name) && file.parsed.Some? && Normalize(file.parsed.value).Some?
    ensures r.Some? ==> r == Normalize(file.parsed.value)
  {
    if !HasJsonExtension(file.name) then None
    else
      match file.parsed
      case None => None
      case Some(raw) => Normalize(raw)
  }

  /** `files.map(...)`, before sorting: one entry per listed name, in order. */
  function LoadAll(files: seq<FileEntry>): (r: seq<Option<CorpInfo>>)
    ensures |r| == |files|
    ensures forall i :: 0 <= i < |files| ==> r[i] == LoadEntry(files[i])
  {
    seq(|files|, i requires 0 <= i < |files| => LoadEntry(files[i]))
  }

  /** Every listed name leaves an entry: failures are `undefined`, not dropped. */
  lemma LoadAllKeepsFailures(files: seq<FileEntry>, i: nat)
    requires i < |files|
    requires !HasJsonExtension(files[i].name) || files[i].parsed.None?
    ensures |LoadAll(files)| == |files| && LoadAll(files)[i] == None
  {
  }
}
