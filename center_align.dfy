/** The regular-expression rewrite of `getNewMarkdown`:
    `replace(/[-]{2,}/g, match => " :" + match.trim() + ":")`. Every maximal
    run of two or more hyphens, anywhere in the table text, is wrapped in
    " :" and ":", which centres a markdown column when the run is a
    separator cell. */
module Alignment {

  /** The number of hyphens `s` starts with. */
  function HyphenRun(s: string): (k: nat)
    ensures k <= |s|
    ensures forall i :: 0 <= i < k ==> s[i] == '-'
    ensures k < |s| ==> s[k] != '-'
    decreases |s|
  {
    if |s| > 0 && s[0] == '-' then 1 + HyphenRun(s[1..]) else 0
  }

  /** The global replacement. The regular expression is greedy and scans left
      to right, so each match is a whole maximal run. */
  function CenterAlign(s: string): (r: string)
    ensures |r| >= |s|
    decreases |s|
  {
    if |s| == 0 then ""
    else if s[0] != '-' then [s[0]] + CenterAlign(s[1..])
    else
      var k := HyphenRun(s);
      if k >= 2 then " :" + s[..k] + ":" + CenterAlign(s[k..])
      else "-" + CenterAlign(s[1..])
  }

  /** The length of the hyphen run wrapped as " :" + run + ":" at the head
      of `t`, or 0 when `t` does not start with such a wrapped run of two or
      more hyphens. */
  function WrappedRun(t: string): (k: nat)
    ensures k == 0 || (2 <= k && 3 + k <= |t|)
  {
    if |t| >= 2 && t[0] == ' ' && t[1] == ':' then
      var k := HyphenRun(t[2..]);
      if k >= 2 && 2 + k < |t| && t[2 + k] == ':' then k else 0
    else 0
  }

  /** The inverse rewrite: unwraps every " :" + run + ":" whose run has at
      least two hyphens. */
  function Unalign(t: string): string
    decreases |t|
  {
    if |t| == 0 then ""
    else if WrappedRun(t) >= 2 then
      t[2..2 + WrappedRun(t)] + Unalign(t[3 + WrappedRun(t)..])
    else [t[0]] + Unalign(t[1..])
  }

  /** Where a rewritten text starts: the rewrite keeps a first character that
      is not a hyphen, and never starts its output with two hyphens. */
  lemma CenterAlignStart(s: string)
    ensures |s| > 0 ==> |CenterAlign(s)| > 0
    ensures |s| > 0 && s[0] != '-' ==> CenterAlign(s)[0] == s[0]
    ensures |CenterAlign(s)| >= 2 && CenterAlign(s)[0] == '-' ==> CenterAlign(s)[1] != '-'
  {
    if |s| > 0 && s[0] == '-' && HyphenRun(s) < 2 && |s| > 1 {
      assert s[1] != '-';
      assert CenterAlign(s)[1..] == CenterAlign(s[1..]);
    }
  }

  /** The run at the head of `a + b` when `a` is all hyphens and `b` does not
      start with one. */
  lemma {:induction false} HyphenRunOf(a: string, b: string)
    requires forall i :: 0 <= i < |a| ==> a[i] == '-'
    requires |b| > 0 && b[0] != '-'
    ensures HyphenRun(a + b) == |a|
    decreases |a|
  {
    if |a| > 0 {
      assert (a + b)[1..] == a[1..] + b;
      HyphenRunOf(a[1..], b);
    }
  }

  lemma UnalignPlainStep(t: string)
    requires |t| > 0 && WrappedRun(t) == 0
    ensures Unalign(t) == [t[0]] + Unalign(t[1..])
  {
  }

  lemma UnalignRunStep(t: string, k: nat)
    requires WrappedRun(t) == k >= 2
    ensures Unalign(t) == t[2..2 + k] + Unalign(t[3 + k..])
  {
  }

  /** A wrapped run is recognised, whatever follows it. */
  lemma WrappedRunOf(run: string, rest: string)
    requires |run| >= 2 && forall i :: 0 <= i < |run| ==> run[i] == '-'
    ensures WrappedRun(" :" + run + ":" + rest) == |run|
  {
    var t := " :" + run + ":" + rest;
    assert t[2..] == run + (":" + rest);
    HyphenRunOf(run, ":" + rest);
    assert t[2 + |run|] == ':';
  }

  /** A character other than a space, followed by anything, is no wrapped run. */
  lemma NoWrappedRunAfter(c: char, rest: string)
    requires c != ' '
    ensures WrappedRun([c] + rest) == 0
  {
  }

  /** A space, then a character other than a colon, is no wrapped run. */
  lemma NoWrappedRunColon(c: char, rest: string)
    requires c != ':'
    ensures WrappedRun(" " + [c] + rest) == 0
  {
  }

  /** No hyphen run of two or more at the head of a rewritten text. */
  lemma ShortRunAfterRewrite(s: string)
    ensures HyphenRun(CenterAlign(s)) < 2
  {
    CenterAlignStart(s);
    var x := CenterAlign(s);
    if |x| > 1 && x[0] == '-' {
      assert x[1..][0] != '-';
    }
  }

  /** A rewritten text starts with a colon exactly when the original did. */
  lemma ColonStart(s: string)
    requires |s| > 0
    ensures CenterAlign(s)[0] == ':' <==> s[0] == ':'
  {
    CenterAlignStart(s);
    if s[0] == '-' {
      if HyphenRun(s) >= 2 {
        RunStep(s);
      } else {
        PlainStep(s);
      }
    }
  }

  /** A space and a colon, then a rewritten text, is no wrapped run. */
  lemma NoWrappedRunAfterColon(s: string)
    ensures WrappedRun(" :" + CenterAlign(s)) == 0
  {
    var t := " :" + CenterAlign(s);
    assert t[2..] == CenterAlign(s);
    ShortRunAfterRewrite(s);
  }

  /** A character other than a hyphen, followed by the rewrite of the rest,
      is no wrapped run. */
  lemma NoWrappedRunAtPlain(s: string)
    requires |s| > 0 && s[0] != '-'
    ensures WrappedRun([s[0]] + CenterAlign(s[1..])) == 0
  {
    var r := CenterAlign(s[1..]);
    if s[0] != ' ' {
      NoWrappedRunAfter(s[0], r);
    } else if |s| > 1 && s[1] == ':' {
      assert [s[0]] + r == " :" + CenterAlign(s[2..]) by {
        PlainStep(s[1..]);
        assert s[1..][1..] == s[2..];
      }
      NoWrappedRunAfterColon(s[2..]);
    } else if |s| > 1 {
      assert r[0] != ':' by {
        ColonStart(s[1..]);
      }
      assert [s[0]] + r == " " + [r[0]] + r[1..];
      NoWrappedRunColon(r[0], r[1..]);
    } else {
      assert |[s[0]] + r| == 1;
    }
  }

  /** One step of the rewrite followed by one step of the inverse, for a
      text starting with a character other than a hyphen. */
  lemma UnalignPlainHead(s: string)
    requires |s| > 0 && s[0] != '-'
    ensures Unalign(CenterAlign(s)) == [s[0]] + Unalign(CenterAlign(s[1..]))
  {
    PlainStep(s);
    var t := [s[0]] + CenterAlign(s[1..]);
    NoWrappedRunAtPlain(s);
    UnalignPlainStep(t);
    assert t[1..] == CenterAlign(s[1..]);
  }

  /** Unwrapping a wrapped run at the head of a text. */
  lemma UnwrapRun(run: string, rest: string)
    requires |run| >= 2 && forall i :: 0 <= i < |run| ==> run[i] == '-'
    ensures Unalign(" :" + run + ":" + rest) == run + Unalign(rest)
  {
    var t := " :" + run + ":" + rest;
    var k := |run|;
    assert WrappedRun(t) == k by {
      WrappedRunOf(run, rest);
    }
    assert t[2..2 + k] == run && t[3 + k..] == rest by {
      WrappedSlices(run, rest);
    }
    UnalignRunStep(t, k);
  }

  lemma WrappedSlices(run: string, rest: string)
    ensures (" :" + run + ":" + rest)[2..2 + |run|] == run
    ensures (" :" + run + ":" + rest)[3 + |run|..] == rest
  {
    var t := " :" + run + ":" + rest;
    assert t[2..2 + |run|] == run;
    assert t[3 + |run|..] == rest;
  }

  /** The same, for a text starting with a run of two or more hyphens. */
  lemma UnalignRunHead(s: string)
    requires HyphenRun(s) >= 2
    ensures Unalign(CenterAlign(s)) == s[..HyphenRun(s)] + Unalign(CenterAlign(s[HyphenRun(s)..]))
  {
    var k := HyphenRun(s);
    RunStep(s);
    assert forall i :: 0 <= i < k ==> s[..k][i] == '-';
    UnwrapRun(s[..k], CenterAlign(s[k..]));
  }

  /** The same, for a text starting with a single hyphen. */
  lemma UnalignSingleHead(s: string)
    requires |s| > 0 && s[0] == '-' && HyphenRun(s) < 2
    ensures Unalign(CenterAlign(s)) == "-" + Unalign(CenterAlign(s[1..]))
  {
    PlainStep(s);
    var t := "-" + CenterAlign(s[1..]);
    NoWrappedRunAfter('-', CenterAlign(s[1..]));
    UnalignPlainStep(t);
    assert t[1..] == CenterAlign(s[1..]);
  }

  /** The rewrite loses nothing: unwrapping gives back the original text. */
  lemma {:induction false} UnalignCenterAlign(s: string)
    ensures Unalign(CenterAlign(s)) == s
    decreases |s|
  {
    if |s| == 0 {
      return;
    }
    var k := HyphenRun(s);
    if s[0] != '-' {
      UnalignCenterAlign(s[1..]);
      assert Unalign(CenterAlign(s)) == s by {
        UnalignPlainHead(s);
        assert s == [s[0]] + s[1..];
      }
    } else if k >= 2 {
      UnalignCenterAlign(s[k..]);
      assert Unalign(CenterAlign(s)) == s by {
        UnalignRunHead(s);
        assert s == s[..k] + s[k..];
      }
    } else {
      UnalignCenterAlign(s[1..]);
      assert Unalign(CenterAlign(s)) == s by {
        UnalignSingleHead(s);
        assert s == [s[0]] + s[1..];
      }
    }
  }

  /** One step of the rewrite at a character other than a run of two or more
      hyphens. */
  lemma PlainStep(s: string)
    requires |s| > 0 && (s[0] != '-' || HyphenRun(s) < 2)
    ensures CenterAlign(s) == [s[0]] + CenterAlign(s[1..])
  {
  }

  /** One step of the rewrite at a run of two or more hyphens. */
  lemma RunStep(s: string)
    requires HyphenRun(s) >= 2
    ensures CenterAlign(s) == " :" + s[..HyphenRun(s)] + ":" + CenterAlign(s[HyphenRun(s)..])
  {
  }

  lemma ConcatHyphens(a: string, b: string)
    ensures multiset(a + b)['-'] == multiset(a)['-'] + multiset(b)['-']
  {
  }

  /** The hyphens in a text stay as many after one plain step of the
      rewrite as after rewriting the rest. */
  lemma HyphensPlainStep(s: string)
    requires |s| > 0 && (s[0] != '-' || HyphenRun(s) < 2)
    requires multiset(CenterAlign(s[1..]))['-'] == multiset(s[1..])['-']
    ensures multiset(CenterAlign(s))['-'] == multiset(s)['-']
  {
    PlainStepHyphens(s);
    HeadHyphens(s);
  }

  lemma PlainStepHyphens(s: string)
    requires |s| > 0 && (s[0] != '-' || HyphenRun(s) < 2)
    ensures multiset(CenterAlign(s))['-'] == multiset([s[0]])['-'] + multiset(CenterAlign(s[1..]))['-']
  {
    PlainStep(s);
    ConcatHyphens([s[0]], CenterAlign(s[1..]));
  }

  lemma HeadHyphens(s: string)
    requires |s| > 0
    ensures multiset(s)['-'] == multiset([s[0]])['-'] + multiset(s[1..])['-']
  {
    ConcatHyphens([s[0]], s[1..]);
    assert s == [s[0]] + s[1..];
  }

  /** The same for a step at a run of two or more hyphens. */
  lemma HyphensRunStep(s: string)
    requires HyphenRun(s) >= 2
    requires multiset(CenterAlign(s[HyphenRun(s)..]))['-'] == multiset(s[HyphenRun(s)..])['-']
    ensures multiset(CenterAlign(s))['-'] == multiset(s)['-']
  {
    RunStepHyphens(s);
    SplitHyphens(s, HyphenRun(s));
  }

  lemma RunStepHyphens(s: string)
    requires HyphenRun(s) >= 2
    ensures multiset(CenterAlign(s))['-']
         == multiset(s[..HyphenRun(s)])['-'] + multiset(CenterAlign(s[HyphenRun(s)..]))['-']
  {
    var k := HyphenRun(s);
    RunStep(s);
    WrappedHyphens(s[..k], CenterAlign(s[k..]));
  }

  lemma WrappedHyphens(run: string, r: string)
    ensures multiset(" :" + run + ":" + r)['-'] == multiset(run)['-'] + multiset(r)['-']
  {
    ConcatHyphens(" :" + run + ":", r);
    ConcatHyphens(" :" + run, ":");
    ConcatHyphens(" :", run);
  }

  lemma SplitHyphens(s: string, k: nat)
    requires k <= |s|
    ensures multiset(s)['-'] == multiset(s[..k])['-'] + multiset(s[k..])['-']
  {
    ConcatHyphens(s[..k], s[k..]);
    assert s == s[..k] + s[k..];
  }

  /** The rewrite adds no hyphen and removes none. */
  lemma {:induction false} CenterAlignKeepsHyphens(s: string)
    ensures multiset(CenterAlign(s))['-'] == multiset(s)['-']
    decreases |s|
  {
    if |s| == 0 {
      return;
    }
    var k := HyphenRun(s);
    if s[0] != '-' || k < 2 {
      CenterAlignKeepsHyphens(s[1..]);
      HyphensPlainStep(s);
    } else {
      CenterAlignKeepsHyphens(s[k..]);
      HyphensRunStep(s);
    }
  }

  /** Two hyphens in a row somewhere in `s`. */
  predicate HasDoubleHyphen(s: string)
  {
    exists i :: 0 <= i < |s| - 1 && s[i] == '-' && s[i + 1] == '-'
  }

  /** The rewrite never shortens a text, and lengthens every text holding a
      run of two or more hyphens. */
  lemma {:induction false} CenterAlignLength(s: string)
    ensures |CenterAlign(s)| >= |s|
    ensures HasDoubleHyphen(s) ==> |CenterAlign(s)| > |s|
    decreases |s|
  {
    if |s| == 0 {
      return;
    }
    var k := HyphenRun(s);
    if s[0] != '-' || k < 2 {
      CenterAlignLength(s[1..]);
      if HasDoubleHyphen(s) {
        var i :| 0 <= i < |s| - 1 && s[i] == '-' && s[i + 1] == '-';
        assert i >= 1;
        assert s[1..][i - 1] == '-' && s[1..][i] == '-';
        assert HasDoubleHyphen(s[1..]);
      }
    } else {
      CenterAlignLength(s[k..]);
    }
  }

  /** Single hyphens and all other characters are left alone: the rewrite
      changes a text exactly when it holds two hyphens in a row. */
  lemma {:induction false} CenterAlignUnchangedIff(s: string)
    ensures CenterAlign(s) == s <==> !HasDoubleHyphen(s)
    decreases |s|
  {
    CenterAlignLength(s);
    if |s| == 0 || HasDoubleHyphen(s) {
      return;
    }
    assert !HasDoubleHyphen(s[1..]);
    CenterAlignUnchangedIff(s[1..]);
    if s[0] == '-' && |s| > 1 {
      assert s[1] != '-';
    }
    assert s == [s[0]] + s[1..];
  }

  /** A hyphen-free prefix passes through unchanged, and the rest is rewritten
      on its own. */
  lemma {:induction false} CenterAlignAfterPlainPrefix(a: string, b: string)
    requires '-' !in a
    ensures CenterAlign(a + b) == a + CenterAlign(b)
    decreases |a|
  {
    if |a| > 0 {
      assert (a + b)[0] == a[0] && (a + b)[1..] == a[1..] + b;
      CenterAlignAfterPlainPrefix(a[1..], b);
      assert a == [a[0]] + a[1..];
    } else {
      assert a + b == b;
    }
  }

  /** The rewrite is not confined to the separator row: a double hyphen inside
      a data cell is wrapped too. */
  lemma DataCellRewritten()
    ensures CenterAlign("| a--b |") == "| a :--:b |"
  {
    var s := "| a--b |";
    assert s[3..] == "--b |";
    assert HyphenRun("--b |") == 2 by {
      assert "--b |"[1..] == "-b |";
      assert "-b |"[1..] == "b |";
      assert HyphenRun("b |") == 0;
    }
    assert s[3..][..2] == "--" && s[3..][2..] == "b |";
    assert CenterAlign("b |") == "b |" by {
      assert CenterAlign(" |") == " |" by {
        assert CenterAlign("|") == "|";
      }
    }
    assert CenterAlign(s[3..]) == " :--:b |";
    assert s[1..] == " a--b |" && s[1..][1..] == "a--b |" && s[1..][1..][1..] == s[3..];
  }
}
