/** The text rewrites that copy the root README into the documentation
    tree: guide links are re-pointed one directory up, and a MyST label is
    put before the Quick Start heading. Reading and writing the files is
    not modelled. */
module ReadmeSync {
  import opened Common

  /** p occurs in s at position i. */
  predicate OccursAt(s: string, p: string, i: int) {
    0 <= i && i + |p| <= |s| && s[i..i + |p|] == p
  }

  /** Python's `p in s`. */
  predicate Contains(s: string, p: string) {
    exists i :: 0 <= i <= |s| && OccursAt(s, p, i)
  }

  /** The first position where p occurs in s, searching from `from`. */
  function FindFrom(s: string, p: string, from: nat): (r: Option<nat>)
    requires from <= |s|
    ensures r.Some? ==> from <= r.value && OccursAt(s, p, r.value) &&
                        forall j :: from <= j < r.value ==> !OccursAt(s, p, j)
    ensures r.None? ==> forall j :: from <= j ==> !OccursAt(s, p, j)
    decreases |s| - from
  {
    if from + |p| > |s| then None
    else if s[from..from + |p|] == p then Some(from)
    else if from == |s| then None
    else FindFrom(s, p, from + 1)
  }

  /** Python's `s.replace(pat, rep)`: scan left to right, replacing each
      occurrence and resuming after it. */
  function ReplaceAll(s: string, pat: string, rep: string): (r: string)
    requires |pat| > 0
    ensures |rep| <= |pat| ==> |r| <= |s|
    ensures |rep| >= |pat| ==> |r| >= |s|
    decreases |s|
  {
    if |s| < |pat| then s
    else if s[..|pat|] == pat then rep + ReplaceAll(s[|pat|..], pat, rep)
    else [s[0]] + ReplaceAll(s[1..], pat, rep)
  }

  /** pat occurs nowhere in s. */
  predicate Absent(s: string, pat: string) {
    forall i :: 0 <= i <= |s| ==> !OccursAt(s, pat, i)
  }

  /** Text without the pattern is left as it is. */
  lemma {:induction false} ReplaceAllKeepsClean(s: string, pat: string, rep: string)
    requires |pat| > 0 && Absent(s, pat)
    ensures ReplaceAll(s, pat, rep) == s
    decreases |s|
  {
    if |s| >= |pat| {
      assert !OccursAt(s, pat, 0);
      forall i | 0 <= i <= |s[1..]| ensures !OccursAt(s[1..], pat, i) {
        if OccursAt(s[1..], pat, i) {
          assert s[i + 1..i + 1 + |pat|] == s[1..][i..i + |pat|];
          assert OccursAt(s, pat, i + 1);
        }
      }
      ReplaceAllKeepsClean(s[1..], pat, rep);
    }
  }

  /** Python's `s.replace(pat, rep, 1)`. */
  function ReplaceFirst(s: string, pat: string, rep: string): (r: string)
    ensures FindFrom(s, pat, 0).None? ==> r == s
    ensures FindFrom(s, pat, 0).Some? ==>
              var i := FindFrom(s, pat, 0).value;
              r == s[..i] + rep + s[i + |pat|..]
  {
    match FindFrom(s, pat, 0)
    case None => s
    case Some(i) => s[..i] + rep + s[i + |pat|..]
  }

  lemma FindFinds(s: string, p: string)
    ensures FindFrom(s, p, 0).Some? <==> Contains(s, p)
  {
    if Contains(s, p) {
      var i :| OccursAt(s, p, i);
    }
  }

  /* ---------- transform_links ---------- */

  const DocsGuides := "](docs/guides/"
  const UpGuides := "](../guides/"

  /** transform_links: every guide link of the root README re-pointed from
      `docs/guides/` to `../guides/`. */
  function TransformLinks(text: string): (r: string)
    ensures |r| <= |text|
  {
    ReplaceAll(text, DocsGuides, UpGuides)
  }

  /** Text with no link left to rewrite. */
  predicate NoDocsGuides(s: string) {
    Absent(s, DocsGuides)
  }

  /** x is a prefix of s. */
  predicate PrefixOf(x: string, s: string) {
    |x| <= |s| && s[..|x|] == x
  }

  /** An occurrence past a prefix is an occurrence in what follows it. */
  lemma OccursInSuffix(pre: string, rest: string, p: string, i: int)
    requires i >= |pre|
    ensures OccursAt(pre + rest, p, i) <==> OccursAt(rest, p, i - |pre|)
  {
    if i + |p| <= |pre + rest| {
      assert (pre + rest)[i..i + |p|] == rest[i - |pre|..i - |pre| + |p|];
    }
  }

  /** A rewritten text can only start with a string free of `]` if the
      original started with it: each replacement starts with `]`. */
  lemma {:induction false} PrefixComesFromInput(t: string, x: string)
    requires forall k :: 0 <= k < |x| ==> x[k] != ']'
    ensures PrefixOf(x, ReplaceAll(t, DocsGuides, UpGuides)) ==> PrefixOf(x, t)
    decreases |t|
  {
    var r := ReplaceAll(t, DocsGuides, UpGuides);
    if |x| > 0 && |t| >= |DocsGuides| {
      if t[..|DocsGuides|] == DocsGuides {
        assert r[0] == ']';
        assert r[0] != x[0];
      } else {
        var r1 := ReplaceAll(t[1..], DocsGuides, UpGuides);
        assert r == [t[0]] + r1;
        PrefixComesFromInput(t[1..], x[1..]);
        if PrefixOf(x, r) {
          assert r1[..|x| - 1] == r[1..|x|];
          assert r[..|x|][1..] == r[1..|x|];
          assert PrefixOf(x[1..], r1);
          assert t[0] == r[0] == x[0];
          assert t[..|x|] == [t[0]] + t[1..][..|x| - 1];
        }
      }
    }
  }

  /** No occurrence of the old link starts inside a replacement. */
  lemma NoOccurrenceAcrossReplacement(rest: string, i: int)
    requires 0 <= i < |UpGuides|
    ensures !OccursAt(UpGuides + rest, DocsGuides, i)
  {
    var s := UpGuides + rest;
    if i + |DocsGuides| <= |s| {
      if i == 0 {
        assert s[i..i + |DocsGuides|][2] != DocsGuides[2];
      } else {
        assert s[i..i + |DocsGuides|][0] != DocsGuides[0];
      }
    }
  }

  /** A text that does not start with the old link does not start with it
      after the rest is rewritten either. */
  lemma NoOccurrenceAtHead(text: string)
    requires |text| >= |DocsGuides| && text[..|DocsGuides|] != DocsGuides
    ensures !OccursAt([text[0]] + TransformLinks(text[1..]), DocsGuides, 0)
  {
    var rest := TransformLinks(text[1..]);
    var r := [text[0]] + rest;
    var x := DocsGuides[1..];
    PrefixComesFromInput(text[1..], x);
    assert text[..|DocsGuides|] == [text[0]] + text[1..][..|x|];
    if |rest| >= |x| {
      assert r[1..|DocsGuides|] == rest[..|x|];
    }
  }

  /** After transform_links no `](docs/guides/` remains. */
  lemma {:induction false} TransformLeavesNoDocsGuides(text: string)
    ensures NoDocsGuides(TransformLinks(text))
    decreases |text|
  {
    var r := TransformLinks(text);
    if |text| < |DocsGuides| {
      assert r == text;
    } else if text[..|DocsGuides|] == DocsGuides {
      var rest := TransformLinks(text[|DocsGuides|..]);
      TransformLeavesNoDocsGuides(text[|DocsGuides|..]);
      assert r == UpGuides + rest;
      forall i | 0 <= i <= |r| ensures !OccursAt(r, DocsGuides, i) {
        if i < |UpGuides| {
          NoOccurrenceAcrossReplacement(rest, i);
        } else {
          OccursInSuffix(UpGuides, rest, DocsGuides, i);
        }
      }
    } else {
      var rest := TransformLinks(text[1..]);
      TransformLeavesNoDocsGuides(text[1..]);
      assert r == [text[0]] + rest;
      forall i | 0 <= i <= |r| ensures !OccursAt(r, DocsGuides, i) {
        if i == 0 {
          NoOccurrenceAtHead(text);
        } else {
          OccursInSuffix([text[0]], rest, DocsGuides, i);
        }
      }
    }
  }

  /** transform_links is idempotent. */
  lemma TransformLinksIdempotent(text: string)
    ensures TransformLinks(TransformLinks(text)) == TransformLinks(text)
  {
    TransformLeavesNoDocsGuides(text);
    ReplaceAllKeepsClean(TransformLinks(text), DocsGuides, UpGuides);
  }

  /** Text free of `]` passes through transform_links untouched, whatever
      follows it. */
  lemma {:induction false} PlainPrefixKept(pre: string, rest: string)
    requires forall k :: 0 <= k < |pre| ==> pre[k] != ']'
    ensures TransformLinks(pre + rest) == pre + TransformLinks(rest)
    decreases |pre|
  {
    if |pre| == 0 {
      assert pre + rest == rest;
    } else {
      var s := pre + rest;
      assert s[1..] == pre[1..] + rest;
      PlainPrefixKept(pre[1..], rest);
      assert pre == [pre[0]] + pre[1..];
      if |s| >= |DocsGuides| {
        assert s[..|DocsGuides|][0] != DocsGuides[0];
        calc {
          TransformLinks(s);
          [s[0]] + TransformLinks(s[1..]);
          [pre[0]] + (pre[1..] + TransformLinks(rest));
          pre + TransformLinks(rest);
        }
      } else {
        assert TransformLinks(s) == s;
        assert TransformLinks(rest) == rest;
      }
    }
  }

  /** `]` opens the old link and appears nowhere else in it. */
  lemma DocsGuidesOneBracket(k: int)
    requires 1 <= k < |DocsGuides|
    ensures DocsGuides[k] != ']'
  {
  }

  /** transform_links rewrites a link wherever it stands: the text before
      and after it are rewritten on their own. No occurrence of the old link
      can start before it and reach into it, since `]` appears in the link
      only at its start. */
  lemma {:induction false} TransformLinksSplits(a: string, b: string)
    ensures TransformLinks(a + DocsGuides + b) == TransformLinks(a) + UpGuides + TransformLinks(b)
    decreases |a|
  {
    var d := DocsGuides;
    var s := a + d + b;
    if |a| == 0 {
      assert s == d + b;
      assert s[..|d|] == d;
      assert s[|d|..] == b;
      assert TransformLinks(a) == "";
    } else if |a| >= |d| && a[..|d|] == d {
      assert s[..|d|] == d;
      assert s[|d|..] == a[|d|..] + d + b;
      TransformLinksSplits(a[|d|..], b);
    } else {
      assert s[..|d|] != d by {
        if |a| >= |d| {
          assert s[..|d|] == a[..|d|];
        } else {
          DocsGuidesOneBracket(|a|);
          assert s[..|d|][|a|] == ']';
        }
      }
      assert s[1..] == a[1..] + d + b;
      TransformLinksSplits(a[1..], b);
      if |a| < |d| {
        assert TransformLinks(a) == a;
        assert TransformLinks(a[1..]) == a[1..];
        assert a == [a[0]] + a[1..];
      }
    }
  }

  /** A link in the root README's form, rewritten. */
  lemma TransformLinksExample()
    ensures TransformLinks("[Guide](docs/guides/a.md)") == "[Guide](../guides/a.md)"
  {
    var t := DocsGuides + "a.md)";
    assert t[..|DocsGuides|] == DocsGuides;
    assert t[|DocsGuides|..] == "a.md)";
    assert ReplaceAll("a.md)", DocsGuides, UpGuides) == "a.md)";
    assert ReplaceAll(t, DocsGuides, UpGuides) == UpGuides + ReplaceAll(t[|DocsGuides|..], DocsGuides, UpGuides);
    PlainPrefixKept("[Guide", t);
    assert "[Guide" + t == "[Guide](docs/guides/a.md)";
    assert "[Guide" + (UpGuides + "a.md)") == "[Guide](../guides/a.md)";
  }

  /* ---------- add_quick_start_label ---------- */

  const Label := "(project_overview-quick-start)="
  const Marker := "## Quick Start"

  /** add_quick_start_label: unless the label is already there, insert it
      and a newline before the first Quick Start heading; text without the
      heading is returned unchanged. */
  function AddQuickStartLabel(text: string): (r: string)
    ensures Contains(text, Label) ==> r == text
    ensures !Contains(text, Label) && !Contains(text, Marker) ==> r == text
    ensures !Contains(text, Label) && Contains(text, Marker) ==>
              FindFrom(text, Marker, 0).Some? &&
              var i := FindFrom(text, Marker, 0).value;
              r == text[..i] + Label + "\n" + text[i..]
  {
    FindFinds(text, Marker);
    if Contains(text, Label) then text
    else if Contains(text, Marker) then
      var i := FindFrom(text, Marker, 0).value;
      assert text[..i] + (Label + "\n" + Marker) + text[i + |Marker|..] == text[..i] + Label + "\n" + text[i..] by {
        assert text[i..] == Marker + text[i + |Marker|..];
      }
      ReplaceFirst(text, Marker, Label + "\n" + Marker)
    else text
  }

  /** Applying add_quick_start_label twice is applying it once. */
  lemma AddQuickStartLabelIdempotent(text: string)
    ensures AddQuickStartLabel(AddQuickStartLabel(text)) == AddQuickStartLabel(text)
  {
    var r := AddQuickStartLabel(text);
    if !Contains(text, Label) && Contains(text, Marker) {
      var i := FindFrom(text, Marker, 0).value;
      assert r[i..i + |Label|] == Label;
      assert OccursAt(r, Label, i);
    }
  }

  /** The label lands right before the first heading only: a text with two
      headings gets one label. */
  lemma LabelBeforeFirstHeadingOnly()
    ensures AddQuickStartLabel("## Quick Start\n## Quick Start") ==
            "(project_overview-quick-start)=\n## Quick Start\n## Quick Start"
  {
    var t := "## Quick Start\n## Quick Start";
    assert |Label| > |t|;
    assert !Contains(t, Label);
    assert t[..|Marker|] == Marker;
    assert OccursAt(t, Marker, 0);
    assert FindFrom(t, Marker, 0) == Some(0);
    FindFinds(t, Marker);
    assert AddQuickStartLabel(t) == t[..0] + Label + "\n" + t[0..];
    assert t[..0] + Label + "\n" + t[0..] == Label + "\n" + t;
  }
}
