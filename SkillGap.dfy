/**
 * The missing-skill extractor (`extract_missing_skills`): a line-oriented
 * scanner with two states. While searching, a line that mentions both
 * "missing" and "skill" starts capture; while capturing, a line that mentions
 * "verdict" ends the scan, and every other line is cleaned into a candidate
 * entry. The entries are finally de-duplicated, first occurrence kept.
 */
module SkillGap {
  import opened Strings
  import opened Sequences

  /** Entries must be shorter than this many characters. */
  const ENTRY_LIMIT := 80

  /** A stripped line that starts capture (and is itself skipped). */
  predicate IsHeading(s: string)
  {
    Contains(Lower(s), "missing") && Contains(Lower(s), "skill")
  }

  /** A stripped line that ends capture. */
  predicate IsVerdict(s: string)
  {
    Contains(Lower(s), "verdict")
  }

  /** The characters of the regex class `[\-\*\•\d\.]` (digits ASCII only). */
  predicate IsMarker(c: char)
  {
    c == '-' || c == '*' || c == '•' || ('0' <= c <= '9') || c == '.'
  }

  /** The longest suffix of `s` that does not start with a marker character. */
  function SkipMarkers(s: string): string
    decreases |s|
  {
    if |s| > 0 && IsMarker(s[0]) then SkipMarkers(s[1..]) else s
  }

  /**
   * `re.sub(r"^[\-\*\•\d\.]+\s*", "", s)`: a non-empty leading run of marker
   * characters goes, and so does the whitespace after it; without such a run
   * nothing is removed.
   */
  function DropListMarker(s: string): string
  {
    var t := SkipMarkers(s);
    if |t| == |s| then s else LStrip(t)
  }

  /** The cleaning of one captured (already stripped) line. */
  function CleanEntry(s: string): string
  {
    Strip(Split(ReplaceAll(DropListMarker(s), "**", ""), ':')[0])
  }

  /** What the source keeps: non-empty and shorter than the limit. */
  predicate Keeps(e: string)
  {
    e != [] && |e| < ENTRY_LIMIT
  }

  /** How the scanner reads one raw line. */
  datatype LineKind = Heading | Verdict | Item(entries: seq<string>)

  /**
   * The heading test comes first (such a line is skipped even while
   * capturing), then the verdict test; any other line yields its cleaned
   * entry, kept only when non-empty and short enough.
   */
  function Classify(line: string): LineKind
  {
    var s := Strip(line);
    if IsHeading(s) then Heading
    else if IsVerdict(s) then Verdict
    else
      var clean := CleanEntry(s);
      Item(if Keeps(clean) then [clean] else [])
  }

  /** The kind of every line, in order. */
  function Kinds(lines: seq<string>): (r: seq<LineKind>)
    ensures |r| == |lines|
  {
    if lines == [] then [] else [Classify(lines[0])] + Kinds(lines[1..])
  }

  lemma {:induction false} KindAt(lines: seq<string>, k: nat)
    requires k < |lines|
    ensures Kinds(lines)[k] == Classify(lines[k])
  {
    if k > 0 {
      KindAt(lines[1..], k - 1);
    }
  }

  /** The scanner in its capturing state, on the lines still to come. */
  function Capture(kinds: seq<LineKind>): seq<string>
  {
    if kinds == [] then []
    else match kinds[0]
      case Heading => Capture(kinds[1..])
      case Verdict => []
      case Item(e) => e + Capture(kinds[1..])
  }

  /** The scanner in its searching state, on the lines still to come. */
  function Search(kinds: seq<LineKind>): seq<string>
  {
    if kinds == [] then []
    else if kinds[0].Heading? then Capture(kinds[1..])
    else Search(kinds[1..])
  }

  /** The specification of `extract_missing_skills`. */
  function MissingSkills(analysisText: string): seq<string>
  {
    Dedupe(Search(Kinds(Split(analysisText, '\n'))))
  }

  /** The entries of some lines read with no state machine: the reference for a capture that never stops. */
  function Entries(kinds: seq<LineKind>): seq<string>
  {
    if kinds == [] then []
    else (if kinds[0].Item? then kinds[0].entries else []) + Entries(kinds[1..])
  }

  /** What every entry the extractor returns looks like. */
  predicate WellFormedEntry(e: string)
  {
    e != [] && |e| < ENTRY_LIMIT && ':' !in e && !Contains(e, "**")
  }

  /** Every entry carried by any of these kinds is well formed. */
  predicate ItemsWellFormed(kinds: seq<LineKind>)
  {
    forall k, j :: 0 <= k < |kinds| && kinds[k].Item? && 0 <= j < |kinds[k].entries| ==> WellFormedEntry(kinds[k].entries[j])
  }

  /**
   * The extractor itself, as the source writes it: one pass over the lines
   * with a `capture` flag, then de-duplication.
   */
  method ExtractMissingSkills(analysisText: string) returns (skills: seq<string>)
    ensures skills == MissingSkills(analysisText)
    ensures forall k :: 0 <= k < |skills| ==> WellFormedEntry(skills[k])
    ensures NoDuplicates(skills)
  {
    var lines := Split(analysisText, '\n');
    var missing := ScanLines(lines);
    skills := Dedupe(missing);
    MissingSkillsWellFormed(analysisText);
  }

  /**
   * Every returned entry is non-empty, shorter than 80 characters and free
   * of `:` and `**`, and no entry is returned twice.
   */
  lemma MissingSkillsWellFormed(analysisText: string)
    ensures forall k :: 0 <= k < |MissingSkills(analysisText)| ==> WellFormedEntry(MissingSkills(analysisText)[k])
    ensures NoDuplicates(MissingSkills(analysisText))
  {
    var lines := Split(analysisText, '\n');
    KindsWellFormed(lines);
    SearchWellFormed(Kinds(lines));
  }

  /** The loop of the extractor: the entries collected before de-duplication. */
  method ScanLines(lines: seq<string>) returns (missing: seq<string>)
    ensures missing == Search(Kinds(lines))
  {
    missing := [];
    ghost var kinds := Kinds(lines);
    var capture := false;
    var i := 0;
    while i < |lines|
      invariant 0 <= i <= |lines|
      invariant missing + Scan(capture, kinds[i..]) == Search(kinds)
    {
      KindOfLine(lines, i);
      ScanStep(kinds, i, capture);
      var s := Strip(lines[i]);
      if IsHeading(s) {
        capture := true;
        i := i + 1;
        continue;
      }
      if capture && IsVerdict(s) {
        capture := false;
        break;
      }
      if capture {
        var clean := CleanEntry(s);
        ghost var before := missing;
        if clean != [] && |clean| < ENTRY_LIMIT {
          missing := missing + [clean];
        }
        assert missing == before + kinds[i].entries;
        ConcatAssoc(before, kinds[i].entries, Scan(true, kinds[i + 1..]));
      }
      i := i + 1;
    }
    assert capture ==> Scan(capture, kinds[i..]) == [];
  }

  /** The scanner in either state. */
  function Scan(capture: bool, kinds: seq<LineKind>): seq<string>
  {
    if capture then Capture(kinds) else Search(kinds)
  }

  /** The kind of line `i`, in the terms the loop tests. */
  lemma KindOfLine(lines: seq<string>, i: nat)
    requires i < |lines|
    ensures var s, k := Strip(lines[i]), Kinds(lines)[i];
      (k.Heading? <==> IsHeading(s)) && (k.Verdict? <==> !IsHeading(s) && IsVerdict(s)) &&
      (k.Item? ==> k.entries == if CleanEntry(s) != [] && |CleanEntry(s)| < ENTRY_LIMIT then [CleanEntry(s)] else [])
  {
    KindAt(lines, i);
  }

  /** How the scanner in either state moves past one line. */
  lemma ScanStep(kinds: seq<LineKind>, i: nat, capture: bool)
    requires i < |kinds|
    ensures kinds[i].Heading? ==> Scan(capture, kinds[i..]) == Scan(true, kinds[i + 1..])
    ensures kinds[i].Verdict? && capture ==> Scan(capture, kinds[i..]) == []
    ensures kinds[i].Verdict? && !capture ==> Scan(capture, kinds[i..]) == Scan(capture, kinds[i + 1..])
    ensures kinds[i].Item? && capture ==> Scan(capture, kinds[i..]) == kinds[i].entries + Scan(capture, kinds[i + 1..])
    ensures kinds[i].Item? && !capture ==> Scan(capture, kinds[i..]) == Scan(capture, kinds[i + 1..])
  {
    assert kinds[i..][1..] == kinds[i + 1..];
  }

  /** One cleaned line holds no `:` and no `**`. */
  lemma CleanEntryShape(s: string)
    ensures ':' !in CleanEntry(s)
    ensures !Contains(CleanEntry(s), "**")
  {
    var unbold := ReplaceAll(DropListMarker(s), "**", "");
    var head := Split(unbold, ':')[0];
    SplitShape(unbold, ':');
    if ':' in CleanEntry(s) {
      StripChars(head, ':');
    }
    RemoveBoldLeavesNone(DropListMarker(s));
    SplitFirstIsPrefix(unbold, ':');
    if Contains(head, "**") {
      SliceContains(unbold, 0, |head|, "**");
    }
    if Contains(CleanEntry(s), "**") {
      StripContains(head, "**");
    }
  }

  /** The entry a line can yield is non-empty, short, and free of `:` and `**`. */
  lemma ClassifyWellFormed(line: string)
    ensures Classify(line).Item? ==> forall j :: 0 <= j < |Classify(line).entries| ==> WellFormedEntry(Classify(line).entries[j])
  {
    CleanEntryShape(Strip(line));
  }

  lemma KindsWellFormed(lines: seq<string>)
    ensures ItemsWellFormed(Kinds(lines))
  {
    forall k, j | 0 <= k < |lines| && Kinds(lines)[k].Item? && 0 <= j < |Kinds(lines)[k].entries|
      ensures WellFormedEntry(Kinds(lines)[k].entries[j])
    {
      KindAt(lines, k);
      ClassifyWellFormed(lines[k]);
    }
  }

  /** A line is read as a heading exactly when its stripped form mentions "missing" and "skill". */
  lemma ClassifyHeading(line: string)
    ensures Classify(line).Heading? <==> IsHeading(Strip(line))
  {
  }

  lemma {:induction false} CaptureWellFormed(kinds: seq<LineKind>)
    requires ItemsWellFormed(kinds)
    ensures forall k :: 0 <= k < |Capture(kinds)| ==> WellFormedEntry(Capture(kinds)[k])
  {
    if kinds != [] {
      assert ItemsWellFormed(kinds[1..]) by {
        forall k, j | 0 <= k < |kinds[1..]| && kinds[1..][k].Item? && 0 <= j < |kinds[1..][k].entries|
          ensures WellFormedEntry(kinds[1..][k].entries[j])
        {
          assert kinds[1..][k] == kinds[k + 1];
        }
      }
      CaptureWellFormed(kinds[1..]);
      if kinds[0].Item? {
        assert forall j :: 0 <= j < |kinds[0].entries| ==> WellFormedEntry(kinds[0].entries[j]);
      }
    }
  }

  /** Every entry captured anywhere is well formed. */
  lemma {:induction false} SearchWellFormed(kinds: seq<LineKind>)
    requires ItemsWellFormed(kinds)
    ensures forall k :: 0 <= k < |Search(kinds)| ==> WellFormedEntry(Search(kinds)[k])
  {
    if kinds != [] {
      assert ItemsWellFormed(kinds[1..]) by {
        forall k, j | 0 <= k < |kinds[1..]| && kinds[1..][k].Item? && 0 <= j < |kinds[1..][k].entries|
          ensures WellFormedEntry(kinds[1..][k].entries[j])
        {
          assert kinds[1..][k] == kinds[k + 1];
        }
      }
      if kinds[0].Heading? {
        CaptureWellFormed(kinds[1..]);
      } else {
        SearchWellFormed(kinds[1..]);
      }
    }
  }

  /** Without a heading line nothing is ever captured. */
  lemma {:induction false} SearchNoHeading(kinds: seq<LineKind>)
    requires forall k :: 0 <= k < |kinds| ==> !kinds[k].Heading?
    ensures Search(kinds) == []
  {
    if kinds != [] {
      SearchNoHeading(kinds[1..]);
    }
  }

  /** A text none of whose lines mentions both "missing" and "skill" yields no skills. */
  lemma NoHeadingNoSkills(analysisText: string)
    requires forall k :: 0 <= k < |Split(analysisText, '\n')| ==> !IsHeading(Strip(Split(analysisText, '\n')[k]))
    ensures MissingSkills(analysisText) == []
  {
    var lines := Split(analysisText, '\n');
    forall k | 0 <= k < |lines| ensures !Kinds(lines)[k].Heading? {
      KindAt(lines, k);
      ClassifyHeading(lines[k]);
    }
    SearchNoHeading(Kinds(lines));
  }

  /** Lines before the first heading, verdict lines among them, have no effect. */
  lemma {:induction false} SearchSkipsPreamble(pre: seq<LineKind>, rest: seq<LineKind>)
    requires forall k :: 0 <= k < |pre| ==> !pre[k].Heading?
    ensures Search(pre + rest) == Search(rest)
  {
    if pre == [] {
      assert pre + rest == rest;
    } else {
      assert (pre + rest)[1..] == pre[1..] + rest;
      SearchSkipsPreamble(pre[1..], rest);
    }
  }

  /** Capture starts right after the first heading line. */
  lemma SearchAtHeading(pre: seq<LineKind>, post: seq<LineKind>)
    requires forall k :: 0 <= k < |pre| ==> !pre[k].Heading?
    ensures Search(pre + [Heading] + post) == Capture(post)
  {
    assert pre + [Heading] + post == pre + ([Heading] + post);
    SearchSkipsPreamble(pre, [Heading] + post);
    assert ([Heading] + post)[1..] == post;
  }

  /** While capturing, a further heading line contributes nothing and does not stop capture. */
  lemma {:induction false} CaptureSkipsHeading(pre: seq<LineKind>, post: seq<LineKind>)
    ensures Capture(pre + [Heading] + post) == Capture(pre + post)
  {
    if pre == [] {
      assert pre + [Heading] + post == [Heading] + post && pre + post == post;
      assert ([Heading] + post)[1..] == post;
    } else {
      assert (pre + [Heading] + post)[1..] == pre[1..] + [Heading] + post;
      assert (pre + post)[1..] == pre[1..] + post;
      CaptureSkipsHeading(pre[1..], post);
    }
  }

  /** Nothing at or after a verdict line seen while capturing contributes. */
  lemma {:induction false} CaptureStopsAtVerdict(pre: seq<LineKind>, post: seq<LineKind>)
    ensures Capture(pre + [Verdict] + post) == Capture(pre)
  {
    if pre != [] {
      assert (pre + [Verdict] + post)[1..] == pre[1..] + [Verdict] + post;
      CaptureStopsAtVerdict(pre[1..], post);
    }
  }

  /** With no verdict line in `a`, capture runs through all of `a` and on into `b`. */
  lemma {:induction false} CaptureRunsOn(a: seq<LineKind>, b: seq<LineKind>)
    requires forall k :: 0 <= k < |a| ==> !a[k].Verdict?
    ensures Capture(a + b) == Capture(a) + Capture(b)
  {
    if a == [] {
      assert a + b == b;
    } else {
      assert (a + b)[1..] == a[1..] + b;
      CaptureRunsOn(a[1..], b);
    }
  }

  /** Without heading or verdict lines, capture keeps exactly the cleaned entries, in order. */
  lemma {:induction false} CapturePlain(kinds: seq<LineKind>)
    requires forall k :: 0 <= k < |kinds| ==> kinds[k].Item?
    ensures Capture(kinds) == Entries(kinds)
  {
    if kinds != [] {
      CapturePlain(kinds[1..]);
    }
  }

  /** Reading lines is done line by line: the kinds of two blocks of lines are concatenated. */
  lemma {:induction false} KindsAppend(a: seq<string>, b: seq<string>)
    ensures Kinds(a + b) == Kinds(a) + Kinds(b)
  {
    if a == [] {
      assert a + b == b;
    } else {
      assert (a + b)[1..] == a[1..] + b;
      KindsAppend(a[1..], b);
    }
  }

  /** The kinds of `pre`, one line, then `post`. */
  lemma KindsAround(pre: seq<string>, line: string, post: seq<string>)
    ensures Kinds(pre + [line] + post) == Kinds(pre) + [Classify(line)] + Kinds(post)
  {
    assert Kinds([line]) == [Classify(line)];
    KindsAppend(pre, [line]);
    KindsAppend(pre + [line], post);
  }

  /** The kinds of a text laid out as preamble, heading, body, verdict line and tail. */
  lemma KindsOfLayout(pre: seq<string>, heading: string, body: seq<string>, verdict: string, post: seq<string>)
    ensures Kinds(pre + [heading] + body + [verdict] + post)
         == Kinds(pre) + [Classify(heading)] + (Kinds(body) + [Classify(verdict)] + Kinds(post))
  {
    var front := pre + [heading] + body;
    KindsAround(front, verdict, post);
    KindsAround(pre, heading, body);
    ConcatAssoc(Kinds(pre) + [Classify(heading)], Kinds(body), [Classify(verdict)] + Kinds(post));
  }

  /** On kinds: a scan of preamble, heading, items, verdict and tail yields the items' entries. */
  lemma SearchLayout(pre: seq<LineKind>, body: seq<LineKind>, post: seq<LineKind>)
    requires forall k :: 0 <= k < |pre| ==> !pre[k].Heading?
    requires forall k :: 0 <= k < |body| ==> body[k].Item?
    ensures Search(pre + [Heading] + (body + [Verdict] + post)) == Entries(body)
  {
    SearchAtHeading(pre, body + [Verdict] + post);
    CaptureStopsAtVerdict(body, post);
    CapturePlain(body);
  }

  /**
   * For a text made of a preamble with no heading, a "missing skills"
   * heading, a body of ordinary lines, a verdict line and anything after it,
   * the extractor returns exactly the cleaned body entries, de-duplicated in
   * first-occurrence order.
   */
  lemma BetweenHeadingAndVerdict(pre: seq<string>, heading: string, body: seq<string>, verdict: string, post: seq<string>)
    requires forall k :: 0 <= k < |pre| ==> !Classify(pre[k]).Heading?
    requires Classify(heading).Heading? && Classify(verdict).Verdict?
    requires forall k :: 0 <= k < |body| ==> Classify(body[k]).Item?
    requires forall k :: 0 <= k < |pre + [heading] + body + [verdict] + post| ==> '\n' !in (pre + [heading] + body + [verdict] + post)[k]
    ensures MissingSkills(Join(pre + [heading] + body + [verdict] + post, '\n')) == Dedupe(Entries(Kinds(body)))
  {
    SplitJoin(pre + [heading] + body + [verdict] + post, '\n');
    KindsOfLayout(pre, heading, body, verdict, post);
    forall k | 0 <= k < |pre| ensures !Kinds(pre)[k].Heading? {
      KindAt(pre, k);
    }
    forall k | 0 <= k < |body| ensures Kinds(body)[k].Item? {
      KindAt(body, k);
    }
    SearchLayout(Kinds(pre), Kinds(body), Kinds(post));
  }
}
