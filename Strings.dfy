/**
 * The subset of Python's `str` behaviour the application relies on:
 * `lower`, `strip`, `split`, `replace`, `startswith`/`endswith` and the `in`
 * substring test. Case folding is ASCII-only; whitespace is Python's full
 * `str.isspace` set.
 */
module Strings {
  import opened Sequences

  /** Python's `str.isspace` (also what `\s` matches in a `str` regex). */
  predicate IsSpace(c: char)
  {
    ('\t' <= c <= '\r') || ('\U{1C}' <= c <= '\U{1F}') || c == ' ' || c == '\U{85}' || c == '\U{A0}'
    || c == '\U{1680}' || ('\U{2000}' <= c <= '\U{200A}') || c == '\U{2028}' || c == '\U{2029}'
    || c == '\U{202F}' || c == '\U{205F}' || c == '\U{3000}'
  }

  function LowerChar(c: char): char
  {
    if 'A' <= c <= 'Z' then (c as int + 32) as char else c
  }

  /** `s.lower()`, restricted to ASCII letters. */
  function Lower(s: string): (r: string)
    ensures |r| == |s|
  {
    seq(|s|, i requires 0 <= i < |s| => LowerChar(s[i]))
  }

  /** `s.startswith(p)` */
  predicate StartsWith(s: string, p: string)
  {
    |p| <= |s| && s[..|p|] == p
  }

  /** `s.endswith(p)` */
  predicate EndsWith(s: string, p: string)
  {
    |p| <= |s| && s[|s| - |p|..] == p
  }

  /** Python's `t in s` for strings: `t` occurs in `s` as a contiguous piece. */
  predicate Contains(s: string, t: string)
    decreases |s|
  {
    StartsWith(s, t) || (|s| > 0 && Contains(s[1..], t))
  }

  /** `t` occurs in `s` at position `i`. */
  predicate OccursAt(s: string, t: string, i: int)
  {
    0 <= i <= |s| - |t| && s[i..i + |t|] == t
  }

  /** `Contains` agrees with the positional definition of a substring. */
  lemma {:induction false} ContainsAt(s: string, t: string)
    ensures Contains(s, t) <==> exists i :: OccursAt(s, t, i)
    decreases |s|
  {
    if StartsWith(s, t) {
      assert OccursAt(s, t, 0);
    } else if |s| == 0 {
      assert forall i :: !OccursAt(s, t, i);
    } else {
      ContainsAt(s[1..], t);
      if exists i :: OccursAt(s, t, i) {
        var i :| OccursAt(s, t, i);
        assert i != 0;
        assert OccursAt(s[1..], t, i - 1);
      }
      if Contains(s[1..], t) {
        var i :| OccursAt(s[1..], t, i);
        assert OccursAt(s, t, i + 1);
      }
    }
  }

  /** A piece of a string that does not contain `t` does not contain `t` either. */
  lemma SliceContains(s: string, i: int, j: int, t: string)
    requires 0 <= i <= j <= |s|
    requires Contains(s[i..j], t)
    ensures Contains(s, t)
  {
    ContainsAt(s[i..j], t);
    var k :| OccursAt(s[i..j], t, k);
    var inner, outer := s[i..j][k..k + |t|], s[i + k..i + k + |t|];
    assert forall m :: 0 <= m < |t| ==> inner[m] == outer[m];
    assert inner == outer;
    assert OccursAt(s, t, i + k);
    ContainsAt(s, t);
  }

  /** A non-empty pattern whose first character is absent cannot occur. */
  lemma {:induction false} AbsentHead(s: string, t: string)
    requires |t| > 0 && t[0] !in s
    ensures !Contains(s, t)
    decreases |s|
  {
    if |s| > 0 {
      assert s[0] != t[0];
      AbsentHead(s[1..], t);
    }
  }

  /** `s.lstrip()` */
  function LStrip(s: string): string
    decreases |s|
  {
    if |s| > 0 && IsSpace(s[0]) then LStrip(s[1..]) else s
  }

  /** `s.lstrip()` is the longest suffix of `s` that does not start with whitespace. */
  lemma {:induction false} LStripShape(s: string)
    ensures |LStrip(s)| <= |s| && LStrip(s) == s[|s| - |LStrip(s)|..]
    ensures forall k :: 0 <= k < |s| - |LStrip(s)| ==> IsSpace(s[k])
    ensures LStrip(s) == [] || !IsSpace(LStrip(s)[0])
    decreases |s|
  {
    if |s| > 0 && IsSpace(s[0]) {
      LStripShape(s[1..]);
    }
  }

  /** `s.rstrip()` */
  function RStrip(s: string): string
    decreases |s|
  {
    if |s| > 0 && IsSpace(s[|s| - 1]) then RStrip(s[..|s| - 1]) else s
  }

  /** `s.rstrip()` is the longest prefix of `s` that does not end with whitespace. */
  lemma {:induction false} RStripShape(s: string)
    ensures |RStrip(s)| <= |s| && RStrip(s) == s[..|RStrip(s)|]
    ensures forall k :: |RStrip(s)| <= k < |s| ==> IsSpace(s[k])
    ensures RStrip(s) == [] || !IsSpace(RStrip(s)[|RStrip(s)| - 1])
    decreases |s|
  {
    if |s| > 0 && IsSpace(s[|s| - 1]) {
      RStripShape(s[..|s| - 1]);
    }
  }

  /** `s.strip()` */
  function Strip(s: string): string
  {
    RStrip(LStrip(s))
  }

  /** A string that neither starts nor ends with whitespace is its own `strip()`. */
  lemma StripKeeps(s: string)
    requires s == [] || (!IsSpace(s[0]) && !IsSpace(s[|s| - 1]))
    ensures Strip(s) == s
  {
  }

  /**
   * `s.strip()` removes whitespace only at the two ends: the result is the piece
   * of `s` that starts after the leading whitespace, it is followed only by
   * whitespace, and it starts and ends with a non-whitespace character.
   */
  lemma StripIsSlice(s: string)
    ensures |Strip(s)| <= |s|
    ensures OccursAt(s, Strip(s), |s| - |LStrip(s)|)
    ensures forall k :: 0 <= k < |s| - |LStrip(s)| ==> IsSpace(s[k])
    ensures forall k :: |s| - |LStrip(s)| + |Strip(s)| <= k < |s| ==> IsSpace(s[k])
    ensures Strip(s) == [] || (!IsSpace(Strip(s)[0]) && !IsSpace(Strip(s)[|Strip(s)| - 1]))
  {
    var l := LStrip(s);
    LStripShape(s);
    RStripShape(l);
    var i := |s| - |l|;
    assert s[i..i + |Strip(s)|] == l[..|Strip(s)|];
    forall k | i + |Strip(s)| <= k < |s| ensures IsSpace(s[k]) {
      assert s[k] == l[k - i];
    }
  }

  /** A character of `s.strip()` is a character of `s`. */
  lemma StripChars(s: string, c: char)
    requires c in Strip(s)
    ensures c in s
  {
    StripIsSlice(s);
    var i := |s| - |LStrip(s)|;
    var k :| 0 <= k < |Strip(s)| && Strip(s)[k] == c;
    assert s[i + k] == c;
  }

  /** `t.strip()` contains no piece that `t` does not contain. */
  lemma StripContains(s: string, t: string)
    requires Contains(Strip(s), t)
    ensures Contains(s, t)
  {
    StripIsSlice(s);
    var i := |s| - |LStrip(s)|;
    SliceContains(s, i, i + |Strip(s)|, t);
  }

  /** The pieces joined back with `sep` between them (Python's `sep.join`). */
  function Join(parts: seq<string>, sep: char): string
    requires |parts| > 0
  {
    if |parts| == 1 then parts[0] else parts[0] + [sep] + Join(parts[1..], sep)
  }

  /** `s.split(sep)` for a one-character separator. */
  function Split(s: string, sep: char): seq<string>
    decreases |s|
  {
    if sep !in s then [s]
    else
      var i := IndexOf(s, sep);
      [s[..i]] + Split(s[i + 1..], sep)
  }

  /**
   * A split is never empty, no piece holds the separator, and joining the
   * pieces gives the string back.
   */
  lemma {:induction false} SplitShape(s: string, sep: char)
    ensures |Split(s, sep)| >= 1
    ensures forall k :: 0 <= k < |Split(s, sep)| ==> sep !in Split(s, sep)[k]
    ensures Join(Split(s, sep), sep) == s
    decreases |s|
  {
    if sep in s {
      var i := IndexOf(s, sep);
      var head, rest := s[..i], Split(s[i + 1..], sep);
      SplitShape(s[i + 1..], sep);
      assert Split(s, sep) == [head] + rest;
      JoinCons(head, rest, sep);
      assert s == head + [sep] + s[i + 1..];
      forall k | 0 <= k < |Split(s, sep)| ensures sep !in Split(s, sep)[k] {
        if k > 0 {
          assert Split(s, sep)[k] == rest[k - 1];
        }
      }
    }
  }

  /** Joining a first piece in front of more pieces puts one separator between them. */
  lemma JoinCons(p: string, rest: seq<string>, sep: char)
    requires |rest| > 0
    ensures Join([p] + rest, sep) == p + [sep] + Join(rest, sep)
  {
    assert ([p] + rest)[1..] == rest;
  }

  /** The first piece of a split is a prefix of the string. */
  lemma SplitFirstIsPrefix(s: string, sep: char)
    ensures |Split(s, sep)[0]| <= |s| && s[..|Split(s, sep)[0]|] == Split(s, sep)[0]
  {
    var parts := Split(s, sep);
    SplitShape(s, sep);
    if |parts| > 1 {
      assert s == parts[0] + [sep] + Join(parts[1..], sep);
    }
  }

  /** Splitting undoes joining, when no piece contains the separator. */
  lemma {:induction false} SplitJoin(parts: seq<string>, sep: char)
    requires |parts| > 0
    requires forall k :: 0 <= k < |parts| ==> sep !in parts[k]
    ensures Split(Join(parts, sep), sep) == parts
  {
    if |parts| == 1 {
      assert sep !in parts[0];
    } else {
      var p0, tail := parts[0], parts[1..];
      var rest := Join(tail, sep);
      var s := p0 + [sep] + rest;
      assert Join(parts, sep) == s;
      assert s[|p0|] == sep && s[..|p0|] == p0 && s[|p0| + 1..] == rest;
      assert sep !in p0;
      IndexOfAt(s, sep, |p0|);
      assert forall k :: 0 <= k < |tail| ==> sep !in tail[k] by {
        forall k | 0 <= k < |tail| ensures sep !in tail[k] {
          assert tail[k] == parts[k + 1];
        }
      }
      SplitJoin(tail, sep);
      assert Split(s, sep) == [p0] + Split(rest, sep);
      assert parts == [p0] + tail;
    }
  }

  /**
   * `s.replace(pat, rep)`: occurrences are replaced left to right without
   * overlapping. The source only uses non-empty constant patterns.
   */
  function ReplaceAll(s: string, pat: string, rep: string): string
    requires pat != []
    decreases |s|
  {
    if |s| < |pat| then s
    else if s[..|pat|] == pat then rep + ReplaceAll(s[|pat|..], pat, rep)
    else [s[0]] + ReplaceAll(s[1..], pat, rep)
  }

  /** Replacing a pattern that does not occur changes nothing. */
  lemma {:induction false} ReplaceAbsent(s: string, pat: string, rep: string)
    requires pat != [] && !Contains(s, pat)
    ensures ReplaceAll(s, pat, rep) == s
    decreases |s|
  {
    if |s| >= |pat| {
      assert !StartsWith(s, pat);
      ReplaceAbsent(s[1..], pat, rep);
    }
  }

  /** A replacement as long as its pattern keeps the length. */
  lemma {:induction false} ReplaceSameLength(s: string, pat: string, rep: string)
    requires pat != [] && |rep| == |pat|
    ensures |ReplaceAll(s, pat, rep)| == |s|
    decreases |s|
  {
    if |s| >= |pat| {
      if s[..|pat|] == pat {
        ReplaceSameLength(s[|pat|..], pat, rep);
      } else {
        ReplaceSameLength(s[1..], pat, rep);
      }
    }
  }

  /**
   * `s.replace("**", "")` leaves no `**`; and unless `s` starts with `*`,
   * the result starts with the same character as `s`.
   */
  lemma {:induction false} RemoveBoldLeavesNone(s: string)
    ensures !Contains(ReplaceAll(s, "**", ""), "**")
    ensures |s| > 0 && s[0] != '*' ==> |ReplaceAll(s, "**", "")| > 0 && ReplaceAll(s, "**", "")[0] == s[0]
    decreases |s|
  {
    var r := ReplaceAll(s, "**", "");
    if |s| < 2 {
      assert r == s;
      assert !StartsWith(r, "**");
      if |r| == 1 { assert r[1..] == []; }
    } else if s[..2] == "**" {
      RemoveBoldLeavesNone(s[2..]);
      assert r == ReplaceAll(s[2..], "**", "");
    } else {
      RemoveBoldLeavesNone(s[1..]);
      var t := ReplaceAll(s[1..], "**", "");
      assert r == [s[0]] + t && r[1..] == t;
      if s[0] == '*' {
        assert s[1] != '*';
        assert |t| > 0 && t[0] != '*';
      }
    }
  }

  /**
   * `s.replace("* ", "• ")` never creates a `**`: in the result a `*` is never
   * followed by a `*` unless it was in `s`.
   */
  lemma {:induction false} BulletKeepsNoBold(s: string)
    requires !Contains(s, "**")
    ensures !Contains(ReplaceAll(s, "* ", "• "), "**")
    ensures |s| > 0 && s[0] != '*' ==> |ReplaceAll(s, "* ", "• ")| > 0 && ReplaceAll(s, "* ", "• ")[0] != '*'
    decreases |s|
  {
    var r := ReplaceAll(s, "* ", "• ");
    if |s| < 2 {
      assert r == s;
      assert !StartsWith(r, "**");
      if |r| == 1 { assert r[1..] == []; }
    } else if s[..2] == "* " {
      assert !Contains(s[1..], "**");
      assert !Contains(s[2..], "**");
      BulletKeepsNoBold(s[2..]);
      var t := ReplaceAll(s[2..], "* ", "• ");
      assert r == "• " + t && r[1..] == " " + t && r[1..][1..] == t;
    } else {
      assert !Contains(s[1..], "**");
      BulletKeepsNoBold(s[1..]);
      var t := ReplaceAll(s[1..], "* ", "• ");
      assert r == [s[0]] + t && r[1..] == t;
      if s[0] == '*' {
        assert s[1] != '*';
      }
    }
  }
}
