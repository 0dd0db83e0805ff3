// The course recommender (app.py:345-353) and the catalog column-rename
// loop (app.py:391-396).
module Courses {
  import opened Wrappers
  import opened Strings
  import opened Sequences

  /**
   * One catalog row. `skill` is None when the Skill cell holds no text:
   * pandas reads an empty cell as NaN. A column with no text at all is read
   * as numbers, and its `.str` accessor raises.
   */
  datatype Row = Row(skill: Option<string>, courseName: string, url: string)

  /** One recommendation: the `Course Name` and `URL` columns of a row. */
  datatype Link = Link(courseName: string, url: string)

  /** At most this many courses are recommended per skill (`head(2)`). */
  const PER_SKILL := 2

  /** The message of the `AttributeError` pandas raises for `.str` on a column without text. */
  const NOT_TEXT := "Can only use .str accessor with string values!"

  /** Some Skill cell holds text, so the column is a text column and `.str` works. */
  predicate HasSkillText(catalog: seq<Row>)
  {
    exists k :: 0 <= k < |catalog| && catalog[k].skill.Some?
  }

  /** `str(x)` of the lower-cased Skill cell: a NaN cell reads as "nan". */
  function SkillText(row: Row): string
  {
    match row.skill
    case None => "nan"
    case Some(s) => Lower(s)
  }

  /** The row filter: the lower-cased skill is inside the cell text, or the cell text inside it. */
  predicate Matches(skill: string, row: Row)
  {
    Contains(SkillText(row), Lower(skill)) || Contains(Lower(skill), SkillText(row))
  }

  /** Some row of the catalog matches the skill. */
  predicate HasMatch(skill: string, catalog: seq<Row>)
  {
    exists k :: 0 <= k < |catalog| && Matches(skill, catalog[k])
  }

  /** The matching rows, in catalog order (the boolean-mask selection). */
  function MatchingRows(skill: string, rows: seq<Row>): seq<Row>
    decreases |rows|
  {
    if rows == [] then []
    else if Matches(skill, rows[0]) then [rows[0]] + MatchingRows(skill, rows[1..])
    else MatchingRows(skill, rows[1..])
  }

  /** The course names of the rows, in order. */
  function Names(rows: seq<Row>): seq<string>
  {
    seq(|rows|, k requires 0 <= k < |rows| => rows[k].courseName)
  }

  /**
   * `drop_duplicates('Course Name')`: a row is kept when its name was not
   * seen before; `seen` are the names already kept.
   */
  function FirstByName(rows: seq<Row>, seen: set<string>): seq<Row>
    decreases |rows|
  {
    if rows == [] then []
    else if rows[0].courseName in seen then FirstByName(rows[1..], seen)
    else [rows[0]] + FirstByName(rows[1..], seen + {rows[0].courseName})
  }

  /** `head(n)`. */
  function Take<T>(xs: seq<T>, n: nat): seq<T>
  {
    if |xs| <= n then xs else xs[..n]
  }

  /** The rows recommended for one skill. */
  function Chosen(skill: string, catalog: seq<Row>): seq<Row>
  {
    Take(FirstByName(MatchingRows(skill, catalog), {}), PER_SKILL)
  }

  /** `[['Course Name', 'URL']].to_dict('records')`. */
  function Links(rows: seq<Row>): seq<Link>
  {
    seq(|rows|, k requires 0 <= k < |rows| => Link(rows[k].courseName, rows[k].url))
  }

  /** The filter keeps only matching rows, in catalog order, and leaves no matching row out. */
  lemma {:induction false} MatchingRowsSpec(skill: string, rows: seq<Row>)
    ensures IsSubseq(MatchingRows(skill, rows), rows)
    ensures forall k :: 0 <= k < |MatchingRows(skill, rows)| ==> Matches(skill, MatchingRows(skill, rows)[k])
    ensures forall k :: 0 <= k < |rows| && Matches(skill, rows[k]) ==> rows[k] in MatchingRows(skill, rows)
    decreases |rows|
  {
    if rows != [] {
      var rest := MatchingRows(skill, rows[1..]);
      MatchingRowsSpec(skill, rows[1..]);
      forall k | 0 <= k < |rows| && Matches(skill, rows[k]) ensures rows[k] in MatchingRows(skill, rows) {
        if k > 0 {
          assert rows[k] == rows[1..][k - 1];
        }
      }
      if Matches(skill, rows[0]) {
        assert ([rows[0]] + rest)[1..] == rest;
      } else {
        SubseqSkip(rest, rows);
      }
    }
  }

  /**
   * The filter keeps every occurrence of a matching row and nothing else:
   * with `MatchingRowsSpec` this determines the selection.
   */
  lemma {:induction false} MatchingRowsCount(skill: string, rows: seq<Row>)
    ensures forall r :: multiset(MatchingRows(skill, rows))[r] == if Matches(skill, r) then multiset(rows)[r] else 0
    decreases |rows|
  {
    if rows != [] {
      MatchingRowsCount(skill, rows[1..]);
      assert rows == [rows[0]] + rows[1..];
      assert multiset(rows) == multiset([rows[0]]) + multiset(rows[1..]);
    }
  }

  /** No row matches exactly when the filter is empty. */
  lemma MatchingRowsEmpty(skill: string, rows: seq<Row>)
    ensures MatchingRows(skill, rows) == [] <==> !HasMatch(skill, rows)
  {
    MatchingRowsSpec(skill, rows);
    if MatchingRows(skill, rows) != [] {
      var r := MatchingRows(skill, rows)[0];
      SubseqElements(MatchingRows(skill, rows), rows, r);
      var k :| 0 <= k < |rows| && rows[k] == r;
      assert Matches(skill, rows[k]);
    }
  }

  /** Dropping repeated names keeps rows in their order. */
  lemma {:induction false} FirstByNameSubseq(rows: seq<Row>, seen: set<string>)
    ensures IsSubseq(FirstByName(rows, seen), rows)
    decreases |rows|
  {
    if rows != [] {
      var n := rows[0].courseName;
      if n in seen {
        FirstByNameSubseq(rows[1..], seen);
        SubseqSkip(FirstByName(rows[1..], seen), rows);
      } else {
        var rest := FirstByName(rows[1..], seen + {n});
        FirstByNameSubseq(rows[1..], seen + {n});
        assert ([rows[0]] + rest)[1..] == rest;
      }
    }
  }

  /** The kept names are pairwise distinct and none of them was seen before. */
  lemma {:induction false} FirstByNameDistinct(rows: seq<Row>, seen: set<string>)
    ensures forall i :: 0 <= i < |FirstByName(rows, seen)| ==> FirstByName(rows, seen)[i].courseName !in seen
    ensures forall i, j :: 0 <= i < j < |FirstByName(rows, seen)| ==> FirstByName(rows, seen)[i].courseName != FirstByName(rows, seen)[j].courseName
    decreases |rows|
  {
    if rows != [] {
      var n := rows[0].courseName;
      if n in seen {
        FirstByNameDistinct(rows[1..], seen);
      } else {
        var rest := FirstByName(rows[1..], seen + {n});
        FirstByNameDistinct(rows[1..], seen + {n});
        assert FirstByName(rows, seen) == [rows[0]] + rest;
      }
    }
  }

  /** Each kept row is the first row of the sequence with its name. */
  lemma {:induction false} FirstByNameFirst(rows: seq<Row>, seen: set<string>)
    ensures forall i :: 0 <= i < |FirstByName(rows, seen)| ==>
      FirstByName(rows, seen)[i].courseName in Names(rows) &&
      FirstByName(rows, seen)[i] == rows[IndexOf(Names(rows), FirstByName(rows, seen)[i].courseName)]
    decreases |rows|
  {
    if rows != [] {
      var n := rows[0].courseName;
      var tail := rows[1..];
      assert Names(tail) == Names(rows)[1..];
      var seen' := if n in seen then seen else seen + {n};
      var rest := FirstByName(tail, seen');
      FirstByNameFirst(tail, seen');
      FirstByNameDistinct(tail, seen');
      forall i | 0 <= i < |rest|
        ensures rest[i].courseName in Names(rows) && rest[i] == rows[IndexOf(Names(rows), rest[i].courseName)]
      {
        var m := rest[i].courseName;
        var t := IndexOf(Names(tail), m);
        assert n != m by {
          assert m !in seen';
        }
        assert Names(rows)[t + 1] == m;
        assert Names(rows)[..t + 1] == [n] + Names(tail)[..t];
        IndexOfAt(Names(rows), m, t + 1);
      }
      if n !in seen {
        assert FirstByName(rows, seen) == [rows[0]] + rest;
        IndexOfAt(Names(rows), n, 0);
      }
    }
  }

  /** Every name not seen before is among the kept names. */
  lemma {:induction false} FirstByNameCovers(rows: seq<Row>, seen: set<string>)
    ensures forall k :: 0 <= k < |rows| && rows[k].courseName !in seen ==> rows[k].courseName in Names(FirstByName(rows, seen))
    decreases |rows|
  {
    if rows != [] {
      var n := rows[0].courseName;
      var tail := rows[1..];
      var seen' := if n in seen then seen else seen + {n};
      var rest := FirstByName(tail, seen');
      var r := FirstByName(rows, seen);
      FirstByNameCovers(tail, seen');
      forall k | 0 <= k < |rows| && rows[k].courseName !in seen ensures rows[k].courseName in Names(r) {
        if n !in seen && rows[k].courseName == n {
          assert r == [rows[0]] + rest;
          assert Names(r)[0] == n;
        } else {
          assert k > 0 && rows[k] == tail[k - 1];
          var i :| 0 <= i < |rest| && Names(rest)[i] == rows[k].courseName;
          if n in seen {
            assert r == rest;
          } else {
            assert r == [rows[0]] + rest;
            assert Names(r)[i + 1] == rows[k].courseName;
          }
        }
      }
    }
  }

  /** One more row at the end is kept exactly when its name was neither seen nor in the rows before it. */
  lemma {:induction false} FirstByNameSnoc(rows: seq<Row>, x: Row, seen: set<string>)
    ensures FirstByName(rows + [x], seen)
         == FirstByName(rows, seen) + (if x.courseName in seen || x.courseName in Names(rows) then [] else [x])
    decreases |rows|
  {
    if rows == [] {
      assert rows + [x] == [x];
    } else {
      var n := rows[0].courseName;
      assert (rows + [x])[1..] == rows[1..] + [x];
      assert Names(rows) == [n] + Names(rows[1..]);
      var seen' := if n in seen then seen else seen + {n};
      FirstByNameSnoc(rows[1..], x, seen');
    }
  }

  /** The names of the rows `drop_duplicates` keeps are the distinct names, in first-occurrence order. */
  lemma {:induction false} FirstByNameNames(rows: seq<Row>)
    ensures Names(FirstByName(rows, {})) == Dedupe(Names(rows))
    decreases |rows|
  {
    if rows != [] {
      var front, x := rows[..|rows| - 1], rows[|rows| - 1];
      assert rows == front + [x];
      FirstByNameNames(front);
      FirstByNameSnoc(front, x, {});
      var ns := Names(rows);
      assert ns[..|ns| - 1] == Names(front);
      var d := Dedupe(Names(front));
      assert x.courseName in d <==> x.courseName in Names(front);
      var kept := FirstByName(front, {});
      var extra := if x.courseName in Names(front) then [] else [x];
      assert Names(kept + extra) == Names(kept) + Names(extra);
    }
  }

  /** Two rows with different names force two kept rows. */
  lemma TwoNamesKept(rows: seq<Row>, a: nat, b: nat)
    requires a < |rows| && b < |rows| && rows[a].courseName != rows[b].courseName
    ensures |FirstByName(rows, {})| >= 2
  {
    FirstByNameCovers(rows, {});
    var r := FirstByName(rows, {});
    var i :| 0 <= i < |r| && Names(r)[i] == rows[a].courseName;
    var j :| 0 <= j < |r| && Names(r)[j] == rows[b].courseName;
    assert i != j;
  }

  /** A skill gets a recommendation exactly when some row matches it, and never more than two courses. */
  lemma ChosenSize(skill: string, catalog: seq<Row>)
    ensures Chosen(skill, catalog) != [] <==> HasMatch(skill, catalog)
    ensures |Chosen(skill, catalog)| <= PER_SKILL
  {
    var ms := MatchingRows(skill, catalog);
    MatchingRowsEmpty(skill, catalog);
    if ms != [] {
      FirstByNameCovers(ms, {});
      assert ms[0].courseName in Names(FirstByName(ms, {}));
    }
  }

  /**
   * The recommended rows have pairwise distinct names, each is a matching
   * row of the catalog, and they appear in catalog order.
   */
  lemma ChosenRows(skill: string, catalog: seq<Row>)
    ensures forall i, j :: 0 <= i < j < |Chosen(skill, catalog)| ==> Chosen(skill, catalog)[i].courseName != Chosen(skill, catalog)[j].courseName
    ensures forall i :: 0 <= i < |Chosen(skill, catalog)| ==> Matches(skill, Chosen(skill, catalog)[i]) && Chosen(skill, catalog)[i] in catalog
    ensures IsSubseq(Chosen(skill, catalog), catalog)
  {
    var ms := MatchingRows(skill, catalog);
    var d := FirstByName(ms, {});
    var c := Chosen(skill, catalog);
    MatchingRowsSpec(skill, catalog);
    FirstByNameSubseq(ms, {});
    FirstByNameDistinct(ms, {});
    PrefixIsSubseq(d, |c|);
    assert c == d[..|c|];
    SubseqTrans(c, d, ms);
    SubseqTrans(c, ms, catalog);
    forall i | 0 <= i < |c| ensures Matches(skill, c[i]) && c[i] in catalog {
      SubseqElements(c, ms, c[i]);
      SubseqElements(c, catalog, c[i]);
    }
  }

  /** Each recommended row is the first matching row with its course name. */
  lemma ChosenFirstOfName(skill: string, catalog: seq<Row>)
    ensures forall i :: 0 <= i < |Chosen(skill, catalog)| ==>
      var ms := MatchingRows(skill, catalog);
      Chosen(skill, catalog)[i].courseName in Names(ms) &&
      Chosen(skill, catalog)[i] == ms[IndexOf(Names(ms), Chosen(skill, catalog)[i].courseName)]
  {
    FirstByNameFirst(MatchingRows(skill, catalog), {});
  }

  /** The recommended courses are the first two distinct course names among the matching rows. */
  lemma ChosenNames(skill: string, catalog: seq<Row>)
    ensures Names(Chosen(skill, catalog)) == Take(Dedupe(Names(MatchingRows(skill, catalog))), PER_SKILL)
  {
    var d := FirstByName(MatchingRows(skill, catalog), {});
    FirstByNameNames(MatchingRows(skill, catalog));
    assert Names(Take(d, PER_SKILL)) == Take(Names(d), PER_SKILL);
  }

  /** Two matching rows with different course names always give two recommendations. */
  lemma ChosenTwo(skill: string, catalog: seq<Row>, a: nat, b: nat)
    requires a < b < |MatchingRows(skill, catalog)|
    requires MatchingRows(skill, catalog)[a].courseName != MatchingRows(skill, catalog)[b].courseName
    ensures |Chosen(skill, catalog)| == PER_SKILL
  {
    TwoNamesKept(MatchingRows(skill, catalog), a, b);
  }

  /**
   * `recommend_courses`: for an absent or empty catalog, no
   * recommendations; for a Skill column without text and at least one
   * skill, the `AttributeError` of `.str`; otherwise one entry per input
   * skill (original casing) that some row matches, holding the links of its
   * chosen rows.
   */
  method RecommendCourses(missingSkills: seq<string>, catalog: Option<seq<Row>>) returns (result: Result<map<string, seq<Link>>>)
    ensures catalog.None? || catalog.value == [] ==> result == Success(map[])
    ensures result.Failure? <==> catalog.Some? && catalog.value != [] && missingSkills != [] && !HasSkillText(catalog.value)
    ensures result.Failure? ==> result.error == NOT_TEXT
    ensures result.Success? && catalog.Some? ==> forall s :: s in result.value <==> s in missingSkills && HasMatch(s, catalog.value)
    ensures result.Success? ==> forall s :: s in result.value ==>
      catalog.Some? && result.value[s] == Links(Chosen(s, catalog.value)) && 1 <= |result.value[s]| <= PER_SKILL
  {
    if catalog.None? || catalog.value == [] {
      return Success(map[]);
    }
    var rows := catalog.value;
    if missingSkills != [] && !HasSkillText(rows) {
      // `.str.lower()` in the first iteration raises
      return Failure(NOT_TEXT);
    }
    var recs := CollectRecommendations(missingSkills, rows);
    result := Success(recs);
  }

  /** The loop of `recommend_courses` over the skills, on a catalog whose Skill column is text. */
  method CollectRecommendations(missingSkills: seq<string>, rows: seq<Row>) returns (recs: map<string, seq<Link>>)
    ensures forall s :: s in recs <==> s in missingSkills && HasMatch(s, rows)
    ensures forall s :: s in recs ==> recs[s] == Links(Chosen(s, rows)) && 1 <= |recs[s]| <= PER_SKILL
  {
    recs := map[];
    var i := 0;
    while i < |missingSkills|
      invariant 0 <= i <= |missingSkills|
      invariant forall s :: s in recs <==> s in missingSkills[..i] && HasMatch(s, rows)
      invariant forall s :: s in recs ==> recs[s] == Links(Chosen(s, rows)) && 1 <= |recs[s]| <= PER_SKILL
    {
      var skill := missingSkills[i];
      var matches := MatchingRows(skill, rows);
      MatchingRowsEmpty(skill, rows);
      ChosenSize(skill, rows);
      if matches != [] {
        assert Take(FirstByName(matches, {}), PER_SKILL) == Chosen(skill, rows);
        recs := recs[skill := Links(Take(FirstByName(matches, {}), PER_SKILL))];
      }
      assert missingSkills[..i + 1] == missingSkills[..i] + [skill];
      i := i + 1;
    }
    assert missingSkills[..i] == missingSkills;
  }

  /**
   * The canonical name a catalog column is renamed to: the three tests run
   * in order and a later hit overwrites an earlier one, so "url" wins over
   * "course", which wins over "skill".
   */
  function RenameTarget(column: string): Option<string>
  {
    var c := Lower(column);
    if Contains(c, "url") then Some("URL")
    else if Contains(c, "course") then Some("Course Name")
    else if Contains(c, "skill") then Some("Skill")
    else None
  }

  /** The rename loop: each column is tested against the three rules in turn. */
  method BuildRenameMap(columns: seq<string>) returns (renames: map<string, string>)
    ensures forall c :: c in renames <==> c in columns && RenameTarget(c).Some?
    ensures forall c :: c in renames ==> RenameTarget(c) == Some(renames[c])
  {
    renames := map[];
    var i := 0;
    while i < |columns|
      invariant 0 <= i <= |columns|
      invariant forall c :: c in renames <==> c in columns[..i] && RenameTarget(c).Some?
      invariant forall c :: c in renames ==> RenameTarget(c) == Some(renames[c])
    {
      var c := columns[i];
      var lc := Lower(c);
      if Contains(lc, "skill") {
        renames := renames[c := "Skill"];
      }
      if Contains(lc, "course") {
        renames := renames[c := "Course Name"];
      }
      if Contains(lc, "url") {
        renames := renames[c := "URL"];
      }
      assert columns[..i + 1] == columns[..i] + [c];
      i := i + 1;
    }
    assert columns[..i] == columns;
  }

  /** Each canonical column name is its own rename target. */
  lemma CanonicalTargets()
    ensures RenameTarget("URL") == Some("URL")
    ensures RenameTarget("Course Name") == Some("Course Name")
    ensures RenameTarget("Skill") == Some("Skill")
  {
    assert Lower("URL") == "url";
    assert StartsWith("url", "url");
    assert Lower("Skill") == "skill";
    assert StartsWith("skill", "skill");
    AbsentHead("skill", "url");
    AbsentHead("skill", "course");
    CourseNameHasNoUrl();
  }

  /** "course name" does not mention "url", so "Course Name" keeps its name. */
  lemma CourseNameHasNoUrl()
    ensures RenameTarget("Course Name") == Some("Course Name")
  {
    assert Lower("Course Name") == "course name";
    assert StartsWith("course name", "course");
    NoUrlInCourseName();
  }

  lemma NoUrlInCourseName()
    ensures !Contains("course name", "url")
  {
    var c := "course name";
    // only "urse name" starts with 'u', and it does not start with "url"
    AbsentHead(c[3..], "url");
    assert c[2..][1..] == c[3..] && c[1..][1..] == c[2..];
    assert c[2..][..3][2] == 's' && c[1..][..3][0] == 'o' && c[..3][0] == 'c';
    assert !Contains(c[2..], "url");
    assert !Contains(c[1..], "url");
  }

  /** Renaming is idempotent: a canonical name is mapped to itself. */
  lemma RenameIdempotent(column: string)
    requires RenameTarget(column).Some?
    ensures RenameTarget(RenameTarget(column).value) == RenameTarget(column)
  {
    CanonicalTargets();
  }
}
