/** Stage 3 (app.py): the figures and the filtered listing the dashboard
    shows for a table of tagged jobs. The rendering itself (metric cards, bar
    chart, tables, the multiselect widget) is not modelled: a view records
    what would be shown, and the user's current selection is a parameter. */
module Dashboard {
  import opened Wrappers
  import opened Text
  import opened Ranking

  /** One row of the analysed table, with its skills decoded into a list. */
  datatype Listing = Listing(title: string, company: string, location: string, link: string, skills: seq<string>)

  /** The number of skill tags over all rows. */
  function TagCount(rows: seq<Listing>): nat
  {
    if rows == [] then 0 else TagCount(rows[..|rows| - 1]) + |rows[|rows| - 1].skills|
  }

  /** `all_skills`: every row's skill list, one after the other, in row order. */
  function AllSkills(rows: seq<Listing>): (all: seq<string>)
    ensures |all| == TagCount(rows)
  {
    if rows == [] then [] else AllSkills(rows[..|rows| - 1]) + rows[|rows| - 1].skills
  }

  /** Flattening two tables one after the other flattens each in turn. */
  lemma {:induction false} AllSkillsAppend(a: seq<Listing>, b: seq<Listing>)
    ensures AllSkills(a + b) == AllSkills(a) + AllSkills(b)
    decreases |b|
  {
    if b == [] {
      assert a + b == a;
    } else {
      var b' := b[..|b| - 1];
      assert (a + b)[..|a + b| - 1] == a + b';
      AllSkillsAppend(a, b');
    }
  }

  /** A skill is in `all_skills` exactly when some row lists it. */
  lemma {:induction false} AllSkillsMember(rows: seq<Listing>, x: string)
    ensures x in AllSkills(rows) <==> exists i :: 0 <= i < |rows| && x in rows[i].skills
    decreases |rows|
  {
    if rows != [] {
      var init := rows[..|rows| - 1];
      AllSkillsMember(init, x);
      if i :| 0 <= i < |init| && x in init[i].skills {
        assert rows[i] == init[i];
      }
    }
  }

  /** `df['company']`. */
  function Companies(rows: seq<Listing>): seq<string>
  {
    seq(|rows|, i requires 0 <= i < |rows| => rows[i].company)
  }

  /** "Unique Skills Identified": `len(set(all_skills))`. */
  function UniqueSkills(rows: seq<Listing>): nat
  {
    |Distinct(AllSkills(rows))|
  }

  /** "Unique Companies Hiring": the number of distinct companies. */
  function UniqueCompanies(rows: seq<Listing>): nat
  {
    |Distinct(Companies(rows))|
  }

  /** `Counter(all_skills).most_common(10)`. */
  function TopSkills(rows: seq<Listing>): seq<Tally>
  {
    MostCommon(AllSkills(rows), 10)
  }

  /** `df['company'].value_counts().nlargest(10)`. */
  function TopCompanies(rows: seq<Listing>): seq<Tally>
  {
    MostCommon(Companies(rows), 10)
  }

  /** There are never more distinct skills than skill tags. */
  lemma UniqueSkillsBound(rows: seq<Listing>)
    ensures UniqueSkills(rows) <= TagCount(rows)
  {
    KeysCount(AllSkills(rows));
  }

  /** The top-skills table: at most 10 rows, each a skill of the table with
      the number of times it occurs in `all_skills`, no skill twice, counts
      not increasing, ties in the order the skills were first met, and no
      skill left out that occurs more often than a listed one. */
  lemma TopSkillsSpec(rows: seq<Listing>)
    ensures var all, top := AllSkills(rows), TopSkills(rows);
      && |top| <= 10
      && |top| == (if 10 < UniqueSkills(rows) then 10 else UniqueSkills(rows))
      && (forall i :: 0 <= i < |top| ==> top[i].item in all && top[i].count == Count(all, top[i].item))
      && (forall i, j :: 0 <= i < j < |top| ==> top[i].item != top[j].item && top[i].count >= top[j].count)
      && (forall i, j :: 0 <= i < j < |top| && top[i].count == top[j].count ==>
            FirstIndex(all, top[i].item) < FirstIndex(all, top[j].item))
      && (forall x, i :: x in all && x !in Items(top) && 0 <= i < |top| ==> Count(all, x) <= top[i].count)
  {
    MostCommonSpec(AllSkills(rows), 10);
  }

  /** The top-companies table: at most 10 rows, each a company of the table
      with its number of openings, no company twice, counts not increasing. */
  lemma TopCompaniesSpec(rows: seq<Listing>)
    ensures var companies, top := Companies(rows), TopCompanies(rows);
      && |top| <= 10
      && (forall i :: 0 <= i < |top| ==> top[i].item in companies && top[i].count == Count(companies, top[i].item))
      && (forall i, j :: 0 <= i < j < |top| ==> top[i].item != top[j].item && top[i].count >= top[j].count)
  {
    MostCommonSpec(Companies(rows), 10);
  }

  /** Strictly ascending in Python's string order. */
  predicate Ascending(xs: seq<string>)
  {
    forall i, j :: 0 <= i < j < |xs| ==> StrLess(xs[i], xs[j])
  }

  /** Put `x` into an ascending list at its place. */
  function InsertSorted(x: string, xs: seq<string>): seq<string>
  {
    if xs == [] then [x]
    else if StrLess(x, xs[0]) then [x] + xs
    else [xs[0]] + InsertSorted(x, xs[1..])
  }

  /** `sorted` on a list without duplicates, by insertion. */
  function SortStrings(xs: seq<string>): seq<string>
  {
    if xs == [] then [] else InsertSorted(xs[0], SortStrings(xs[1..]))
  }

  /** A string below every string of an ascending list keeps it ascending. */
  lemma AscendingCons(x: string, xs: seq<string>)
    requires Ascending(xs)
    requires forall k :: 0 <= k < |xs| ==> StrLess(x, xs[k])
    ensures Ascending([x] + xs)
  {
    var r := [x] + xs;
    forall i, j | 0 <= i < j < |r|
      ensures StrLess(r[i], r[j])
    {
      assert r[j] == xs[j - 1];
      if i > 0 {
        assert r[i] == xs[i - 1];
      }
    }
  }

  lemma {:induction false} InsertSortedSpec(x: string, xs: seq<string>)
    requires Ascending(xs) && x !in xs
    ensures Ascending(InsertSorted(x, xs))
    ensures multiset(InsertSorted(x, xs)) == multiset(xs) + multiset{x}
    decreases |xs|
  {
    if xs == [] {
    } else if StrLess(x, xs[0]) {
      forall k | 0 <= k < |xs|
        ensures StrLess(x, xs[k])
      {
        if k > 0 {
          StrLessTransitive(x, xs[0], xs[k]);
        }
      }
      AscendingCons(x, xs);
    } else {
      StrLessTotal(x, xs[0]);
      var rest := xs[1..];
      assert xs == [xs[0]] + rest;
      InsertSortedSpec(x, rest);
      var ins := InsertSorted(x, rest);
      forall k | 0 <= k < |ins|
        ensures StrLess(xs[0], ins[k])
      {
        assert ins[k] in multiset(ins);
        if ins[k] != x {
          assert ins[k] in multiset(rest);
          var m :| 0 <= m < |rest| && rest[m] == ins[k];
          assert xs[m + 1] == ins[k];
        }
      }
      AscendingCons(xs[0], ins);
    }
  }

  lemma {:induction false} SortStringsSpec(xs: seq<string>)
    requires NoDuplicates(xs)
    ensures Ascending(SortStrings(xs))
    ensures multiset(SortStrings(xs)) == multiset(xs)
    decreases |xs|
  {
    if xs != [] {
      var rest := xs[1..];
      assert xs == [xs[0]] + rest;
      SortStringsSpec(rest);
      var sorted := SortStrings(rest);
      assert xs[0] !in rest by {
        forall m | 0 <= m < |rest|
          ensures rest[m] != xs[0]
        {
          assert rest[m] == xs[m + 1];
        }
      }
      assert xs[0] !in multiset(sorted);
      InsertSortedSpec(xs[0], sorted);
    }
  }

  /** `sorted(list(set(all_skills)))`, the options of the skill filter. */
  function SkillOptions(rows: seq<Listing>): seq<string>
  {
    SortStrings(Keys(AllSkills(rows)))
  }

  /** The options are the skills of the table, each once, in strictly
      ascending order; there are as many as the unique-skills metric says. */
  lemma SkillOptionsSpec(rows: seq<Listing>)
    ensures Ascending(SkillOptions(rows))
    ensures forall x :: x in SkillOptions(rows) <==> x in AllSkills(rows)
    ensures |SkillOptions(rows)| == UniqueSkills(rows)
  {
    var all := AllSkills(rows);
    KeysSpec(all);
    KeysCount(all);
    SortStringsSpec(Keys(all));
    var options := SkillOptions(rows);
    assert |multiset(options)| == |multiset(Keys(all))|;
    forall x
      ensures x in options <==> x in all
    {
      assert x in options <==> x in multiset(options);
      assert x in Keys(all) <==> x in multiset(Keys(all));
    }
  }

  /** The skills pre-selected when present, in this order. */
  const PREFERRED_SKILLS: seq<string> := ["python", "sql", "tableau"]

  /** `[s for s in preferred if s in options]`. */
  function PresentIn(preferred: seq<string>, options: seq<string>): seq<string>
  {
    if preferred == [] then []
    else
      var init := preferred[..|preferred| - 1];
      var last := preferred[|preferred| - 1];
      PresentIn(init, options) + if last in options then [last] else []
  }

  /** `default_skills`. */
  function DefaultSkills(options: seq<string>): seq<string>
  {
    PresentIn(PREFERRED_SKILLS, options)
  }

  /** The default selection is "python", "sql", "tableau", in that order,
      each kept only when it is among the options. */
  lemma DefaultSkillsSpec(options: seq<string>)
    ensures DefaultSkills(options) ==
      (if "python" in options then ["python"] else []) +
      (if "sql" in options then ["sql"] else []) +
      (if "tableau" in options then ["tableau"] else [])
  {
    var two, one := PREFERRED_SKILLS[..2], ["python"];
    assert two == ["python", "sql"] && two[..1] == one && one[..0] == [];
    assert PresentIn(one, options) == if "python" in options then ["python"] else [];
    assert PresentIn(two, options) == PresentIn(one, options) + if "sql" in options then ["sql"] else [];
  }

  /** Every selected skill is among the row's skills: `set(selected) <= set(skills)`. */
  predicate HasAll(row: Listing, selected: seq<string>)
  {
    forall s :: s in selected ==> s in row.skills
  }

  /** The rows that have every selected skill, in their original order. */
  function RowsWithAll(rows: seq<Listing>, selected: seq<string>): (kept: seq<Listing>)
    ensures |kept| <= |rows|
    ensures forall r :: r in kept ==> r in rows && HasAll(r, selected)
  {
    if rows == [] then []
    else
      var init := rows[..|rows| - 1];
      var last := rows[|rows| - 1];
      var rest := RowsWithAll(init, selected);
      assert forall r :: r in rest ==> r in rows by {
        assert forall r :: r in init ==> r in rows;
      }
      rest + if HasAll(last, selected) then [last] else []
  }

  /** `filtered_df`: with no skill selected, every row; otherwise the rows
      whose skills include all selected ones. */
  function FilterBySkills(rows: seq<Listing>, selected: seq<string>): seq<Listing>
  {
    if selected == [] then rows else RowsWithAll(rows, selected)
  }

  /** Filtering a table in two parts filters each part in turn: rows keep their order. */
  lemma {:induction false} RowsWithAllAppend(a: seq<Listing>, b: seq<Listing>, selected: seq<string>)
    ensures RowsWithAll(a + b, selected) == RowsWithAll(a, selected) + RowsWithAll(b, selected)
    decreases |b|
  {
    if b == [] {
      assert a + b == a;
    } else {
      var b' := b[..|b| - 1];
      assert (a + b)[..|a + b| - 1] == a + b';
      RowsWithAllAppend(a, b', selected);
    }
  }

  /** One row passes exactly when it has every selected skill. */
  lemma RowsWithAllSingle(row: Listing, selected: seq<string>)
    ensures RowsWithAll([row], selected) == if HasAll(row, selected) then [row] else []
  {
    assert [row][..0] == [];
  }

  /** Every row that has all selected skills is shown. */
  lemma RowsWithAllComplete(rows: seq<Listing>, selected: seq<string>, i: int)
    requires 0 <= i < |rows| && HasAll(rows[i], selected)
    ensures rows[i] in RowsWithAll(rows, selected)
  {
    assert rows == rows[..i] + [rows[i]] + rows[i + 1..];
    RowsWithAllAppend(rows[..i] + [rows[i]], rows[i + 1..], selected);
    RowsWithAllAppend(rows[..i], [rows[i]], selected);
    RowsWithAllSingle(rows[i], selected);
  }

  /** Asking for more skills never shows more rows. */
  lemma {:induction false} RowsWithAllMonotone(rows: seq<Listing>, fewer: seq<string>, more: seq<string>)
    requires forall s :: s in fewer ==> s in more
    ensures |RowsWithAll(rows, more)| <= |RowsWithAll(rows, fewer)|
    decreases |rows|
  {
    if rows != [] {
      RowsWithAllMonotone(rows[..|rows| - 1], fewer, more);
    }
  }

  /** The filtered count never exceeds the total, and adding a skill to the
      selection never raises it. */
  lemma FilterBySkillsBounds(rows: seq<Listing>, selected: seq<string>, s: string)
    ensures |FilterBySkills(rows, selected)| <= |rows|
    ensures |FilterBySkills(rows, selected + [s])| <= |FilterBySkills(rows, selected)|
  {
    if selected != [] {
      RowsWithAllMonotone(rows, selected, selected + [s]);
    }
  }

  /** Rows tagged {python, sql}, {python} and {sql, tableau}: selecting
      python and sql shows only the first. */
  lemma SupersetExample(a: Listing, b: Listing, c: Listing)
    requires a.skills == ["python", "sql"] && b.skills == ["python"] && c.skills == ["sql", "tableau"]
    ensures FilterBySkills([a, b, c], ["python", "sql"]) == [a]
  {
    var sel := ["python", "sql"];
    assert !HasAll(b, sel) by {
      assert "sql" in sel;
    }
    assert !HasAll(c, sel) by {
      assert "python" in sel;
    }
    assert [a, b, c] == [a] + [b] + [c];
    RowsWithAllAppend([a] + [b], [c], sel);
    RowsWithAllAppend([a], [b], sel);
    RowsWithAllSingle(a, sel);
    RowsWithAllSingle(b, sel);
    RowsWithAllSingle(c, sel);
  }

  /** What the page shows once the table has rows. */
  datatype Snapshot = Snapshot(
    totalJobs: nat,
    uniqueSkills: nat,
    uniqueCompanies: nat,
    topSkills: seq<Tally>,
    topCompanies: seq<Tally>,
    options: seq<string>,
    defaults: seq<string>,
    shown: seq<Listing>)

  /** The three states of the page: no file, an empty table, or the dashboard. */
  datatype View = FileMissing | EmptyTable | Shown(snapshot: Snapshot)

  /** The page for a loaded table (`None` when the file is missing) and the
      skills currently selected in the filter. */
  function Render(table: Option<seq<Listing>>, selected: seq<string>): (view: View)
    ensures view.FileMissing? <==> table.None?
    ensures view.EmptyTable? <==> table == Some([])
    ensures view.Shown? ==>
      var rows, s := table.value, view.snapshot;
      && s.totalJobs == |rows|
      && s.uniqueSkills == |s.options| <= TagCount(rows)
      && s.uniqueCompanies <= |rows|
      && |s.topSkills| <= 10 && |s.topCompanies| <= 10
      && (forall x :: x in s.defaults ==> x in s.options)
      && |s.shown| <= s.totalJobs
  {
    match table
    case None => FileMissing
    case Some(rows) =>
      if rows == [] then EmptyTable
      else
        SkillOptionsSpec(rows);
        UniqueSkillsBound(rows);
        KeysCount(Companies(rows));
        TopSkillsSpec(rows);
        TopCompaniesSpec(rows);
        FilterBySkillsBounds(rows, selected, "");
        var options := SkillOptions(rows);
        DefaultSkillsSpec(options);
        Shown(Snapshot(
          |rows|,
          UniqueSkills(rows),
          UniqueCompanies(rows),
          TopSkills(rows),
          TopCompanies(rows),
          options,
          DefaultSkills(options),
          FilterBySkills(rows, selected)))
  }
}
