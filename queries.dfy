// The date-filtered SELECT of Data/models.py:71-98: a query text built by
// successive concatenation and a parameter list grown by appends, whose
// placeholders `$k` number the parameters from 1.

module Queries {
  import opened Records

  /** The text the query starts from (Data/models.py:74-78): a newline, the
      three indented lines, and the indentation before the closing quotes. */
  const Base: string := "\n" + Select + Columns + Rate + Table + Where + "    "

  const Select: string := "        SELECT record_date, "
  const Columns: string := "security_type_desc, security_desc, "
  const Rate: string := "avg_interest_rate_amt\n"
  const Table: string := "        FROM us_treasury_securities\n"
  const Where: string := "        WHERE 1=1\n"

  /** The clause appended last, whatever the filters (Data/models.py:94). */
  const OrderBy: string := " ORDER BY record_date DESC"

  /** The part of `record_date` a filter compares. */
  datatype Part = Year | Month | Day

  /** The words of a condition around the name of the date part. */
  const Extract: string := " AND EXTRACT("
  const FromDate: string := " FROM record_date) = "

  function PartName(p: Part): string
  {
    match p
    case Year => "YEAR"
    case Month => "MONTH"
    case Day => "DAY"
  }

  /** The condition comparing part `p` of the date with a parameter, up to
      the placeholder's number. */
  function Comparison(p: Part): string
  {
    Extract + PartName(p) + FromDate + "$"
  }

  /** The condition on part `p` with placeholder `$k`. */
  function Condition(p: Part, k: nat): string
  {
    Comparison(p) + NatToString(k)
  }

  /** `if year:` and its siblings: a filter is used when it is given and not 0. */
  predicate Given(v: Option<int>)
  {
    v.Some? && v.value != 0
  }

  /** The argument of `fetch_by_date` for each part of the date. */
  function Argument(p: Part, year: Option<int>, month: Option<int>, day: Option<int>): Option<int>
  {
    match p
    case Year => year
    case Month => month
    case Day => day
  }

  /** Year before month before day: the order the filters are tested in. */
  function Rank(p: Part): nat
  {
    match p
    case Year => 0
    case Month => 1
    case Day => 2
  }

  /** The filters `fs` followed by the one on part `p`, when its argument is used. */
  function Keep(fs: seq<(Part, int)>, p: Part, v: Option<int>): seq<(Part, int)>
  {
    if Given(v) then fs + [(p, v.value)] else fs
  }

  /** The filters in use, each with the integer it is compared with. */
  function Filters(year: Option<int>, month: Option<int>, day: Option<int>): seq<(Part, int)>
  {
    Keep(Keep(Keep([], Year, year), Month, month), Day, day)
  }

  /** The conditions of the filters `fs`, the i-th of them (from 0) on
      placeholder `$(i + 1)`. */
  function Conditions(fs: seq<(Part, int)>): string
  {
    if fs == [] then [] else Conditions(fs[..|fs| - 1]) + Condition(fs[|fs| - 1].0, |fs|)
  }

  /** The parameters bound to those placeholders, in the same order. */
  function Values(fs: seq<(Part, int)>): (vs: seq<int>)
    ensures |vs| == |fs| && forall i :: 0 <= i < |fs| ==> vs[i] == fs[i].1
  {
    if fs == [] then [] else Values(fs[..|fs| - 1]) + [fs[|fs| - 1].1]
  }

  /** The text of the query with the filters `fs`. */
  function Query(fs: seq<(Part, int)>): string
  {
    Base + Conditions(fs) + OrderBy
  }

  /** `fetch_by_date(year, month, day)` up to the call that runs the query:
      the text and the parameters handed to `conn.fetch`. */
  method FetchByDate(year: Option<int>, month: Option<int>, day: Option<int>)
    returns (query: string, params: seq<int>)
    ensures var fs := Filters(year, month, day);
      query == Query(fs) && params == Values(fs)
  {
    ghost var fs := Keep([], Year, year);
    query, params := YearFilter(year);
    query, params := NumberedFilter(query, params, fs, Month, month);
    fs := Keep(fs, Month, month);
    query, params := NumberedFilter(query, params, fs, Day, day);
    query := query + OrderBy;
  }

  /** The year test (Data/models.py:82-84), whose placeholder is written `$1`. */
  method YearFilter(year: Option<int>) returns (query: string, params: seq<int>)
    ensures var fs := Keep([], Year, year);
      query == Base + Conditions(fs) && params == Values(fs)
  {
    query := Base;
    params := [];
    AppendNil(Base);
    if Given(year) {
      YearCondition();
      Grow(query, params, [], Year, year.value, " AND EXTRACT(YEAR FROM record_date) = $1");
      query := query + " AND EXTRACT(YEAR FROM record_date) = $1";
      params := params + [year.value];
    }
  }

  /** The month or day test (Data/models.py:86-92), whose placeholder is
      numbered after the parameters collected so far. */
  method NumberedFilter(query: string, params: seq<int>, ghost fs: seq<(Part, int)>, p: Part, v: Option<int>)
    returns (query': string, params': seq<int>)
    requires query == Base + Conditions(fs) && params == Values(fs)
    ensures query' == Base + Conditions(Keep(fs, p, v)) && params' == Values(Keep(fs, p, v))
  {
    query', params' := query, params;
    if Given(v) {
      var clause := Comparison(p) + NatToString(|params| + 1);
      Grow(query, params, fs, p, v.value, clause);
      query' := query + clause;
      params' := params + [v.value];
    }
  }

  /** Appending the condition of one more filter keeps the text equal to
      the base followed by the conditions of the filters so far. */
  lemma Grow(q: string, ps: seq<int>, fs: seq<(Part, int)>, p: Part, v: int, c: string)
    requires q == Base + Conditions(fs) && ps == Values(fs) && c == Condition(p, |fs| + 1)
    ensures q + c == Base + Conditions(fs + [(p, v)]) && ps + [v] == Values(fs + [(p, v)])
  {
    Extend(fs, p, v);
    Associate(Base, Conditions(fs), c);
  }

  /** One more filter adds its condition, on the next placeholder, and its value. */
  lemma Extend(fs: seq<(Part, int)>, p: Part, v: int)
    ensures Conditions(fs + [(p, v)]) == Conditions(fs) + Condition(p, |fs| + 1)
    ensures Values(fs + [(p, v)]) == Values(fs) + [v]
  {
    assert (fs + [(p, v)])[..|fs|] == fs;
  }

  /** The year clause's hard-coded `$1` (Data/models.py:83) is the
      placeholder of the first parameter. */
  lemma YearCondition()
    ensures Condition(Year, 1) == " AND EXTRACT(YEAR FROM record_date) = $1"
  {
    assert NatToString(1) == "1";
    assert Extract + "YEAR" == " AND EXTRACT(YEAR";
    assert " AND EXTRACT(YEAR" + FromDate == " AND EXTRACT(YEAR FROM record_date) = ";
    assert " AND EXTRACT(YEAR FROM record_date) = " + "$" + "1" == " AND EXTRACT(YEAR FROM record_date) = $1";
  }

  /** With no filter argument given the query is the base text followed by
      the ORDER BY clause, with no parameters; and only then. */
  lemma Unfiltered(year: Option<int>, month: Option<int>, day: Option<int>)
    ensures Filters(year, month, day) == [] <==> !Given(year) && !Given(month) && !Given(day)
    ensures Filters(year, month, day) == [] ==>
      Query(Filters(year, month, day)) == Base + OrderBy && Values(Filters(year, month, day)) == []
  {
    AppendNil(Base);
  }

  /** A filter is used exactly when its argument is given and not 0; it
      carries that argument; and the filters come in the order year, month,
      day, so none is used twice. */
  lemma FiltersExact(year: Option<int>, month: Option<int>, day: Option<int>)
    ensures var fs := Filters(year, month, day);
      forall p: Part :: Given(Argument(p, year, month, day)) <==> exists i :: 0 <= i < |fs| && fs[i].0 == p
    ensures var fs := Filters(year, month, day);
      forall i :: 0 <= i < |fs| ==>
        Given(Argument(fs[i].0, year, month, day)) && fs[i].1 == Argument(fs[i].0, year, month, day).value
    ensures var fs := Filters(year, month, day);
      forall i, j :: 0 <= i < j < |fs| ==> Rank(fs[i].0) < Rank(fs[j].0)
  {
    var fs := Filters(year, month, day);
    forall p: Part
      ensures Given(Argument(p, year, month, day)) <==> exists i :: 0 <= i < |fs| && fs[i].0 == p
    {
      if Given(Argument(p, year, month, day)) {
        var i := (if Given(year) && p != Year then 1 else 0) + (if Given(month) && p == Day then 1 else 0);
        assert fs[i].0 == p;
      }
    }
  }

  /** The i-th filter's condition, comparing its part with placeholder
      `$(i + 1)`, is part of the text, and the (i + 1)-th parameter is that
      filter's value. */
  lemma {:induction false} PlaceholderAt(fs: seq<(Part, int)>, i: nat)
    requires i < |fs|
    ensures exists j: nat {:trigger OccursAt(Conditions(fs), Condition(fs[i].0, i + 1), j)} ::
      OccursAt(Conditions(fs), Condition(fs[i].0, i + 1), j)
    ensures Values(fs)[i] == fs[i].1
  {
    var init := fs[..|fs| - 1];
    var c := Condition(fs[i].0, i + 1);
    var last := Condition(fs[|fs| - 1].0, |fs|);
    assert Conditions(fs) == Conditions(init) + last;
    if i == |fs| - 1 {
      OccursAtEnd(Conditions(init), last);
    } else {
      assert init[i] == fs[i];
      PlaceholderAt(init, i);
      var j: nat :| OccursAt(Conditions(init), c, j);
      OccursBefore(Conditions(init), last, c, j);
    }
  }

  /** The query holds one placeholder sign `$` per parameter. */
  lemma PlaceholderCount(fs: seq<(Part, int)>)
    ensures Count('$', Query(fs)) == |Values(fs)|
  {
    BaseChars();
    ConditionsChars(fs);
    OrderByChars();
    CountAbsent('$', Base);
    CountAbsent('$', OrderBy);
    CountAppend('$', Base, Conditions(fs));
    CountAppend('$', Base + Conditions(fs), OrderBy);
  }

  /** `ORDER BY record_date DESC` occurs in the query once, at its end. */
  lemma OneOrderBy(fs: seq<(Part, int)>)
    ensures forall j: nat :: OccursAt(Query(fs), OrderBy, j) <==> j == |Query(fs)| - |OrderBy|
  {
    var pre := Base + Conditions(fs);
    BaseChars();
    ConditionsChars(fs);
    OrderByChars();
    OccursAtEnd(pre, OrderBy);
    UniqueOccurrence(pre, OrderBy, 7);
  }

  /** `w` occurs in `s` at index `j`. */
  predicate OccursAt(s: string, w: string, j: nat)
  {
    j + |w| <= |s| && s[j..j + |w|] == w
  }

  /** The number of times `x` occurs in `s`. */
  function Count(x: char, s: string): nat
  {
    if s == [] then 0 else Count(x, s[..|s| - 1]) + (if s[|s| - 1] == x then 1 else 0)
  }

  lemma {:induction false} CountAppend(x: char, a: string, b: string)
    ensures Count(x, a + b) == Count(x, a) + Count(x, b)
  {
    if b != [] {
      assert (a + b)[..|a + b| - 1] == a + b[..|b| - 1];
      assert (a + b)[|a + b| - 1] == b[|b| - 1];
      CountAppend(x, a, b[..|b| - 1]);
    } else {
      AppendNil(a);
    }
  }

  lemma {:induction false} CountAbsent(x: char, s: string)
    requires x !in s
    ensures Count(x, s) == 0
  {
    if s != [] {
      CountAbsent(x, s[..|s| - 1]);
    }
  }

  /** A word whose element at `k` occurs nowhere else in it, and not in
      `pre`, occurs in `pre + w` only at the end. */
  lemma UniqueOccurrence(pre: string, w: string, k: nat)
    requires k < |w| && w[k] !in pre
    requires forall i :: 0 <= i < |w| && w[i] == w[k] ==> i == k
    ensures forall j: nat :: OccursAt(pre + w, w, j) ==> j == |pre|
  {
    var q := pre + w;
    forall j: nat | OccursAt(q, w, j)
      ensures j == |pre|
    {
      assert q[j + k] == w[k];
      assert j + k >= |pre|;
      assert q[j + k] == w[j + k - |pre|];
    }
  }

  lemma OccursBefore(a: string, b: string, w: string, j: nat)
    requires OccursAt(a, w, j)
    ensures OccursAt(a + b, w, j)
  {
    assert (a + b)[j..j + |w|] == a[j..j + |w|];
  }

  lemma OccursAtEnd(a: string, w: string)
    ensures OccursAt(a + w, w, |a|)
  {
    assert (a + w)[|a|..|a| + |w|] == w;
  }

  /** Neither `B` nor `$` occurs in the base text. */
  lemma BaseChars()
    ensures 'B' !in Base && '$' !in Base
  {
    SelectChars();
    ColumnsChars();
    RateChars();
    TableChars();
    WhereChars();
  }

  lemma SelectChars()
    ensures 'B' !in Select && '$' !in Select
  {
  }

  lemma ColumnsChars()
    ensures 'B' !in Columns && '$' !in Columns
  {
  }

  lemma RateChars()
    ensures 'B' !in Rate && '$' !in Rate
  {
  }

  lemma TableChars()
    ensures 'B' !in Table && '$' !in Table
  {
  }

  lemma WhereChars()
    ensures 'B' !in Where && '$' !in Where
  {
  }

  /** The ORDER BY clause holds no `$`, and its only `B` is the one of `BY`. */
  lemma OrderByChars()
    ensures '$' !in OrderBy && OrderBy[7] == 'B'
    ensures forall k :: 0 <= k < |OrderBy| && OrderBy[k] == 'B' ==> k == 7
  {
  }

  /** The words of a condition hold neither `B` nor `$`. */
  lemma WordsChars(p: Part)
    ensures 'B' !in Extract && '$' !in Extract && 'B' !in FromDate && '$' !in FromDate
    ensures 'B' !in PartName(p) && '$' !in PartName(p)
  {
  }

  /** A condition holds exactly one `$` and no `B`. */
  lemma ConditionChars(p: Part, k: nat)
    ensures 'B' !in Condition(p, k) && Count('$', Condition(p, k)) == 1
  {
    var w := Extract + PartName(p) + FromDate;
    var digits := NatToString(k);
    WordsChars(p);
    assert '$' !in digits && 'B' !in digits;
    CountAbsent('$', w);
    CountAbsent('$', digits);
    assert Count('$', "$") == 1;
    CountAppend('$', w, "$");
    CountAppend('$', w + "$", digits);
  }

  /** The conditions of `fs` hold one `$` per filter and no `B`. */
  lemma {:induction false} ConditionsChars(fs: seq<(Part, int)>)
    ensures 'B' !in Conditions(fs) && Count('$', Conditions(fs)) == |fs|
  {
    if fs != [] {
      var init := fs[..|fs| - 1];
      ConditionsChars(init);
      ConditionChars(fs[|fs| - 1].0, |fs|);
      CountAppend('$', Conditions(init), Condition(fs[|fs| - 1].0, |fs|));
    }
  }
}
