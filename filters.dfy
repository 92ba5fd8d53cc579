/** The sidebar's row filters and the price sort of streamlit_app.py, over
    the rows of the neighbourhood table. */
module Filters {

  /** One row of the table (the columns the core reads). */
  datatype Property = Property(
    areaName: string, outcode: string, latitude: real, longitude: real,
    medianPrice: int, bedrooms: int, bathrooms: int, livingrooms: int,
    propertyType: string, tenure: string, crimeLevel: string,
    numGood: int, numOutstanding: int)

  /** The sidebar choices. The two multiselects are sets: only membership is
      ever asked of them. */
  datatype Selection = Selection(
    budgetMin: int, budgetMax: int, bedrooms: int, bathrooms: int, livingrooms: int,
    propertyType: string, tenure: string, school: set<string>, crime: set<string>)

  /** The first mask: `median_price.between(budget_min, budget_max)` (both
      ends included), the five equalities and `crime_level.isin(crime)`. */
  predicate MatchesMain(p: Property, sel: Selection) {
    && sel.budgetMin <= p.medianPrice <= sel.budgetMax
    && p.bedrooms == sel.bedrooms
    && p.bathrooms == sel.bathrooms
    && p.livingrooms == sel.livingrooms
    && p.propertyType == sel.propertyType
    && p.tenure == sel.tenure
    && p.crimeLevel in sel.crime
  }

  /** `school_filter`: a good school and "Good" chosen, or an outstanding
      school and "Outstanding" chosen, or neither kind and "No info" chosen. */
  predicate MatchesSchool(p: Property, sel: Selection) {
    || (p.numGood > 0 && "Good" in sel.school)
    || (p.numOutstanding > 0 && "Outstanding" in sel.school)
    || (p.numGood == 0 && p.numOutstanding == 0 && "No info" in sel.school)
  }

  /** The two masks, applied one after the other. */
  datatype Stage = MainStage | SchoolStage

  predicate Passes(p: Property, sel: Selection, stage: Stage) {
    match stage
    case MainStage => MatchesMain(p, sel)
    case SchoolStage => MatchesSchool(p, sel)
  }

  /** `df[mask]`: the rows that pass, in table order, each as often as it
      occurs. */
  function Keep(rows: seq<Property>, sel: Selection, stage: Stage): (r: seq<Property>)
    ensures |r| <= |rows|
    ensures forall x :: multiset(r)[x] == if Passes(x, sel, stage) then multiset(rows)[x] else 0
    decreases |rows|
  {
    if rows == [] then []
    else
      var rest := Keep(rows[1..], sel, stage);
      assert rows == [rows[0]] + rows[1..];
      if Passes(rows[0], sel, stage) then [rows[0]] + rest else rest
  }

  /** Masking commutes with concatenation, so the order of the table is
      kept. */
  lemma {:induction false} KeepConcat(a: seq<Property>, b: seq<Property>, sel: Selection, stage: Stage)
    ensures Keep(a + b, sel, stage) == Keep(a, sel, stage) + Keep(b, sel, stage)
    decreases |a|
  {
    if a == [] {
      assert a + b == b;
    } else {
      assert (a + b)[0] == a[0];
      assert (a + b)[1..] == a[1..] + b;
      KeepConcat(a[1..], b, sel, stage);
    }
  }

  /** `df_filtered` after line 86. */
  function Filtered(rows: seq<Property>, sel: Selection): seq<Property> {
    Keep(Keep(rows, sel, MainStage), sel, SchoolStage)
  }

  /** A row is in the result as often as it is in the table when it passes
      both masks, and not at all otherwise. */
  lemma FilteredCount(rows: seq<Property>, sel: Selection, x: Property)
    ensures multiset(Filtered(rows, sel))[x] ==
            if MatchesMain(x, sel) && MatchesSchool(x, sel) then multiset(rows)[x] else 0
  {
  }

  lemma FilteredMembers(rows: seq<Property>, sel: Selection, x: Property)
    ensures x in Filtered(rows, sel) <==> x in rows && MatchesMain(x, sel) && MatchesSchool(x, sel)
  {
    FilteredCount(rows, sel, x);
    assert x in Filtered(rows, sel) <==> multiset(Filtered(rows, sel))[x] > 0;
    assert x in rows <==> multiset(rows)[x] > 0;
  }

  /** Minimum above maximum: the error is shown and nothing matches. */
  lemma InvertedBudgetEmpty(rows: seq<Property>, sel: Selection)
    requires sel.budgetMin > sel.budgetMax
    ensures Filtered(rows, sel) == []
  {
    var r := Filtered(rows, sel);
    if r != [] {
      FilteredMembers(rows, sel, r[0]);
    }
  }

  /** With all three school options chosen (the default), the school mask
      keeps every row whose counts are not negative. */
  lemma DefaultSchoolKeepsAll(p: Property, sel: Selection)
    requires sel.school == {"Good", "Outstanding", "No info"}
    requires p.numGood >= 0 && p.numOutstanding >= 0
    ensures MatchesSchool(p, sel)
  {
  }

  /** With only "No info" chosen, exactly the rows without a good or an
      outstanding school pass. */
  lemma NoInfoOnly(p: Property, sel: Selection)
    requires sel.school == {"No info"}
    ensures MatchesSchool(p, sel) <==> p.numGood == 0 && p.numOutstanding == 0
  {
  }

  // ---------------------------------------------------------------------
  // Sorting by median price

  /** `a` may come before `b` in the requested direction. */
  predicate Before(a: Property, b: Property, ascending: bool) {
    if ascending then a.medianPrice <= b.medianPrice else a.medianPrice >= b.medianPrice
  }

  predicate Ordered(rows: seq<Property>, ascending: bool) {
    forall i, j :: 0 <= i < j < |rows| ==> Before(rows[i], rows[j], ascending)
  }

  /** One insertion step of the sort. */
  function Insert(x: Property, rows: seq<Property>, ascending: bool): (r: seq<Property>)
    ensures multiset(r) == multiset(rows) + multiset{x}
    decreases |rows|
  {
    if rows == [] then [x]
    else if Before(x, rows[0], ascending) then [x] + rows
    else
      assert rows == [rows[0]] + rows[1..];
      [rows[0]] + Insert(x, rows[1..], ascending)
  }

  /** Inserting into an ordered list keeps it ordered. */
  lemma {:induction false} InsertOrdered(x: Property, rows: seq<Property>, ascending: bool)
    requires Ordered(rows, ascending)
    ensures Ordered(Insert(x, rows, ascending), ascending)
    decreases |rows|
  {
    if rows != [] && !Before(x, rows[0], ascending) {
      var rest := Insert(x, rows[1..], ascending);
      InsertOrdered(x, rows[1..], ascending);
      forall j | 0 <= j < |rest|
        ensures Before(rows[0], rest[j], ascending)
      {
        assert rest[j] in multiset(rest);
        if rest[j] != x {
          assert rest[j] in multiset(rows[1..]);
          var k :| 0 <= k < |rows[1..]| && rows[1..][k] == rest[j];
          assert rows[k + 1] == rest[j];
        }
      }
      var r := [rows[0]] + rest;
      forall i, j | 0 <= i < j < |r|
        ensures Before(r[i], r[j], ascending)
      {
        if i > 0 {
          assert r[i] == rest[i - 1] && r[j] == rest[j - 1];
        } else {
          assert r[j] == rest[j - 1];
        }
      }
    }
  }

  /** `sort_values("median_price", ascending=...)`: a permutation of the
      rows ordered by price. */
  function SortByPrice(rows: seq<Property>, ascending: bool): (r: seq<Property>)
    ensures Ordered(r, ascending)
    ensures multiset(r) == multiset(rows)
    decreases |rows|
  {
    if rows == [] then []
    else
      assert rows == [rows[0]] + rows[1..];
      var sorted := SortByPrice(rows[1..], ascending);
      InsertOrdered(rows[0], sorted, ascending);
      Insert(rows[0], sorted, ascending)
  }

  /** The "Sort by" box: "Default" and any other text leave the order as it
      is. */
  function ApplySort(option: string, rows: seq<Property>): (r: seq<Property>)
    ensures multiset(r) == multiset(rows)
    ensures option == "Price: Low to High" ==> Ordered(r, true)
    ensures option == "Price: High to Low" ==> Ordered(r, false)
    ensures option != "Price: Low to High" && option != "Price: High to Low" ==> r == rows
  {
    if option == "Price: Low to High" then SortByPrice(rows, true)
    else if option == "Price: High to Low" then SortByPrice(rows, false)
    else rows
  }

  /** Ascending, the first row is a cheapest one; descending, a dearest. */
  lemma SortedEnds(rows: seq<Property>, ascending: bool, x: Property)
    requires x in rows
    ensures var r := SortByPrice(rows, ascending);
            |r| > 0 && Before(r[0], x, ascending)
  {
    var r := SortByPrice(rows, ascending);
    assert x in multiset(r);
    var i :| 0 <= i < |r| && r[i] == x;
    if i > 0 {
      assert Before(r[0], r[i], ascending);
    }
  }
}
