/** The feature vocabulary: the symptom columns of the training table, the set
    of symptoms found in them and that set in sorted order
    (backend/model.py:50-61). */
module Vocabulary {
  import opened Optional
  import opened Text

  /** A table loaded from CSV: column names and rows of cells, an empty cell
      being `None`. Cells already had surrounding whitespace removed and
      empty strings turned into `None` by the loader. */
  datatype Table = Table(columns: seq<string>, rows: seq<seq<Option<string>>>)

  /** Every row has one cell per column, as in a data frame. */
  predicate Rectangular(t: Table)
  {
    forall i :: 0 <= i < |t.rows| ==> |t.rows[i]| == |t.columns|
  }

  /** A column whose lower-cased name starts with "symptom". */
  predicate IsSymptomColumn(name: string)
  {
    StartsWith(Lower(name), "symptom")
  }

  /** `symptom_columns`: the positions of the symptom columns, in column
      order. */
  function SymptomColumns(columns: seq<string>): (cols: seq<nat>)
    ensures forall j :: 0 <= j < |cols| ==> cols[j] < |columns| && IsSymptomColumn(columns[cols[j]])
    ensures forall c :: 0 <= c < |columns| && IsSymptomColumn(columns[c]) ==> c in cols
    ensures forall j, k :: 0 <= j < k < |cols| ==> cols[j] < cols[k]
    decreases |columns|
  {
    if columns == [] then []
    else
      var init := SymptomColumns(columns[..|columns| - 1]);
      if IsSymptomColumn(columns[|columns| - 1]) then init + [|columns| - 1] else init
  }

  /** Column positions that all exist in the table. */
  predicate InTable(t: Table, cols: seq<nat>)
  {
    forall j :: 0 <= j < |cols| ==> cols[j] < |t.columns|
  }

  /** Row `i` has, in the `j`-th chosen column, a cell that strips to `x`. */
  predicate Hit(t: Table, cols: seq<nat>, j: int, i: int, x: string)
  {
    && 0 <= j < |cols| && 0 <= i < |t.rows| && cols[j] < |t.rows[i]|
    && t.rows[i][cols[j]].Some? && Strip(t.rows[i][cols[j]].value) == x
  }

  /** `x` is a stripped non-empty cell of one of the chosen columns. */
  ghost predicate Observed(t: Table, cols: seq<nat>, x: string)
  {
    exists j, i :: Hit(t, cols, j, i, x)
  }

  /** `x` strips from a cell visited before position (`j`, `i`) of the
      column-by-column, row-by-row scan. */
  ghost predicate SeenBefore(t: Table, cols: seq<nat>, j: int, i: int, x: string)
  {
    exists jj, ii :: (jj < j || (jj == j && ii < i)) && Hit(t, cols, jj, ii, x)
  }

  lemma SeenNextRow(t: Table, cols: seq<nat>, j: int, i: int, x: string)
    ensures SeenBefore(t, cols, j, i + 1, x) <==> SeenBefore(t, cols, j, i, x) || Hit(t, cols, j, i, x)
  {
  }

  lemma SeenNextColumn(t: Table, cols: seq<nat>, j: int, x: string)
    ensures SeenBefore(t, cols, j, |t.rows|, x) <==> SeenBefore(t, cols, j + 1, 0, x)
  {
    if SeenBefore(t, cols, j + 1, 0, x) {
      var jj, ii :| (jj < j + 1 || (jj == j + 1 && ii < 0)) && Hit(t, cols, jj, ii, x);
      assert (jj < j || (jj == j && ii < |t.rows|)) && Hit(t, cols, jj, ii, x);
    }
  }

  lemma SeenAll(t: Table, cols: seq<nat>, x: string)
    ensures SeenBefore(t, cols, |cols|, 0, x) <==> Observed(t, cols, x)
  {
    if Observed(t, cols, x) {
      var jj, ii :| Hit(t, cols, jj, ii, x);
      assert jj < |cols|;
    }
  }

  /** The loop that fills `symptom_set`: for every symptom column, every
      non-empty cell is stripped and added. */
  method CollectSymptoms(t: Table, cols: seq<nat>) returns (found: set<string>)
    requires Rectangular(t) && InTable(t, cols)
    ensures forall x :: x in found <==> Observed(t, cols, x)
  {
    found := {};
    var j := 0;
    while j < |cols|
      invariant 0 <= j <= |cols|
      invariant forall x :: x in found <==> SeenBefore(t, cols, j, 0, x)
    {
      var i := 0;
      while i < |t.rows|
        invariant 0 <= i <= |t.rows|
        invariant forall x :: x in found <==> SeenBefore(t, cols, j, i, x)
      {
        var cell := t.rows[i][cols[j]];
        if cell.Some? {
          found := found + {Strip(cell.value)};
        }
        forall x ensures x in found <==> SeenBefore(t, cols, j, i + 1, x) {
          SeenNextRow(t, cols, j, i, x);
        }
        i := i + 1;
      }
      forall x ensures SeenBefore(t, cols, j, |t.rows|, x) <==> SeenBefore(t, cols, j + 1, 0, x) {
        SeenNextColumn(t, cols, j, x);
      }
      j := j + 1;
    }
    forall x ensures SeenBefore(t, cols, |cols|, 0, x) <==> Observed(t, cols, x) {
      SeenAll(t, cols, x);
    }
  }

  /** Strictly ascending in Python's string order, hence free of duplicates. */
  predicate Ascending(s: seq<string>)
  {
    forall i, j :: 0 <= i < j < |s| ==> Below(s[i], s[j])
  }

  /** `m` is the least element of `s`. */
  predicate IsLeast(m: string, s: set<string>)
  {
    m in s && forall y :: y in s && y != m ==> Below(m, y)
  }

  lemma {:induction false} LeastExists(s: set<string>)
    requires s != {}
    ensures exists m :: IsLeast(m, s)
    decreases |s|
  {
    var x :| x in s;
    if s == {x} {
      assert IsLeast(x, s);
    } else {
      var rest := s - {x};
      LeastExists(rest);
      var m :| IsLeast(m, rest);
      if Below(x, m) {
        forall y | y in s && y != x ensures Below(x, y) {
          if y != m { BelowTransitive(x, m, y); }
        }
        assert IsLeast(x, s);
      } else {
        BelowTotal(x, m);
        assert IsLeast(m, s);
      }
    }
  }

  lemma LeastUnique(a: string, b: string, s: set<string>)
    requires IsLeast(a, s) && IsLeast(b, s)
    ensures a == b
  {
    if a != b {
      BelowAsymmetric(a, b);
    }
  }

  /** `sorted(list(s))`: the elements of `s` in ascending order. */
  function SortedList(s: set<string>): (r: seq<string>)
    ensures Ascending(r)
    ensures forall x :: x in r <==> x in s
    ensures |r| == |s|
    decreases |s|
  {
    if s == {} then []
    else
      LeastExists(s);
      forall a, b | IsLeast(a, s) && IsLeast(b, s) ensures a == b {
        LeastUnique(a, b, s);
      }
      var m :| IsLeast(m, s);
      var rest := SortedList(s - {m});
      assert forall k :: 0 <= k < |rest| ==> rest[k] in s - {m};
      [m] + rest
  }

  /** Strictly ascending sequences hold no element twice. */
  lemma AscendingDistinct(s: seq<string>, i: int, j: int)
    requires Ascending(s) && 0 <= i < j < |s|
    ensures s[i] != s[j]
  {
    BelowIrreflexive(s[i]);
  }
}
