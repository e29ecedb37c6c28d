/**
 * The long-to-wide reshape of `parse_darshan_to_csv`:
 * `pivot_table(index=<every column but counter and value>, columns='counter',
 * values='value', aggfunc='first')`. One wide row per distinct index tuple,
 * one column per distinct counter, each cell the value of the first row with
 * that index tuple and counter. Row and column order are left open: pandas
 * sorts both, this model keeps first-seen order, and no property below
 * depends on it.
 */
module Reshape {
  const CounterColumn := "counter"
  const ValueColumn := "value"

  predicate IsIndexColumn(c: string) {
    c != CounterColumn && c != ValueColumn
  }

  /**
   * What `pd.DataFrame(rows, columns=columns)` and the pivot need: rows as
   * wide as the header, column names distinct, and a `counter` and a
   * `value` column.
   */
  predicate Tabular(columns: seq<string>, rows: seq<seq<string>>) {
    && CounterColumn in columns
    && ValueColumn in columns
    && (forall i, j | 0 <= i < j < |columns| :: columns[i] != columns[j])
    && (forall k | 0 <= k < |rows| :: |rows[k]| == |columns|)
  }

  /** The positions, from `from` on, of the index columns, in increasing order. */
  function IndexPositions(columns: seq<string>, from: nat): (p: seq<nat>)
    requires from <= |columns|
    ensures forall k | 0 <= k < |p| :: from <= p[k] < |columns| && IsIndexColumn(columns[p[k]])
    ensures forall k, l | 0 <= k < l < |p| :: p[k] < p[l]
    ensures forall j | from <= j < |columns| && IsIndexColumn(columns[j]) :: j in p
    decreases |columns| - from
  {
    if from == |columns| then []
    else (if IsIndexColumn(columns[from]) then [from] else []) + IndexPositions(columns, from + 1)
  }

  /** The values of a row under the given positions. */
  function Project(positions: seq<nat>, row: seq<string>): seq<string>
    requires forall k | 0 <= k < |positions| :: positions[k] < |row|
  {
    seq(|positions|, k requires 0 <= k < |positions| => row[positions[k]])
  }

  /** `[col for col in columns if col not in ['counter', 'value']]`. */
  function IndexColumns(columns: seq<string>): seq<string> {
    Project(IndexPositions(columns, 0), columns)
  }

  /** The index columns are exactly the columns other than `counter` and `value`. */
  lemma IndexColumnsExact(columns: seq<string>)
    ensures forall k | 0 <= k < |IndexColumns(columns)| :: IndexColumns(columns)[k] in columns && IsIndexColumn(IndexColumns(columns)[k])
    ensures forall j | 0 <= j < |columns| && IsIndexColumn(columns[j]) :: columns[j] in IndexColumns(columns)
  {
    var p := IndexPositions(columns, 0);
    var r := IndexColumns(columns);
    forall j | 0 <= j < |columns| && IsIndexColumn(columns[j]) ensures columns[j] in r {
      var k :| 0 <= k < |p| && p[k] == j;
      assert r[k] == columns[j];
    }
  }

  /** The index columns keep the order they have among the columns. */
  lemma IndexColumnsInOrder(columns: seq<string>)
    requires forall i, j | 0 <= i < j < |columns| :: columns[i] != columns[j]
    ensures forall k, l | 0 <= k < l < |IndexColumns(columns)| ::
      IndexColumns(columns)[k] in columns && IndexColumns(columns)[l] in columns &&
      Position(columns, IndexColumns(columns)[k]) < Position(columns, IndexColumns(columns)[l])
  {
    var p := IndexPositions(columns, 0);
    var r := IndexColumns(columns);
    forall k | 0 <= k < |r| ensures r[k] in columns && Position(columns, r[k]) == p[k] {
      assert columns[p[k]] == r[k];
      var q := Position(columns, r[k]);
      assert columns[q] == columns[p[k]];
    }
  }

  /** The position of a column known to be present. */
  function Position(columns: seq<string>, c: string): (i: nat)
    requires c in columns
    ensures i < |columns| && columns[i] == c
    ensures forall j | 0 <= j < i :: columns[j] != c
  {
    if columns[0] == c then 0 else 1 + Position(columns[1..], c)
  }

  /** The index tuple of a long row. */
  function Key(columns: seq<string>, row: seq<string>): seq<string>
    requires |row| == |columns|
  {
    Project(IndexPositions(columns, 0), row)
  }

  function CounterOf(columns: seq<string>, row: seq<string>): string
    requires CounterColumn in columns && |row| == |columns|
  {
    row[Position(columns, CounterColumn)]
  }

  function ValueOf(columns: seq<string>, row: seq<string>): string
    requires ValueColumn in columns && |row| == |columns|
  {
    row[Position(columns, ValueColumn)]
  }

  /** Two rows have the same index tuple exactly when they agree in every index column. */
  lemma KeyAgreement(columns: seq<string>, a: seq<string>, b: seq<string>)
    requires |a| == |columns| && |b| == |columns|
    ensures Key(columns, a) == Key(columns, b) <==>
      forall j | 0 <= j < |columns| && IsIndexColumn(columns[j]) :: a[j] == b[j]
  {
    var p := IndexPositions(columns, 0);
    if Key(columns, a) == Key(columns, b) {
      forall j | 0 <= j < |columns| && IsIndexColumn(columns[j]) ensures a[j] == b[j] {
        var k :| 0 <= k < |p| && p[k] == j;
        assert Key(columns, a)[k] == a[j] && Key(columns, b)[k] == b[j];
      }
    }
  }

  /** The list with later repeats removed, first occurrences kept in order. */
  function Distinct<T(==)>(xs: seq<T>): (r: seq<T>)
    ensures forall i | 0 <= i < |r| :: r[i] in xs
    ensures forall i | 0 <= i < |xs| :: xs[i] in r
    ensures forall i, j | 0 <= i < j < |r| :: r[i] != r[j]
    decreases |xs|
  {
    if xs == [] then []
    else
      var rest := Distinct(xs[..|xs| - 1]);
      var last := xs[|xs| - 1];
      assert xs == xs[..|xs| - 1] + [last];
      if last in rest then rest else rest + [last]
  }

  /** One long row read as (index tuple, counter, value). */
  datatype Observation = Observation(key: seq<string>, counter: string, value: string)

  /** The long-format table, one observation per row. */
  function LongFormat(columns: seq<string>, rows: seq<seq<string>>): (obs: seq<Observation>)
    requires Tabular(columns, rows)
    ensures |obs| == |rows|
    ensures forall k | 0 <= k < |rows| :: obs[k].key == Key(columns, rows[k])
    ensures forall k | 0 <= k < |rows| :: obs[k].counter == CounterOf(columns, rows[k])
    ensures forall k | 0 <= k < |rows| :: obs[k].value == ValueOf(columns, rows[k])
  {
    seq(|rows|, k requires 0 <= k < |rows| =>
      Observation(Key(columns, rows[k]), CounterOf(columns, rows[k]), ValueOf(columns, rows[k])))
  }

  function KeysOf(obs: seq<Observation>): seq<seq<string>> {
    seq(|obs|, k requires 0 <= k < |obs| => obs[k].key)
  }

  function CountersOf(obs: seq<Observation>): seq<string> {
    seq(|obs|, k requires 0 <= k < |obs| => obs[k].counter)
  }

  /** The observation records counter `c` for index tuple `key`. */
  predicate Observes(o: Observation, key: seq<string>, c: string) {
    o.key == key && o.counter == c
  }

  /** The cells of the wide row for `key`: counter to value, the earliest observation winning. */
  function Cells(obs: seq<Observation>, key: seq<string>): map<string, string>
    decreases |obs|
  {
    if obs == [] then map[]
    else
      var rest := Cells(obs[1..], key);
      if obs[0].key == key then rest[obs[0].counter := obs[0].value] else rest
  }

  /** A counter has a cell for `key` exactly when some observation records it. */
  lemma {:induction false} CellsDomain(obs: seq<Observation>, key: seq<string>, c: string)
    ensures c in Cells(obs, key) <==> exists i :: 0 <= i < |obs| && Observes(obs[i], key, c)
    decreases |obs|
  {
    if obs != [] {
      var tail := obs[1..];
      CellsDomain(tail, key, c);
      if exists i :: 0 <= i < |tail| && Observes(tail[i], key, c) {
        var i :| 0 <= i < |tail| && Observes(tail[i], key, c);
        assert Observes(obs[i + 1], key, c);
      }
      if exists i :: 0 <= i < |obs| && Observes(obs[i], key, c) {
        var i :| 0 <= i < |obs| && Observes(obs[i], key, c);
        if i > 0 {
          assert Observes(tail[i - 1], key, c);
        }
      }
    }
  }

  /** `aggfunc='first'`: the cell holds the value of the first observation of its counter; later duplicates are ignored. */
  lemma {:induction false} CellsFirstObserved(obs: seq<Observation>, key: seq<string>, c: string, i: nat)
    requires i < |obs| && Observes(obs[i], key, c)
    requires forall j | 0 <= j < i :: !Observes(obs[j], key, c)
    ensures c in Cells(obs, key) && Cells(obs, key)[c] == obs[i].value
    decreases i
  {
    if i > 0 {
      assert !Observes(obs[0], key, c);
      var tail := obs[1..];
      assert tail[i - 1] == obs[i];
      forall j | 0 <= j < i - 1 ensures !Observes(tail[j], key, c) {
        assert tail[j] == obs[j + 1];
      }
      CellsFirstObserved(tail, key, c, i - 1);
    }
  }

  /** One row of the wide table: its index tuple and its counter cells (a missing cell is pandas' NaN). */
  datatype WideRow = WideRow(key: seq<string>, cells: map<string, string>)

  /** The pivoted table: index column names, counter column names, rows. */
  datatype WideTable = WideTable(indexColumns: seq<string>, counterColumns: seq<string>, rows: seq<WideRow>)

  /** The distinct index tuples, in first-seen order. */
  function GroupKeys(obs: seq<Observation>): (keys: seq<seq<string>>)
    ensures forall i, j | 0 <= i < j < |keys| :: keys[i] != keys[j]
    ensures forall k | 0 <= k < |obs| :: obs[k].key in keys
  {
    var keys := Distinct(KeysOf(obs));
    forall k | 0 <= k < |obs| ensures obs[k].key in keys {
      assert KeysOf(obs)[k] == obs[k].key;
    }
    keys
  }

  /** Every grouped index tuple is the key of some observation. */
  lemma GroupKeysFrom(obs: seq<Observation>)
    ensures forall i | 0 <= i < |GroupKeys(obs)| :: exists k :: 0 <= k < |obs| && obs[k].key == GroupKeys(obs)[i]
  {
    var keys := GroupKeys(obs);
    forall i | 0 <= i < |keys| ensures exists k :: 0 <= k < |obs| && obs[k].key == keys[i] {
      var k :| 0 <= k < |obs| && KeysOf(obs)[k] == keys[i];
    }
  }

  /** The distinct counters, in first-seen order. */
  function GroupCounters(obs: seq<Observation>): (counters: seq<string>)
    ensures forall i, j | 0 <= i < j < |counters| :: counters[i] != counters[j]
    ensures forall k | 0 <= k < |obs| :: obs[k].counter in counters
  {
    var counters := Distinct(CountersOf(obs));
    forall k | 0 <= k < |obs| ensures obs[k].counter in counters {
      assert CountersOf(obs)[k] == obs[k].counter;
    }
    counters
  }

  /** Every grouped counter is the counter of some observation. */
  lemma GroupCountersFrom(obs: seq<Observation>)
    ensures forall i | 0 <= i < |GroupCounters(obs)| :: exists k :: 0 <= k < |obs| && obs[k].counter == GroupCounters(obs)[i]
  {
    var counters := GroupCounters(obs);
    forall i | 0 <= i < |counters| ensures exists k :: 0 <= k < |obs| && obs[k].counter == counters[i] {
      var k :| 0 <= k < |obs| && CountersOf(obs)[k] == counters[i];
    }
  }

  /** One wide row per given index tuple, holding that tuple's cells. */
  function WideRows(obs: seq<Observation>, keys: seq<seq<string>>): (rows: seq<WideRow>)
    ensures |rows| == |keys|
    ensures forall i | 0 <= i < |keys| :: rows[i].key == keys[i] && rows[i].cells == Cells(obs, keys[i])
  {
    if keys == [] then [] else [WideRow(keys[0], Cells(obs, keys[0]))] + WideRows(obs, keys[1..])
  }

  /** Groups observations by index tuple, one column per distinct counter. */
  function Group(indexColumns: seq<string>, obs: seq<Observation>): WideTable {
    WideTable(indexColumns, GroupCounters(obs), WideRows(obs, GroupKeys(obs)))
  }

  /** `df.pivot_table(index=index_columns, columns='counter', values='value', aggfunc='first')`. */
  function Pivot(columns: seq<string>, rows: seq<seq<string>>): WideTable
    requires Tabular(columns, rows)
  {
    Group(IndexColumns(columns), LongFormat(columns, rows))
  }

  /** The index tuples of a wide table, row by row. */
  function TableKeys(t: WideTable): seq<seq<string>> {
    seq(|t.rows|, i requires 0 <= i < |t.rows| => t.rows[i].key)
  }

  lemma GroupTableKeys(indexColumns: seq<string>, obs: seq<Observation>)
    ensures TableKeys(Group(indexColumns, obs)) == GroupKeys(obs)
  {
  }

  /** Grouping uniqueness: no two wide rows share an index tuple. */
  lemma PivotKeysUnique(columns: seq<string>, rows: seq<seq<string>>)
    requires Tabular(columns, rows)
    ensures forall i, j | 0 <= i < j < |Pivot(columns, rows).rows| ::
      Pivot(columns, rows).rows[i].key != Pivot(columns, rows).rows[j].key
  {
    var obs := LongFormat(columns, rows);
    GroupTableKeys(IndexColumns(columns), obs);
  }

  /** Every long row's index tuple has a wide row. */
  lemma PivotKeysCover(columns: seq<string>, rows: seq<seq<string>>)
    requires Tabular(columns, rows)
    ensures forall k | 0 <= k < |rows| :: Key(columns, rows[k]) in TableKeys(Pivot(columns, rows))
  {
    var obs := LongFormat(columns, rows);
    GroupTableKeys(IndexColumns(columns), obs);
    var keys := GroupKeys(obs);
    forall k | 0 <= k < |rows| ensures Key(columns, rows[k]) in keys {
      assert obs[k].key in keys;
    }
  }

  /** Every wide row's index tuple is that of some long row. */
  lemma PivotKeysFrom(columns: seq<string>, rows: seq<seq<string>>, key: seq<string>)
    requires Tabular(columns, rows)
    requires key in TableKeys(Pivot(columns, rows))
    ensures exists k :: 0 <= k < |rows| && Key(columns, rows[k]) == key
  {
    var obs := LongFormat(columns, rows);
    GroupTableKeys(IndexColumns(columns), obs);
    var keys := GroupKeys(obs);
    GroupKeysFrom(obs);
    var i :| 0 <= i < |keys| && keys[i] == key;
    var k :| 0 <= k < |obs| && obs[k].key == keys[i];
    assert Key(columns, rows[k]) == key;
  }

  /** Column fidelity: the counter columns are the distinct counters of the long rows, each once. */
  lemma PivotCounters(columns: seq<string>, rows: seq<seq<string>>)
    requires Tabular(columns, rows)
    ensures Pivot(columns, rows).indexColumns == IndexColumns(columns)
    ensures forall i, j | 0 <= i < j < |Pivot(columns, rows).counterColumns| ::
      Pivot(columns, rows).counterColumns[i] != Pivot(columns, rows).counterColumns[j]
    ensures forall k | 0 <= k < |rows| :: CounterOf(columns, rows[k]) in Pivot(columns, rows).counterColumns
    ensures forall i | 0 <= i < |Pivot(columns, rows).counterColumns| ::
      exists k :: 0 <= k < |rows| && CounterOf(columns, rows[k]) == Pivot(columns, rows).counterColumns[i]
  {
    var obs := LongFormat(columns, rows);
    assert Pivot(columns, rows).counterColumns == GroupCounters(obs);
    GroupCountersFrom(obs);
  }

  /**
   * Cell correctness: a wide row has a cell for a counter exactly when some
   * long row with its index tuple records that counter, and the cell holds
   * the value of the first such row; so every cell lies in a counter column.
   */
  lemma PivotCell(columns: seq<string>, rows: seq<seq<string>>, i: nat, c: string)
    requires Tabular(columns, rows)
    requires i < |Pivot(columns, rows).rows|
    ensures var w := Pivot(columns, rows).rows[i];
      && (c in w.cells <==> exists k :: 0 <= k < |rows| && Key(columns, rows[k]) == w.key && CounterOf(columns, rows[k]) == c)
      && (c in w.cells ==> c in Pivot(columns, rows).counterColumns)
      && forall k | 0 <= k < |rows| && Key(columns, rows[k]) == w.key && CounterOf(columns, rows[k]) == c &&
                    (forall j | 0 <= j < k :: !(Key(columns, rows[j]) == w.key && CounterOf(columns, rows[j]) == c)) ::
           c in w.cells && w.cells[c] == ValueOf(columns, rows[k])
  {
    var obs := LongFormat(columns, rows);
    var t := Pivot(columns, rows);
    var w := t.rows[i];
    assert w.cells == Cells(obs, w.key);
    CellsDomain(obs, w.key, c);
    if c in w.cells {
      var k :| 0 <= k < |obs| && Observes(obs[k], w.key, c);
      assert obs[k].counter in GroupCounters(obs);
    }
    forall k | 0 <= k < |rows| && Key(columns, rows[k]) == w.key && CounterOf(columns, rows[k]) == c &&
               (forall j | 0 <= j < k :: !(Key(columns, rows[j]) == w.key && CounterOf(columns, rows[j]) == c))
      ensures c in w.cells && w.cells[c] == ValueOf(columns, rows[k])
    {
      forall j | 0 <= j < k ensures !Observes(obs[j], w.key, c) {
        assert obs[j].key == Key(columns, rows[j]) && obs[j].counter == CounterOf(columns, rows[j]);
      }
      CellsFirstObserved(obs, w.key, c, k);
    }
  }
}
