/** The campaign grid: Cartesian expansion of the axes and the per-run seeds. */
module Grid {
  import opened IntArith

  /** One axis of the campaign: its key and the values it sweeps. */
  datatype Axis<V> = Axis(key: string, values: seq<V>)

  function Sizes<V>(lists: seq<seq<V>>): (s: seq<nat>)
    ensures |s| == |lists| && forall j :: 0 <= j < |lists| ==> s[j] == |lists[j]|
  {
    seq(|lists|, j requires 0 <= j < |lists| => |lists[j]|)
  }

  /** Number of grid cells. */
  function Cells(sizes: seq<nat>): nat {
    if sizes == [] then 1 else Cells(sizes[..|sizes| - 1]) * sizes[|sizes| - 1]
  }

  /** Mixed-radix digits of i, the last axis varying fastest. */
  function Decode(sizes: seq<nat>, i: nat): (d: seq<nat>)
    ensures |d| == |sizes|
  {
    if sizes == [] then []
    else
      var last := sizes[|sizes| - 1];
      if last == 0 then seq(|sizes|, _ => 0)
      else Decode(sizes[..|sizes| - 1], i / last) + [i % last]
  }

  function Encode(sizes: seq<nat>, d: seq<nat>): nat
    requires |d| == |sizes|
  {
    if sizes == [] then 0
    else Encode(sizes[..|sizes| - 1], d[..|d| - 1]) * sizes[|sizes| - 1] + d[|d| - 1]
  }

  predicate Digits(sizes: seq<nat>, d: seq<nat>) {
    |d| == |sizes| && forall j :: 0 <= j < |d| ==> d[j] < sizes[j]
  }

  // ---- Mixed radix is a bijection ------------------------------------------------------

  lemma {:induction false} DecodeIsDigits(sizes: seq<nat>, i: nat)
    requires i < Cells(sizes)
    ensures Digits(sizes, Decode(sizes, i)) && Encode(sizes, Decode(sizes, i)) == i
  {
    if sizes != [] {
      var front, last := sizes[..|sizes| - 1], sizes[|sizes| - 1];
      assert last > 0;
      DivideBound(i, Cells(front), last);
      DecodeIsDigits(front, i / last);
      var d := Decode(sizes, i);
      assert d[..|d| - 1] == Decode(front, i / last);
    }
  }

  lemma EncodeStep(e: nat, c: nat, last: nat, x: nat)
    requires e < c && x < last
    ensures e * last + x < c * last
    ensures (e * last + x) / last == e && (e * last + x) % last == x
  {
    DivideBack(e, last, x);
    MulOrder(e + 1, c, last);
    NextMultiple(e, last);
  }

  lemma EncodeUnfold(front: seq<nat>, last: nat, d: seq<nat>, x: nat, i: nat)
    requires |front| == |d| && last > 0
    ensures Encode(front + [last], d + [x]) == Encode(front, d) * last + x
    ensures Decode(front + [last], i) == Decode(front, i / last) + [i % last]
    ensures Cells(front + [last]) == Cells(front) * last
  {
    assert (front + [last])[..|front|] == front && (d + [x])[..|d|] == d;
  }

  lemma {:induction false} EncodeInRange(sizes: seq<nat>, d: seq<nat>)
    requires Digits(sizes, d)
    ensures Encode(sizes, d) < Cells(sizes) && Decode(sizes, Encode(sizes, d)) == d
  {
    hide Encode, Decode, Cells;
    if sizes == [] {
      EncodeNothing();
    } else {
      var front, last := sizes[..|sizes| - 1], sizes[|sizes| - 1];
      var init, x := d[..|d| - 1], d[|d| - 1];
      EncodeInRange(front, init);
      assert sizes == front + [last] && d == init + [x];
      EncodeStep(Encode(front, init), Cells(front), last, x);
      EncodeUnfold(front, last, init, x, Encode(sizes, d));
    }
  }

  lemma EncodeNothing()
    ensures Encode([], []) == 0 && Cells([]) == 1 && Decode([], 0) == []
  {
  }

  // ---- The expansion ----------------------------------------------------------------------

  /** Every row followed by every value: rows outermost. */
  function Extend<V>(rows: seq<seq<V>>, values: seq<V>): (r: seq<seq<V>>)
    ensures |r| == |rows| * |values|
  {
    if rows == [] then [] else Extend(rows[..|rows| - 1], values) + Row(rows[|rows| - 1], values)
  }

  function Row<V>(row: seq<V>, values: seq<V>): (r: seq<seq<V>>)
    ensures |r| == |values| && forall v :: 0 <= v < |values| ==> r[v] == row + [values[v]]
  {
    seq(|values|, v requires 0 <= v < |values| => row + [values[v]])
  }

  /** The rows of the Cartesian product, in generation order. */
  function Product<V>(lists: seq<seq<V>>): seq<seq<V>> {
    if lists == [] then [[]]
    else Extend(Product(lists[..|lists| - 1]), lists[|lists| - 1])
  }

  lemma {:induction false} ExtendAt<V>(rows: seq<seq<V>>, values: seq<V>, i: nat)
    requires |values| > 0 && i < |rows| * |values|
    ensures i / |values| < |rows| && i % |values| < |values|
    ensures Extend(rows, values)[i] == rows[i / |values|] + [values[i % |values|]]
  {
    var n, m := |values|, |rows| - 1;
    DivideBound(i, |rows|, n);
    NextMultiple(m, n);
    if i < m * n {
      ExtendAt(rows[..m], values, i);
      assert rows[..m][i / n] == rows[i / n];
    } else {
      DivideBack(m, n, i - m * n);
    }
  }

  /** The number of rows is the product of the axis sizes. */
  lemma {:induction false} ProductLength<V>(lists: seq<seq<V>>)
    ensures |Product(lists)| == Cells(Sizes(lists))
  {
    if lists != [] {
      var front := lists[..|lists| - 1];
      ProductLength(front);
      assert Sizes(lists)[..|lists| - 1] == Sizes(front);
    }
  }

  lemma SizesFront<V>(lists: seq<seq<V>>)
    requires lists != []
    ensures Sizes(lists) == Sizes(lists[..|lists| - 1]) + [|lists[|lists| - 1]|]
  {
  }

  /** The last digit and the digits before it. */
  lemma DecodeLast(front: seq<nat>, last: nat, i: nat)
    requires last > 0
    ensures Decode(front + [last], i) == Decode(front, i / last) + [i % last]
  {
    assert (front + [last])[..|front|] == front;
  }

  lemma ProductNonempty<V>(lists: seq<seq<V>>, i: nat)
    requires lists != [] && i < |Product(lists)|
    ensures Product(lists) == Extend(Product(lists[..|lists| - 1]), lists[|lists| - 1])
    ensures |lists[|lists| - 1]| > 0 && i < |Product(lists[..|lists| - 1])| * |lists[|lists| - 1]|
  {
    hide Extend;
  }

  /** Row i takes from each axis the value its mixed-radix digit names. */
  lemma {:induction false} ProductAt<V>(lists: seq<seq<V>>, i: nat)
    requires i < |Product(lists)|
    ensures |Product(lists)[i]| == |lists|
    ensures Digits(Sizes(lists), Decode(Sizes(lists), i))
    ensures forall j :: 0 <= j < |lists| ==> Product(lists)[i][j] == lists[j][Decode(Sizes(lists), i)[j]]
  {
    hide Extend, Decode, Cells;
    ProductLength(lists);
    DecodeIsDigits(Sizes(lists), i);
    if lists != [] {
      var front, last := lists[..|lists| - 1], lists[|lists| - 1];
      ProductNonempty(lists, i);
      ExtendAt(Product(front), last, i);
      ProductAt(front, i / |last|);
      SizesFront(lists);
      DecodeLast(Sizes(front), |last|, i);
    }
  }

  predicate Distinct<V(==)>(values: seq<V>) {
    forall a, b :: 0 <= a < b < |values| ==> values[a] != values[b]
  }

  ghost predicate Chooses<V>(lists: seq<seq<V>>, row: seq<V>) {
    |row| == |lists| && forall j :: 0 <= j < |lists| ==> row[j] in lists[j]
  }

  function Positions<V(==)>(lists: seq<seq<V>>, row: seq<V>): (d: seq<nat>)
    requires Chooses(lists, row)
    ensures |d| == |lists|
    ensures forall j :: 0 <= j < |lists| ==> d[j] < |lists[j]| && lists[j][d[j]] == row[j]
  {
    if lists == [] then []
    else
      var n := |lists| - 1;
      Positions(lists[..n], row[..n]) + [IndexOf(lists[n], row[n])]
  }

  function IndexOf<V(==)>(values: seq<V>, v: V): (i: nat)
    requires v in values
    ensures i < |values| && values[i] == v
  {
    if values[0] == v then 0 else 1 + IndexOf(values[1..], v)
  }

  /** Every combination of axis values is some row of the grid. */
  lemma EveryCombination<V>(lists: seq<seq<V>>, row: seq<V>) returns (i: nat)
    requires Chooses(lists, row)
    ensures i < |Product(lists)| && Product(lists)[i] == row
  {
    var d := Positions(lists, row);
    EncodeInRange(Sizes(lists), d);
    ProductLength(lists);
    i := Encode(Sizes(lists), d);
    ProductAt(lists, i);
  }

  /** When no axis repeats a value, no row repeats. */
  lemma NoRowTwice<V>(lists: seq<seq<V>>, a: nat, b: nat)
    requires forall j :: 0 <= j < |lists| ==> Distinct(lists[j])
    requires a < |Product(lists)| && b < |Product(lists)| && Product(lists)[a] == Product(lists)[b]
    ensures a == b
  {
    ProductAt(lists, a);
    ProductAt(lists, b);
    var s := Sizes(lists);
    var d, e := Decode(s, a), Decode(s, b);
    forall j | 0 <= j < |lists| ensures d[j] == e[j] {
      assert lists[j][d[j]] == lists[j][e[j]];
      assert Distinct(lists[j]);
    }
    assert d == e;
    ProductLength(lists);
    DecodeIsDigits(s, a);
    DecodeIsDigits(s, b);
  }

  // ---- Cells as dictionaries -------------------------------------------------------------------

  /** dict(zip(keys, row)): a later duplicate key would overwrite an earlier one. */
  function Cell<V>(keys: seq<string>, row: seq<V>): map<string, V>
    requires |keys| == |row|
  {
    if keys == [] then map[] else Cell(keys[..|keys| - 1], row[..|row| - 1])[keys[|keys| - 1] := row[|row| - 1]]
  }

  lemma {:induction false} CellKeys<V>(keys: seq<string>, row: seq<V>)
    requires |keys| == |row|
    ensures forall k :: k in Cell(keys, row) <==> k in keys
  {
    if keys != [] {
      var n := |keys| - 1;
      CellKeys(keys[..n], row[..n]);
      assert keys == keys[..n] + [keys[n]];
    }
  }

  lemma {:induction false} CellAt<V>(keys: seq<string>, row: seq<V>, j: nat)
    requires |keys| == |row| && Distinct(keys) && j < |keys|
    ensures keys[j] in Cell(keys, row) && Cell(keys, row)[keys[j]] == row[j]
  {
    CellKeys(keys, row);
    var n := |keys| - 1;
    if j < n {
      CellAt(keys[..n], row[..n], j);
    }
  }

  function Keys<V>(axes: seq<Axis<V>>): (k: seq<string>)
    ensures |k| == |axes| && forall j :: 0 <= j < |axes| ==> k[j] == axes[j].key
  {
    seq(|axes|, j requires 0 <= j < |axes| => axes[j].key)
  }

  function Lists<V>(axes: seq<Axis<V>>): (l: seq<seq<V>>)
    ensures |l| == |axes| && forall j :: 0 <= j < |axes| ==> l[j] == axes[j].values
  {
    seq(|axes|, j requires 0 <= j < |axes| => axes[j].values)
  }

  /** The product by nested loops, last list innermost. */
  method ProductLoop<V>(lists: seq<seq<V>>) returns (rows: seq<seq<V>>)
    ensures rows == Product(lists)
  {
    rows := [[]];
    for j := 0 to |lists|
      invariant rows == Product(lists[..j])
    {
      var next: seq<seq<V>> := [];
      for i := 0 to |rows|
        invariant next == Extend(rows[..i], lists[j])
      {
        assert rows[..i + 1][..i] == rows[..i];
        next := next + Row(rows[i], lists[j]);
      }
      assert rows[..|rows|] == rows;
      assert lists[..j + 1][..j] == lists[..j];
      rows := next;
    }
    assert lists[..|lists|] == lists;
  }

  /** Cell i holds exactly the axis keys, each with the value its mixed-radix digit names. */
  ghost predicate IsCell<V>(axes: seq<Axis<V>>, i: nat, cell: map<string, V>) {
    var d := Decode(Sizes(Lists(axes)), i);
    && Digits(Sizes(Lists(axes)), d)
    && cell.Keys == (set j | 0 <= j < |axes| :: axes[j].key)
    && forall j :: 0 <= j < |axes| ==> axes[j].key in cell && cell[axes[j].key] == axes[j].values[d[j]]
  }

  lemma RowIsCell<V>(axes: seq<Axis<V>>, i: nat)
    requires Distinct(Keys(axes)) && i < |Product(Lists(axes))|
    ensures |Product(Lists(axes))[i]| == |axes|
    ensures IsCell(axes, i, Cell(Keys(axes), Product(Lists(axes))[i]))
  {
    var keys, row := Keys(axes), Product(Lists(axes))[i];
    ProductAt(Lists(axes), i);
    CellKeys(keys, row);
    forall j | 0 <= j < |axes| ensures axes[j].key in Cell(keys, row) && Cell(keys, row)[axes[j].key] == row[j] {
      CellAt(keys, row, j);
    }
  }

  /** Expand the axes into one cell per combination, in mixed-radix order. */
  method ExpandCells<V>(axes: seq<Axis<V>>) returns (cells: seq<map<string, V>>)
    requires Distinct(Keys(axes))
    ensures |cells| == Cells(Sizes(Lists(axes)))
    ensures forall i :: 0 <= i < |cells| ==> IsCell(axes, i, cells[i])
  {
    hide IsCell, Product, Cells, Cell;
    var keys, lists := Keys(axes), Lists(axes);
    var rows := ProductLoop(lists);
    ProductLength(lists);
    cells := [];
    for i := 0 to |rows|
      invariant |cells| == i && forall a :: 0 <= a < i ==> IsCell(axes, a, cells[a])
    {
      RowIsCell(axes, i);
      cells := cells + [Cell(keys, rows[i])];
    }
  }

  /** With distinct axis values, cells at different ordinals are different dictionaries. */
  lemma NoCellTwice<V>(axes: seq<Axis<V>>, a: nat, b: nat, cell: map<string, V>)
    requires forall j :: 0 <= j < |axes| ==> Distinct(axes[j].values)
    requires a < Cells(Sizes(Lists(axes))) && b < Cells(Sizes(Lists(axes)))
    requires IsCell(axes, a, cell) && IsCell(axes, b, cell)
    ensures a == b
  {
    var s := Sizes(Lists(axes));
    var d, e := Decode(s, a), Decode(s, b);
    forall j | 0 <= j < |axes| ensures d[j] == e[j] {
      assert axes[j].values[d[j]] == axes[j].values[e[j]];
      assert Distinct(axes[j].values);
    }
    assert d == e;
    DecodeIsDigits(s, a);
    DecodeIsDigits(s, b);
  }

  // ---- Seeds ------------------------------------------------------------------------------------

  function RunSeed(base: int, cell: nat, rep: nat): int {
    base + cell * 1000 + rep
  }

  /** All runs of a campaign get different seeds. */
  ghost predicate SeedsDistinct(base: int, cells: nat, reps: nat) {
    forall c: nat, r: nat, c': nat, r': nat | c < cells && c' < cells && r < reps && r' < reps ::
      RunSeed(base, c, r) == RunSeed(base, c', r') ==> c == c' && r == r'
  }

  /** The seeds are unique exactly up to 1000 repetitions, or for a single cell. */
  lemma SeedsDistinctIff(base: int, cells: nat, reps: nat)
    ensures SeedsDistinct(base, cells, reps) <==> (reps <= 1000 || cells <= 1)
  {
    if reps > 1000 && cells > 1 {
      assert RunSeed(base, 0, 1000) == RunSeed(base, 1, 0);
    }
  }

  /** The runs of a campaign in the order they are made. */
  predicate Before(c: nat, r: nat, c': nat, r': nat) {
    c < c' || (c == c' && r < r')
  }

  /** Seeds start at the base and grow from run to run, under the same condition. */
  lemma SeedsIncreaseIff(base: int, cells: nat, reps: nat)
    ensures RunSeed(base, 0, 0) == base
    ensures (forall c: nat, r: nat, c': nat, r': nat | c < cells && c' < cells && r < reps && r' < reps ::
              Before(c, r, c', r') ==> RunSeed(base, c, r) < RunSeed(base, c', r'))
       <==> (reps <= 1000 || cells <= 1)
  {
    if reps > 1000 && cells > 1 {
      assert Before(0, 1000, 1, 0) && RunSeed(base, 0, 1000) == RunSeed(base, 1, 0);
    }
  }
}
