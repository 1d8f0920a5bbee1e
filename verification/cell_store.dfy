/**
 * The month grids the view keeps (`cells`, an `IndexedLinkedHashMap` from month key to week rows)
 * and the in-place setters the selection code calls on its `MonthCellDescriptor`s.
 *
 * Java shares each descriptor between the grid and the `selectedCells` list and compares
 * descriptors by identity. Here a descriptor is named by its position (month index, week row,
 * column), and a setter call becomes a functional update of the nested sequence at that position.
 */
module CellStore {
  import opened Calendar
  import opened MonthGrid

  /** The view's `cells` map: (month key, grid) pairs in insertion order. */
  type Months = seq<(MonthKey, Grid)>

  /** A reference to one descriptor: two references are equal exactly when they name the same object. */
  datatype CellRef = CellRef(month: int, row: int, col: int)

  predicate ValidRef(cells: Months, r: CellRef) {
    && 0 <= r.month < |cells|
    && 0 <= r.row < |cells[r.month].1|
    && 0 <= r.col < |cells[r.month].1[r.row]|
  }

  predicate ValidRefs(cells: Months, rs: seq<CellRef>) {
    forall i :: 0 <= i < |rs| ==> ValidRef(cells, rs[i])
  }

  function CellAt(cells: Months, r: CellRef): Cell
    requires ValidRef(cells, r)
  {
    cells[r.month].1[r.row][r.col]
  }

  /** The two setters the selection code calls: `setSelected` and `setRangeState`. */
  datatype Flag = SetSelected(on: bool) | SetRange(state: RangeState)

  function Flagged(c: Cell, f: Flag): Cell {
    match f
    case SetSelected(on) => c.(isSelected := on)
    case SetRange(state) => c.(rangeState := state)
  }

  /** Same keys in the same order, same number of rows per month, same row lengths. */
  predicate SameShape(a: Months, b: Months) {
    && |a| == |b|
    && (forall m :: 0 <= m < |a| ==> a[m].0 == b[m].0 && |a[m].1| == |b[m].1|)
    && (forall m, row :: 0 <= m < |a| && 0 <= row < |a[m].1| ==> |a[m].1[row]| == |b[m].1[row]|)
  }

  lemma SameShapeRefs(a: Months, b: Months, r: CellRef)
    requires SameShape(a, b)
    ensures ValidRef(a, r) <==> ValidRef(b, r)
  {
  }

  lemma SameShapeTrans(a: Months, b: Months, c: Months)
    requires SameShape(a, b) && SameShape(b, c)
    ensures SameShape(a, c)
  {
  }

  lemma SameShapeValidRefs(a: Months, b: Months, rs: seq<CellRef>)
    requires SameShape(a, b) && ValidRefs(a, rs)
    ensures ValidRefs(b, rs)
  {
    forall i | 0 <= i < |rs|
      ensures ValidRef(b, rs[i])
    {
      SameShapeRefs(a, b, rs[i]);
    }
  }

  lemma ValidRefsConcat(cells: Months, a: seq<CellRef>, b: seq<CellRef>)
    requires ValidRefs(cells, a) && ValidRefs(cells, b)
    ensures ValidRefs(cells, a + b)
  {
    forall i | 0 <= i < |a + b|
      ensures ValidRef(cells, (a + b)[i])
    {
      if i >= |a| {
        assert (a + b)[i] == b[i - |a|];
      }
    }
  }

  /** A descriptor with its two selection flags reset: what a setter call can never change. */
  function Strip(c: Cell): Cell {
    c.(isSelected := false, rangeState := NONE)
  }

  /** Two grid maps that differ at most in the selection flags of their descriptors. */
  ghost predicate SameLayout(a: Months, b: Months) {
    && SameShape(a, b)
    && forall r :: ValidRef(a, r) && ValidRef(b, r) ==> Strip(CellAt(a, r)) == Strip(CellAt(b, r))
  }

  /** Two grid maps with the same layout show the same day, month and selectability at every cell. */
  lemma SameLayoutCell(a: Months, b: Months, q: CellRef)
    requires SameLayout(a, b) && ValidRef(a, q)
    ensures ValidRef(b, q) && Strip(CellAt(a, q)) == Strip(CellAt(b, q))
    ensures CellAt(a, q).date == CellAt(b, q).date
    ensures CellAt(a, q).isCurrentMonth == CellAt(b, q).isCurrentMonth
    ensures CellAt(a, q).isSelectable == CellAt(b, q).isSelectable
  {
    SameShapeRefs(a, b, q);
  }

  lemma SameLayoutSym(a: Months, b: Months)
    requires SameLayout(a, b)
    ensures SameLayout(b, a)
  {
  }

  lemma SameLayoutTrans(a: Months, b: Months, c: Months)
    requires SameLayout(a, b) && SameLayout(b, c)
    ensures SameLayout(a, c)
  {
    forall r | ValidRef(a, r) && ValidRef(c, r)
      ensures Strip(CellAt(a, r)) == Strip(CellAt(c, r))
    {
      SameShapeRefs(a, b, r);
    }
  }

  /** One setter call on the descriptor at `r`; every other descriptor keeps all its fields. */
  function Apply(cells: Months, r: CellRef, f: Flag): (out: Months)
    requires ValidRef(cells, r)
    ensures SameShape(cells, out)
    ensures CellAt(out, r) == Flagged(CellAt(cells, r), f)
    ensures forall q :: ValidRef(cells, q) && q != r ==> CellAt(out, q) == CellAt(cells, q)
  {
    var g := cells[r.month].1;
    var row := g[r.row];
    cells[r.month := (cells[r.month].0, g[r.row := row[r.col := Flagged(row[r.col], f)]])]
  }

  /**
   * The same setter called on every descriptor of a list, in order (a `for (cell : list)` loop):
   * the listed descriptors get the flag, the others are untouched. Repeats in the list do not
   * matter, since a setter stores a constant.
   */
  function ApplyAll(cells: Months, rs: seq<CellRef>, f: Flag): (out: Months)
    requires ValidRefs(cells, rs)
    ensures SameShape(cells, out)
    ensures forall q :: ValidRef(cells, q) ==>
      CellAt(out, q) == if q in rs then Flagged(CellAt(cells, q), f) else CellAt(cells, q)
    decreases |rs|
  {
    if |rs| == 0 then cells
    else
      var next := Apply(cells, rs[0], f);
      assert ValidRefs(next, rs[1..]) by {
        forall i | 0 <= i < |rs[1..]|
          ensures ValidRef(next, rs[1..][i])
        {
          SameShapeRefs(cells, next, rs[1..][i]);
        }
      }
      var out := ApplyAll(next, rs[1..], f);
      assert forall q :: q in rs <==> q == rs[0] || q in rs[1..] by {
        assert rs == [rs[0]] + rs[1..];
      }
      SameShapeTrans(cells, next, out);
      forall q | ValidRef(cells, q)
        ensures CellAt(out, q) == if q in rs then Flagged(CellAt(cells, q), f) else CellAt(cells, q)
      {
        SameShapeRefs(cells, next, q);
      }
      out
  }

  lemma ApplyLayout(cells: Months, r: CellRef, f: Flag)
    requires ValidRef(cells, r)
    ensures SameLayout(cells, Apply(cells, r, f))
  {
  }

  lemma ApplyAllLayout(cells: Months, rs: seq<CellRef>, f: Flag)
    requires ValidRefs(cells, rs)
    ensures SameLayout(cells, ApplyAll(cells, rs, f))
  {
  }
}
