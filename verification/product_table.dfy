/**
 * The line-item table of a quotation (components/ProductTable.tsx): the
 * rows the user edits, the totals folded from them, and the per-row
 * figures shown beside each row. Money is an exact real.
 */
module ProductTable {
  import opened JsBuiltins
  import opened Utils

  /** A catalogue product; its rate is whatever number the catalogue holds. */
  datatype Product = Product(id: string, name: string, rate: Num)

  /** The value of one row: product id, quantity and unit rate. */
  datatype Line = Line(productId: string, qty: Num, rate: Num)

  /** The row `addLine` appends. */
  const BlankLine: Line := Line("", Finite(1.0), Finite(0.0))

  /** CGST and SGST are 9% each. */
  const TaxRate: real := 0.09

  // ---------------------------------------------------------------------
  // Totals
  // ---------------------------------------------------------------------

  /** `(Number(qty) || 0) * (Number(rate) || 0)`: NaN counts as 0. */
  function Amount(l: Line): real
  {
    OrZero(l.qty) * OrZero(l.rate)
  }

  /** The amounts added up in row order, as the `forEach` loop does. */
  function Subtotal(rows: seq<Line>): real
  {
    if rows == [] then 0.0 else Subtotal(rows[..|rows| - 1]) + Amount(rows[|rows| - 1])
  }

  /** The figures `recalculateTotals` derives from the rows. */
  datatype Figures = Figures(
    subtotal: real, discountPercent: real, discountAmount: real, taxable: real,
    cgst: real, sgst: real, total: real)

  /** What `recalculateTotals` hands on: the figures and the amount in words. */
  datatype Totals = Totals(figures: Figures, totalInWords: string)

  /** The figures for a subtotal under discount percentage p (not clamped). */
  function FiguresOf(subtotal: real, p: real): Figures
  {
    var discountAmount := subtotal * (p / 100.0);
    var taxable := subtotal - discountAmount;
    var cgst := taxable * TaxRate;
    var sgst := taxable * TaxRate;
    Figures(subtotal, p, discountAmount, taxable, cgst, sgst, taxable + cgst + sgst)
  }

  /** `(numberToWords(Math.floor(total)) || "Zero") + " Rupees Only"`. */
  function InWords(total: real): string
  {
    var w := NumberToWords(total.Floor as real);
    (if w == "" then "Zero" else w) + " Rupees Only"
  }

  /** The totals of the rows under discount percentage p. */
  function TotalsOf(rows: seq<Line>, p: real): Totals
  {
    var f := FiguresOf(Subtotal(rows), p);
    Totals(f, InWords(f.total))
  }

  /** `recalculateTotals(rows, discountPercent)`: the subtotal accumulated
      row by row, then the derived figures. */
  method RecalculateTotals(rows: seq<Line>, p: real) returns (t: Totals)
    ensures t == TotalsOf(rows, p)
  {
    var subtotal := 0.0;
    var i := 0;
    while i < |rows|
      invariant 0 <= i <= |rows|
      invariant subtotal == Subtotal(rows[..i])
    {
      assert rows[..i + 1][..i] == rows[..i];
      subtotal := subtotal + Amount(rows[i]);
      i := i + 1;
    }
    assert rows[..i] == rows;
    var discountAmount := subtotal * (p / 100.0);
    var taxable := subtotal - discountAmount;
    var cgst := taxable * TaxRate;
    var sgst := taxable * TaxRate;
    var grandTotal := taxable + cgst + sgst;
    var f := Figures(subtotal, p, discountAmount, taxable, cgst, sgst, grandTotal);
    assert f == FiguresOf(Subtotal(rows), p);
    t := Totals(f, InWords(f.total));
  }

  /** The subtotal splits over a concatenation of row lists. */
  lemma {:induction false} SubtotalAppend(a: seq<Line>, b: seq<Line>)
    ensures Subtotal(a + b) == Subtotal(a) + Subtotal(b)
    decreases |b|
  {
    if b == [] {
      assert a + b == a;
    } else {
      var b' := b[..|b| - 1];
      assert (a + b)[..|a + b| - 1] == a + b';
      SubtotalAppend(a, b');
    }
  }

  /** A row whose quantity or rate is NaN or 0 adds nothing to the subtotal. */
  lemma NaNRowAddsNothing(a: seq<Line>, l: Line, b: seq<Line>)
    requires l.qty == NaN || l.rate == NaN || l.qty == Finite(0.0) || l.rate == Finite(0.0)
    ensures Subtotal(a + [l] + b) == Subtotal(a + b)
  {
    SubtotalAppend(a + [l], b);
    SubtotalAppend(a, [l]);
    SubtotalAppend(a, b);
    assert [l][..0] == [];
  }

  /** The figures are tied together: discount is p% of the subtotal, the
      two taxes are equal at 9% of the taxable amount, and the grand total
      is 118% of the taxable amount. */
  lemma FiguresRelations(s: real, p: real)
    ensures var f := FiguresOf(s, p);
      && f.subtotal == s && f.discountPercent == p
      && f.discountAmount == s * p / 100.0
      && f.taxable == s * (100.0 - p) / 100.0
      && f.cgst == f.sgst == f.taxable * 0.09
      && f.total == f.taxable * 1.18
  {
  }

  /** The discount percentage is not clamped: a negative p raises the
      taxable amount above the subtotal, and p over 100 makes it negative. */
  lemma UnclampedDiscount(s: real, p: real)
    requires s > 0.0
    ensures p < 0.0 ==> FiguresOf(s, p).discountAmount < 0.0 && FiguresOf(s, p).taxable > s
    ensures p > 100.0 ==> FiguresOf(s, p).taxable < 0.0 && FiguresOf(s, p).total < 0.0
  {
    if p < 0.0 {
      assert s * (p / 100.0) < 0.0;
    }
    if p > 100.0 {
      assert s * (p / 100.0) > s;
    }
  }

  /** An empty table has all-zero totals and "Zero Rupees Only". */
  lemma EmptyTotals(p: real)
    ensures var t := TotalsOf([], p);
      && t.figures.subtotal == 0.0 && t.figures.discountAmount == 0.0 && t.figures.taxable == 0.0
      && t.figures.cgst == 0.0 && t.figures.sgst == 0.0 && t.figures.total == 0.0
      && t.totalInWords == "Zero Rupees Only"
  {
    WordsOfZero();
  }

  /** The words of a total: floored, so any total in [373, 374) reads the same. */
  lemma InWordsOf373(x: real)
    requires 373.0 <= x < 374.0
    ensures InWords(x) == "Three Hundred and Seventy Three Rupees Only"
  {
    var y := x.Floor as real;
    assert y == 373.0;
    WordsOf373(y);
    RupeesOf373(NumberToWords(y));
  }

  lemma RupeesOf373(w: string)
    requires w == "Three Hundred and Seventy Three"
    ensures (if w == "" then "Zero" else w) + " Rupees Only" == "Three Hundred and Seventy Three Rupees Only"
  {
  }

  /** Two rows, quantities 2 and 3 at rates 100.50 and 50.25, 10% discount. */
  lemma TwoRowExample(rows: seq<Line>, p: real)
    requires rows == [Line("", Finite(2.0), Finite(100.5)), Line("", Finite(3.0), Finite(50.25))]
    requires p == 10.0
    ensures var t := TotalsOf(rows, p);
      && t.figures.subtotal == 351.75 && t.figures.discountAmount == 35.175 && t.figures.taxable == 316.575
      && t.figures.cgst == 28.49175 && t.figures.sgst == 28.49175 && t.figures.total == 373.5585
      && t.totalInWords == "Three Hundred and Seventy Three Rupees Only"
  {
    var r0, r1 := rows[0], rows[1];
    assert Amount(r0) == 201.0;
    assert Amount(r1) == 150.75;
    assert [r0][..0] == [];
    assert Subtotal([r0]) == 201.0;
    assert rows[..1] == [r0];
    assert Subtotal(rows) == Subtotal([r0]) + Amount(r1);
    assert Subtotal(rows) == 351.75;
    var f := FiguresOf(Subtotal(rows), p);
    assert f == FiguresOf(351.75, 10.0);
    assert f.taxable == 316.575;
    assert f.total == 373.5585;
    InWordsOf373(f.total);
  }

  // ---------------------------------------------------------------------
  // Per-row figures
  // ---------------------------------------------------------------------

  /** The figures shown on one row: no discount is applied per row. */
  datatype RowFigures = RowFigures(amount: real, cgst: real, sgst: real, total: real)

  function RowFiguresOf(l: Line): RowFigures
  {
    var amount := Amount(l);
    var cgst := amount * TaxRate;
    var sgst := amount * TaxRate;
    RowFigures(amount, cgst, sgst, amount + cgst + sgst)
  }

  /** The row totals added up. */
  function SumRowTotals(rows: seq<Line>): real
  {
    if rows == [] then 0.0 else SumRowTotals(rows[..|rows| - 1]) + RowFiguresOf(rows[|rows| - 1]).total
  }

  /** The row totals add up to 118% of the undiscounted subtotal. */
  lemma {:induction false} RowTotalsSum(rows: seq<Line>)
    ensures SumRowTotals(rows) == 1.18 * Subtotal(rows)
  {
    if rows != [] {
      RowTotalsSum(rows[..|rows| - 1]);
    }
  }

  /** The row totals add up to the grand total exactly when there is no
      discount or nothing to discount. */
  lemma RowTotalsMatchIff(rows: seq<Line>, p: real)
    ensures SumRowTotals(rows) == FiguresOf(Subtotal(rows), p).total <==> p == 0.0 || Subtotal(rows) == 0.0
  {
    RowTotalsSum(rows);
    var s := Subtotal(rows);
    assert FiguresOf(s, p).total == 1.18 * s - 1.18 * (s * (p / 100.0));
    if s * (p / 100.0) == 0.0 {
      assert s == 0.0 || p / 100.0 == 0.0;
    }
  }

  // ---------------------------------------------------------------------
  // Editing the row list
  // ---------------------------------------------------------------------

  /** `products.find(p => p.id === id)`: the first product with that id. */
  function FindProduct(products: seq<Product>, id: string): (r: Option<Product>)
    ensures r.Some? ==> r.value in products && r.value.id == id
    ensures r.None? <==> forall q :: q in products ==> q.id != id
  {
    if products == [] then None
    else if products[0].id == id then Some(products[0])
    else FindProduct(products[1..], id)
  }

  /** The product found is the first one carrying the id. */
  lemma {:induction false} FindProductFirst(products: seq<Product>, id: string, i: nat)
    requires i < |products| && products[i].id == id
    requires forall j :: 0 <= j < i ==> products[j].id != id
    ensures FindProduct(products, id) == Some(products[i])
  {
    if i > 0 {
      FindProductFirst(products[1..], id, i - 1);
    }
  }

  /** `selectedProduct?.rate || 0`. */
  function RateOf(found: Option<Product>): real
  {
    match found
    case None => 0.0
    case Some(p) => OrZero(p.rate)
  }

  /** The fields `updateLine` can set. */
  datatype Field = ProductIdField | QtyField | RateField

  /** The new value of a row after `updateLine(_, field, value)`. */
  function Edited(l: Line, field: Field, value: string, products: seq<Product>): Line
  {
    match field
    case ProductIdField => Line(value, l.qty, Finite(RateOf(FindProduct(products, value))))
    case QtyField => l.(qty := ToNumber(value))
    case RateField => l.(rate := ToNumber(value))
  }

  /** Choosing a product sets the rate to 0 exactly when no product has
      that id or the first one's rate is NaN or 0. */
  lemma ChosenRateZeroIff(l: Line, value: string, products: seq<Product>)
    ensures Edited(l, ProductIdField, value, products).rate == Finite(0.0)
        <==> (forall q :: q in products ==> q.id != value)
             || FindProduct(products, value).value.rate in {NaN, Finite(0.0)}
  {
  }

  /** `filter((_, i) => i !== index)`: every element whose position is not
      `index`, in order. */
  function RemoveAt<T>(s: seq<T>, index: int): seq<T>
  {
    if s == [] then []
    else RemoveAt(s[..|s| - 1], index) + (if |s| - 1 == index then [] else [s[|s| - 1]])
  }

  /** Removing drops exactly the element at `index`; an index out of range
      leaves the list as it is. */
  lemma {:induction false} RemoveAtSlices<T>(s: seq<T>, index: int)
    ensures 0 <= index < |s| ==> RemoveAt(s, index) == s[..index] + s[index + 1..]
    ensures !(0 <= index < |s|) ==> RemoveAt(s, index) == s
  {
    if s != [] {
      var init := s[..|s| - 1];
      RemoveAtSlices(init, index);
      if index == |s| - 1 {
        assert s[..index] == init && s[index + 1..] == [];
      } else if 0 <= index < |s| - 1 {
        assert init[..index] == s[..index];
        assert init[index + 1..] + [s[|s| - 1]] == s[index + 1..];
      } else {
        assert init + [s[|s| - 1]] == s;
      }
    }
  }

  /** Position k of the list after removal holds the element that followed
      the removed one, or the one before it. */
  lemma RemoveAtIndex<T>(s: seq<T>, index: int, k: int)
    requires 0 <= k < |RemoveAt(s, index)|
    ensures |RemoveAt(s, index)| == (if 0 <= index < |s| then |s| - 1 else |s|)
    ensures RemoveAt(s, index)[k] == s[if 0 <= index <= k then k + 1 else k]
  {
    RemoveAtSlices(s, index);
  }

  /** One row of the table. The row objects are shared with earlier states
      of the list (`updateLine` copies the array, not the rows). */
  class Row {
    var productId: string
    var qty: Num
    var rate: Num

    constructor(productId: string, qty: Num, rate: Num)
      ensures Value() == Line(productId, qty, rate)
    {
      this.productId := productId;
      this.qty := qty;
      this.rate := rate;
    }

    function Value(): Line
      reads this
    {
      Line(productId, qty, rate)
    }

    /** The in-place part of `updateLine`: `updated[index].productId = value`
        with the catalogue rate, or `updated[index][field] = Number(value)`. */
    method Edit(field: Field, value: string, products: seq<Product>)
      modifies this
      ensures Value() == Edited(old(Value()), field, value, products)
    {
      match field {
        case ProductIdField =>
          var selected := FindProduct(products, value);
          productId := value;
          rate := Finite(RateOf(selected));
        case QtyField =>
          qty := ToNumber(value);
        case RateField =>
          rate := ToNumber(value);
      }
    }
  }

  /** The values of a list of rows. */
  function Values(rs: seq<Row>): (ls: seq<Line>)
    reads rs
    ensures |ls| == |rs|
    ensures forall i :: 0 <= i < |rs| ==> ls[i] == rs[i].Value()
  {
    if rs == [] then [] else Values(rs[..|rs| - 1]) + [rs[|rs| - 1].Value()]
  }

  /** Removing shortens the list by one exactly when the index is in range. */
  lemma RemoveAtLength<T>(s: seq<T>, index: int)
    ensures |RemoveAt(s, index)| == if 0 <= index < |s| then |s| - 1 else |s|
  {
    RemoveAtSlices(s, index);
  }

  /** Removing an element keeps the others pairwise distinct. */
  lemma RemoveAtDistinct<T>(s: seq<T>, index: int)
    requires forall i, j :: 0 <= i < j < |s| ==> s[i] != s[j]
    ensures var r := RemoveAt(s, index); forall i, j :: 0 <= i < j < |r| ==> r[i] != r[j]
  {
    var r := RemoveAt(s, index);
    forall i, j | 0 <= i < j < |r|
      ensures r[i] != r[j]
    {
      RemoveAtIndex(s, index, i);
      RemoveAtIndex(s, index, j);
    }
  }

  /** Reading the values commutes with removing a row. */
  lemma ValuesRemoveAt(rs: seq<Row>, index: int)
    ensures Values(RemoveAt(rs, index)) == RemoveAt(Values(rs), index)
  {
    var vs := Values(rs);
    var a := RemoveAt(rs, index);
    var b := RemoveAt(vs, index);
    RemoveAtLength(rs, index);
    RemoveAtLength(vs, index);
    forall k | 0 <= k < |a|
      ensures Values(a)[k] == b[k]
    {
      var j := if 0 <= index <= k then k + 1 else k;
      RemoveAtIndex(rs, index, k);
      RemoveAtIndex(vs, index, k);
      assert a[k] == rs[j] && b[k] == vs[j];
    }
    assert Values(a) == b;
  }

  /** The values of rows whose objects did not change are the same. */
  twostate lemma ValuesUnchanged(rs: seq<Row>)
    requires forall i :: 0 <= i < |rs| ==> unchanged(rs[i])
    ensures Values(rs) == old(Values(rs))
  {
  }

  /** The table's row list (`lines` state). */
  class LineTable {
    var rows: seq<Row>

    /** No row object appears twice. */
    ghost predicate Valid()
      reads this
    {
      forall i, j :: 0 <= i < j < |rows| ==> rows[i] != rows[j]
    }

    function Lines(): seq<Line>
      reads this, rows
    {
      Values(rows)
    }

    /** `useState([])`. */
    constructor()
      ensures Valid() && rows == []
    {
      rows := [];
    }

    /** `addLine`: a fresh blank row at the end. */
    method AddLine()
      requires Valid()
      modifies this
      ensures Valid()
      ensures |rows| == |old(rows)| + 1 && rows[..|old(rows)|] == old(rows) && fresh(rows[|rows| - 1])
      ensures Lines() == old(Lines()) + [BlankLine]
    {
      var r := new Row("", Finite(1.0), Finite(0.0));
      rows := rows + [r];
      assert rows[..|rows| - 1] == old(rows);
    }

    /** The mount effect: one blank row when the table starts empty. */
    method Mount()
      requires Valid()
      modifies this
      ensures Valid()
      ensures old(rows) == [] ==> Lines() == [BlankLine]
      ensures old(rows) != [] ==> rows == old(rows)
    {
      if |rows| == 0 {
        AddLine();
      }
    }

    /** The row removal of `removeLine(index)`: `lines.filter((_, i) => i !== index)`. */
    method RemoveRow(index: int)
      requires Valid()
      modifies this
      ensures Valid()
      ensures rows == RemoveAt(old(rows), index)
      ensures Lines() == RemoveAt(old(Lines()), index)
    {
      var before := rows;
      ValuesRemoveAt(before, index);
      RemoveAtDistinct(before, index);
      rows := RemoveAt(before, index);
      ValuesUnchanged(rows);
    }

    /** `removeLine(index)`, followed by the recalculation it triggers. */
    method RemoveLine(index: int, p: real) returns (t: Totals)
      requires Valid()
      modifies this
      ensures Valid()
      ensures rows == RemoveAt(old(rows), index)
      ensures Lines() == RemoveAt(old(Lines()), index)
      ensures t == TotalsOf(Lines(), p)
    {
      RemoveRow(index);
      label removed:
      t := RecalculateTotals(Lines(), p);
      ValuesUnchanged@removed(rows);
    }

    /** `updateLine(index, field, value)`: the row at `index` is changed in
        place and no other row; then the totals are recalculated. */
    method UpdateLine(index: int, field: Field, value: string, products: seq<Product>, p: real)
      returns (t: Totals)
      requires Valid() && 0 <= index < |rows|
      modifies rows[index]
      ensures rows == old(rows) && Valid()
      ensures Lines() == old(Lines())[index := Edited(old(Lines())[index], field, value, products)]
      ensures t == TotalsOf(Lines(), p)
    {
      var before := Lines();
      var updated := before[index := Edited(before[index], field, value, products)];
      t := RecalculateTotals(updated, p);
      rows[index].Edit(field, value, products);
      forall k | 0 <= k < |rows|
        ensures Lines()[k] == updated[k]
      {
        if k != index {
          assert rows[k] != rows[index];
        }
      }
      assert Lines() == updated;
    }
  }
}
