/** The POST branch of `handle_day` up to the database write: reading the
    indexed form fields, the per-item iron, the day total and the
    percentage of the daily norm (app.py:330-351).

    Units: grams as submitted are thousandths of a gram; an item's grams and
    iron, the day total and the norm are hundredths (of a gram, of a mg);
    the percentage is in hundredths of a percent. */
module Aggregation {
  import opened Base
  import opened FixedPoint
  import opened IronData

  /** One element of `selections`: `{"product", "grams", "iron"}`. */
  datatype Item = Item(product: string, grams: int, iron: int)

  /** What a save computes and stores for a day. */
  datatype DayRecord = DayRecord(total: int, percentage: int, items: seq<Item>)

  /** `round((IRON_DATA.get(name, 0) / 100) * grams, 2)`: within half a
      hundredth of a milligram of the exact product of the grams and the
      table's content per gram; a name the table does not know contributes
      exactly 0 mg and raises nothing. */
  function ItemIron(name: string, grams: int): (iron: int)
    ensures 2 * Abs(iron * 10000 - IronPer100g(name) * grams) <= 10000
    ensures name !in IronTable ==> iron == 0
  {
    RoundDiv(IronPer100g(name) * grams, 10000)
  }

  /** The dictionary appended to `selections` for one product/grams pair:
      the submitted name, the grams rounded to two decimals and the item's
      iron. */
  function MakeItem(name: string, grams: int): (item: Item)
    ensures item.product == name
    ensures 2 * Abs(item.grams * 10 - grams) <= 10
    ensures item.iron == ItemIron(name, grams)
  {
    Item(name, RoundDiv(grams, 10), ItemIron(name, grams))
  }

  /** The sum of the already rounded item irons. */
  function SumIron(items: seq<Item>): (total: int)
    ensures (forall i :: 0 <= i < |items| ==> items[i].iron >= 0) ==>
              0 <= total && forall i :: 0 <= i < |items| ==> items[i].iron <= total
  {
    if items == [] then 0
    else
      assert forall i :: 1 <= i < |items| ==> items[i] == items[1..][i - 1];
      items[0].iron + SumIron(items[1..])
  }

  lemma {:induction false} SumIronAppend(a: seq<Item>, b: seq<Item>)
    ensures SumIron(a + b) == SumIron(a) + SumIron(b)
    decreases |a|
  {
    if a != [] {
      assert (a + b)[1..] == a[1..] + b;
      SumIronAppend(a[1..], b);
    } else {
      assert a + b == b;
    }
  }

  /** `items` is what the `while True` loop collects from the form: the
      items for indices 0, 1, ... in order, up to the first index whose
      `product_i` or `grams_i` field is missing. */
  predicate IsCollectionOf(products: map<nat, string>, grams: map<nat, int>, items: seq<Item>) {
    && CollectedPrefix(products, grams, items)
    && !(|items| in products && |items| in grams)
  }

  /** The items for indices 0 .. |items| - 1, all present in the form. */
  predicate CollectedPrefix(products: map<nat, string>, grams: map<nat, int>, items: seq<Item>) {
    forall j :: 0 <= j < |items| ==>
      j in products && j in grams && items[j] == MakeItem(products[j], grams[j])
  }

  lemma CollectStep(products: map<nat, string>, grams: map<nat, int>, items: seq<Item>)
    requires CollectedPrefix(products, grams, items)
    requires |items| in products && |items| in grams
    ensures CollectedPrefix(products, grams, items + [MakeItem(products[|items|], grams[|items|])])
  {
    var next := items + [MakeItem(products[|items|], grams[|items|])];
    assert forall j :: 0 <= j < |items| ==> next[j] == items[j];
  }

  /** The loop's result is determined by the form. */
  lemma CollectionUnique(products: map<nat, string>, grams: map<nat, int>, a: seq<Item>, b: seq<Item>)
    requires IsCollectionOf(products, grams, a) && IsCollectionOf(products, grams, b)
    ensures a == b
  {
  }

  /** The indices of the form below `n`: the part the loop has read. */
  function KeysBelow(products: map<nat, string>, n: nat): set<nat> {
    set j | j in products.Keys && j < n
  }

  lemma ReadingShrinksUnread(products: map<nat, string>, i: nat)
    requires i in products
    ensures products.Keys - KeysBelow(products, i + 1) < products.Keys - KeysBelow(products, i)
  {
    assert i !in KeysBelow(products, i) && i in KeysBelow(products, i + 1);
  }

  /** The collection loop of `handle_day`: builds `selections` and adds up
      `total` item by item. */
  method CollectItems(products: map<nat, string>, grams: map<nat, int>) returns (items: seq<Item>, total: int)
    ensures IsCollectionOf(products, grams, items)
    ensures total == SumIron(items)
  {
    items, total := [], 0;
    var i := 0;
    while i in products && i in grams
      invariant i == |items|
      invariant CollectedPrefix(products, grams, items)
      invariant total == SumIron(items)
      decreases products.Keys - KeysBelow(products, i)
    {
      ReadingShrinksUnread(products, i);
      var item := MakeItem(products[i], grams[i]);
      SumIronAppend(items, [item]);
      CollectStep(products, grams, items);
      items := items + [item];
      total := total + item.iron;
      i := i + 1;
    }
  }

  /** `round((total / norm) * 100, 2)`; Python raises ZeroDivisionError for
      a zero norm and accepts every other norm, negative ones included. */
  function Percentage(total: int, norm: int): (r: Result<int>)
    ensures r.Err? <==> norm == 0
    ensures r.Err? ==> r.error == ZeroDivision
    ensures r.Ok? ==> 2 * Abs(r.value * norm - total * 10000) <= Abs(norm)
  {
    if norm == 0 then Err(ZeroDivision) else Ok(RoundDiv(total * 10000, norm))
  }

  /** A day whose total does not exceed a positive norm never shows more
      than 100 %, so the calendar never colours it red. */
  lemma WithinNormNotOver(total: int, norm: int)
    requires 0 < norm && total <= norm
    ensures Percentage(total, norm).Ok? && Percentage(total, norm).value <= 10000
  {
    RoundDivMonotone(total * 10000, norm * 10000, norm);
    assert norm * 10000 == 10000 * norm;
    RoundDivExact(10000, norm);
  }

  /** 100 g of spinach against a 15 mg norm: 2.70 mg, 18.00 %. */
  lemma ScenarioSpinach()
    ensures MakeItem("Spinach", 100000) == Item("Spinach", 10000, 270)
    ensures Percentage(270, 1500) == Ok(1800)
  {
    RoundDivExact(270, 10000);
    RoundDivExact(10000, 10);
    RoundDivExact(1800, 1500);
  }

  /** 50 g of beef liver and 200 g of apple against a 10 mg norm: items of
      3.10 and 0.20 mg, 3.30 mg in all, 33.00 %. */
  lemma ScenarioLiverAndApple()
    ensures MakeItem("Beef Liver", 50000).iron == 310
    ensures MakeItem("Apple", 200000).iron == 20
    ensures SumIron([MakeItem("Beef Liver", 50000), MakeItem("Apple", 200000)]) == 330
    ensures Percentage(330, 1000) == Ok(3300)
  {
    RoundDivExact(310, 10000);
    RoundDivExact(20, 10000);
    RoundDivExact(3300, 1000);
  }
}
