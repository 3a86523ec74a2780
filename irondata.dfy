/** The static reference table `IRON_DATA` (app.py:13-30). */
module IronData {

  /** Milligrams of iron per 100 g of each food, in tenths of a milligram:
      every entry of the table has one decimal. */
  const IronTable: map<string, nat> := map[
    "Almonds" := 37,
    "Beef" := 27,
    "Beef Liver" := 62,
    "Buckwheat" := 67,
    "Chicken" := 13,
    "Dark Chocolate" := 119,
    "Kidney Beans" := 51,
    "Lentils" := 33,
    "Oats" := 43,
    "Pumpkin Seeds" := 88,
    "Quinoa" := 46,
    "Soybeans" := 157,
    "Spinach" := 27,
    "Tofu" := 54,
    "White Beans" := 37,
    "Apple" := 1
  ]

  /** `IRON_DATA.get(name, 0)`: exactly the names missing from the table
      read as 0, and no food has more than Soybeans' 15.7 mg. */
  function IronPer100g(name: string): (content: nat)
    ensures content == 0 <==> name !in IronTable
    ensures content <= 157
  {
    if name in IronTable then IronTable[name] else 0
  }
}
