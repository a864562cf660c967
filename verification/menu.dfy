/**
 The weekly menu table: day (sheet name) -> meal (first cell of a row) ->
 ordered list of items (second cell, split on commas). The spreadsheet is
 abstracted as a sequence of named sheets of string rows; building the table
 and answering the three lookups are pure.
 */
module Menu {
  import opened Wrappers
  import opened GoStrings

  /** A spreadsheet row: its cells' text. Every row has at least a meal cell
      and an items cell, because both are indexed without a bounds check. */
  type Row = cells: seq<string> | |cells| >= 2 witness ["", ""]

  /** One worksheet: the day it names and its rows, top to bottom. */
  datatype Sheet = Sheet(name: string, rows: seq<Row>)

  /** Meal name -> items, for one day. */
  type Meals = map<string, seq<string>>

  /** Day name -> that day's meals. */
  type MenuData = map<string, Meals>

  // ---------------------------------------------------------------------------
  // Parsing one row
  // ---------------------------------------------------------------------------

  /** The meal a row describes: its first cell without surrounding space. */
  function MealKey(row: Row): (meal: string)
    ensures IsTrimmed(meal)
    ensures |meal| <= |row[0]|
  {
    TrimSpace(row[0])
  }

  /** The pieces that are not the empty string, in their original order. */
  function FilterEmpty(pieces: seq<string>): (r: seq<string>)
    ensures |r| <= |pieces|
    ensures forall k :: 0 <= k < |r| ==> r[k] != ""
    ensures forall x :: x in r <==> x in pieces && x != ""
  {
    if |pieces| == 0 then []
    else
      var last := pieces[|pieces| - 1];
      var init := pieces[..|pieces| - 1];
      assert pieces == init + [last];
      if last == "" then FilterEmpty(init) else FilterEmpty(init) + [last]
  }

  /** Filtering loses no non-empty piece, duplicates included: the result
      holds each non-empty piece exactly as often as the input does. */
  lemma {:induction false} FilterEmptyCounts(pieces: seq<string>)
    ensures multiset(FilterEmpty(pieces)) == multiset(pieces)["" := 0]
  {
    if |pieces| > 0 {
      var init, last := pieces[..|pieces| - 1], pieces[|pieces| - 1];
      assert pieces == init + [last];
      FilterEmptyCounts(init);
    }
  }

  /** Filtering commutes with concatenation, so it keeps the surviving
      pieces in the order they were in. */
  lemma {:induction false} FilterEmptyAppend(a: seq<string>, b: seq<string>)
    ensures FilterEmpty(a + b) == FilterEmpty(a) + FilterEmpty(b)
  {
    if |b| == 0 {
      assert a + b == a;
    } else {
      var b' := b[..|b| - 1];
      assert (a + b)[..|a + b| - 1] == a + b';
      FilterEmptyAppend(a, b');
    }
  }

  /** Dropping empty pieces does not change what they glue together to. */
  lemma {:induction false} ConcatFilterEmpty(pieces: seq<string>)
    ensures Concat(FilterEmpty(pieces)) == Concat(pieces)
  {
    if |pieces| > 0 {
      var init := pieces[..|pieces| - 1];
      var last := pieces[|pieces| - 1];
      assert pieces == init + [last];
      ConcatFilterEmpty(init);
      ConcatAppend(init, [last]);
      ConcatAppend(FilterEmpty(init), [last]);
    }
  }

  /** The loop that copies the non-empty pieces into `cleanedItems`. */
  method CleanItems(items: seq<string>) returns (cleaned: seq<string>)
    ensures cleaned == FilterEmpty(items)
  {
    cleaned := [];
    for i := 0 to |items|
      invariant cleaned == FilterEmpty(items[..i])
    {
      assert items[..i + 1][..i] == items[..i];
      if items[i] != "" {
        cleaned := cleaned + [items[i]];
      }
    }
    assert items[..|items|] == items;
  }

  /** The items a row's second cell lists: trim the cell, split it on
      commas, drop the empty pieces. The pieces themselves are not trimmed. */
  function ParseItems(cell: string): (r: seq<string>)
    ensures forall k :: 0 <= k < |r| ==> r[k] != "" && ',' !in r[k]
  {
    var pieces := Split(TrimSpace(cell), ',');
    assert forall x :: x in pieces ==> ',' !in x;
    FilterEmpty(pieces)
  }

  /** The items, glued back together, are the trimmed cell with its commas
      removed: no character other than a comma is lost or reordered. */
  lemma ParseItemsContent(cell: string)
    ensures Concat(ParseItems(cell)) == RemoveChar(TrimSpace(cell), ',')
  {
    var pieces := Split(TrimSpace(cell), ',');
    ConcatFilterEmpty(pieces);
    ConcatSplit(TrimSpace(cell), ',');
  }

  /** A cell yields no items exactly when, once trimmed, it holds nothing
      but commas (or nothing at all). */
  lemma ParseItemsEmpty(cell: string)
    ensures ParseItems(cell) == [] <==>
              forall k :: 0 <= k < |TrimSpace(cell)| ==> TrimSpace(cell)[k] == ','
  {
    var t := TrimSpace(cell);
    var pieces := Split(t, ',');
    var r := ParseItems(cell);
    ParseItemsContent(cell);
    ConcatEmpty(r);
    RemoveCharEmpty(t, ',');
    if r != [] {
      assert r[0] in r;
    }
  }

  // ---------------------------------------------------------------------------
  // Building the table
  // ---------------------------------------------------------------------------

  /** Row `k` is the last row of `rows` with its meal name. */
  predicate IsLastMealRow(rows: seq<Row>, k: int)
    requires 0 <= k < |rows|
  {
    forall j :: k < j < |rows| ==> MealKey(rows[j]) != MealKey(rows[k])
  }

  /** Sheet `k` is the last sheet of `sheets` with its name. */
  predicate IsLastSheet(sheets: seq<Sheet>, k: int)
    requires 0 <= k < |sheets|
  {
    forall j :: k < j < |sheets| ==> sheets[j].name != sheets[k].name
  }

  /** No item is empty and none contains a comma. */
  predicate ItemsClean(items: seq<string>) {
    forall k :: 0 <= k < |items| ==> items[k] != "" && ',' !in items[k]
  }

  /** The meals of one sheet: each row in turn stores its items under its
      meal name, replacing whatever that name held before. There are at most
      as many meals as rows, and every stored item is clean. */
  function BuildMeals(rows: seq<Row>): (r: Meals)
    ensures |r| <= |rows|
    ensures forall meal :: meal in r ==> ItemsClean(r[meal])
  {
    if |rows| == 0 then map[]
    else
      var last := rows[|rows| - 1];
      BuildMeals(rows[..|rows| - 1])[MealKey(last) := ParseItems(last[1])]
  }

  /** The whole table: each sheet in turn stores its meals under its name,
      replacing whatever that name held before. There are at most as many
      days as sheets, and every item stored anywhere is clean. */
  function BuildMenu(sheets: seq<Sheet>): (r: MenuData)
    ensures |r| <= |sheets|
    ensures forall day, meal :: day in r && meal in r[day] ==> ItemsClean(r[day][meal])
  {
    if |sheets| == 0 then map[]
    else
      var last := sheets[|sheets| - 1];
      BuildMenu(sheets[..|sheets| - 1])[last.name := BuildMeals(last.rows)]
  }

  /** The meal names of `rows`, row by row. */
  function MealNames(rows: seq<Row>): (names: seq<string>)
  {
    seq(|rows|, k requires 0 <= k < |rows| => MealKey(rows[k]))
  }

  /** The meals stored for a sheet are exactly its rows' meal names. */
  lemma {:induction false} BuildMealsKeys(rows: seq<Row>)
    ensures forall meal :: meal in BuildMeals(rows) <==> meal in MealNames(rows)
  {
    if |rows| > 0 {
      var init := rows[..|rows| - 1];
      BuildMealsKeys(init);
      assert MealNames(rows) == MealNames(init) + [MealKey(rows[|rows| - 1])];
    }
  }

  /** Each meal holds the items of the last row that names it. */
  lemma {:induction false} BuildMealsLastRow(rows: seq<Row>, k: nat)
    requires k < |rows| && IsLastMealRow(rows, k)
    ensures MealKey(rows[k]) in BuildMeals(rows)
    ensures BuildMeals(rows)[MealKey(rows[k])] == ParseItems(rows[k][1])
  {
    if k < |rows| - 1 {
      var init := rows[..|rows| - 1];
      assert init[k] == rows[k];
      assert IsLastMealRow(init, k) by {
        forall j | k < j < |init| ensures MealKey(init[j]) != MealKey(init[k]) {
          assert init[j] == rows[j];
        }
      }
      assert MealKey(rows[|rows| - 1]) != MealKey(rows[k]);
      BuildMealsLastRow(init, k);
    }
  }

  /** The sheet names of `sheets`, sheet by sheet. */
  function SheetNames(sheets: seq<Sheet>): (names: seq<string>)
  {
    seq(|sheets|, k requires 0 <= k < |sheets| => sheets[k].name)
  }

  /** The days of the table are exactly the sheet names, including the
      names of sheets without rows. */
  lemma {:induction false} BuildMenuKeys(sheets: seq<Sheet>)
    ensures forall day :: day in BuildMenu(sheets) <==> day in SheetNames(sheets)
  {
    if |sheets| > 0 {
      var init := sheets[..|sheets| - 1];
      BuildMenuKeys(init);
      assert SheetNames(sheets) == SheetNames(init) + [sheets[|sheets| - 1].name];
    }
  }

  /** Each day holds the meals of the last sheet with that name. */
  lemma {:induction false} BuildMenuLastSheet(sheets: seq<Sheet>, k: nat)
    requires k < |sheets| && IsLastSheet(sheets, k)
    ensures sheets[k].name in BuildMenu(sheets)
    ensures BuildMenu(sheets)[sheets[k].name] == BuildMeals(sheets[k].rows)
  {
    if k < |sheets| - 1 {
      var init := sheets[..|sheets| - 1];
      assert init[k] == sheets[k];
      assert IsLastSheet(init, k) by {
        forall j | k < j < |init| ensures init[j].name != init[k].name {
          assert init[j] == sheets[j];
        }
      }
      assert sheets[|sheets| - 1].name != sheets[k].name;
      BuildMenuLastSheet(init, k);
    }
  }

  /** Rows processed later overwrite earlier ones: building from two runs of
      rows is the first run's meals overridden by the second run's. */
  lemma {:induction false} BuildMealsAppend(a: seq<Row>, b: seq<Row>)
    ensures BuildMeals(a + b) == BuildMeals(a) + BuildMeals(b)
  {
    if |b| == 0 {
      assert a + b == a;
    } else {
      var b', last := b[..|b| - 1], b[|b| - 1];
      assert (a + b)[..|a + b| - 1] == a + b';
      assert (a + b)[|a + b| - 1] == last;
      BuildMealsAppend(a, b');
      var key, items := MealKey(last), ParseItems(last[1]);
      calc {
        BuildMeals(a + b);
        BuildMeals(a + b')[key := items];
        (BuildMeals(a) + BuildMeals(b'))[key := items];
        { MapUpdateUnion(BuildMeals(a), BuildMeals(b'), key, items); }
        BuildMeals(a) + BuildMeals(b')[key := items];
        BuildMeals(a) + BuildMeals(b);
      }
    }
  }

  /** Updating a union updates its right operand. */
  lemma MapUpdateUnion<K, V>(m: map<K, V>, n: map<K, V>, k: K, v: V)
    ensures (m + n)[k := v] == m + n[k := v]
  {
  }

  /** Sheets processed later overwrite earlier ones with the same name. */
  lemma {:induction false} BuildMenuAppend(a: seq<Sheet>, b: seq<Sheet>)
    ensures BuildMenu(a + b) == BuildMenu(a) + BuildMenu(b)
  {
    if |b| == 0 {
      assert a + b == a;
    } else {
      var b', last := b[..|b| - 1], b[|b| - 1];
      assert (a + b)[..|a + b| - 1] == a + b';
      assert (a + b)[|a + b| - 1] == last;
      BuildMenuAppend(a, b');
      MapUpdateUnion(BuildMenu(a), BuildMenu(b'), last.name, BuildMeals(last.rows));
    }
  }

  /** Last write wins within a sheet: when two rows name the same meal and
      no row after the second names it again, the meal holds the second
      row's items, whatever lies before, between or after them. */
  lemma LaterRowWins(before: seq<Row>, first: Row, between: seq<Row>, second: Row, after: seq<Row>)
    requires MealKey(first) == MealKey(second)
    requires forall j :: 0 <= j < |after| ==> MealKey(after[j]) != MealKey(second)
    ensures var rows := before + [first] + between + [second] + after;
            && MealKey(first) in BuildMeals(rows)
            && BuildMeals(rows)[MealKey(first)] == ParseItems(second[1])
  {
    var rows := before + [first] + between + [second] + after;
    var k := |before| + 1 + |between|;
    assert rows[k] == second;
    forall j | k < j < |rows| ensures MealKey(rows[j]) != MealKey(rows[k]) {
      assert rows[j] == after[j - k - 1];
    }
    BuildMealsLastRow(rows, k);
  }

  /** `getMenuData`'s row loop for one sheet, written as the source
      writes it. */
  method GetMeals(rows: seq<Row>) returns (meals: Meals)
    ensures meals == BuildMeals(rows)
  {
    meals := map[];
    for j := 0 to |rows|
      invariant meals == BuildMeals(rows[..j])
    {
      var meal := TrimSpace(rows[j][0]);
      var cleanedItems := CleanItems(Split(TrimSpace(rows[j][1]), ','));
      assert rows[..j + 1][..j] == rows[..j];
      meals := meals[meal := cleanedItems];
    }
    assert rows[..|rows|] == rows;
  }

  /** `getMenuData`'s sheet loop, written as the source writes it. */
  method GetMenuData(sheets: seq<Sheet>) returns (menuData: MenuData)
    ensures menuData == BuildMenu(sheets)
  {
    menuData := map[];
    for i := 0 to |sheets|
      invariant menuData == BuildMenu(sheets[..i])
    {
      var meals := GetMeals(sheets[i].rows);
      assert sheets[..i + 1][..i] == sheets[..i];
      menuData := menuData[sheets[i].name := meals];
    }
    assert sheets[..|sheets|] == sheets;
  }

  // ---------------------------------------------------------------------------
  // Queries
  // ---------------------------------------------------------------------------

  /** `getItemsForMeal`: the stored items, or `None` when the day is
      missing, the meal is missing, or the stored list is empty (an empty
      list is a `nil` slice in the source). */
  function ItemsForMeal(day: string, meal: string, menuData: MenuData): (r: Option<seq<string>>)
    ensures r.None? <==> day !in menuData || meal !in menuData[day] || menuData[day][meal] == []
    ensures r.Some? ==> r.value == menuData[day][meal] && |r.value| > 0
  {
    if day !in menuData || meal !in menuData[day] || menuData[day][meal] == [] then None
    else Some(menuData[day][meal])
  }

  /** `getNumItemsForMeal`: the number of items found. It equals the stored
      list's length whenever the meal exists, and is zero exactly when the
      lookup finds nothing. */
  function NumItemsForMeal(day: string, meal: string, menuData: MenuData): (n: nat)
    ensures n == (if day in menuData && meal in menuData[day] then |menuData[day][meal]| else 0)
    ensures n == 0 <==> ItemsForMeal(day, meal, menuData).None?
  {
    |ItemsForMeal(day, meal, menuData).GetOr([])|
  }

  /** Some item of `items` equals `item` up to case. */
  predicate HasFoldMatch(items: seq<string>, item: string) {
    exists k :: 0 <= k < |items| && EqualFold(items[k], item)
  }

  /** `isItemInMeal`: a linear scan of the looked-up items for one equal to
      `item` up to case. */
  method IsItemInMeal(day: string, meal: string, item: string, menuData: MenuData) returns (found: bool)
    ensures found <==> day in menuData && meal in menuData[day] && HasFoldMatch(menuData[day][meal], item)
    ensures ItemsForMeal(day, meal, menuData).None? ==> !found
  {
    var items := ItemsForMeal(day, meal, menuData).GetOr([]);
    for i := 0 to |items|
      invariant forall k :: 0 <= k < i ==> !EqualFold(items[k], item)
    {
      if EqualFold(items[i], item) {
        return true;
      }
    }
    return false;
  }

  // ---------------------------------------------------------------------------
  // Queries on a built table
  // ---------------------------------------------------------------------------

  /** A day that names no sheet is never found. */
  lemma UnknownDayAbsent(sheets: seq<Sheet>, day: string, meal: string)
    requires forall k :: 0 <= k < |sheets| ==> sheets[k].name != day
    ensures ItemsForMeal(day, meal, BuildMenu(sheets)) == None
    ensures NumItemsForMeal(day, meal, BuildMenu(sheets)) == 0
  {
    BuildMenuKeys(sheets);
  }

  /** A meal that no row of the day's last sheet names is not found. */
  lemma UnknownMealAbsent(sheets: seq<Sheet>, k: nat, meal: string)
    requires k < |sheets| && IsLastSheet(sheets, k)
    requires forall j :: 0 <= j < |sheets[k].rows| ==> MealKey(sheets[k].rows[j]) != meal
    ensures ItemsForMeal(sheets[k].name, meal, BuildMenu(sheets)) == None
  {
    BuildMenuLastSheet(sheets, k);
    BuildMealsKeys(sheets[k].rows);
  }

  /** Looking up a meal that the table holds gives the items of the last row
      naming it in the last sheet naming the day, unless those items are
      empty, in which case the lookup finds nothing, exactly as for a
      missing meal. */
  lemma ItemsForBuiltMeal(sheets: seq<Sheet>, k: nat, j: nat)
    requires k < |sheets| && IsLastSheet(sheets, k)
    requires j < |sheets[k].rows| && IsLastMealRow(sheets[k].rows, j)
    ensures var row := sheets[k].rows[j];
            ItemsForMeal(sheets[k].name, MealKey(row), BuildMenu(sheets))
              == if ParseItems(row[1]) == [] then None else Some(ParseItems(row[1]))
  {
    BuildMenuLastSheet(sheets, k);
    BuildMealsLastRow(sheets[k].rows, j);
  }

  /** A row whose items cell trims to nothing but commas is found no more
      than a meal that was never listed. */
  lemma CommaOnlyCellAbsent(sheets: seq<Sheet>, k: nat, j: nat)
    requires k < |sheets| && IsLastSheet(sheets, k)
    requires j < |sheets[k].rows| && IsLastMealRow(sheets[k].rows, j)
    requires var t := TrimSpace(sheets[k].rows[j][1]); forall c :: 0 <= c < |t| ==> t[c] == ','
    ensures ItemsForMeal(sheets[k].name, MealKey(sheets[k].rows[j]), BuildMenu(sheets)) == None
  {
    ParseItemsEmpty(sheets[k].rows[j][1]);
    ItemsForBuiltMeal(sheets, k, j);
  }
}
