/** Worked examples of the menu table on concrete spreadsheets. */
module MenuExamples {
  import opened Wrappers
  import opened GoStrings
  import opened Menu

  /** A cell that is already trimmed and holds the given comma-free pieces
      parses into exactly those pieces, minus the empty ones. */
  lemma ParseJoined(parts: seq<string>)
    requires |parts| >= 1
    requires forall k :: 0 <= k < |parts| ==> ',' !in parts[k]
    requires IsTrimmed(Join(parts, ','))
    ensures ParseItems(Join(parts, ',')) == FilterEmpty(parts)
  {
    TrimSpaceOfTrimmed(Join(parts, ','));
    SplitJoin(parts, ',');
  }

  lemma EggsToastJoined()
    ensures Join(["Eggs", " Toast"], ',') == "Eggs, Toast"
    ensures IsTrimmed("Eggs, Toast")
    ensures ',' !in "Eggs" && ',' !in " Toast"
  {
    assert ["Eggs", " Toast"][1..] == [" Toast"];
  }

  lemma EggsToastFiltered()
    ensures FilterEmpty(["Eggs", " Toast"]) == ["Eggs", " Toast"]
  {
    assert ["Eggs", " Toast"][..1] == ["Eggs"];
  }

  /** "Eggs, Toast" lists "Eggs" and " Toast": the pieces are not trimmed. */
  lemma EggsToast()
    ensures ParseItems("Eggs, Toast") == ["Eggs", " Toast"]
  {
    EggsToastJoined();
    EggsToastFiltered();
    ParseJoined(["Eggs", " Toast"]);
  }

  /** A Monday sheet with one breakfast row "Eggs, Toast": the lookup finds
      two items, and a day with no sheet is not found. */
  lemma MondayBreakfast()
    ensures var menu := BuildMenu([Sheet("Monday", [["Breakfast", "Eggs, Toast"]])]);
            && ItemsForMeal("Monday", "Breakfast", menu) == Some(["Eggs", " Toast"])
            && NumItemsForMeal("Monday", "Breakfast", menu) == 2
            && ItemsForMeal("Funday", "Breakfast", menu) == None
  {
    var row: Row := ["Breakfast", "Eggs, Toast"];
    var sheets := [Sheet("Monday", [row])];
    TrimSpaceOfTrimmed("Breakfast");
    EggsToast();
    ItemsForBuiltMeal(sheets, 0, 0);
    UnknownDayAbsent(sheets, "Funday", "Breakfast");
  }

  lemma BreakfastItemsMatch(items: seq<string>)
    requires items == ["Eggs", " Toast"]
    ensures HasFoldMatch(items, "EGGS")
    ensures !HasFoldMatch(items, "Toast")
  {
    assert EqualFold(items[0], "EGGS");
  }

  /** Case-insensitive matching against the stored Monday breakfast items:
      "EGGS" matches, "Toast" does not, because the stored item is " Toast". */
  lemma MondayBreakfastMatches()
    ensures var menu := BuildMenu([Sheet("Monday", [["Breakfast", "Eggs, Toast"]])]);
            && "Monday" in menu && "Breakfast" in menu["Monday"]
            && HasFoldMatch(menu["Monday"]["Breakfast"], "EGGS")
            && !HasFoldMatch(menu["Monday"]["Breakfast"], "Toast")
  {
    var menu := BuildMenu([Sheet("Monday", [["Breakfast", "Eggs, Toast"]])]);
    MondayBreakfast();
    assert ItemsForMeal("Monday", "Breakfast", menu) == Some(["Eggs", " Toast"]);
    BreakfastItemsMatch(menu["Monday"]["Breakfast"]);
  }

  lemma DoubledCommasJoined()
    ensures Join(["a", " b", "", "c"], ',') == "a, b,,c"
    ensures IsTrimmed("a, b,,c")
    ensures forall k :: 0 <= k < 4 ==> ',' !in ["a", " b", "", "c"][k]
  {
    var parts := ["a", " b", "", "c"];
    assert parts[1..] == [" b", "", "c"];
    assert parts[1..][1..] == ["", "c"];
    assert parts[1..][1..][1..] == ["c"];
  }

  lemma DoubledCommasFiltered()
    ensures FilterEmpty(["a", " b", "", "c"]) == ["a", " b", "c"]
  {
    FilterEmptyAppend(["a", " b"], ["", "c"]);
    assert ["a", " b", "", "c"] == ["a", " b"] + ["", "c"];
    assert FilterEmpty(["a", " b"]) == ["a", " b"] by {
      assert ["a", " b"][..1] == ["a"];
    }
    assert FilterEmpty(["", "c"]) == ["c"] by {
      assert ["", "c"][..1] == [""];
    }
  }

  /** Empty pieces from doubled commas are dropped; the others keep their
      spaces: "a, b,,c" lists "a", " b" and "c". */
  lemma DoubledCommas()
    ensures ParseItems("a, b,,c") == ["a", " b", "c"]
  {
    DoubledCommasJoined();
    DoubledCommasFiltered();
    ParseJoined(["a", " b", "", "c"]);
  }
}
