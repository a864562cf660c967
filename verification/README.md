# Weekly menu table

A Dafny model of the in-memory core of a small Go program that reads a weekly
menu spreadsheet (one worksheet per day, one row per meal) into a nested map
`day -> meal -> items` and answers three lookups on it: the items of a meal,
their number, and whether a meal contains an item, ignoring case.

The spreadsheet is abstracted as a sequence of `Sheet(name, rows)` values whose
rows are the cells' text. Building the table (`Menu.BuildMenu`, and the
loop-by-loop `Menu.GetMenuData`) and the lookups are pure. The three Go
`strings` functions it relies on are modelled in `GoStrings`:

- `TrimSpace` removes Go's `unicode.IsSpace` characters from both ends. That
  means the Latin-1 spaces plus Unicode's White_Space characters.
- `Split` cuts on a one-character separator and always yields at least one
  piece. `Split("", ",")` is `[""]`.
- `EqualFold` compares case-insensitively (ASCII letters only, see below).

Files:

- `wrappers.dfy`: `Option`. `None` stands for a `nil` slice.
- `go_strings.dfy`: the string functions, with their partners. `Join` is the
  inverse of `Split`. `TrimSpace` has a uniqueness characterisation.
  `Concat` and `RemoveChar` describe what splitting keeps.
- `menu.dfy`: rows, sheets, the table, building it, the lookups, and the
  lemmas that connect the lookups to the spreadsheet they were built from.
- `menu_examples.dfy`: worked examples on concrete rows.

Two behaviours of the code a reader may not expect. The model follows the code
in both.

- Item pieces are not trimmed. The cell is trimmed as a whole, then split on
  commas, and only pieces that are exactly `""` are dropped. So
  `"Eggs, Toast"` stores `"Eggs"` and `" Toast"`, and `" Toast"` keeps its
  leading space. As a result `"Toast"` is not found in that meal
  (`MenuExamples.EggsToast`, `MenuExamples.MondayBreakfastMatches`).
- A meal whose item list comes out empty is stored as a `nil` slice. The
  lookup therefore reports it exactly like a missing meal: it is not told
  apart from one (`Menu.ItemsForMeal`, `Menu.CommaOnlyCellAbsent`).

## Model

| member | source | states |
|---|---|---|
| `GoStrings.IsSpaceAscii` | file.go:37-38 | the whitespace `strings.TrimSpace` removes (`IsSpace`) is, on ASCII, exactly tab, newline, vertical tab, form feed, carriage return and space, and beyond ASCII only U+0085, U+00A0, U+1680, U+2000-U+200A, U+2028, U+2029, U+202F, U+205F and U+3000 |
| `GoStrings.TrimSpace` | file.go:37-38 | the result has no whitespace at either end and is no longer than the input |
| `GoStrings.TrimSpaceWraps` | file.go:37-38 | the input is the trimmed result with all-whitespace text on each side, so trimming removes only whitespace and keeps the core intact |
| `GoStrings.TrimSpaceUnique` | file.go:37-38 | any trimmed core surrounded by whitespace trims to exactly that core, so the trimmed form is unique |
| `GoStrings.TrimSpaceIdempotent` | file.go:37 | trimming a trimmed meal name or cell changes nothing |
| `GoStrings.Split` | file.go:38 | splitting the trimmed items cell on commas gives at least one piece, no piece contains a comma, and joining the pieces with commas gives back the cell |
| `GoStrings.SplitJoin` | file.go:38 | conversely, a non-empty list of comma-free pieces is recovered by splitting its comma-joined form, so split and join are inverses |
| `GoStrings.ConcatSplit` | file.go:38 | the split pieces glued together are the cell with its commas removed |
| `GoStrings.FoldAscii` | file.go:76 | folding keeps a character's letter up to case and never yields an upper-case ASCII letter |
| `GoStrings.FoldAsciiSame` | file.go:76 | two characters fold alike exactly when they are equal or are the two cases of one ASCII letter |
| `GoStrings.EqualFold` | file.go:76 | two items compare equal exactly when they have the same length and agree position by position up to the case of ASCII letters |
| `GoStrings.EqualFoldEquivalence` | file.go:76 | case-insensitive item comparison is reflexive, symmetric and transitive |
| `Menu.FilterEmpty` | file.go:40-46 | no kept piece is empty, a value occurs among the kept pieces exactly when it is a non-empty input piece, and there are no more kept pieces than input pieces |
| `Menu.FilterEmptyCounts` | file.go:41-46 | every non-empty piece is kept as many times as it occurs, duplicates included, and every empty piece is dropped |
| `Menu.FilterEmptyAppend` | file.go:42-45 | filtering commutes with concatenation, so the kept pieces stay in their original order |
| `Menu.CleanItems` | file.go:41-46 | the append loop over the split pieces computes exactly the order-preserving filter of the non-empty pieces |
| `Menu.MealKey` | file.go:37 | a row's meal name has no surrounding whitespace and is no longer than its first cell |
| `Menu.ParseItems` | file.go:38-46 | no stored item is empty and no stored item contains a comma |
| `Menu.ParseItemsContent` | file.go:38-46 | the stored items glued together are the trimmed cell without its commas, so nothing else is dropped, changed or reordered |
| `Menu.ParseItemsEmpty` | file.go:38-46 | a cell gives no items if and only if, once trimmed, it is empty or holds only commas |
| `Menu.BuildMeals` | file.go:36-49 | the meals of a sheet number at most its rows, and every stored item is non-empty and comma-free |
| `Menu.BuildMealsKeys` | file.go:34-49 | the meals stored for a sheet are exactly the trimmed first cells of its rows |
| `Menu.BuildMealsLastRow` | file.go:36-49 | each meal holds the parsed items of the last row naming it (last write wins within a sheet) |
| `Menu.BuildMealsAppend` | file.go:36-49 | the meals built from two runs of rows are the first run's meals overridden key by key by the second run's |
| `Menu.LaterRowWins` | file.go:48 | when two rows name the same meal and no later row names it again, the meal holds the later row's items and nothing of the earlier row's, whatever rows lie before, between or after them |
| `Menu.BuildMenu` | file.go:32-52 | the table has at most one day per sheet, and no item stored anywhere in it is empty or contains a comma |
| `Menu.BuildMenuKeys` | file.go:32-52 | the days of the table are exactly the sheet names, including sheets without rows |
| `Menu.BuildMenuLastSheet` | file.go:32-52 | each day holds the meals of the last sheet with that name (last write wins across sheets) |
| `Menu.BuildMenuAppend` | file.go:32-52 | the table built from two runs of sheets is the first run's table overridden day by day by the second run's |
| `Menu.GetMeals` | file.go:34-49 | the row loop, with the cleaning loop inside, builds exactly the meals `BuildMeals` describes |
| `Menu.GetMenuData` | file.go:30-55 | the sheet loop builds exactly the table `BuildMenu` describes |
| `Menu.ItemsForMeal` | file.go:60-65 | the result is absent exactly when the day is missing, the meal is missing, or the stored list is empty; otherwise it is the stored list |
| `Menu.NumItemsForMeal` | file.go:68-70 | the count is the stored list's length when the meal exists and 0 otherwise, and it is 0 exactly when the lookup finds nothing |
| `Menu.IsItemInMeal` | file.go:73-81 | the scan answers true if and only if the meal exists and one of its stored items equals the query ignoring case; it answers false whenever the lookup finds nothing |
| `Menu.UnknownDayAbsent` | file.go:61-62 | on a built table, a day that names no sheet is not found and has zero items |
| `Menu.UnknownMealAbsent` | file.go:61-62 | on a built table, a meal that no row of the day's last sheet names is not found |
| `Menu.ItemsForBuiltMeal` | file.go:61-64 | on a built table, a lookup gives the parsed items of the last matching row of the last matching sheet, or nothing when those items are empty |
| `Menu.CommaOnlyCellAbsent` | file.go:38-62 | when the last row naming a meal, in the last sheet naming the day, has an items cell that trims to nothing or to commas only, the lookup gives nothing, as for a missing meal |
| `MenuExamples.EggsToast` | file.go:38-46 | `"Eggs, Toast"` gives `"Eggs"` and `" Toast"`, so the second piece is not trimmed |
| `MenuExamples.DoubledCommas` | file.go:38-46 | `"a, b,,c"` gives `"a"`, `" b"` and `"c"`: the empty piece is dropped and the spaces are kept |
| `MenuExamples.MondayBreakfast` | file.go:30-70 | a Monday sheet with breakfast row `"Eggs, Toast"` gives two breakfast items, and the unknown day `"Funday"` is not found |
| `MenuExamples.MondayBreakfastMatches` | file.go:73-81 | in the table built from the Monday sheet, `"EGGS"` matches the stored `"Eggs"` ignoring case, and `"Toast"` matches no stored item because the stored one is `" Toast"` |

## Left out

- Spreadsheet loading (`xlsx.OpenFile`, `Cell.String()`, file.go:22-28) is an external library. The input is given as sheets of cell strings.
- Rows with fewer than two cells make the source panic, because it indexes `Cells[0]` and `Cells[1]` unguarded. The model's `Row` type therefore requires at least two cells.
- JSON serialisation and writing `menu.json` (file.go:84-96) are library formatting and file I/O. The JSON round-trip is not modelled.
- Console output, the interactive prompts in `main`, `printDetails` and the display-only `MealInstance` record (file.go:13-18, 99-146) are not modelled. The `os.Exit` error paths (file.go:25, 88, 94) are process termination, not table logic.
- Strings are sequences of Unicode scalar values, as read from spreadsheet cell text. Go's byte-level handling of invalid UTF-8 is not modelled. Splitting on the one-byte `','` gives the same pieces at the character level for valid text.
- GoStrings.EqualFold: case folding covers only the ASCII letters A-Z and a-z. Go's `strings.EqualFold` also equates non-ASCII case pairs, such as accented letters (`é` and `É`) and `K` with the Kelvin sign. For such strings the model answers false where the source answers true.
- Menu.IsItemInMeal: inherits the ASCII-only folding of `GoStrings.EqualFold`, so for items with non-ASCII letters it may answer false where the source answers true.
- Go's distinction between a `nil` and a non-nil empty slice is kept only where it is observable. An empty item list is exactly the case where `cleanedItems` stays `nil`, and `Menu.ItemsForMeal` maps that case to `None`.
