# IroPedia content view: data layer

IroPedia is a SwiftUI colour dictionary. Its catalog lives in a bundled CSV
file. Each line holds a registration number, a colour name and the scene the
colour belongs to. This project models the data layer of the main screen in
Dafny and proves properties of it:

- **Loading** (`loadCSVData`). The file text is cut at line breaks and the
  first line is dropped as a header. Each remaining line is cut at commas. A
  line with exactly three fields whose first field is an `Int` becomes an
  item, which is *appended* to the items already on screen. Every other line
  is skipped silently. Loading replaces nothing: `loadCSVData` appends each
  parsed item to those already present (ContentView.swift:135), so loading
  the same text twice adds its items twice (`ReloadAppendsAgain`).
- **Searching** (`filteredItems`). The search text is trimmed of whitespace
  and line breaks. A blank search shows every item. Any other search shows
  the items whose name contains the trimmed text, ignoring case, in their
  original order.
- **Grouping** (`groupedItems`). The shown items are grouped into a
  dictionary keyed by registration number. Each group keeps its items in
  list order.

The Foundation and standard-library pieces that these three use are modelled
alongside them:

- `components(separatedBy:)`, as `Text.Split` with its inverse `Text.Join`;
- `trimmingCharacters(in: .whitespacesAndNewlines)`, as `Text.Trim`;
- case-insensitive containment, as `Text.ContainsIgnoringCase`;
- `Int(_:)`, as `IntParse.ParseInt`, with a digit-by-digit implementation
  `IntParse.ParseIntDigitwise` proved equal to it.

Modules:

- `Optional`: the option type.
- `Sequences`: order-preserving selection (`Filter`, `FilterMap`) and the
  subsequence relation.
- `Text`: splitting, joining, trimming and case folding.
- `IntParse`: `Int(_:)` and decimal rendering.
- `Items`: the `Item` record, which corresponds to `Item.swift`. The Swift
  field `type` is called `kind` because `type` is a Dafny keyword.
- `Loading`, `Search`, `Grouping`: the loader and the two computed
  properties of the view.

The file's text is a parameter of the loader: `None` stands for a missing or
unreadable file.

## Model

| member | source | states |
|---|---|---|
| Loading.ParseRow | IroPedia/IroPedia/ContentView.swift:131-134 | a line yields an item exactly when it has three comma-separated fields and the first parses as an `Int`; the item's index is a 64-bit integer and its name and kind contain no comma |
| Loading.RowFields | IroPedia/IroPedia/ContentView.swift:131-134 | an accepted line is exactly the index field, the name and the kind joined by two commas, and the index field parses to the item's index, so the fields map positionally |
| Loading.RowFromFields | IroPedia/IroPedia/ContentView.swift:131-134 | conversely, any three comma-free fields whose first parses as an `Int` give the item with that name, index and kind |
| Loading.WrongFieldCountSkipped | IroPedia/IroPedia/ContentView.swift:131-132 | a line with a number of commas other than two (so a field count other than three) yields no item |
| Loading.BadIndexSkipped | IroPedia/IroPedia/ContentView.swift:132-133 | a line whose first field is not an `Int` yields no item (read off the definition; `BadIndexRejected` is the form stated over the fields) |
| Loading.FourFieldsRejected | IroPedia/IroPedia/ContentView.swift:132 | four comma-free fields joined by commas yield no item, whatever they hold |
| Loading.BadIndexRejected | IroPedia/IroPedia/ContentView.swift:133 | three fields whose first is not an `Int` yield no item |
| Loading.ParseRows | IroPedia/IroPedia/ContentView.swift:130-137 | the `for row in rows` loop: each line's item, if any, in line order (`FilterMap` of `ParseRow`); yields at most one item per line, and `ParseRowsCount`, `ParseRowsConcat` and `ParseRowsOrigin` say exactly which |
| Loading.DataRows | IroPedia/IroPedia/ContentView.swift:129 | `components(separatedBy: "\n").dropFirst()`: the pieces after the first; there is one per line break of the text, and `HeaderDropped` and `HeaderOnlyAddsNothing` say which |
| Loading.NewItems | IroPedia/IroPedia/ContentView.swift:129-137 | the items one load appends: `ParseRows` of `DataRows`; at most one per line break, and `LoadCount` gives the exact number |
| Loading.LoadCSV | IroPedia/IroPedia/ContentView.swift:129-137 | loading only appends: the items present before the load are a prefix of the result |
| Loading.LoadCSVData | IroPedia/IroPedia/ContentView.swift:121-141 | the loop that appends item by item computes the same list as the whole-file definition; a missing or unreadable file leaves the items unchanged |
| Loading.HeaderOnlyAddsNothing | IroPedia/IroPedia/ContentView.swift:129 | a text without a line break is all header and adds nothing, even when it is a well-formed line (immediate from the contract of `DataRows`) |
| Loading.HeaderDropped | IroPedia/IroPedia/ContentView.swift:129 | the first line is dropped whatever it holds; what follows the first line break is read on its own |
| Loading.TrailingNewlineIgnored | IroPedia/IroPedia/ContentView.swift:129-133 | a final line break adds an empty last line, which is skipped, so the result is unchanged |
| Loading.EmptyLineYieldsNothing | IroPedia/IroPedia/ContentView.swift:131-132 | an empty line has one field and is skipped (the definitions unfolded on `""`) |
| Loading.ParseRowsConcat | IroPedia/IroPedia/ContentView.swift:130-137 | lines contribute their items independently and in line order |
| Loading.ParseRowsOrigin | IroPedia/IroPedia/ContentView.swift:130-135 | every added item is the item of some line of the input |
| Loading.MalformedRowSkipped | IroPedia/IroPedia/ContentView.swift:130-137 | removing a rejected line from anywhere in the input does not change the items read |
| Loading.AcceptedRowKept | IroPedia/IroPedia/ContentView.swift:130-137 | an accepted line's item sits between the items of the lines before it and those after it |
| Loading.ParseRowsCount | IroPedia/IroPedia/ContentView.swift:130-137 | exactly one item is produced per accepted line |
| Loading.LoadCount | IroPedia/IroPedia/ContentView.swift:129-137 | the number of items after a load is the number before plus the number of accepted data lines |
| Loading.ReloadAppendsAgain | IroPedia/IroPedia/ContentView.swift:135 | loading the same text twice appends its items twice; nothing is replaced or deduplicated (immediate from the definition of `LoadCSV`) |
| Loading.RowRoundTrip | IroPedia/IroPedia/ContentView.swift:131-134 | an item whose name and kind hold no comma or line break, written as `index,name,kind`, is read back unchanged |
| Loading.RenderRowsRoundTrip | IroPedia/IroPedia/ContentView.swift:130-137 | the lines written for a list of such items are read back as exactly that list |
| Loading.FileRoundTrip | IroPedia/IroPedia/ContentView.swift:128-137 | loading a file made of any header line and the written items, each line ending in a line break, appends exactly those items |
| Loading.MixedFileExample | IroPedia/IroPedia/ContentView.swift:129-137 | a file with a header, two good lines, a four-field line and a line with a non-numeric index adds exactly the two good items, in order |
| Loading.FirstAndLastOfFour | IroPedia/IroPedia/ContentView.swift:130-137 | of four lines of which only the first and last are accepted, the items of those two are produced, in order |
| IntParse.ParseIntDigitwise | IroPedia/IroPedia/ContentView.swift:133 | `Int(_:)`, computed digit by digit with an overflow check at each step, agrees with the definition: an optional sign, one or more ASCII digits, and a value within 64 bits |
| IntParse.ParseInt | IroPedia/IroPedia/ContentView.swift:133 | a parsed index always lies within the 64-bit range |
| IntParse.ParseShowRoundTrip | IroPedia/IroPedia/ContentView.swift:133 | every 64-bit integer written in decimal parses back to itself |
| IntParse.ParseRejectsStrayCharacter | IroPedia/IroPedia/ContentView.swift:133 | a field with any non-digit after the optional sign, a space included, is not an `Int`; this reads off the definition of an integer literal |
| Text.Split | IroPedia/IroPedia/ContentView.swift:129 | cutting at a separator yields at least one piece, and no piece contains the separator |
| Text.JoinSplit | IroPedia/IroPedia/ContentView.swift:129 | joining the pieces with the separator gives back the original text |
| Text.SplitJoin | IroPedia/IroPedia/ContentView.swift:131 | cutting a join of separator-free pieces gives back the pieces |
| Text.SplitCount | IroPedia/IroPedia/ContentView.swift:131-132 | the number of pieces is the number of separators plus one |
| Text.SplitAtFirst | IroPedia/IroPedia/ContentView.swift:129 | text up to the first separator is the first piece and the rest is cut on its own |
| Text.SplitTrailingSeparator | IroPedia/IroPedia/ContentView.swift:129 | a final separator adds one empty last piece |
| Text.Trim | IroPedia/IroPedia/ContentView.swift:19 | `trimmingCharacters(in: .whitespacesAndNewlines)` as trailing-whitespace removal after leading-whitespace removal; never longer than its input, and `TrimShape` states exactly which middle part it keeps |
| Text.TrimShape | IroPedia/IroPedia/ContentView.swift:19 | the trimmed text is the middle of the original between a whitespace prefix and a whitespace suffix; it is empty exactly when the original is all whitespace, and otherwise neither starts nor ends with whitespace, so it is the longest such middle |
| Text.TrimPadding | IroPedia/IroPedia/ContentView.swift:19 | whitespace added on either side does not change the trimmed text |
| Text.FoldTrim | IroPedia/IroPedia/ContentView.swift:19-23 | trimming and case folding commute |
| Text.ContainsIgnoringCase | IroPedia/IroPedia/ContentView.swift:23 | `localizedCaseInsensitiveContains` as containment of the ASCII-folded query in the ASCII-folded name; a match needs a query no longer than the name, and `ExactMatchFound` shows every exact occurrence matches |
| Text.ExactMatchFound | IroPedia/IroPedia/ContentView.swift:23 | a query that occurs in the name exactly also matches ignoring case |
| Search.FilteredItems | IroPedia/IroPedia/ContentView.swift:18-25 | a blank search (all whitespace and line breaks) shows all items unchanged; any search shows a subsequence of the items, so their order is kept |
| Search.MatchMultiplicity | IroPedia/IroPedia/ContentView.swift:22-23 | for a non-blank search every item occurs among the shown items exactly as often as in the list when its name matches the trimmed search text, and not at all otherwise |
| Search.ShownAtMostAll | IroPedia/IroPedia/ContentView.swift:18-25 | a search never shows more items than there are |
| Search.ShownIffNameMatches | IroPedia/IroPedia/ContentView.swift:22-23 | for a non-blank search, an item is shown if and only if it is in the list and its name contains the trimmed search text, ignoring case |
| Search.PaddingIgnored | IroPedia/IroPedia/ContentView.swift:19 | whitespace and line breaks around the search text do not change what is shown |
| Search.CaseIgnored | IroPedia/IroPedia/ContentView.swift:23 | two search texts that differ only in letter case show the same items |
| Search.RedMatchesRED | IroPedia/IroPedia/ContentView.swift:23 | "red" and "RED" show the same items |
| Search.RedSunsetFoundByRed | IroPedia/IroPedia/ContentView.swift:23 | the name "Red Sunset" matches the query "red" |
| Search.OnlyNamesConsulted | IroPedia/IroPedia/ContentView.swift:23 | index and kind are never consulted: two lists with the same names in the same positions show the same names |
| Grouping.GroupByIndex | IroPedia/IroPedia/ContentView.swift:27 | `Dictionary(grouping:by:)`: each item in turn is appended to the group of its index, created when first needed; there are never more groups than items, and the result equals the `WithIndex` groups by `GroupByIndexSpec` |
| Grouping.GroupByIndexSpec | IroPedia/IroPedia/ContentView.swift:27 | the grouping built by appending each item, in order, to its index's group has as keys exactly the indices present, and each group equals the in-order list of the items with that index |
| Grouping.GroupStep | IroPedia/IroPedia/ContentView.swift:27 | adding one item to the list adds its index to the keys, appends the item to its own group and leaves every other group as it was |
| Grouping.GroupsAreHomogeneous | IroPedia/IroPedia/ContentView.swift:27 | every group is non-empty, holds only items with its own index, and keeps their order from the list |
| Grouping.EachItemInItsOwnGroup | IroPedia/IroPedia/ContentView.swift:27 | every item is in the group of its index as often as it is in the list, and in no other group |
| Grouping.GroupedItems | IroPedia/IroPedia/ContentView.swift:26-28 | the grouped view's keys are exactly the indices of the shown items, and each group lists the shown items with that index in order |
| Grouping.BlankSearchGroupsEverything | IroPedia/IroPedia/ContentView.swift:20-21 | with a blank search, the grouped view groups every item (immediate from the contract of `FilteredItems`) |

The `Item` record of IroPedia/IroPedia/Item.swift:10-15 is `Items.Item`.

## Left out

- The SwiftUI views, colours and layout are left out. So are the
  `Functions` menu, `getColor`, `getTitle` and `handleFunctionTap`: they
  present data and do not compute it.
- Reading the bundled file and the error logging are left out. The file text
  is a parameter, and `None` stands for both a missing file and a read
  error. Both leave the items unchanged, as the source does.
- The `UUID` identity of `Item` is left out. Items are values, and
  multiplicities are stated with multisets.
- Text is a sequence of Unicode code points, not of Swift's grapheme
  clusters. Where the two differ, the model splits differently: a comma
  followed by a combining mark (U+0300, say) is one Swift `Character`, which
  `components(separatedBy: ",")` does not treat as a separator, while the
  model splits at every comma code point. Line ends of `\r\n` behave alike
  in both: the `\r` stays at the end of each line's last field, the kind.
- Text.Trim: the whitespace set follows Foundation's documentation of
  `whitespacesAndNewlines` (the Zs space separators, TAB, U+000A through
  U+000D, U+0085, U+2028 and U+2029), not its implementation, which may count
  further characters such as U+200B ZERO WIDTH SPACE. Such a character around
  a search text is kept by the model, so `Search.FilteredItems` and
  `Search.PaddingIgnored` inherit the same difference.
- Text.ContainsIgnoringCase: folds only the ASCII letters A–Z. The locale's
  full Unicode case mapping, which `localizedCaseInsensitiveContains` uses,
  is not modelled because it is a table outside the program. It also
  differs from Foundation in two further ways. First, it counts the empty
  query as found in every text, while Foundation finds nothing for an empty
  search string; `filteredItems` never asks this, because
  IroPedia/IroPedia/ContentView.swift:20 returns all items for a blank
  search first. Second, it compares code point by code point, while
  Foundation's search treats canonically equivalent spellings as equal (a
  precomposed "é" matches "e" followed by U+0301); `Search.FilteredItems`
  inherits this second difference through `Search.NameMatches`.
- Search.FilteredItems: states the ASCII-folding match described in the
  line above, not the locale-aware one.
- IntParse.ParseInt: its own contract states only the 64-bit range. The
  full accepted shape is stated through `ParseIntDigitwise`,
  `ParseShowRoundTrip` and `ParseRejectsStrayCharacter`.
- Registering, history, credits and synchronisation have no logic in these
  files and are not modelled.
