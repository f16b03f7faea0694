/** The body of `loadCSVData`: the file text is cut into lines, the first line
    is dropped as a header, every remaining line is cut at commas, and a line
    with exactly three fields whose first field is an `Int` becomes an item
    appended to the existing ones. Every other line is skipped. */
module Loading {
  import opened Optional
  import opened Text
  import opened IntParse
  import opened Items
  import opened Sequences

  /** A line the loader accepts. */
  predicate IsWellFormedRow(row: string)
  {
    var cols := Split(row, ',');
    |cols| == 3 && ParseInt(cols[0]).Some?
  }

  /** The item one line stands for, if any; the fields map positionally:
      index from the first column, name from the second, kind from the third. */
  function ParseRow(row: string): (r: Option<Item>)
    ensures r.Some? <==> IsWellFormedRow(row)
    ensures r.Some? ==> InInt64(r.value.index) && ',' !in r.value.name && ',' !in r.value.kind
  {
    var cols := Split(row, ',');
    if |cols| == 3 then
      match ParseInt(cols[0])
      case Some(index) => Some(Item(cols[1], index, cols[2]))
      case None => None
    else None
  }

  /** The items of the accepted lines, in line order. */
  function ParseRows(rows: seq<string>): (items: seq<Item>)
    ensures |items| <= |rows|
  {
    FilterMapLength(rows, ParseRow);
    FilterMap(rows, ParseRow)
  }

  /** The lines after the header line: one per line break of the text. */
  function DataRows(text: string): (rows: seq<string>)
    ensures |rows| == multiset(text)['\n']
  {
    SplitCount(text, '\n');
    Split(text, '\n')[1..]
  }

  /** The items a file's text contributes: at most one per line break. */
  function NewItems(text: string): (items: seq<Item>)
    ensures |items| <= multiset(text)['\n']
  {
    ParseRows(DataRows(text))
  }

  /** Loading only appends: the existing items are kept as a prefix and the
      file's accepted lines follow, one item per accepted line. */
  function LoadCSV(existing: seq<Item>, text: string): (r: seq<Item>)
    ensures existing <= r
  {
    existing + NewItems(text)
  }

  /** The loader as the source runs it: a missing or unreadable file leaves
      the items as they were; otherwise every data line is examined in turn
      and each accepted one is appended. */
  method LoadCSVData(items: seq<Item>, file: Option<string>) returns (result: seq<Item>)
    ensures file.None? ==> result == items
    ensures file.Some? ==> result == LoadCSV(items, file.value)
  {
    result := items;
    if file.None? {
      return;
    }
    var rows := DataRows(file.value);
    var i := 0;
    while i < |rows|
      invariant 0 <= i <= |rows|
      invariant result == items + ParseRows(rows[..i])
    {
      var row := rows[i];
      assert rows[..i + 1][..i] == rows[..i];
      match ParseRow(row) {
        case Some(item) =>
          result := result + [item];
        case None =>
      }
      i := i + 1;
    }
    assert rows[..i] == rows;
  }

  // ---------------------------------------------------------------------------
  // Acceptance of rows
  // ---------------------------------------------------------------------------

  /** An accepted line is exactly its index text, the name and the kind
      joined by commas, and the index text parses to the item's index. */
  lemma RowFields(row: string)
    requires ParseRow(row).Some?
    ensures var it := ParseRow(row).value;
            var f0 := Split(row, ',')[0];
            && row == f0 + [','] + it.name + [','] + it.kind
            && ParseInt(f0) == Some(it.index)
  {
    var cols := Split(row, ',');
    JoinSplit(row, ',');
    assert cols == [cols[0], cols[1], cols[2]];
    JoinThree(cols[0], cols[1], cols[2], ',');
  }

  /** Conversely, three comma-free fields whose first parses as an `Int`
      always form an accepted line, with the fields in their positions. */
  lemma RowFromFields(f0: string, name: string, kind: string, index: int)
    requires ',' !in f0 && ',' !in name && ',' !in kind
    requires ParseInt(f0) == Some(index)
    ensures ParseRow(f0 + [','] + name + [','] + kind) == Some(Item(name, index, kind))
  {
    SplitJoin([f0, name, kind], ',');
    JoinThree(f0, name, kind, ',');
  }

  /** A line with a field count other than three is skipped. */
  lemma WrongFieldCountSkipped(row: string)
    requires multiset(row)[','] != 2
    ensures ParseRow(row) == None
  {
    SplitCount(row, ',');
  }

  /** A line whose first field is not an `Int` is skipped. This only reads
      off `ParseRow`'s definition; `BadIndexRejected` states it for a line
      given by its fields. */
  lemma BadIndexSkipped(row: string)
    requires ParseInt(Split(row, ',')[0]) == None
    ensures ParseRow(row) == None
  {
  }

  // ---------------------------------------------------------------------------
  // Order and count of the loaded items
  // ---------------------------------------------------------------------------

  /** Lines contribute their items independently and in order. */
  lemma ParseRowsConcat(a: seq<string>, b: seq<string>)
    ensures ParseRows(a + b) == ParseRows(a) + ParseRows(b)
  {
    FilterMapConcat(a, b, ParseRow);
  }

  /** Every loaded item is the item of some line of the input. */
  lemma ParseRowsOrigin(rows: seq<string>)
    ensures forall k :: 0 <= k < |ParseRows(rows)| ==>
              exists j :: 0 <= j < |rows| && ParseRow(rows[j]) == Some(ParseRows(rows)[k])
  {
    var items := ParseRows(rows);
    forall k | 0 <= k < |items|
      ensures exists j :: 0 <= j < |rows| && ParseRow(rows[j]) == Some(items[k])
    {
      FilterMapOrigin(rows, ParseRow);
      var j :| 0 <= j < |rows| && ParseRow(rows[j]) == Some(items[k]);
    }
  }

  /** A skipped line does not disturb the lines around it: processing simply
      continues with the next line. */
  lemma MalformedRowSkipped(a: seq<string>, bad: string, b: seq<string>)
    requires !IsWellFormedRow(bad)
    ensures ParseRows(a + [bad] + b) == ParseRows(a + b)
  {
    FilterMapSkip(a, bad, b, ParseRow);
  }

  /** An accepted line's item sits between the items of the lines before it
      and those of the lines after it. */
  lemma AcceptedRowKept(rows: seq<string>, j: nat)
    requires j < |rows| && IsWellFormedRow(rows[j])
    ensures ParseRows(rows) == ParseRows(rows[..j]) + [ParseRow(rows[j]).value] + ParseRows(rows[j + 1..])
  {
    FilterMapKeep(rows, j, ParseRow);
  }

  /** The positions of the accepted lines. */
  function WellFormedPositions(rows: seq<string>): set<nat>
  {
    set j: nat | j < |rows| && IsWellFormedRow(rows[j])
  }

  /** One item per accepted line. */
  lemma ParseRowsCount(rows: seq<string>)
    ensures |ParseRows(rows)| == |WellFormedPositions(rows)|
  {
    FilterMapCount(rows, ParseRow);
    assert AcceptedPositions(rows, ParseRow) == WellFormedPositions(rows);
  }

  // ---------------------------------------------------------------------------
  // The header line and the line structure of the file
  // ---------------------------------------------------------------------------

  /** A text without a line break is all header: nothing is added, even when
      that one line is well formed. The empty text is the special case. This
      follows from `DataRows` giving one row per line break. */
  lemma HeaderOnlyAddsNothing(existing: seq<Item>, text: string)
    requires '\n' !in text
    ensures LoadCSV(existing, text) == existing
  {
  }

  /** The first line is dropped whatever it contains; the rest is read on its
      own. */
  lemma HeaderDropped(existing: seq<Item>, header: string, body: string)
    requires '\n' !in header
    ensures LoadCSV(existing, header + "\n" + body) == existing + ParseRows(Split(body, '\n'))
  {
    SplitAtFirst(header, '\n', body);
  }

  /** A final line break adds an empty last line, which is skipped. */
  lemma TrailingNewlineIgnored(existing: seq<Item>, text: string)
    ensures LoadCSV(existing, text + "\n") == LoadCSV(existing, text)
  {
    SplitTrailingSeparator(text, '\n');
    var parts := Split(text, '\n');
    assert (parts + [""])[1..] == parts[1..] + [""];
    ParseRowsConcat(parts[1..], [""]);
    EmptyLineYieldsNothing();
  }

  /** An empty line has one field and is skipped. This only unfolds the
      definitions. */
  lemma EmptyLineYieldsNothing()
    ensures ParseRows([""]) == []
  {
  }

  /** Loading the same text twice appends its items twice: the load never
      replaces what is already there. This only unfolds `LoadCSV`. */
  lemma ReloadAppendsAgain(existing: seq<Item>, text: string)
    ensures LoadCSV(LoadCSV(existing, text), text) == existing + NewItems(text) + NewItems(text)
  {
  }

  /** The number of items added is the number of accepted data lines. */
  lemma LoadCount(existing: seq<Item>, text: string)
    ensures |LoadCSV(existing, text)| == |existing| + |WellFormedPositions(DataRows(text))|
  {
    ParseRowsCount(DataRows(text));
  }

  // ---------------------------------------------------------------------------
  // Writing rows back: the inverse of the loader
  // ---------------------------------------------------------------------------

  /** An item that can be written as a line and read back unchanged. */
  predicate Storable(it: Item)
  {
    InInt64(it.index) && ',' !in it.name && '\n' !in it.name && ',' !in it.kind && '\n' !in it.kind
  }

  /** The line for an item: index, name and kind joined by commas. */
  function RenderRow(it: Item): string
  {
    ShowInt(it.index) + [','] + it.name + [','] + it.kind
  }

  /** The lines for a sequence of items, one per item. */
  function RenderRows(items: seq<Item>): (rows: seq<string>)
    ensures |rows| == |items|
  {
    if |items| == 0 then [] else [RenderRow(items[0])] + RenderRows(items[1..])
  }

  /** The body of a file: every item's line followed by a line break. */
  function RenderLines(items: seq<Item>): string
  {
    if |items| == 0 then "" else RenderRow(items[0]) + "\n" + RenderLines(items[1..])
  }

  lemma ShowIntHasNoSeparators(n: int)
    ensures ',' !in ShowInt(n) && '\n' !in ShowInt(n)
  {
    var s := ShowInt(n);
    if n < 0 {
      assert s == "-" + ShowNat(-n);
      assert forall i :: 1 <= i < |s| ==> IsDigit(s[i]) by {
        forall i | 1 <= i < |s| ensures IsDigit(s[i]) {
          assert s[i] == ShowNat(-n)[i - 1];
        }
      }
    }
  }

  /** Every storable item survives being written as a line and read back. */
  lemma RowRoundTrip(it: Item)
    requires Storable(it)
    ensures ParseRow(RenderRow(it)) == Some(it)
  {
    ShowIntHasNoSeparators(it.index);
    ParseShowRoundTrip(it.index);
    RowFromFields(ShowInt(it.index), it.name, it.kind, it.index);
  }

  /** The body splits into the items' lines and one empty last piece. */
  lemma {:induction false} RenderLinesSplit(items: seq<Item>)
    requires forall i :: 0 <= i < |items| ==> Storable(items[i])
    ensures Split(RenderLines(items), '\n') == RenderRows(items) + [""]
  {
    if |items| > 0 {
      var it := items[0];
      RenderLinesSplit(items[1..]);
      ShowIntHasNoSeparators(it.index);
      SplitAtFirst(RenderRow(it), '\n', RenderLines(items[1..]));
      assert RenderLines(items) == RenderRow(it) + ['\n'] + RenderLines(items[1..]);
    }
  }

  /** Reading the lines of storable items gives the items back. */
  lemma {:induction false} RenderRowsRoundTrip(items: seq<Item>)
    requires forall i :: 0 <= i < |items| ==> Storable(items[i])
    ensures ParseRows(RenderRows(items)) == items
  {
    if |items| > 0 {
      var it := items[0];
      RenderRowsRoundTrip(items[1..]);
      RowRoundTrip(it);
      ParseRowsConcat([RenderRow(it)], RenderRows(items[1..]));
      FilterMapSingle(RenderRow(it), ParseRow);
      assert items == [it] + items[1..];
    }
  }

  /** Loading a file written from storable items, under any header line
      without a line break, appends exactly those items in order. */
  lemma FileRoundTrip(existing: seq<Item>, header: string, items: seq<Item>)
    requires '\n' !in header
    requires forall i :: 0 <= i < |items| ==> Storable(items[i])
    ensures LoadCSV(existing, header + "\n" + RenderLines(items)) == existing + items
  {
    var body := RenderLines(items);
    var rows := RenderRows(items);
    HeaderDropped(existing, header, body);
    RenderLinesSplit(items);
    assert Split(body, '\n') == rows + [""];
    RenderRowsRoundTrip(items);
    ParseRowsConcat(rows, [""]);
    EmptyLineYieldsNothing();
    assert ParseRows(rows + [""]) == items + [];
    assert ParseRows(Split(body, '\n')) == items;
  }

  // ---------------------------------------------------------------------------
  // A worked file
  // ---------------------------------------------------------------------------

  /** A header, two good lines, one line with four fields and one whose index
      is not a number: only the two good lines become items. The file is
      written as its lines joined by line breaks, each line as its fields
      joined by commas. */
  lemma MixedFileExample()
    ensures LoadCSV([], Join(["header", Join(["1", "Crimson", "dawn"], ','),
                                        Join(["2", "Azure", "", "noon"], ','),
                                        Join(["abc", "Violet", "dusk"], ','),
                                        Join(["3", "Gold", "evening"], ',')], '\n'))
            == [Item("Crimson", 1, "dawn"), Item("Gold", 3, "evening")]
  {
    ExampleFileLines();
    ExampleRows();
  }

  lemma ExampleFileLines()
    ensures var r1 := Join(["1", "Crimson", "dawn"], ',');
            var r2 := Join(["2", "Azure", "", "noon"], ',');
            var r3 := Join(["abc", "Violet", "dusk"], ',');
            var r4 := Join(["3", "Gold", "evening"], ',');
            LoadCSV([], Join(["header", r1, r2, r3, r4], '\n')) == ParseRows([r1, r2, r3, r4])
  {
    var r1 := Join(["1", "Crimson", "dawn"], ',');
    var r2 := Join(["2", "Azure", "", "noon"], ',');
    var r3 := Join(["abc", "Violet", "dusk"], ',');
    var r4 := Join(["3", "Gold", "evening"], ',');
    ExampleLine1();
    ExampleLine2();
    ExampleLine3();
    ExampleLine4();
    var lines := ["header", r1, r2, r3, r4];
    forall i | 0 <= i < |lines| ensures '\n' !in lines[i] {
      if i == 0 {
        assert '\n' !in "header";
      } else if i == 1 {
        assert lines[i] == r1;
      } else if i == 2 {
        assert lines[i] == r2;
      } else if i == 3 {
        assert lines[i] == r3;
      } else {
        assert lines[i] == r4;
      }
    }
    SplitJoin(lines, '\n');
    assert lines[1..] == [r1, r2, r3, r4];
  }

  lemma ExampleRows()
    ensures var r1 := Join(["1", "Crimson", "dawn"], ',');
            var r2 := Join(["2", "Azure", "", "noon"], ',');
            var r3 := Join(["abc", "Violet", "dusk"], ',');
            var r4 := Join(["3", "Gold", "evening"], ',');
            ParseRows([r1, r2, r3, r4]) == [Item("Crimson", 1, "dawn"), Item("Gold", 3, "evening")]
  {
    var r1 := Join(["1", "Crimson", "dawn"], ',');
    var r2 := Join(["2", "Azure", "", "noon"], ',');
    var r3 := Join(["abc", "Violet", "dusk"], ',');
    var r4 := Join(["3", "Gold", "evening"], ',');
    ExampleLine1();
    ExampleLine2();
    ExampleLine3();
    ExampleLine4();
    FirstAndLastOfFour(r1, r2, r3, r4);
  }

  /** Of four lines, only the first and the last are accepted. */
  lemma FirstAndLastOfFour(r1: string, r2: string, r3: string, r4: string)
    requires IsWellFormedRow(r1) && !IsWellFormedRow(r2) && !IsWellFormedRow(r3) && IsWellFormedRow(r4)
    ensures ParseRows([r1, r2, r3, r4]) == [ParseRow(r1).value, ParseRow(r4).value]
  {
    calc {
      ParseRows([r1, r2, r3, r4]);
    == { assert [r1, r2, r3, r4] == [r1] + [r2] + [r3, r4];
         MalformedRowSkipped([r1], r2, [r3, r4]); }
      ParseRows([r1] + [r3, r4]);
    == { assert [r1] + [r3, r4] == [r1] + [r3] + [r4];
         MalformedRowSkipped([r1], r3, [r4]); }
      ParseRows([r1] + [r4]);
    == { ParseRowsConcat([r1], [r4]); }
      ParseRows([r1]) + ParseRows([r4]);
    == { FilterMapSingle(r1, ParseRow); FilterMapSingle(r4, ParseRow); }
      [ParseRow(r1).value, ParseRow(r4).value];
    }
  }

  lemma ExampleLine1()
    ensures '\n' !in Join(["1", "Crimson", "dawn"], ',')
    ensures ParseRow(Join(["1", "Crimson", "dawn"], ',')) == Some(Item("Crimson", 1, "dawn"))
  {
    JoinKeepsOtherCharactersOut(["1", "Crimson", "dawn"], ',', '\n');
    SplitJoin(["1", "Crimson", "dawn"], ',');
    SingleDigitValue("1", 1);
  }

  lemma ExampleLine2()
    ensures '\n' !in Join(["2", "Azure", "", "noon"], ',')
    ensures ParseRow(Join(["2", "Azure", "", "noon"], ',')) == None
  {
    JoinKeepsOtherCharactersOut(["2", "Azure", "", "noon"], ',', '\n');
    SplitJoin(["2", "Azure", "", "noon"], ',');
  }

  lemma ExampleLine3()
    ensures '\n' !in Join(["abc", "Violet", "dusk"], ',')
    ensures ParseRow(Join(["abc", "Violet", "dusk"], ',')) == None
  {
    JoinKeepsOtherCharactersOut(["abc", "Violet", "dusk"], ',', '\n');
    SplitJoin(["abc", "Violet", "dusk"], ',');
    ParseRejectsStrayCharacter("abc", 0);
  }

  lemma ExampleLine4()
    ensures '\n' !in Join(["3", "Gold", "evening"], ',')
    ensures ParseRow(Join(["3", "Gold", "evening"], ',')) == Some(Item("Gold", 3, "evening"))
  {
    JoinKeepsOtherCharactersOut(["3", "Gold", "evening"], ',', '\n');
    SplitJoin(["3", "Gold", "evening"], ',');
    SingleDigitValue("3", 3);
  }

  /** A one-digit numeral parses to its digit. */
  lemma SingleDigitValue(digit: string, d: nat)
    requires |digit| == 1 && IsDigit(digit[0]) && DigitValue(digit[0]) == d
    ensures ParseInt(digit) == Some(d)
  {
    assert SignLength(digit) == 0;
    assert digit[0..] == digit;
    assert digit[..0] == "";
    assert NumeralValue(digit) == 10 * NumeralValue("") + d;
  }

  /** A line with four fields is skipped, whatever the fields hold. */
  lemma FourFieldsRejected(a: string, b: string, c: string, d: string)
    requires ',' !in a && ',' !in b && ',' !in c && ',' !in d
    ensures ParseRow(a + [','] + b + [','] + c + [','] + d) == None
  {
    var parts := [a, b, c, d];
    assert Join(parts, ',') == a + [','] + b + [','] + c + [','] + d by {
      JoinThree(b, c, d, ',');
      assert parts[1..] == [b, c, d];
    }
    SplitJoin(parts, ',');
  }

  /** Three fields whose first is not an `Int` are skipped. */
  lemma BadIndexRejected(f0: string, name: string, kind: string)
    requires ',' !in f0 && ',' !in name && ',' !in kind
    requires ParseInt(f0) == None
    ensures ParseRow(f0 + [','] + name + [','] + kind) == None
  {
    JoinThree(f0, name, kind, ',');
    SplitJoin([f0, name, kind], ',');
  }
}
