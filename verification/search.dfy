/** The `filteredItems` property of the content view: the search text is
    trimmed of whitespace and line breaks; a blank search shows every item,
    any other search shows, in their original order, the items whose name
    contains the trimmed text, ignoring case. */
module Search {
  import opened Text
  import opened Sequences
  import opened Items

  /** The item's name contains the query, ignoring case. Only the name is
      looked at. */
  predicate NameMatches(it: Item, query: string)
  {
    ContainsIgnoringCase(it.name, query)
  }

  /** The items whose names match an already trimmed query. */
  function Matching(items: seq<Item>, query: string): seq<Item>
  {
    Filter(items, (it: Item) => NameMatches(it, query))
  }

  function FilteredItems(items: seq<Item>, searchText: string): (r: seq<Item>)
    ensures AllWhitespace(searchText) ==> r == items
    ensures IsSubsequence(r, items)
  {
    var query := Trim(searchText);
    TrimShape(searchText);
    if |query| == 0 then
      SubsequenceReflexive(items);
      items
    else
      FilterIsSubsequence(items, (it: Item) => NameMatches(it, query));
      Matching(items, query)
  }

  /** For a non-blank search, every item occurs among the shown items exactly
      as often as in the list when its name matches the trimmed search text,
      and not at all otherwise. */
  lemma MatchMultiplicity(items: seq<Item>, searchText: string, x: Item)
    requires !AllWhitespace(searchText)
    ensures multiset(FilteredItems(items, searchText))[x]
            == if NameMatches(x, Trim(searchText)) then multiset(items)[x] else 0
  {
    var query := Trim(searchText);
    TrimShape(searchText);
    FilterMultiset(items, (it: Item) => NameMatches(it, query));
  }

  /** For a non-blank search, an item is shown exactly when it is one of the
      items and its name matches the trimmed search text. */
  lemma ShownIffNameMatches(items: seq<Item>, searchText: string, x: Item)
    requires !AllWhitespace(searchText)
    ensures x in FilteredItems(items, searchText) <==> x in items && NameMatches(x, Trim(searchText))
  {
    MatchMultiplicity(items, searchText, x);
    var r := FilteredItems(items, searchText);
    assert x in r <==> multiset(r)[x] > 0;
    assert x in items <==> multiset(items)[x] > 0;
  }

  /** A search never shows more items than there are. */
  lemma ShownAtMostAll(items: seq<Item>, searchText: string)
    ensures |FilteredItems(items, searchText)| <= |items|
  {
    SubsequenceLength(FilteredItems(items, searchText), items);
  }

  /** Whitespace and line breaks around the search text make no difference. */
  lemma PaddingIgnored(items: seq<Item>, before: string, searchText: string, after: string)
    requires AllWhitespace(before) && AllWhitespace(after)
    ensures FilteredItems(items, before + searchText + after) == FilteredItems(items, searchText)
  {
    TrimPadding(before, searchText, after);
  }

  /** Two search texts that differ only in letter case select the same items. */
  lemma CaseIgnored(items: seq<Item>, q1: string, q2: string)
    requires Fold(q1) == Fold(q2)
    ensures FilteredItems(items, q1) == FilteredItems(items, q2)
  {
    var t1, t2 := Trim(q1), Trim(q2);
    TrimShape(q1);
    TrimShape(q2);
    FoldTrim(q1);
    FoldTrim(q2);
    assert Fold(t1) == Fold(t2);
    assert |t1| == |Fold(t1)| == |Fold(t2)| == |t2|;
    if |t1| > 0 {
      SameFoldSameMatches(items, t1, t2);
    }
  }

  /** Queries with the same folded form select the same items. */
  lemma SameFoldSameMatches(items: seq<Item>, t1: string, t2: string)
    requires Fold(t1) == Fold(t2)
    ensures Matching(items, t1) == Matching(items, t2)
  {
    FilterCongruent(items, (it: Item) => NameMatches(it, t1), (it: Item) => NameMatches(it, t2));
  }

  /** "red" and "RED" find the same items. */
  lemma RedMatchesRED(items: seq<Item>)
    ensures FilteredItems(items, "red") == FilteredItems(items, "RED")
  {
    assert Fold("RED") == "red";
    assert Fold("red") == "red";
    CaseIgnored(items, "red", "RED");
  }

  /** The names of the shown items. */
  function Names(items: seq<Item>): (names: seq<string>)
    ensures |names| == |items|
  {
    seq(|items|, i requires 0 <= i < |items| => items[i].name)
  }

  /** Index and kind are never consulted: two lists with the same names in
      the same positions show the same names. */
  lemma OnlyNamesConsulted(a: seq<Item>, b: seq<Item>, searchText: string)
    requires Names(a) == Names(b)
    ensures Names(FilteredItems(a, searchText)) == Names(FilteredItems(b, searchText))
  {
    var query := Trim(searchText);
    if |query| > 0 {
      MatchingByName(a, b, query);
    }
  }

  lemma {:induction false} MatchingByName(a: seq<Item>, b: seq<Item>, query: string)
    requires Names(a) == Names(b)
    ensures Names(Matching(a, query)) == Names(Matching(b, query))
    decreases |a|
  {
    assert |a| == |Names(a)| == |b|;
    if |a| > 0 {
      assert Names(a[1..]) == Names(b[1..]) by {
        forall i | 0 <= i < |a| - 1 ensures Names(a[1..])[i] == Names(b[1..])[i] {
          assert Names(a)[i + 1] == Names(b)[i + 1];
        }
      }
      MatchingByName(a[1..], b[1..], query);
      assert a[0].name == Names(a)[0] == Names(b)[0] == b[0].name;
      var ra, rb := Matching(a[1..], query), Matching(b[1..], query);
      if NameMatches(a[0], query) {
        assert Matching(a, query) == [a[0]] + ra;
        assert Matching(b, query) == [b[0]] + rb;
        assert Names([a[0]] + ra) == [a[0].name] + Names(ra);
        assert Names([b[0]] + rb) == [b[0].name] + Names(rb);
      } else {
        assert Matching(a, query) == ra;
        assert Matching(b, query) == rb;
      }
    }
  }

  /** A capitalised name is found by a lower-case query. */
  lemma RedSunsetFoundByRed(index: int, kind: string)
    ensures NameMatches(Item("Red Sunset", index, kind), "red")
  {
    var folded := Fold("Red Sunset");
    assert folded[..3] == "red";
    assert StartsWith(folded[0..], Fold("red"));
  }
}
