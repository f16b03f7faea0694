/** The `groupedItems` property of the content view: the filtered items
    grouped into a dictionary keyed by their index, each group keeping the
    items in the order they were met. */
module Grouping {
  import opened Sequences
  import opened Items
  import opened Search

  /** The reference definition of one group: the items with index `k`, in
      order. */
  function WithIndex(items: seq<Item>, k: int): seq<Item>
  {
    Filter(items, (it: Item) => it.index == k)
  }

  /** The indices that occur among the items. */
  function Indices(items: seq<Item>): (ks: set<int>)
    ensures forall x :: x in items ==> x.index in ks
  {
    set i | 0 <= i < |items| :: items[i].index
  }

  /** Grouping as a dictionary is built: each item, taken in order, is
      appended to the group of its index, which is created when first
      needed. */
  function GroupByIndex(items: seq<Item>): (groups: map<int, seq<Item>>)
    ensures |groups| <= |items|
  {
    if |items| == 0 then map[]
    else AddToGroup(GroupByIndex(items[..|items| - 1]), items[|items| - 1])
  }

  /** One step of the grouping: `last` is appended to its group. */
  function AddToGroup(groups: map<int, seq<Item>>, last: Item): map<int, seq<Item>>
  {
    groups[last.index := (if last.index in groups then groups[last.index] else []) + [last]]
  }

  /** The groups built item by item are exactly the reference groups: one per
      index that occurs, each listing the items with that index in order. */
  lemma {:induction false} GroupByIndexSpec(items: seq<Item>)
    ensures GroupByIndex(items).Keys == Indices(items)
    ensures forall k :: k in GroupByIndex(items) ==> GroupByIndex(items)[k] == WithIndex(items, k)
    decreases |items|
  {
    if |items| > 0 {
      var init, last := items[..|items| - 1], items[|items| - 1];
      assert items == init + [last];
      GroupByIndexSpec(init);
      GroupStep(init, last);
      var before, after := GroupByIndex(init), GroupByIndex(items);
      assert after == AddToGroup(before, last);
      forall k | k in after ensures after[k] == WithIndex(items, k) {
        if k != last.index {
          assert after[k] == before[k];
        }
      }
    }
  }

  /** Appending one item extends its own group and leaves every other group
      as it was. */
  lemma GroupStep(init: seq<Item>, last: Item)
    ensures Indices(init + [last]) == Indices(init) + {last.index}
    ensures WithIndex(init + [last], last.index) == WithIndex(init, last.index) + [last]
    ensures forall k :: k != last.index ==> WithIndex(init + [last], k) == WithIndex(init, k)
    ensures last.index !in Indices(init) ==> WithIndex(init, last.index) == []
  {
    var s := init + [last];
    forall k ensures WithIndex(s, k) == WithIndex(init, k) + (if k == last.index then [last] else []) {
      FilterConcat(init, [last], (it: Item) => it.index == k);
      FilterSingle(last, (it: Item) => it.index == k);
    }
    if last.index !in Indices(init) {
      forall i | 0 <= i < |init| ensures init[i].index != last.index {
      }
      FilterNone(init, (it: Item) => it.index == last.index);
    }
    assert Indices(s) == Indices(init) + {last.index} by {
      forall k | k in Indices(s) ensures k in Indices(init) + {last.index} {
        var i :| 0 <= i < |s| && s[i].index == k;
        if i < |init| {
          assert init[i] == s[i];
        }
      }
      forall k | k in Indices(init) ensures k in Indices(s) {
        var i :| 0 <= i < |init| && init[i].index == k;
        assert s[i] == init[i];
      }
      assert s[|init|] == last;
    }
  }

  /** Each group holds only items of its own index, in their original
      order, and is never empty. */
  lemma GroupsAreHomogeneous(items: seq<Item>, k: int)
    requires k in GroupByIndex(items)
    ensures var g := GroupByIndex(items)[k];
      |g| > 0 && IsSubsequence(g, items) && forall x :: x in g ==> x.index == k
  {
    GroupByIndexSpec(items);
    var p := (it: Item) => it.index == k;
    FilterIsSubsequence(items, p);
    FilterSatisfies(items, p);
    var i :| 0 <= i < |items| && items[i].index == k;
    FilterMultiset(items, p);
    assert multiset(WithIndex(items, k))[items[i]] == multiset(items)[items[i]] > 0;
  }

  /** Every item lands in the group of its index with its full multiplicity,
      and in no other group: the groups partition the items. */
  lemma EachItemInItsOwnGroup(items: seq<Item>, x: Item)
    ensures x in items ==> x.index in GroupByIndex(items)
                           && multiset(GroupByIndex(items)[x.index])[x] == multiset(items)[x]
    ensures forall k :: k in GroupByIndex(items) && k != x.index ==> x !in GroupByIndex(items)[k]
  {
    var groups := GroupByIndex(items);
    GroupByIndexSpec(items);
    FilterMultiset(items, (it: Item) => it.index == x.index);
    forall k | k in groups && k != x.index ensures x !in groups[k] {
      FilterMultiset(items, (it: Item) => it.index == k);
      assert multiset(groups[k])[x] == 0;
    }
  }

  /** The `groupedItems` property: the filtered items, grouped by index. */
  function GroupedItems(items: seq<Item>, searchText: string): (groups: map<int, seq<Item>>)
    ensures groups.Keys == Indices(FilteredItems(items, searchText))
    ensures forall k :: k in groups ==> groups[k] == WithIndex(FilteredItems(items, searchText), k)
  {
    GroupByIndexSpec(FilteredItems(items, searchText));
    GroupByIndex(FilteredItems(items, searchText))
  }

  /** With a blank search every item is grouped. This follows directly from
      the contract of `FilteredItems`. */
  lemma BlankSearchGroupsEverything(items: seq<Item>, searchText: string)
    requires Text.AllWhitespace(searchText)
    ensures GroupedItems(items, searchText) == GroupByIndex(items)
  {
  }
}
