/** Order-preserving selection from a sequence (Swift's `Array.filter`), the
    subsequence relation it establishes, and selection combined with a
    partial conversion (the shape of a loop that appends only the elements
    it can convert). */
module Sequences {
  import opened Optional

  /** The elements of `s` that satisfy `p`, in their original order. */
  function Filter<T>(s: seq<T>, p: T -> bool): seq<T>
  {
    if |s| == 0 then []
    else if p(s[0]) then [s[0]] + Filter(s[1..], p)
    else Filter(s[1..], p)
  }

  /** `a` can be obtained from `b` by deleting zero or more elements. */
  predicate IsSubsequence<T(==)>(a: seq<T>, b: seq<T>)
    decreases |b|
  {
    || |a| == 0
    || (&& |b| > 0
        && ((a[0] == b[0] && IsSubsequence(a[1..], b[1..])) || IsSubsequence(a, b[1..])))
  }

  /** A subsequence is never longer than the sequence it comes from. */
  lemma {:induction false} SubsequenceLength<T>(a: seq<T>, b: seq<T>)
    requires IsSubsequence(a, b)
    ensures |a| <= |b|
    decreases |b|
  {
    if |a| > 0 {
      if a[0] == b[0] && IsSubsequence(a[1..], b[1..]) {
        SubsequenceLength(a[1..], b[1..]);
      } else {
        SubsequenceLength(a, b[1..]);
      }
    }
  }

  /** Every sequence is a subsequence of itself. */
  lemma {:induction false} SubsequenceReflexive<T>(s: seq<T>)
    ensures IsSubsequence(s, s)
  {
    if |s| > 0 {
      SubsequenceReflexive(s[1..]);
    }
  }

  /** Filtering keeps the relative order of the kept elements. */
  lemma {:induction false} FilterIsSubsequence<T>(s: seq<T>, p: T -> bool)
    ensures IsSubsequence(Filter(s, p), s)
    ensures |Filter(s, p)| <= |s|
  {
    if |s| > 0 {
      FilterIsSubsequence(s[1..], p);
      var f := Filter(s, p);
      if p(s[0]) {
        assert f[0] == s[0] && f[1..] == Filter(s[1..], p);
      } else {
        assert f == Filter(s[1..], p);
      }
    }
  }

  /** Every kept element satisfies `p`. */
  lemma {:induction false} FilterSatisfies<T>(s: seq<T>, p: T -> bool)
    ensures forall i :: 0 <= i < |Filter(s, p)| ==> p(Filter(s, p)[i])
  {
    if |s| > 0 {
      FilterSatisfies(s[1..], p);
    }
  }

  /** Each value occurs in the result exactly as often as in `s` when it
      satisfies `p`, and not at all otherwise. */
  lemma {:induction false} FilterMultiset<T>(s: seq<T>, p: T -> bool)
    ensures forall x :: multiset(Filter(s, p))[x] == if p(x) then multiset(s)[x] else 0
  {
    if |s| > 0 {
      FilterMultiset(s[1..], p);
      assert s == [s[0]] + s[1..];
      assert multiset(s) == multiset{s[0]} + multiset(s[1..]);
    }
  }

  /** Filtering distributes over concatenation. */
  lemma {:induction false} FilterConcat<T>(a: seq<T>, b: seq<T>, p: T -> bool)
    ensures Filter(a + b, p) == Filter(a, p) + Filter(b, p)
  {
    if |a| == 0 {
      assert a + b == b;
    } else {
      assert (a + b)[1..] == a[1..] + b;
      FilterConcat(a[1..], b, p);
    }
  }

  /** A single element is kept exactly when it satisfies the predicate. */
  lemma FilterSingle<T>(x: T, p: T -> bool)
    ensures Filter([x], p) == if p(x) then [x] else []
  {
    assert [x][1..] == [];
  }

  /** A predicate that holds of no element keeps nothing. */
  lemma {:induction false} FilterNone<T>(s: seq<T>, p: T -> bool)
    requires forall i :: 0 <= i < |s| ==> !p(s[i])
    ensures Filter(s, p) == []
  {
    if |s| > 0 {
      FilterNone(s[1..], p);
    }
  }

  /** Two predicates that agree on every element select the same elements. */
  lemma {:induction false} FilterCongruent<T>(s: seq<T>, p: T -> bool, q: T -> bool)
    requires forall i :: 0 <= i < |s| ==> p(s[i]) == q(s[i])
    ensures Filter(s, p) == Filter(s, q)
  {
    if |s| > 0 {
      FilterCongruent(s[1..], p, q);
    }
  }

  // ---------------------------------------------------------------------------
  // Selection with conversion
  // ---------------------------------------------------------------------------

  /** The converted values of the elements `f` accepts, in order: what a loop
      produces that walks `s` and appends `f(x).value` whenever `f(x)` is
      `Some`. */
  function FilterMap<T, U>(s: seq<T>, f: T -> Option<U>): seq<U>
  {
    if |s| == 0 then []
    else FilterMap(s[..|s| - 1], f) + OptionToSeq(f(s[|s| - 1]))
  }

  /** The value of an option as a sequence of length at most one. */
  function OptionToSeq<U>(o: Option<U>): (r: seq<U>)
    ensures |r| <= 1
  {
    match o
    case Some(v) => [v]
    case None => []
  }

  /** The positions of the elements `f` accepts. */
  function AcceptedPositions<T, U>(s: seq<T>, f: T -> Option<U>): set<nat>
  {
    set j: nat | j < |s| && f(s[j]).Some?
  }

  lemma FilterMapSingle<T, U>(x: T, f: T -> Option<U>)
    ensures FilterMap([x], f) == OptionToSeq(f(x))
  {
    assert [x][..0] == [];
  }

  /** Elements contribute independently and in order. */
  lemma {:induction false} FilterMapConcat<T, U>(a: seq<T>, b: seq<T>, f: T -> Option<U>)
    ensures FilterMap(a + b, f) == FilterMap(a, f) + FilterMap(b, f)
    decreases |b|
  {
    if |b| == 0 {
      assert a + b == a;
    } else {
      var ab := a + b;
      var b' := b[..|b| - 1];
      assert ab[..|ab| - 1] == a + b';
      assert ab[|ab| - 1] == b[|b| - 1];
      FilterMapConcat(a, b', f);
      var last := OptionToSeq(f(b[|b| - 1]));
      calc {
        FilterMap(ab, f);
        FilterMap(a + b', f) + last;
        FilterMap(a, f) + FilterMap(b', f) + last;
        FilterMap(a, f) + (FilterMap(b', f) + last);
      }
    }
  }

  /** A rejected element leaves the result of its neighbours unchanged. */
  lemma FilterMapSkip<T, U>(a: seq<T>, x: T, b: seq<T>, f: T -> Option<U>)
    requires f(x).None?
    ensures FilterMap(a + [x] + b, f) == FilterMap(a + b, f)
  {
    FilterMapSingle(x, f);
    FilterMapConcat(a, [x], f);
    FilterMapConcat(a + [x], b, f);
    FilterMapConcat(a, b, f);
  }

  /** An accepted element's value sits between the values of the elements
      before it and those of the elements after it. */
  lemma FilterMapKeep<T, U>(s: seq<T>, j: nat, f: T -> Option<U>)
    requires j < |s| && f(s[j]).Some?
    ensures FilterMap(s, f) == FilterMap(s[..j], f) + [f(s[j]).value] + FilterMap(s[j + 1..], f)
  {
    var a, x, b := s[..j], s[j], s[j + 1..];
    assert s == a + [x] + b;
    FilterMapSingle(x, f);
    FilterMapConcat(a, [x], f);
    FilterMapConcat(a + [x], b, f);
  }

  /** At most one value per element. */
  lemma {:induction false} FilterMapLength<T, U>(s: seq<T>, f: T -> Option<U>)
    ensures |FilterMap(s, f)| <= |s|
    decreases |s|
  {
    if |s| > 0 {
      FilterMapLength(s[..|s| - 1], f);
    }
  }

  /** The accepted positions of a sequence are those of its prefix, plus the
      last position when the last element is accepted. */
  lemma AcceptedPositionsStep<T, U>(s: seq<T>, f: T -> Option<U>)
    requires |s| > 0
    ensures var n := |s| - 1;
      && n !in AcceptedPositions(s[..n], f)
      && AcceptedPositions(s, f)
         == AcceptedPositions(s[..n], f) + (if f(s[n]).Some? then {n} else {})
  {
    var n := |s| - 1;
    var before := AcceptedPositions(s[..n], f);
    var after := AcceptedPositions(s, f);
    forall j: nat | j < n ensures (j in after <==> j in before) {
      assert s[j] == s[..n][j];
    }
  }

  /** One value per accepted element. */
  lemma {:induction false} FilterMapCount<T, U>(s: seq<T>, f: T -> Option<U>)
    ensures |FilterMap(s, f)| == |AcceptedPositions(s, f)|
    decreases |s|
  {
    if |s| > 0 {
      var n := |s| - 1;
      FilterMapCount(s[..n], f);
      AcceptedPositionsStep(s, f);
    }
  }

  /** Every value in the result is the conversion of some element. */
  lemma {:induction false} FilterMapOrigin<T, U>(s: seq<T>, f: T -> Option<U>)
    ensures forall k :: 0 <= k < |FilterMap(s, f)| ==>
              exists j :: 0 <= j < |s| && f(s[j]) == Some(FilterMap(s, f)[k])
    decreases |s|
  {
    if |s| > 0 {
      var n := |s| - 1;
      var prefix := s[..n];
      FilterMapOrigin(prefix, f);
      var done := FilterMap(prefix, f);
      var r := FilterMap(s, f);
      forall k | 0 <= k < |r|
        ensures exists j :: 0 <= j < |s| && f(s[j]) == Some(r[k])
      {
        if k < |done| {
          var j :| 0 <= j < |prefix| && f(prefix[j]) == Some(done[k]);
          assert s[j] == prefix[j];
        } else {
          assert f(s[n]) == Some(r[k]);
        }
      }
    } else {
      assert FilterMap(s, f) == [];
    }
  }
}
