/** String operations the catalog relies on, over `seq<char>`:
    Foundation's `components(separatedBy:)` for a one-character separator,
    `trimmingCharacters(in: .whitespacesAndNewlines)`, and a case-insensitive
    substring test with ASCII case folding. */
module Text {

  // ---------------------------------------------------------------------------
  // Splitting and joining
  // ---------------------------------------------------------------------------

  /** The pieces of `s` between occurrences of `sep`. There is always one more
      piece than there are separators, so the empty string yields `[""]` and
      a trailing separator yields a trailing empty piece. */
  function Split(s: string, sep: char): (parts: seq<string>)
    ensures |parts| >= 1
    ensures forall i :: 0 <= i < |parts| ==> sep !in parts[i]
    decreases |s|
  {
    if |s| == 0 then [""]
    else
      var rest := Split(s[1..], sep);
      if s[0] == sep then [""] + rest
      else [[s[0]] + rest[0]] + rest[1..]
  }

  /** The pieces glued back together with `sep` between neighbours. */
  function Join(parts: seq<string>, sep: char): string
  {
    if |parts| == 0 then ""
    else if |parts| == 1 then parts[0]
    else parts[0] + [sep] + Join(parts[1..], sep)
  }

  /** Splitting loses nothing: joining the pieces gives back the input. */
  lemma {:induction false} JoinSplit(s: string, sep: char)
    ensures Join(Split(s, sep), sep) == s
    decreases |s|
  {
    if |s| > 0 {
      JoinSplit(s[1..], sep);
      var rest := Split(s[1..], sep);
      if s[0] == sep {
        assert ([""] + rest)[1..] == rest;
        assert Join([""] + rest, sep) == [sep] + Join(rest, sep);
      } else {
        JoinExtendFirst(s[0], rest, sep);
        assert [rest[0]] + rest[1..] == rest;
      }
      assert [s[0]] + s[1..] == s;
    }
  }

  /** Prepending a character to the first piece prepends it to the joined text. */
  lemma JoinExtendFirst(c: char, parts: seq<string>, sep: char)
    requires |parts| >= 1
    ensures Join([[c] + parts[0]] + parts[1..], sep) == [c] + Join([parts[0]] + parts[1..], sep)
  {
    var ps := [[c] + parts[0]] + parts[1..];
    assert ps[1..] == parts[1..];
    assert ([parts[0]] + parts[1..])[1..] == parts[1..];
  }

  /** A separator-free string is a single piece. */
  lemma {:induction false} SplitNoSeparator(s: string, sep: char)
    requires sep !in s
    ensures Split(s, sep) == [s]
    decreases |s|
  {
    if |s| > 0 {
      SplitNoSeparator(s[1..], sep);
      assert [s[0]] + s[1..] == s;
    }
  }

  /** Splitting at the first separator: the text before it is the first
      piece, and the rest is split independently. */
  lemma {:induction false} SplitAtFirst(a: string, sep: char, b: string)
    requires sep !in a
    ensures Split(a + [sep] + b, sep) == [a] + Split(b, sep)
    decreases |a|
  {
    if |a| == 0 {
      assert a + [sep] + b == [sep] + b;
      assert ([sep] + b)[1..] == b;
    } else {
      var s := a + [sep] + b;
      assert s[1..] == a[1..] + [sep] + b;
      SplitAtFirst(a[1..], sep, b);
      assert [a[0]] + a[1..] == a;
    }
  }

  /** There is one more piece than there are separators. */
  lemma {:induction false} SplitCount(s: string, sep: char)
    ensures |Split(s, sep)| == multiset(s)[sep] + 1
    decreases |s|
  {
    if |s| > 0 {
      SplitCount(s[1..], sep);
      assert s == [s[0]] + s[1..];
    }
  }

  /** Three pieces joined. */
  lemma JoinThree(a: string, b: string, c: string, sep: char)
    ensures Join([a, b, c], sep) == a + [sep] + b + [sep] + c
  {
    assert [a, b, c][1..] == [b, c];
    assert [b, c][1..] == [c];
    assert Join([b, c], sep) == b + [sep] + c;
    assert a + [sep] + (b + [sep] + c) == a + [sep] + b + [sep] + c;
  }

  /** Joining separator-free pieces and splitting again gives the pieces back. */
  lemma {:induction false} SplitJoin(parts: seq<string>, sep: char)
    requires |parts| >= 1
    requires forall i :: 0 <= i < |parts| ==> sep !in parts[i]
    ensures Split(Join(parts, sep), sep) == parts
    decreases |parts|
  {
    if |parts| == 1 {
      SplitNoSeparator(parts[0], sep);
    } else {
      SplitJoin(parts[1..], sep);
      SplitAtFirst(parts[0], sep, Join(parts[1..], sep));
      assert [parts[0]] + parts[1..] == parts;
    }
  }

  /** Joining adds no character other than the separator. */
  lemma {:induction false} JoinKeepsOtherCharactersOut(parts: seq<string>, sep: char, c: char)
    requires c != sep
    requires forall i :: 0 <= i < |parts| ==> c !in parts[i]
    ensures c !in Join(parts, sep)
    decreases |parts|
  {
    if |parts| > 1 {
      JoinKeepsOtherCharactersOut(parts[1..], sep, c);
    }
  }

  /** A separator appended at the end adds exactly one empty last piece. */
  lemma {:induction false} SplitTrailingSeparator(s: string, sep: char)
    ensures Split(s + [sep], sep) == Split(s, sep) + [""]
    decreases |s|
  {
    if |s| == 0 {
      assert s + [sep] == [sep] + "";
      SplitAtFirst("", sep, "");
    } else {
      assert (s + [sep])[1..] == s[1..] + [sep];
      SplitTrailingSeparator(s[1..], sep);
    }
  }

  // ---------------------------------------------------------------------------
  // Whitespace trimming
  // ---------------------------------------------------------------------------

  /** Membership in `CharacterSet.whitespacesAndNewlines` as Foundation
      documents it: the Unicode space separators (general category Zs),
      CHARACTER TABULATION, the line breaks U+000A through U+000D, NEXT LINE,
      and the line and paragraph separators U+2028 and U+2029. */
  predicate IsWhitespace(c: char)
  {
    || c == '\t'
    || ('\n' <= c <= '\r')
    || c == ' '
    || c == '\U{0085}'
    || c == '\U{00A0}'
    || c == '\U{1680}'
    || ('\U{2000}' <= c <= '\U{200A}')
    || c == '\U{2028}'
    || c == '\U{2029}'
    || c == '\U{202F}'
    || c == '\U{205F}'
    || c == '\U{3000}'
  }

  predicate AllWhitespace(s: string)
  {
    forall i :: 0 <= i < |s| ==> IsWhitespace(s[i])
  }

  /** `s` without its leading whitespace. */
  function TrimStart(s: string): string
    decreases |s|
  {
    if |s| > 0 && IsWhitespace(s[0]) then TrimStart(s[1..]) else s
  }

  /** `s` without its trailing whitespace. */
  function TrimEnd(s: string): string
    decreases |s|
  {
    if |s| > 0 && IsWhitespace(s[|s| - 1]) then TrimEnd(s[..|s| - 1]) else s
  }

  /** `trimmingCharacters(in: .whitespacesAndNewlines)`; `TrimShape` states
      which part of `s` it keeps. */
  function Trim(s: string): (r: string)
    ensures |r| <= |s|
  {
    TrimStartShape(s);
    TrimEndShape(TrimStart(s));
    TrimEnd(TrimStart(s))
  }

  /** Trimming the start removes a whitespace prefix and stops at the first
      other character. */
  lemma {:induction false} TrimStartShape(s: string)
    ensures var r := TrimStart(s);
      && |r| <= |s| && r == s[|s| - |r|..]
      && AllWhitespace(s[..|s| - |r|])
      && (|r| > 0 ==> !IsWhitespace(r[0]))
    decreases |s|
  {
    if |s| > 0 && IsWhitespace(s[0]) {
      TrimStartShape(s[1..]);
      var r := TrimStart(s[1..]);
      assert s[1..][|s| - 1 - |r|..] == s[|s| - |r|..];
      forall k | 0 <= k < |s| - |r| ensures IsWhitespace(s[k]) {
        if k > 0 {
          assert s[1..][..|s| - 1 - |r|][k - 1] == s[k];
        }
      }
    }
  }

  /** Trimming the end removes a whitespace suffix and stops at the last
      other character. */
  lemma {:induction false} TrimEndShape(s: string)
    ensures var r := TrimEnd(s);
      && |r| <= |s| && r == s[..|r|]
      && AllWhitespace(s[|r|..])
      && (|r| > 0 ==> !IsWhitespace(r[|r| - 1]))
    decreases |s|
  {
    if |s| > 0 && IsWhitespace(s[|s| - 1]) {
      var n := |s| - 1;
      TrimEndShape(s[..n]);
      var r := TrimEnd(s[..n]);
      assert s[..n][..|r|] == s[..|r|];
      forall k | |r| <= k < |s| ensures IsWhitespace(s[k]) {
        if k < n {
          assert s[..n][|r|..][k - |r|] == s[k];
        }
      }
    }
  }

  /** The trimmed text is the middle of `s` between a whitespace prefix and a
      whitespace suffix; it is empty exactly when `s` is all whitespace, and
      otherwise neither starts nor ends with whitespace, so no longer middle
      part would do. */
  lemma TrimShape(s: string)
    ensures exists i, j :: 0 <= i <= j <= |s| && Trim(s) == s[i..j]
                           && AllWhitespace(s[..i]) && AllWhitespace(s[j..])
    ensures |Trim(s)| == 0 <==> AllWhitespace(s)
    ensures var r := Trim(s); |r| > 0 ==> !IsWhitespace(r[0]) && !IsWhitespace(r[|r| - 1])
  {
    var t := TrimStart(s);
    var r := TrimEnd(t);
    TrimStartShape(s);
    TrimEndShape(t);
    var i := |s| - |t|;
    var j := i + |r|;
    assert t == s[i..];
    assert r == s[i..j];
    assert AllWhitespace(s[j..]) by {
      assert s[j..] == t[|r|..];
    }
    if |r| == 0 {
      assert t[|r|..] == t;
      assert AllWhitespace(t);
      assert |t| == 0;
      forall k | 0 <= k < |s| ensures IsWhitespace(s[k]) {
        assert s[..i][k] == s[k];
      }
    } else {
      assert r[0] == t[0] == s[i];
      assert !IsWhitespace(s[i]);
    }
  }

  /** Leading and trailing whitespace never changes the trimmed text. */
  lemma TrimPadding(a: string, s: string, b: string)
    requires AllWhitespace(a) && AllWhitespace(b)
    ensures Trim(a + s + b) == Trim(s)
  {
    var x := a + s + b;
    if AllWhitespace(s) {
      assert AllWhitespace(x) by {
        forall k | 0 <= k < |x| ensures IsWhitespace(x[k]) {
          if k < |a| {
            assert x[k] == a[k];
          } else if k < |a| + |s| {
            assert x[k] == s[k - |a|];
          } else {
            assert x[k] == b[k - |a| - |s|];
          }
        }
      }
      TrimShape(x);
      TrimShape(s);
    } else {
      assert x == a + (s + b);
      TrimStartPrefix(a, s + b);
      TrimStartSuffix(s, b);
      TrimEndSuffix(TrimStart(s), b);
    }
  }

  lemma {:induction false} TrimStartPrefix(a: string, s: string)
    requires AllWhitespace(a)
    ensures TrimStart(a + s) == TrimStart(s)
    decreases |a|
  {
    if |a| > 0 {
      assert (a + s)[1..] == a[1..] + s;
      TrimStartPrefix(a[1..], s);
    } else {
      assert a + s == s;
    }
  }

  lemma {:induction false} TrimStartSuffix(s: string, b: string)
    requires !AllWhitespace(s)
    ensures TrimStart(s + b) == TrimStart(s) + b
    decreases |s|
  {
    assert |s| > 0;
    if IsWhitespace(s[0]) {
      assert (s + b)[1..] == s[1..] + b;
      assert !AllWhitespace(s[1..]) by {
        var k :| 0 <= k < |s| && !IsWhitespace(s[k]);
        assert s[1..][k - 1] == s[k];
      }
      TrimStartSuffix(s[1..], b);
    }
  }

  lemma {:induction false} TrimEndSuffix(s: string, b: string)
    requires AllWhitespace(b)
    ensures TrimEnd(s + b) == TrimEnd(s)
    decreases |b|
  {
    if |b| > 0 {
      var s' := s + b;
      assert s'[..|s'| - 1] == s + b[..|b| - 1];
      TrimEndSuffix(s, b[..|b| - 1]);
    } else {
      assert s + b == s;
    }
  }

  // ---------------------------------------------------------------------------
  // Case-insensitive substring search
  // ---------------------------------------------------------------------------

  predicate StartsWith(s: string, q: string)
  {
    |q| <= |s| && s[..|q|] == q
  }

  /** `q` occurs in `s` as a contiguous run of characters. */
  predicate Contains(s: string, q: string)
  {
    exists i :: 0 <= i <= |s| && StartsWith(s[i..], q)
  }

  /** ASCII lower-casing of one character; every other character is kept. */
  function Lower(c: char): char
  {
    if 'A' <= c <= 'Z' then (c as int + 32) as char else c
  }

  /** The case-folded form used for comparison. */
  function Fold(s: string): (r: string)
    ensures |r| == |s|
  {
    seq(|s|, i requires 0 <= i < |s| => Lower(s[i]))
  }

  /** `localizedCaseInsensitiveContains`, approximated with ASCII folding. */
  predicate ContainsIgnoringCase(s: string, q: string)
    ensures ContainsIgnoringCase(s, q) ==> |q| <= |s|
  {
    Contains(Fold(s), Fold(q))
  }

  /** A query that occurs exactly also occurs ignoring case. */
  lemma ExactMatchFound(s: string, q: string)
    requires Contains(s, q)
    ensures ContainsIgnoringCase(s, q)
  {
    var i :| 0 <= i <= |s| && StartsWith(s[i..], q);
    var f := Fold(s);
    assert f[i..][..|q|] == Fold(q) by {
      forall k | 0 <= k < |q| ensures f[i..][..|q|][k] == Fold(q)[k] {
        assert q[k] == s[i..][..|q|][k] == s[i + k];
      }
    }
    assert StartsWith(f[i..], Fold(q));
  }

  /** Folding never turns whitespace into non-whitespace or back, so it
      commutes with trimming. */
  lemma FoldTrim(s: string)
    ensures Fold(Trim(s)) == Trim(Fold(s))
  {
    FoldTrimStart(s);
    FoldTrimEnd(TrimStart(s));
  }

  /** Lower-casing neither creates nor removes whitespace. */
  lemma LowerKeepsWhitespace(c: char)
    ensures IsWhitespace(Lower(c)) == IsWhitespace(c)
  {
    if 'A' <= c <= 'Z' {
      assert 'a' <= Lower(c) <= 'z';
    }
  }

  lemma {:induction false} FoldTrimStart(s: string)
    ensures Fold(TrimStart(s)) == TrimStart(Fold(s))
    decreases |s|
  {
    var f := Fold(s);
    if |s| > 0 {
      assert f[0] == Lower(s[0]);
      LowerKeepsWhitespace(s[0]);
      if IsWhitespace(s[0]) {
        assert f[1..] == Fold(s[1..]);
        assert TrimStart(s) == TrimStart(s[1..]);
        assert TrimStart(f) == TrimStart(f[1..]);
        FoldTrimStart(s[1..]);
      } else {
        assert TrimStart(s) == s;
        assert TrimStart(f) == f;
      }
    }
  }

  lemma {:induction false} FoldTrimEnd(s: string)
    ensures Fold(TrimEnd(s)) == TrimEnd(Fold(s))
    decreases |s|
  {
    var f := Fold(s);
    if |s| > 0 {
      var n := |s| - 1;
      assert f[n] == Lower(s[n]);
      LowerKeepsWhitespace(s[n]);
      if IsWhitespace(s[n]) {
        assert f[..n] == Fold(s[..n]);
        assert TrimEnd(s) == TrimEnd(s[..n]);
        assert TrimEnd(f) == TrimEnd(f[..n]);
        FoldTrimEnd(s[..n]);
      } else {
        assert TrimEnd(s) == s;
        assert TrimEnd(f) == f;
      }
    }
  }
}
