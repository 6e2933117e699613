/** Python's ordering of strings (code point by code point) and the sorts the tables use:
    `sorted(set(...))` of labels and of years, and a stable sort of (id, value) entries by id. */
module Sorting {

  /** `a < b` on Python strings: lexicographic on characters, a proper prefix first. */
  predicate LexLess(a: string, b: string)
  {
    if |a| == 0 then |b| > 0
    else |b| > 0 && (a[0] < b[0] || (a[0] == b[0] && LexLess(a[1..], b[1..])))
  }

  lemma {:induction false} LexLessIrreflexive(a: string)
    ensures !LexLess(a, a)
  {
    if |a| > 0 { LexLessIrreflexive(a[1..]); }
  }

  lemma {:induction false} LexLessTransitive(a: string, b: string, c: string)
    requires LexLess(a, b) && LexLess(b, c)
    ensures LexLess(a, c)
  {
    if |a| > 0 && a[0] == b[0] && b[0] == c[0] {
      LexLessTransitive(a[1..], b[1..], c[1..]);
    }
  }

  lemma {:induction false} LexLessTotal(a: string, b: string)
    requires a != b
    ensures LexLess(a, b) || LexLess(b, a)
  {
    if |a| > 0 && |b| > 0 && a[0] == b[0] {
      assert a == [a[0]] + a[1..] && b == [b[0]] + b[1..];
      LexLessTotal(a[1..], b[1..]);
    }
  }

  lemma LexLessAsymmetric(a: string, b: string)
    requires LexLess(a, b)
    ensures !LexLess(b, a)
  {
    if LexLess(b, a) {
      LexLessTransitive(a, b, a);
      LexLessIrreflexive(a);
    }
  }

  predicate StrictlySorted(s: seq<string>)
  {
    forall i, j :: 0 <= i < j < |s| ==> LexLess(s[i], s[j])
  }

  function Elements(s: seq<string>): set<string>
  {
    set x | x in s
  }

  /** Inserting `x` into a strictly sorted sequence, keeping it strictly sorted and
      without a duplicate. */
  function InsertString(x: string, s: seq<string>): (r: seq<string>)
    requires StrictlySorted(s)
    ensures StrictlySorted(r)
    ensures Elements(r) == Elements(s) + {x}
    ensures |r| > 0 && (LexLess(r[0], x) || r[0] == x || (|s| > 0 && r[0] == s[0]))
  {
    if |s| == 0 then [x]
    else if x == s[0] then s
    else if LexLess(x, s[0]) then
      PrependBelowHead(x, s);
      [x] + s
    else
      LexLessTotal(x, s[0]);
      SortedTail(s);
      var t := InsertString(x, s[1..]);
      PrependHead(s, x, t);
      [s[0]] + t
  }

  lemma SortedTail(s: seq<string>)
    requires StrictlySorted(s) && |s| > 0
    ensures StrictlySorted(s[1..])
  {
    forall i, j | 0 <= i < j < |s| - 1 ensures LexLess(s[1..][i], s[1..][j]) {
      assert s[1..][i] == s[i + 1] && s[1..][j] == s[j + 1];
    }
  }

  /** A string below the head of a strictly sorted sequence is below all of it. */
  lemma PrependBelowHead(x: string, s: seq<string>)
    requires StrictlySorted(s) && |s| > 0 && LexLess(x, s[0])
    ensures StrictlySorted([x] + s) && Elements([x] + s) == Elements(s) + {x}
  {
    forall y | y in Elements(s) ensures LexLess(x, y) {
      var j :| 0 <= j < |s| && s[j] == y;
      if j > 0 { LexLessTransitive(x, s[0], s[j]); }
    }
    PrependSorted(x, s);
  }

  /** The head of a strictly sorted sequence goes back in front of the tail with `x`
      inserted, when `x` comes after the head. */
  lemma PrependHead(s: seq<string>, x: string, t: seq<string>)
    requires StrictlySorted(s) && |s| > 0 && LexLess(s[0], x)
    requires StrictlySorted(t) && Elements(t) == Elements(s[1..]) + {x}
    ensures StrictlySorted([s[0]] + t) && Elements([s[0]] + t) == Elements(s) + {x}
  {
    assert s == [s[0]] + s[1..];
    assert Elements(s) == {s[0]} + Elements(s[1..]);
    forall y | y in Elements(t) ensures LexLess(s[0], y) {
      if y != x {
        var j :| 0 <= j < |s[1..]| && s[1..][j] == y;
        assert s[1..][j] == s[j + 1];
      }
    }
    PrependSorted(s[0], t);
  }

  /** A string below every element of a strictly sorted sequence extends it at the front. */
  lemma PrependSorted(a: string, t: seq<string>)
    requires StrictlySorted(t) && forall y :: y in Elements(t) ==> LexLess(a, y)
    ensures StrictlySorted([a] + t) && Elements([a] + t) == {a} + Elements(t)
  {
    var r := [a] + t;
    forall i, j | 0 <= i < j < |r| ensures LexLess(r[i], r[j]) {
      assert r[j] == t[j - 1] && t[j - 1] in Elements(t);
      if i > 0 { assert r[i] == t[i - 1]; }
    }
    assert r[1..] == t;
  }

  /** `sorted(set(s))`: the distinct elements of `s` in ascending order. */
  function SortedSet(s: seq<string>): (r: seq<string>)
    ensures StrictlySorted(r)
    ensures Elements(r) == Elements(s)
  {
    if |s| == 0 then []
    else
      assert Elements(s) == Elements(s[..|s| - 1]) + {s[|s| - 1]};
      InsertString(s[|s| - 1], SortedSet(s[..|s| - 1]))
  }

  /** A strictly sorted sequence is determined by its elements: any two with the same
      elements are equal. */
  lemma {:induction false} StrictlySortedUnique(a: seq<string>, b: seq<string>)
    requires StrictlySorted(a) && StrictlySorted(b)
    requires Elements(a) == Elements(b)
    ensures a == b
  {
    if |a| > 0 { assert a[0] in Elements(a); }
    if |b| > 0 { assert b[0] in Elements(b); }
    if |a| > 0 {
      assert a[0] in Elements(b) && b[0] in Elements(a);
      if a[0] != b[0] {
        var i :| 0 <= i < |b| && b[i] == a[0];
        var j :| 0 <= j < |a| && a[j] == b[0];
        assert i > 0 && j > 0;
        assert LexLess(b[0], a[0]) && LexLess(a[0], b[0]);
        LexLessAsymmetric(a[0], b[0]);
      }
      assert Elements(a[1..]) == Elements(a) - {a[0]} by {
        forall y | y in Elements(a[1..]) ensures y != a[0] {
          var k :| 0 <= k < |a[1..]| && a[1..][k] == y;
          assert LexLess(a[0], a[k + 1]);
          LexLessIrreflexive(a[0]);
        }
        assert a == [a[0]] + a[1..];
      }
      assert Elements(b[1..]) == Elements(b) - {b[0]} by {
        forall y | y in Elements(b[1..]) ensures y != b[0] {
          var k :| 0 <= k < |b[1..]| && b[1..][k] == y;
          assert LexLess(b[0], b[k + 1]);
          LexLessIrreflexive(b[0]);
        }
        assert b == [b[0]] + b[1..];
      }
      StrictlySortedUnique(a[1..], b[1..]);
      assert a == [a[0]] + a[1..] && b == [b[0]] + b[1..];
    }
  }

  /** A strictly sorted sequence holds no element twice. */
  lemma StrictlySortedDistinct(s: seq<string>, i: int, j: int)
    requires StrictlySorted(s) && 0 <= i < |s| && 0 <= j < |s| && i != j
    ensures s[i] != s[j]
  {
    if i < j { LexLessIrreflexive(s[i]); } else { LexLessIrreflexive(s[j]); }
  }

  // ---- integers ----

  predicate IntsStrictlySorted(s: seq<int>)
  {
    forall i, j :: 0 <= i < j < |s| ==> s[i] < s[j]
  }

  function InsertInt(x: int, s: seq<int>): (r: seq<int>)
    requires IntsStrictlySorted(s)
    ensures IntsStrictlySorted(r)
    ensures forall y :: y in r <==> y in s || y == x
    ensures |r| > 0 && (r[0] <= x || (|s| > 0 && r[0] == s[0]))
  {
    if |s| == 0 then [x]
    else if x == s[0] then s
    else if x < s[0] then [x] + s
    else
      var t := InsertInt(x, s[1..]);
      assert forall y :: y in s <==> y == s[0] || y in s[1..] by {
        assert s == [s[0]] + s[1..];
      }
      [s[0]] + t
  }

  /** `sorted(set(s))` on integers. */
  function SortedIntSet(s: seq<int>): (r: seq<int>)
    ensures IntsStrictlySorted(r)
    ensures forall y :: y in r <==> y in s
  {
    if |s| == 0 then []
    else
      assert forall y :: y in s <==> y in s[..|s| - 1] || y == s[|s| - 1] by {
        assert s == s[..|s| - 1] + [s[|s| - 1]];
      }
      InsertInt(s[|s| - 1], SortedIntSet(s[..|s| - 1]))
  }

  // ---- (id, value) entries, sorted by id ----

  predicate SortedByKey<V>(s: seq<(int, V)>)
  {
    forall i, j :: 0 <= i < j < |s| ==> s[i].0 <= s[j].0
  }

  /** Stable insertion of `e` behind every entry whose key is not larger. */
  function InsertByKey<V>(e: (int, V), s: seq<(int, V)>): (r: seq<(int, V)>)
    requires SortedByKey(s)
    ensures SortedByKey(r)
    ensures multiset(r) == multiset(s) + multiset{e}
    ensures |r| > 0 && (r[0] == e || (|s| > 0 && r[0] == s[0]))
  {
    if |s| == 0 then [e]
    else if e.0 < s[0].0 then [e] + s
    else
      var t := InsertByKey(e, s[1..]);
      assert s == [s[0]] + s[1..];
      KeysAtLeast(s[0].0, e, s[1..], t);
      [s[0]] + t
  }

  /** Entries that are `s` and `e` in some order all have keys at least `x` when those do. */
  lemma KeysAtLeast<V>(x: int, e: (int, V), s: seq<(int, V)>, t: seq<(int, V)>)
    requires multiset(t) == multiset(s) + multiset{e}
    requires x <= e.0 && forall k :: 0 <= k < |s| ==> x <= s[k].0
    ensures forall k :: 0 <= k < |t| ==> x <= t[k].0
  {
    forall k | 0 <= k < |t| ensures x <= t[k].0 {
      assert t[k] in multiset(t);
      if t[k] != e {
        assert t[k] in multiset(s);
        var q :| 0 <= q < |s| && s[q] == t[k];
      }
    }
  }

  /** `sort_index()` on a series: entries ordered by id, the same entries as before. */
  function SortByKey<V>(s: seq<(int, V)>): (r: seq<(int, V)>)
    ensures SortedByKey(r)
    ensures multiset(r) == multiset(s)
  {
    if |s| == 0 then []
    else
      assert s == s[..|s| - 1] + [s[|s| - 1]];
      InsertByKey(s[|s| - 1], SortByKey(s[..|s| - 1]))
  }
}
