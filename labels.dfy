/** The transition-label map: every (start label, end label) pair of the taxonomy gets
    the integer code `i * m + j`, where `m` is the least power of ten that is at least
    the number of labels. The map is a Python dict filled in row-major order, so it is
    modelled as its items in insertion order; written as JSON its keys become decimal
    strings, and it is read back as such. */
module TransitionCodes {
  import opened Wrappers
  import opened Decimal

  type LabelPair = (string, string)

  // ---- the multiplier ----

  predicate IsPow10(m: nat)
  {
    m == 1 || (m >= 10 && m % 10 == 0 && IsPow10(m / 10))
  }

  function LeastPow10From(n: nat, p: nat): (m: nat)
    requires IsPow10(p) && (p == 1 || p / 10 < n)
    ensures IsPow10(m) && m >= n && m >= p && (m == 1 || m / 10 < n)
    decreases n - p
  {
    if p >= n then p else LeastPow10From(n, 10 * p)
  }

  /** `10 ** ceil(log10(n))`, written as the least power of ten that is at least `n`.
      For an empty taxonomy no code is ever computed; the model then uses 1. */
  function Multiplier(n: nat): (m: nat)
    ensures IsPow10(m) && m >= 1 && m >= n
    ensures m == 1 || m / 10 < n
  {
    LeastPow10From(n, 1)
  }

  /** The code of the pair at taxonomy indices (i, j). */
  function Encode(i: nat, j: nat, m: nat): nat
  {
    i * m + j
  }

  /** Division and remainder by `m` recover both indices from a code. */
  lemma EncodeDecode(i: nat, j: nat, m: nat)
    requires j < m
    ensures Encode(i, j, m) / m == i && Encode(i, j, m) % m == j
  {
    var k := i * m + j;
    var q, r := k / m, k % m;
    assert k == q * m + r;
    if q < i {
      MulMono(q, i - 1, m);
      assert false;
    } else if q > i {
      MulMono(i + 1, q, m);
      assert false;
    }
  }

  lemma MulMono(a: nat, b: nat, m: nat)
    requires a <= b
    ensures a * m <= b * m
  {
  }

  /** No two pairs of indices below `m` share a code. */
  lemma EncodeInjective(i: nat, j: nat, i': nat, j': nat, m: nat)
    requires j < m && j' < m
    requires Encode(i, j, m) == Encode(i', j', m)
    ensures i == i' && j == j'
  {
    EncodeDecode(i, j, m);
    EncodeDecode(i', j', m);
  }

  /** Codes grow with the pair in row-major order. */
  lemma {:induction false} EncodeIncreasing(i: nat, j: nat, i': nat, j': nat, m: nat)
    requires j < m && j' < m
    requires i < i' || (i == i' && j < j')
    ensures Encode(i, j, m) < Encode(i', j', m)
  {
    if i < i' {
      MulMono(i + 1, i', m);
      assert (i + 1) * m == i * m + m;
    }
  }

  // ---- the map as its items in insertion order ----

  /** The item the loops insert for the pair (i, j). */
  function Item(labels: seq<string>, m: nat, i: nat, j: nat): (int, LabelPair)
    requires i < |labels| && j < |labels|
  {
    (Encode(i, j, m), (labels[i], labels[j]))
  }

  /** The items of row `i` for end indices 0 .. j-1. */
  function Row(labels: seq<string>, m: nat, i: nat, j: nat): (r: seq<(int, LabelPair)>)
    requires i < |labels| && j <= |labels|
    ensures |r| == j
  {
    if j == 0 then [] else Row(labels, m, i, j - 1) + [Item(labels, m, i, j - 1)]
  }

  /** The items of rows 0 .. i-1. */
  function Rows(labels: seq<string>, m: nat, i: nat): (r: seq<(int, LabelPair)>)
    requires i <= |labels|
  {
    if i == 0 then [] else Rows(labels, m, i - 1) + Row(labels, m, i - 1, |labels|)
  }

  /** Every item of `transition_label_map`, in the order the nested loops insert them. */
  function Entries(labels: seq<string>): seq<(int, LabelPair)>
  {
    Rows(labels, Multiplier(|labels|), |labels|)
  }

  predicate KeysIncreasing<V>(items: seq<(int, V)>)
  {
    forall p, q :: 0 <= p < q < |items| ==> items[p].0 < items[q].0
  }

  /** Every item's code decodes, by division and remainder, to the indices of its labels. */
  predicate WellCoded(labels: seq<string>, m: nat, items: seq<(int, LabelPair)>)
  {
    m > 0 &&
    forall q :: 0 <= q < |items| ==>
      && 0 <= items[q].0
      && items[q].0 / m < |labels| && items[q].0 % m < |labels|
      && items[q].1 == (labels[items[q].0 / m], labels[items[q].0 % m])
  }

  /** Row `i` up to `j`: increasing codes in [i*m, i*m + j), each decoding to its pair,
      and holding the pair (i, k) for every k < j. */
  lemma {:induction false} RowFacts(labels: seq<string>, m: nat, i: nat, j: nat)
    requires i < |labels| && j <= |labels| <= m && m >= 1
    ensures KeysIncreasing(Row(labels, m, i, j))
    ensures WellCoded(labels, m, Row(labels, m, i, j))
    ensures forall q :: 0 <= q < j ==> Row(labels, m, i, j)[q] == Item(labels, m, i, q)
    ensures forall q :: 0 <= q < j ==> i * m <= Row(labels, m, i, j)[q].0 < i * m + j
  {
    if j > 0 {
      RowFacts(labels, m, i, j - 1);
      EncodeDecode(i, j - 1, m);
    }
  }

  /** Rows before `i`: increasing codes below i*m, each decoding to its pair; i*N items. */
  lemma {:induction false} RowsFacts(labels: seq<string>, m: nat, i: nat)
    requires i <= |labels| <= m && m >= 1
    ensures KeysIncreasing(Rows(labels, m, i))
    ensures WellCoded(labels, m, Rows(labels, m, i))
    ensures forall q :: 0 <= q < |Rows(labels, m, i)| ==> 0 <= Rows(labels, m, i)[q].0 < i * m
    ensures |Rows(labels, m, i)| == i * |labels|
  {
    if i > 0 {
      var n := |labels|;
      RowsFacts(labels, m, i - 1);
      RowFacts(labels, m, i - 1, n);
      assert (i - 1) * m + n <= i * m;
      assert (i - 1) * n + n == i * n;
      AppendCoded(labels, m, Rows(labels, m, i - 1), Row(labels, m, i - 1, n), (i - 1) * m, i * m);
    }
  }

  /** Two runs of increasing, well-coded items, the second above the first, laid end to end. */
  lemma AppendCoded(labels: seq<string>, m: nat, before: seq<(int, LabelPair)>, row: seq<(int, LabelPair)>,
                    lo: int, hi: int)
    requires KeysIncreasing(before) && KeysIncreasing(row)
    requires WellCoded(labels, m, before) && WellCoded(labels, m, row)
    requires forall q :: 0 <= q < |before| ==> 0 <= before[q].0 < lo
    requires lo <= hi && forall q :: 0 <= q < |row| ==> lo <= row[q].0 < hi
    ensures KeysIncreasing(before + row) && WellCoded(labels, m, before + row)
    ensures forall q :: 0 <= q < |before + row| ==> 0 <= (before + row)[q].0 < hi
  {
    var all := before + row;
    assert forall q :: 0 <= q < |before| ==> all[q] == before[q];
    assert forall q :: |before| <= q < |all| ==> all[q] == row[q - |before|];
    forall p, q | 0 <= p < q < |all| ensures all[p].0 < all[q].0 {
      if q < |before| {
        assert all[p] == before[p] && all[q] == before[q];
      } else if p >= |before| {
        assert all[p] == row[p - |before|] && all[q] == row[q - |before|];
      } else {
        assert all[p] == before[p] && all[q] == row[q - |before|];
      }
    }
  }

  /** Rows before `i` hold the pair (a, b) for every a < i and b < N. */
  lemma {:induction false} RowsHold(labels: seq<string>, m: nat, i: nat)
    requires i <= |labels| <= m && m >= 1
    ensures forall a, b :: 0 <= a < i && 0 <= b < |labels| ==> Item(labels, m, a, b) in Rows(labels, m, i)
  {
    if i > 0 {
      var n := |labels|;
      RowsHold(labels, m, i - 1);
      var before, row := Rows(labels, m, i - 1), Row(labels, m, i - 1, n);
      assert forall q :: 0 <= q < n ==> row[q] == Item(labels, m, i - 1, q) by {
        RowFacts(labels, m, i - 1, n);
      }
      assert Rows(labels, m, i) == before + row;
      RowsHoldStep(labels, m, i, before, row);
    }
  }

  lemma RowsHoldStep(labels: seq<string>, m: nat, i: nat, before: seq<(int, LabelPair)>, row: seq<(int, LabelPair)>)
    requires 0 < i <= |labels| && |row| == |labels|
    requires forall a, b :: 0 <= a < i - 1 && 0 <= b < |labels| ==> Item(labels, m, a, b) in before
    requires forall q :: 0 <= q < |labels| ==> row[q] == Item(labels, m, i - 1, q)
    ensures forall a, b :: 0 <= a < i && 0 <= b < |labels| ==> Item(labels, m, a, b) in before + row
  {
    forall a, b | 0 <= a < i && 0 <= b < |labels|
      ensures Item(labels, m, a, b) in before + row
    {
      if a == i - 1 { assert (before + row)[|before| + b] == Item(labels, m, a, b); }
      else { assert Item(labels, m, a, b) in before; }
    }
  }

  /** All the codes of the map strictly increase in insertion order, every code decodes
      to its pair, and the map holds the pair (i, j) under `Encode(i, j)`. */
  lemma EntriesFacts(labels: seq<string>)
    ensures KeysIncreasing(Entries(labels))
    ensures WellCoded(labels, Multiplier(|labels|), Entries(labels))
    ensures |Entries(labels)| == |labels| * |labels|
    ensures forall i, j :: 0 <= i < |labels| && 0 <= j < |labels| ==>
              Item(labels, Multiplier(|labels|), i, j) in Entries(labels)
  {
    RowsFacts(labels, Multiplier(|labels|), |labels|);
    RowsHold(labels, Multiplier(|labels|), |labels|);
  }

  predicate HasKey<V>(items: seq<(int, V)>, key: int)
  {
    exists q :: 0 <= q < |items| && items[q].0 == key
  }

  /** The code of (i, j) is not among the codes inserted before it. */
  lemma NewKeyIsFresh(labels: seq<string>, m: nat, i: nat, j: nat)
    requires i < |labels| && j < |labels| <= m
    ensures !HasKey(Rows(labels, m, i) + Row(labels, m, i, j), Encode(i, j, m))
  {
    RowsFacts(labels, m, i);
    RowFacts(labels, m, i, j);
    var before, row := Rows(labels, m, i), Row(labels, m, i, j);
    var all: seq<(int, LabelPair)> := before + row;
    forall q | 0 <= q < |all|
      ensures all[q].0 != Encode(i, j, m)
    {
      if q < |before| { assert all[q] == before[q]; }
      else { assert all[q] == row[q - |before|]; }
    }
  }

  /** `transition_label_map` (and its copy in the small-region module): the nested loops
      that fill the dict, with the duplicate-key check that raises ValueError. The check
      never fires: the result is always every item, in row-major order, N*N of them. */
  method TransitionLabelMap(labels: seq<string>) returns (r: Result<seq<(int, LabelPair)>>)
    ensures r == Ok(Entries(labels))
    ensures |r.value| == |labels| * |labels|
  {
    var n := |labels|;
    var m := Multiplier(n);
    var out: seq<(int, LabelPair)> := [];
    var i := 0;
    while i < n
      invariant 0 <= i <= n
      invariant out == Rows(labels, m, i)
    {
      RowsFacts(labels, m, i);
      var j := 0;
      while j < n
        invariant 0 <= j <= n
        invariant out == Rows(labels, m, i) + Row(labels, m, i, j)
      {
        var key := i * m + j;
        NewKeyIsFresh(labels, m, i, j);
        if HasKey(out, key) {
          return Err(ValueError("Key " + Show(key) + " already exists in the dictionary."));
        }
        out := out + [(key, (labels[i], labels[j]))];
        j := j + 1;
      }
      i := i + 1;
    }
    RowsFacts(labels, m, n);
    r := Ok(out);
  }

  // ---- dict lookup, the JSON round trip and the inverse map ----

  /** `d[key]` on a dict given by its items; a later item wins, as in a dict rebuilt from them. */
  function Lookup<K(==), V>(items: seq<(K, V)>, key: K): (r: Option<V>)
    ensures r.Some? <==> exists q :: 0 <= q < |items| && items[q].0 == key
  {
    if |items| == 0 then None
    else if items[|items| - 1].0 == key then Some(items[|items| - 1].1)
    else
      var r := Lookup(items[..|items| - 1], key);
      assert forall q :: 0 <= q < |items| - 1 ==> items[..|items| - 1][q] == items[q];
      r
  }

  /** What `json.dump` writes and `json.load` reads back: the same items with each
      integer key replaced by its decimal string. */
  function Dump<V>(items: seq<(int, V)>): (r: seq<(string, V)>)
    ensures |r| == |items|
    ensures forall q :: 0 <= q < |items| ==> r[q] == (Show(items[q].0), items[q].1)
  {
    seq(|items|, q requires 0 <= q < |items| => (Show(items[q].0), items[q].1))
  }

  /** Looking up `str(k)` in the loaded JSON is looking up `k` in the dict that was written. */
  lemma {:induction false} LookupDump<V>(items: seq<(int, V)>, k: int)
    ensures Lookup(Dump(items), Show(k)) == Lookup(items, k)
  {
    if |items| > 0 {
      var last := |items| - 1;
      ShowInjective(items[last].0, k);
      assert Dump(items)[..last] == Dump(items[..last]);
      LookupDump(items[..last], k);
    }
  }

  /** `{tuple(value): int(key) for key, value in transition_label_map.items()}`; a key that
      is not a decimal integer makes `int` raise ValueError. */
  function Inverse(loaded: seq<(string, LabelPair)>): (r: Result<map<LabelPair, int>>)
    ensures r.Ok? ==> r.value.Keys == (set q | 0 <= q < |loaded| :: loaded[q].1)
  {
    if |loaded| == 0 then Ok(map[])
    else
      var last := loaded[|loaded| - 1];
      match Inverse(loaded[..|loaded| - 1])
      case Err(e) => Err(e)
      case Ok(prev) =>
        match ParseInt(last.0)
        case Err(e) => Err(e)
        case Ok(k) =>
          var r := prev[last.1 := k];
          assert r.Keys == (set q | 0 <= q < |loaded| :: loaded[q].1) by {
            assert forall q :: 0 <= q < |loaded| - 1 ==> loaded[..|loaded| - 1][q] == loaded[q];
          }
          Ok(r)
  }

  predicate DistinctValues<V(==)>(items: seq<(int, V)>)
  {
    forall p, q :: 0 <= p < q < |items| ==> items[p].1 != items[q].1
  }

  lemma DistinctValuesPrefix<V>(items: seq<(int, V)>, n: nat)
    requires DistinctValues(items) && n <= |items|
    ensures DistinctValues(items[..n])
  {
    forall p, q | 0 <= p < q < n ensures items[..n][p].1 != items[..n][q].1 {
      assert items[..n][p] == items[p] && items[..n][q] == items[q];
    }
  }

  /** When no value repeats, the inverse of the loaded map sends each value back to the
      integer it was stored under. */
  lemma {:induction false} InverseOfDump(items: seq<(int, LabelPair)>)
    requires DistinctValues(items)
    ensures Inverse(Dump(items)).Ok?
    ensures forall q :: 0 <= q < |items| ==>
              items[q].1 in Inverse(Dump(items)).value && Inverse(Dump(items)).value[items[q].1] == items[q].0
  {
    if |items| > 0 {
      var last := |items| - 1;
      var init := items[..last];
      DistinctValuesPrefix(items, last);
      InverseOfDump(init);
      var prev := Inverse(Dump(init)).value;
      var inv := prev[items[last].1 := items[last].0];
      assert Inverse(Dump(items)) == Ok(inv) by {
        assert Dump(items)[..last] == Dump(init);
        assert Dump(items)[last] == (Show(items[last].0), items[last].1);
        ParseShow(items[last].0);
      }
      forall q | 0 <= q < last
        ensures items[q].1 in inv && inv[items[q].1] == items[q].0
      {
        assert init[q] == items[q];
      }
    }
  }

  /** Exactness of the inverse: `inv[v] == k` exactly when the item stored under `str(k)`
      is `v`. */
  lemma InverseExact(items: seq<(int, LabelPair)>, v: LabelPair, k: int)
    requires DistinctValues(items)
    requires forall p, q :: 0 <= p < q < |items| ==> items[p].0 != items[q].0
    ensures Inverse(Dump(items)).Ok?
    ensures (v in Inverse(Dump(items)).value && Inverse(Dump(items)).value[v] == k)
            <==> Lookup(Dump(items), Show(k)) == Some(v)
  {
    InverseOfDump(items);
    LookupDump(items, k);
    var inv := Inverse(Dump(items)).value;
    if v in inv && inv[v] == k {
      var q :| 0 <= q < |items| && Dump(items)[q].1 == v;
      LookupUnique(items, q);
    }
    if Lookup(items, k) == Some(v) {
      var q := LookupWitness(items, k);
      assert items[q].1 == v;
    }
  }

  /** With distinct keys, the item at position `q` is what its key looks up. */
  lemma {:induction false} LookupUnique<V>(items: seq<(int, V)>, q: nat)
    requires q < |items|
    requires forall p, p' :: 0 <= p < p' < |items| ==> items[p].0 != items[p'].0
    ensures Lookup(items, items[q].0) == Some(items[q].1)
  {
    var last := |items| - 1;
    if q < last {
      assert items[..last][q] == items[q];
      LookupUnique(items[..last], q);
    }
  }

  /** A successful lookup returns the value of some item with that key. */
  lemma {:induction false} LookupWitness<K, V>(items: seq<(K, V)>, k: K) returns (q: nat)
    requires Lookup(items, k).Some?
    ensures q < |items| && items[q].0 == k && Lookup(items, k) == Some(items[q].1)
  {
    var last := |items| - 1;
    if items[last].0 == k {
      q := last;
    } else {
      q := LookupWitness(items[..last], k);
    }
  }

  // ---- facts about the label map ----

  predicate Distinct(labels: seq<string>)
  {
    forall i, j :: 0 <= i < j < |labels| ==> labels[i] != labels[j]
  }

  lemma DistinctAt(labels: seq<string>, a: nat, b: nat)
    requires Distinct(labels) && a < |labels| && b < |labels|
    ensures labels[a] == labels[b] ==> a == b
  {
    if a < b { assert labels[a] != labels[b]; }
    if b < a { assert labels[b] != labels[a]; }
  }

  lemma KeysIncreasingDistinct<V>(items: seq<(int, V)>)
    requires KeysIncreasing(items)
    ensures forall p, q :: 0 <= p < q < |items| ==> items[p].0 != items[q].0
  {
  }

  /** Two codes that decode to the same pair of distinct labels are the same code. */
  lemma SamePairSameCode(labels: seq<string>, m: nat, k1: int, k2: int)
    requires Distinct(labels) && m > 0 && 0 <= k1 && 0 <= k2
    requires k1 / m < |labels| && k1 % m < |labels| && k2 / m < |labels| && k2 % m < |labels|
    requires (labels[k1 / m], labels[k1 % m]) == (labels[k2 / m], labels[k2 % m])
    ensures k1 == k2
  {
    DistinctAt(labels, k1 / m, k2 / m);
    DistinctAt(labels, k1 % m, k2 % m);
    assert k1 == (k1 / m) * m + k1 % m && k2 == (k2 / m) * m + k2 % m;
  }

  /** With distinct labels, no pair is stored twice. */
  lemma EntriesValuesDistinct(labels: seq<string>)
    requires Distinct(labels)
    ensures DistinctValues(Entries(labels))
  {
    var m := Multiplier(|labels|);
    var e := Entries(labels);
    EntriesFacts(labels);
    forall p, q | 0 <= p < q < |e|
      ensures e[p].1 != e[q].1
    {
      if e[p].1 == e[q].1 {
        SamePairSameCode(labels, m, e[p].0, e[q].0);
      }
    }
  }

  /** With distinct codes, an item's value is what its code looks up. */
  lemma {:induction false} LookupMember<V>(items: seq<(int, V)>, k: int, v: V)
    requires (k, v) in items
    requires forall p, p' :: 0 <= p < p' < |items| ==> items[p].0 != items[p'].0
    ensures Lookup(items, k) == Some(v)
  {
    var q :| 0 <= q < |items| && items[q] == (k, v);
    LookupUnique(items, q);
  }

  lemma LookupCode(labels: seq<string>, i: nat, j: nat)
    requires i < |labels| && j < |labels|
    ensures Lookup(Entries(labels), Encode(i, j, Multiplier(|labels|))) == Some((labels[i], labels[j]))
  {
    var m := Multiplier(|labels|);
    EntriesFacts(labels);
    KeysIncreasingDistinct(Entries(labels));
    assert Item(labels, m, i, j) in Entries(labels);
    LookupMember(Entries(labels), Encode(i, j, m), (labels[i], labels[j]));
  }

  /** Every pair (i, j) gets the code `i * m + j`, division and remainder by the multiplier
      give back i and j, and the code looks up `[labels[i], labels[j]]` both in the dict and,
      as `str(code)`, in its JSON form. */
  lemma DecodeCode(labels: seq<string>, i: nat, j: nat)
    requires i < |labels| && j < |labels|
    ensures var m := Multiplier(|labels|);
            && Encode(i, j, m) / m == i && Encode(i, j, m) % m == j
            && Lookup(Entries(labels), Encode(i, j, m)) == Some((labels[i], labels[j]))
            && Lookup(Dump(Entries(labels)), Show(Encode(i, j, m))) == Some((labels[i], labels[j]))
  {
    var m := Multiplier(|labels|);
    EncodeDecode(i, j, m);
    LookupCode(labels, i, j);
    LookupDump(Entries(labels), Encode(i, j, m));
  }

  /** Code 0 is the pair (labels[0], labels[0]): it is the first item inserted. */
  lemma CodeZero(labels: seq<string>)
    requires |labels| > 0
    ensures Entries(labels)[0] == (0, (labels[0], labels[0]))
    ensures Lookup(Dump(Entries(labels)), "0") == Some((labels[0], labels[0]))
  {
    var m := Multiplier(|labels|);
    EntriesFacts(labels);
    RowsFacts(labels, m, 0);
    RowFacts(labels, m, 0, |labels|);
    assert Entries(labels) == Rows(labels, m, |labels|);
    RowsPrefix(labels, m, 1, |labels|);
    DecodeCode(labels, 0, 0);
    assert Show(0) == "0";
  }

  /** Later rows only append to earlier ones. */
  lemma {:induction false} RowsPrefix(labels: seq<string>, m: nat, i: nat, i': nat)
    requires i <= i' <= |labels|
    ensures Rows(labels, m, i) <= Rows(labels, m, i')
  {
    if i < i' { RowsPrefix(labels, m, i, i' - 1); }
  }

  /** The inverse of the loaded map gives each pair of distinct labels its code. */
  lemma InverseGivesCode(labels: seq<string>, i: nat, j: nat)
    requires Distinct(labels)
    requires i < |labels| && j < |labels|
    ensures Inverse(Dump(Entries(labels))).Ok?
    ensures var inv := Inverse(Dump(Entries(labels))).value;
            (labels[i], labels[j]) in inv && inv[(labels[i], labels[j])] == Encode(i, j, Multiplier(|labels|))
  {
    EntriesValuesDistinct(labels);
    InverseOfDump(Entries(labels));
    EntriesFacts(labels);
    var q :| 0 <= q < |Entries(labels)| && Entries(labels)[q] == Item(labels, Multiplier(|labels|), i, j);
  }

  /** A code found in the loaded map decodes to the pair (i, j) exactly when it is the code
      of (i, j): no other code stands for that pair. */
  lemma DecodeExact(labels: seq<string>, t: int, i: nat, j: nat)
    requires Distinct(labels) && i < |labels| && j < |labels|
    requires Lookup(Dump(Entries(labels)), Show(t)).Some?
    ensures Lookup(Dump(Entries(labels)), Show(t)).value == (labels[i], labels[j])
            <==> t == Encode(i, j, Multiplier(|labels|))
  {
    if Lookup(Dump(Entries(labels)), Show(t)).value == (labels[i], labels[j]) {
      DecodedCode(labels, t, i, j);
    } else {
      DecodeCode(labels, i, j);
    }
  }

  lemma DecodedCode(labels: seq<string>, t: int, i: nat, j: nat)
    requires Distinct(labels) && i < |labels| && j < |labels|
    requires Lookup(Dump(Entries(labels)), Show(t)) == Some((labels[i], labels[j]))
    ensures t == Encode(i, j, Multiplier(|labels|))
  {
    LookupDump(Entries(labels), t);
    var q := LookupWitness(Entries(labels), t);
    EntriesWellCoded(labels);
    EntryCode(labels, Multiplier(|labels|), Entries(labels)[q], i, j);
  }

  /** A well-coded item holding the pair (i, j) of distinct labels has the code of (i, j). */
  lemma EntryCode(labels: seq<string>, m: nat, item: (int, LabelPair), i: nat, j: nat)
    requires Distinct(labels) && i < |labels| && j < |labels| && m > 0
    requires 0 <= item.0 && item.0 / m < |labels| && item.0 % m < |labels|
    requires item.1 == (labels[item.0 / m], labels[item.0 % m]) == (labels[i], labels[j])
    ensures item.0 == Encode(i, j, m)
  {
    DistinctAt(labels, item.0 / m, i);
    DistinctAt(labels, item.0 % m, j);
    CodeOfQuotient(item.0, m);
  }

  lemma EntriesWellCoded(labels: seq<string>)
    ensures WellCoded(labels, Multiplier(|labels|), Entries(labels))
  {
    RowsFacts(labels, Multiplier(|labels|), |labels|);
  }

  lemma CodeOfQuotient(t: nat, m: nat)
    requires m > 0
    ensures t == Encode(t / m, t % m, m)
  {
  }
}
