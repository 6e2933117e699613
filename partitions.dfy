/** `year_partitions`: the static partition keys "Y_(Y+1)" for Y in 2000 .. 2021. */
module Partitions {
  import opened Wrappers
  import opened Decimal
  import opened Sorting

  const FirstYear: int := 2000
  const KeyCount: nat := 22

  function YearPairKey(year: int): string
  {
    Show(year) + "_" + Show(year + 1)
  }

  /** The keys of `count` consecutive years from `first`. */
  function PairKeysFrom(first: int, count: nat): (keys: seq<string>)
    ensures |keys| == count
    ensures forall k :: 0 <= k < count ==> keys[k] == YearPairKey(first + k)
  {
    seq(count, k => YearPairKey(first + k))
  }

  /** `[f"{year}_{year + 1}" for year in range(2000, 2022)]`. */
  function YearPartitionKeys(): (keys: seq<string>)
    ensures |keys| == KeyCount
    ensures forall k :: 0 <= k < |keys| ==> keys[k] == YearPairKey(FirstYear + k)
  {
    PairKeysFrom(FirstYear, KeyCount)
  }

  /** Splitting a key on "_" gives two years, the second one after the first. */
  lemma SplitYearPair(k: nat)
    requires k < KeyCount
    ensures var parts := SplitTwo(YearPartitionKeys()[k], '_');
            && parts.Ok?
            && ParseInt(parts.value.0) == Ok(FirstYear + k)
            && ParseInt(parts.value.1) == Ok(FirstYear + k + 1)
  {
    var y := FirstYear + k;
    ShowAvoids(y, '_');
    ShowAvoids(y + 1, '_');
    SplitTwoJoin(Show(y), Show(y + 1), '_');
    ParseShow(y);
    ParseShow(y + 1);
  }

  /** A whole key is not an `int` literal of this model: the "_" between the years
      is neither a digit nor a leading minus sign. */
  lemma KeyIsNoInt(k: nat)
    requires k < KeyCount
    ensures ParseInt(YearPartitionKeys()[k]).Err?
  {
    var y := FirstYear + k;
    var key := YearPartitionKeys()[k];
    var i := |Show(y)|;
    assert key == Show(y) + "_" + Show(y + 1);
    assert key[i] == '_' && i >= 1;
    assert !AllDigits(key);
    assert !AllDigits(key[1..]) by { assert key[1..][i - 1] == '_'; }
  }

  /** Years of the partition range print with four digits. */
  lemma FourDigits(n: int)
    requires 1000 <= n < 10000
    ensures |Show(n)| == 4
  {
    assert |ShowNat(n / 10 / 10)| == 2;
    assert |ShowNat(n / 10)| == 3;
  }

  /** On decimal strings of one length, the string order is the numeric order. */
  lemma {:induction false} ShowNatOrder(a: nat, b: nat)
    requires a < b && |ShowNat(a)| == |ShowNat(b)|
    ensures LexLess(ShowNat(a), ShowNat(b))
  {
    if a < 10 {
      assert ShowNat(a)[0] < ShowNat(b)[0];
    } else {
      assert |ShowNat(a / 10)| == |ShowNat(b / 10)|;
      if a / 10 < b / 10 {
        ShowNatOrder(a / 10, b / 10);
        LexLessSameLength(ShowNat(a / 10), ShowNat(b / 10), [DigitChar(a % 10)], [DigitChar(b % 10)]);
      } else {
        LexLessCommonPrefix(ShowNat(a / 10), [DigitChar(a % 10)], [DigitChar(b % 10)]);
      }
    }
  }

  /** A strict order between two strings of one length survives any suffixes. */
  lemma {:induction false} LexLessSameLength(u: string, v: string, x: string, y: string)
    requires |u| == |v| && LexLess(u, v)
    ensures LexLess(u + x, v + y)
  {
    if u[0] == v[0] {
      assert (u + x)[1..] == u[1..] + x && (v + y)[1..] == v[1..] + y;
      LexLessSameLength(u[1..], v[1..], x, y);
    }
  }

  /** A common prefix does not change the order of what follows. */
  lemma {:induction false} LexLessCommonPrefix(w: string, x: string, y: string)
    requires LexLess(x, y)
    ensures LexLess(w + x, w + y)
  {
    if |w| > 0 {
      assert (w + x)[1..] == w[1..] + x && (w + y)[1..] == w[1..] + y;
      LexLessCommonPrefix(w[1..], x, y);
    } else {
      assert w + x == x && w + y == y;
    }
  }

  /** The keys are distinct and ascending, both as strings and by their first year. */
  lemma KeysAscending(p: nat, q: nat)
    requires p < q < KeyCount
    ensures LexLess(YearPartitionKeys()[p], YearPartitionKeys()[q])
    ensures YearPartitionKeys()[p] != YearPartitionKeys()[q]
  {
    var keys := YearPartitionKeys();
    assert keys[p] == YearPairKey(FirstYear + p) && keys[q] == YearPairKey(FirstYear + q);
    KeyOrder(FirstYear + p, FirstYear + q);
    LexLessIrreflexive(keys[p]);
  }

  lemma KeyOrder(a: int, b: int)
    requires 1000 <= a < b < 9999
    ensures LexLess(YearPairKey(a), YearPairKey(b))
  {
    assert LexLess(Show(a), Show(b)) && |Show(a)| == |Show(b)| by {
      FourDigits(a);
      FourDigits(b);
      assert Show(a) == ShowNat(a) && Show(b) == ShowNat(b);
      ShowNatOrder(a, b);
    }
    LexLessSameLength(Show(a), Show(b), "_" + Show(a + 1), "_" + Show(b + 1));
    assert YearPairKey(a) == Show(a) + ("_" + Show(a + 1));
    assert YearPairKey(b) == Show(b) + ("_" + Show(b + 1));
  }
}
