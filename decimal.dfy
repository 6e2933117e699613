/** Decimal rendering and parsing of integers, as Python's `str(int)` and `int(str)`
    do them on plain decimal text, and splitting a string on a one-character separator. */
module Decimal {
  import opened Wrappers

  predicate IsDigit(c: char) { '0' <= c <= '9' }

  function DigitChar(d: nat): (c: char)
    requires d < 10
    ensures IsDigit(c) && c as int - '0' as int == d
  {
    ['0', '1', '2', '3', '4', '5', '6', '7', '8', '9'][d]
  }

  /** `str(n)` for a natural number: no sign, no leading zero. */
  function ShowNat(n: nat): (s: string)
    ensures |s| > 0 && forall k :: 0 <= k < |s| ==> IsDigit(s[k])
    ensures |s| > 1 ==> s[0] != '0'
    ensures |s| == 1 <==> n < 10
  {
    if n < 10 then [DigitChar(n)] else ShowNat(n / 10) + [DigitChar(n % 10)]
  }

  predicate AllDigits(s: string) { forall k :: 0 <= k < |s| ==> IsDigit(s[k]) }

  /** The value of a string of decimal digits (leading zeros allowed, as in `int("007")`). */
  function DigitsValue(s: string): nat
    requires AllDigits(s)
  {
    if |s| == 0 then 0
    else DigitsValue(s[..|s| - 1]) * 10 + (s[|s| - 1] as int - '0' as int)
  }

  /** `str(n)` for any integer: a minus sign before the digits of a negative number. */
  function Show(n: int): (s: string)
    ensures |s| > 0
  {
    if n < 0 then "-" + ShowNat(-n) else ShowNat(n)
  }

  /** `int(s)` restricted to an optional minus sign followed by one or more digits;
      anything else is the ValueError Python raises. */
  function ParseInt(s: string): (r: Result<int>)
    ensures r.Ok? <==> (|s| > 0 && ((s[0] == '-' && |s| > 1 && AllDigits(s[1..])) || AllDigits(s)))
  {
    if |s| > 0 && s[0] == '-' && |s| > 1 && AllDigits(s[1..]) then Ok(0 - DigitsValue(s[1..]) as int)
    else if |s| > 0 && AllDigits(s) then Ok(DigitsValue(s))
    else Err(ValueError("invalid literal for int(): " + s))
  }

  lemma {:induction false} DigitsValueOfShowNat(n: nat)
    ensures DigitsValue(ShowNat(n)) == n
  {
    if n >= 10 {
      var s := ShowNat(n);
      assert s[..|s| - 1] == ShowNat(n / 10);
      DigitsValueOfShowNat(n / 10);
    }
  }

  /** `int(str(n)) == n` for every integer. */
  lemma ParseShow(n: int)
    ensures ParseInt(Show(n)) == Ok(n)
  {
    if n < 0 {
      var t := ShowNat(-n);
      assert Show(n) == "-" + t;
      ParseDigits(t);
      assert ParseInt(Show(n)) == Ok(0 - DigitsValue(t));
      DigitsValueOfShowNat(-n);
    } else {
      ParseDigits(ShowNat(n));
      DigitsValueOfShowNat(n);
    }
  }

  /** A run of digits parses to its value, and to the negated value after a minus sign. */
  lemma ParseDigits(t: string)
    requires |t| > 0 && AllDigits(t)
    ensures ParseInt(t) == Ok(DigitsValue(t))
    ensures ParseInt("-" + t) == Ok(0 - DigitsValue(t))
  {
    assert IsDigit(t[0]);
    assert ("-" + t)[0] == '-' && ("-" + t)[1..] == t;
  }

  /** `str(n)` holds only digits and a leading minus, so no other character occurs in it. */
  lemma ShowAvoids(n: int, c: char)
    requires !IsDigit(c) && c != '-'
    ensures c !in Show(n)
  {
    var s := Show(n);
    if n < 0 {
      assert forall k :: 1 <= k < |s| ==> s[k] == ShowNat(-n)[k - 1];
    }
    assert forall k :: 0 <= k < |s| ==> s[k] != c;
  }

  /** `str` is injective on integers, so two keys that print alike are equal. */
  lemma ShowInjective(a: int, b: int)
    ensures Show(a) == Show(b) ==> a == b
  {
    ParseShow(a);
    ParseShow(b);
  }

  /** `s.split(sep)`: the maximal pieces of `s` between occurrences of `sep`. */
  function Split(s: string, sep: char): (parts: seq<string>)
    ensures |parts| > 0
    ensures forall k :: 0 <= k < |parts| ==> sep !in parts[k]
  {
    if |s| == 0 then [""]
    else
      var rest := Split(s[1..], sep);
      if s[0] == sep then [""] + rest
      else [[s[0]] + rest[0]] + rest[1..]
  }

  /** The join that `Split` undoes: pieces separated by `sep`. */
  function Join(parts: seq<string>, sep: char): string
    requires |parts| > 0
  {
    if |parts| == 1 then parts[0] else parts[0] + [sep] + Join(parts[1..], sep)
  }

  /** Splitting a string that holds no separator gives the string itself. */
  lemma {:induction false} SplitNoSep(s: string, sep: char)
    requires sep !in s
    ensures Split(s, sep) == [s]
  {
    if |s| > 0 {
      assert sep !in s[1..];
      SplitNoSep(s[1..], sep);
      assert [s[0]] + s[1..] == s;
    }
  }

  /** Splitting `a + sep + rest` gives `a` followed by the pieces of `rest`. */
  lemma {:induction false} SplitCons(a: string, rest: string, sep: char)
    requires sep !in a
    ensures Split(a + [sep] + rest, sep) == [a] + Split(rest, sep)
  {
    var s := a + [sep] + rest;
    if |a| == 0 {
      assert s == [sep] + rest;
      assert s[1..] == rest;
    } else {
      assert s[1..] == a[1..] + [sep] + rest;
      assert sep !in a[1..];
      SplitCons(a[1..], rest, sep);
      assert [a[0]] + a[1..] == a;
    }
  }

  /** `Split` is the inverse of `Join` when no piece holds the separator. */
  lemma {:induction false} SplitJoin(parts: seq<string>, sep: char)
    requires |parts| > 0
    requires forall k :: 0 <= k < |parts| ==> sep !in parts[k]
    ensures Split(Join(parts, sep), sep) == parts
  {
    if |parts| == 1 {
      SplitNoSep(parts[0], sep);
    } else {
      SplitJoin(parts[1..], sep);
      SplitCons(parts[0], Join(parts[1..], sep), sep);
      assert [parts[0]] + parts[1..] == parts;
    }
  }

  /** `a, b = s.split(sep)`: exactly two pieces, else Python's unpacking ValueError. */
  function SplitTwo(s: string, sep: char): (r: Result<(string, string)>)
    ensures r.Ok? <==> |Split(s, sep)| == 2
    ensures r.Ok? ==> sep !in r.value.0 && sep !in r.value.1
  {
    var parts := Split(s, sep);
    if |parts| == 2 then Ok((parts[0], parts[1]))
    else Err(ValueError("expected two values to unpack"))
  }

  /** Splitting `a + sep + b` on `sep` gives back `(a, b)` when neither holds `sep`. */
  lemma SplitTwoJoin(a: string, b: string, sep: char)
    requires sep !in a && sep !in b
    ensures SplitTwo(a + [sep] + b, sep) == Ok((a, b))
  {
    SplitJoin([a, b], sep);
    assert Join([a, b], sep) == a + [sep] + Join([b], sep);
  }
}
