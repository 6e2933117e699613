/** `year_to_band_name`: the band of a yearly raster is "b" followed by the year's offset
    from 1999, so that 2000 is band "b1". */
module Bands {
  import opened Wrappers
  import opened Decimal

  /** The argument is either an int or a string that is parsed with `int` first. */
  datatype YearArg = IntYear(year: int) | StrYear(text: string)

  function BandOfYear(year: int): string
  {
    "b" + Show(year - 1999)
  }

  function YearToBandName(arg: YearArg): (r: Result<string>)
    ensures arg.IntYear? ==> r.Ok?
    ensures r.Ok? ==> |r.value| > 1 && r.value[0] == 'b'
  {
    match arg
    case IntYear(y) => Ok(BandOfYear(y))
    case StrYear(s) =>
      match ParseInt(s)
      case Ok(y) => Ok(BandOfYear(y))
      case Err(e) => Err(e)
  }

  /** The band number written after "b" reads back as the year minus 1999. */
  lemma BandNumber(year: int)
    ensures var name := YearToBandName(IntYear(year)).value;
            ParseInt(name[1..]) == Ok(year - 1999)
  {
    var name := YearToBandName(IntYear(year)).value;
    assert name[1..] == Show(year - 1999);
    ParseShow(year - 1999);
  }

  /** A year given as its decimal string names the same band as the int. */
  lemma StringYearAgrees(year: int)
    ensures YearToBandName(StrYear(Show(year))) == YearToBandName(IntYear(year))
  {
    ParseShow(year);
  }

  /** Different years name different bands. */
  lemma BandNameInjective(y1: int, y2: int)
    requires YearToBandName(IntYear(y1)) == YearToBandName(IntYear(y2))
    ensures y1 == y2
  {
    BandNumber(y1);
    BandNumber(y2);
  }

  /** 2000 is band "b1", and the next year has the next band number. */
  lemma BandsAreConsecutive(year: int)
    ensures YearToBandName(IntYear(2000)) == Ok("b1")
    ensures var a := YearToBandName(IntYear(year)).value;
            var b := YearToBandName(IntYear(year + 1)).value;
            ParseInt(b[1..]).Ok? && ParseInt(a[1..]).Ok?
            && ParseInt(b[1..]).value == ParseInt(a[1..]).value + 1
  {
    BandNumber(year);
    BandNumber(year + 1);
    assert DigitChar(1) == '1';
    assert ShowNat(1) == "1";
    assert Show(1) == "1";
    assert BandOfYear(2000) == "b" + Show(1) == "b1";
  }
}
