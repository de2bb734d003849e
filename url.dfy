/** The canteens and `build_daily_url`: the address of a canteen's menu
    page for one day. */
module Url {
  import opened Html

  /** The members of the `Canteen` enum, in declaration order. */
  datatype Canteen =
    | Matteotti | Petrarca | Strabone | Tenna | Paradiso | Davack
    | Gma | Accoretti | Bertelli | Duca | Tridente

  /** `Canteen(value)`: the member whose value is `s`, if there is one. */
  function FromName(s: string): Option<Canteen> {
    if s == "Matteotti" then Some(Matteotti)
    else if s == "Petrarca" then Some(Petrarca)
    else if s == "Strabone" then Some(Strabone)
    else if s == "Tenna" then Some(Tenna)
    else if s == "Paradiso" then Some(Paradiso)
    else if s == "Davack" then Some(Davack)
    else if s == "Gma" then Some(Gma)
    else if s == "Accoretti" then Some(Accoretti)
    else if s == "Bertelli" then Some(Bertelli)
    else if s == "Duca" then Some(Duca)
    else if s == "Tridente" then Some(Tridente)
    else None
  }

  /** `Canteen.__str__`: the member's value, which looks the member up again. */
  function Name(c: Canteen): (r: string)
    ensures FromName(r) == Some(c)
    ensures |r| > 0 && '/' !in r && '_' !in r
  {
    match c
    case Matteotti => "Matteotti"
    case Petrarca => "Petrarca"
    case Strabone => "Strabone"
    case Tenna => "Tenna"
    case Paradiso => "Paradiso"
    case Davack => "Davack"
    case Gma => "Gma"
    case Accoretti => "Accoretti"
    case Bertelli => "Bertelli"
    case Duca => "Duca"
    case Tridente => "Tridente"
  }

  /** A `datetime.date`. */
  datatype Date = Date(year: nat, month: nat, day: nat)

  /** The dates `datetime.date` accepts, as far as the address depends on them. */
  predicate ValidDate(d: Date) {
    1 <= d.year <= 9999 && 1 <= d.month <= 12 && 1 <= d.day <= 31
  }

  predicate IsDigit(ch: char) {
    '0' <= ch <= '9'
  }

  predicate AllDigits(s: string) {
    forall i :: 0 <= i < |s| ==> IsDigit(s[i])
  }

  function DigitChar(d: nat): (ch: char)
    requires d < 10
    ensures IsDigit(ch)
  {
    ('0' as int + d) as char
  }

  function DigitValue(ch: char): nat
    requires IsDigit(ch)
  {
    ch as int - '0' as int
  }

  /** The number a string of decimal digits spells. */
  function ParseDecimal(s: string): nat
    requires AllDigits(s)
  {
    if |s| == 0 then 0 else ParseDecimal(s[..|s| - 1]) * 10 + DigitValue(s[|s| - 1])
  }

  /** `str(n)`: decimal digits without leading zeros, which spell `n` back. */
  function Decimal(n: nat): (r: string)
    ensures AllDigits(r) && ParseDecimal(r) == n
    ensures |r| == 1 <==> n < 10
    ensures |r| >= 1 && (n >= 10 ==> r[0] != '0')
  {
    if n < 10 then [DigitChar(n)]
    else
      var init := Decimal(n / 10);
      var r := init + [DigitChar(n % 10)];
      assert r[..|r| - 1] == init;
      r
  }

  /** `str(n) if n > 9 else "0" + str(n)`, as `build_daily_url` renders
      the month and the day: exactly two digits below 100. */
  function TwoDigits(n: nat): (r: string)
    ensures n < 100 ==> |r| == 2 && AllDigits(r) && ParseDecimal(r) == n
    ensures n <= 9 ==> r[0] == '0'
  {
    if n > 9 then Decimal(n)
    else
      var r := "0" + Decimal(n);
      assert r[..1] == "0";
      r
  }

  const Site := "https://www.erdis.it/menu/Mensa_"

  const PagePrefix := "/Menu_Del_Giorno_"

  /** `build_daily_url`: the canteen's directory, then the file name with the
      unpadded year, the two-digit month and day, and the canteen again. */
  function BuildDailyUrl(d: Date, c: Canteen): (url: string)
    ensures Site + Name(c) + "/" <= url
    ensures url[|url| - |Name(c)| - 6..] == "_" + Name(c) + ".html"
  {
    var month := TwoDigits(d.month);
    var day := TwoDigits(d.day);
    var canteen := Name(c);
    var stamp := Decimal(d.year) + "_" + month + "_" + day;
    AddressShape(canteen, stamp);
    Address(canteen, stamp)
  }

  /** The address of the page named `stamp` in the directory of the canteen called `name`. */
  function Address(name: string, stamp: string): string {
    Site + name + PagePrefix + stamp + "_" + name + ".html"
  }

  /** An address starts with the canteen's directory and ends with the
      canteen's name and the `.html` extension. */
  lemma AddressShape(name: string, stamp: string)
    ensures Site + name + "/" <= Address(name, stamp)
    ensures |Address(name, stamp)| >= |name| + 6
    ensures Address(name, stamp)[|Address(name, stamp)| - |name| - 6..] == "_" + name + ".html"
  {
    var url := Address(name, stamp);
    assert url == (Site + name + "/") + ("Menu_Del_Giorno_" + stamp) + ("_" + name + ".html");
  }

  /** Reads the date back out of an address built for canteen `c`. */
  function DecodeDailyUrl(c: Canteen, url: string): Option<Date> {
    match StampOf(Name(c), url)
    case None => None
    case Some(mid) => DecodeStamp(mid)
  }

  /** Reads a date back out of `<year>_<mm>_<dd>`. */
  function DecodeStamp(mid: string): Option<Date> {
    var n := |mid|;
    if n < 7 then None
    else
      var y, m, dd := mid[..n - 6], mid[n - 5..n - 3], mid[n - 2..];
      if mid[n - 6] != '_' || mid[n - 3] != '_' || !AllDigits(y) || !AllDigits(m) || !AllDigits(dd) then None
      else Some(Date(ParseDecimal(y), ParseDecimal(m), ParseDecimal(dd)))
  }

  /** The part of `url` between the fixed text around it, for the canteen called `name`. */
  function StampOf(name: string, url: string): Option<string> {
    var pre := Site + name + PagePrefix;
    var suf := "_" + name + ".html";
    if |url| < |pre| + |suf| || url[..|pre|] != pre || url[|url| - |suf|..] != suf then None
    else Some(url[|pre|..|url| - |suf|])
  }

  lemma StampRoundTrip(name: string, stamp: string)
    ensures StampOf(name, Address(name, stamp)) == Some(stamp)
  {
    var pre := Site + name + PagePrefix;
    var suf := "_" + name + ".html";
    var url := Address(name, stamp);
    assert url == pre + stamp + suf;
    assert url[..|pre|] == pre;
    assert url[|url| - |suf|..] == suf;
    assert url[|pre|..|url| - |suf|] == stamp;
  }

  /** `<y>_<m>_<dd>` with two-character `m` and `dd` splits back into its parts. */
  lemma StampParts(y: string, m: string, dd: string)
    requires |m| == 2 && |dd| == 2
    ensures var mid := y + "_" + m + "_" + dd;
            var n := |mid|;
            n == |y| + 6 && mid[..n - 6] == y && mid[n - 6] == '_' && mid[n - 5..n - 3] == m
            && mid[n - 3] == '_' && mid[n - 2..] == dd
  {
    var mid := y + "_" + m + "_" + dd;
    var n := |mid|;
    assert mid == y + ['_'] + m + ['_'] + dd;
    assert mid[..n - 6] == y;
    assert mid[n - 5..n - 3] == m;
    assert mid[n - 2..] == dd;
  }

  /** `<y>_<m>_<dd>` with digits only and two-digit `m` and `dd` reads back
      as the date those digits spell. */
  lemma DecodeParts(y: string, m: string, dd: string)
    requires |y| >= 1 && |m| == 2 && |dd| == 2
    requires AllDigits(y) && AllDigits(m) && AllDigits(dd)
    ensures DecodeStamp(y + "_" + m + "_" + dd) == Some(Date(ParseDecimal(y), ParseDecimal(m), ParseDecimal(dd)))
  {
    var mid := y + "_" + m + "_" + dd;
    StampParts(y, m, dd);
    var n := |mid|;
    assert mid[..n - 6] == y && mid[n - 5..n - 3] == m && mid[n - 2..] == dd;
  }

  /** The file name of a real date spells that date. */
  lemma StampDecode(d: Date)
    requires ValidDate(d)
    ensures DecodeStamp(Decimal(d.year) + "_" + TwoDigits(d.month) + "_" + TwoDigits(d.day)) == Some(d)
  {
    DecodeParts(Decimal(d.year), TwoDigits(d.month), TwoDigits(d.day));
  }

  /** The address of a real date names that date: decoding gives it back. */
  lemma UrlRoundTrip(d: Date, c: Canteen)
    requires ValidDate(d)
    ensures DecodeDailyUrl(c, BuildDailyUrl(d, c)) == Some(d)
  {
    StampRoundTrip(Name(c), Decimal(d.year) + "_" + TwoDigits(d.month) + "_" + TwoDigits(d.day));
    StampDecode(d);
  }

  /** Different days of one canteen have different addresses. */
  lemma UrlInjective(d1: Date, d2: Date, c: Canteen)
    requires ValidDate(d1) && ValidDate(d2)
    requires BuildDailyUrl(d1, c) == BuildDailyUrl(d2, c)
    ensures d1 == d2
  {
    UrlRoundTrip(d1, c);
    UrlRoundTrip(d2, c);
  }
}
