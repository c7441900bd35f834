/**
 * The report date of get_data: the value of the page's date control, read
 * with datetime.strptime(value, '%m/%d/%Y') once its spaces are removed, and
 * written back with strftime('%d.%m.%Y'); any failure keeps the fallback.
 */
module Dates {
  import opened Wrappers
  import Text

  datatype Date = Date(year: nat, month: nat, day: nat)

  /** The proleptic Gregorian leap-year rule of Python's datetime. */
  predicate IsLeapYear(year: nat) {
    year % 4 == 0 && (year % 100 != 0 || year % 400 == 0)
  }

  function DaysInMonth(year: nat, month: nat): (n: nat)
    requires 1 <= month <= 12
    ensures 28 <= n <= 31
    ensures n == 29 <==> month == 2 && IsLeapYear(year)
  {
    if month == 2 then (if IsLeapYear(year) then 29 else 28)
    else if month == 4 || month == 6 || month == 9 || month == 11 then 30
    else 31
  }

  /** What datetime.date accepts: years 1 to 9999 and a day that exists in its month. */
  predicate ValidDate(d: Date) {
    && 1 <= d.year <= 9999
    && 1 <= d.month <= 12
    && 1 <= d.day <= DaysInMonth(d.year, d.month)
  }

  predicate AllDigits(s: string) {
    forall i :: 0 <= i < |s| ==> Text.IsDigit(s[i])
  }

  /** int(s) for a string of decimal digits. */
  function Number(s: string): nat
    requires AllDigits(s)
  {
    if s == [] then 0 else 10 * Number(s[..|s| - 1]) + (s[|s| - 1] as int - '0' as int)
  }

  function DigitChar(n: nat): (c: char)
    requires n < 10
    ensures Text.IsDigit(c) && c as int - '0' as int == n
  {
    ('0' as int + n) as char
  }

  /** The `%d` and `%m` output of strftime: two digits, zero-padded. */
  function Pad2(n: nat): string
    requires n < 100
  {
    [DigitChar(n / 10), DigitChar(n % 10)]
  }

  /** The `%Y` output of strftime: four digits, zero-padded. */
  function Pad4(n: nat): string
    requires n < 10000
  {
    [DigitChar(n / 10 / 10 / 10), DigitChar(n / 10 / 10 % 10), DigitChar(n / 10 % 10), DigitChar(n % 10)]
  }

  /**
   * s.split('/'). The strptime pattern for '%m/%d/%Y' is
   * `(1[0-2]|0[1-9]|[1-9])/(3[01]|[12]\d|0[1-9]|[1-9]| [1-9])/(\d\d\d\d)`,
   * followed by the "unconverted data remains" check that nothing is left
   * over. Every alternative for month and day consumes no '/' and must be
   * followed by one, so a match exists exactly when the value has three
   * '/'-separated fields that each match their alternatives whole.
   */
  function Fields(s: string): (f: seq<string>)
    ensures |f| >= 1
  {
    if s == [] then [""]
    else
      var f := Fields(s[1..]);
      if s[0] == '/' then [""] + f else [[s[0]] + f[0]] + f[1..]
  }

  /** The `%m` alternatives `1[0-2]|0[1-9]|[1-9]`. */
  predicate MonthToken(t: string) {
    || (|t| == 2 && t[0] == '1' && '0' <= t[1] <= '2')
    || (|t| == 2 && t[0] == '0' && '1' <= t[1] <= '9')
    || (|t| == 1 && '1' <= t[0] <= '9')
  }

  /** The `%d` alternatives `3[01]|[12]\d|0[1-9]|[1-9]| [1-9]`. */
  predicate DayToken(t: string) {
    || (|t| == 2 && t[0] == '3' && '0' <= t[1] <= '1')
    || (|t| == 2 && '1' <= t[0] <= '2' && Text.IsDigit(t[1]))
    || (|t| == 2 && t[0] == '0' && '1' <= t[1] <= '9')
    || (|t| == 1 && '1' <= t[0] <= '9')
    || (|t| == 2 && t[0] == ' ' && '1' <= t[1] <= '9')
  }

  /** The `%Y` pattern `\d\d\d\d`. */
  predicate YearToken(t: string) {
    |t| == 4 && AllDigits(t)
  }

  /** The value strptime gives a day field: int() of its digits, a leading space ignored. */
  function DayNumber(t: string): nat
    requires DayToken(t)
  {
    if t[0] == ' ' then Number(t[1..]) else Number(t)
  }

  /** datetime.strptime(raw, '%m/%d/%Y'): None where it raises ValueError. */
  function ParseDate(raw: string): (r: Option<Date>)
    ensures r.Some? ==> ValidDate(r.value)
  {
    var f := Fields(raw);
    if |f| == 3 && MonthToken(f[0]) && DayToken(f[1]) && YearToken(f[2]) then
      var d := Date(Number(f[2]), Number(f[0]), DayNumber(f[1]));
      if ValidDate(d) then Some(d) else None
    else None
  }

  /** dt.strftime("%d.%m.%Y"): day first, then month, then the four-digit year. */
  function FormatDate(d: Date): (r: string)
    requires ValidDate(d)
    ensures |r| == 10 && r[2] == '.' && r[5] == '.'
    ensures AllDigits(r[..2]) && AllDigits(r[3..5]) && AllDigits(r[6..])
    ensures Number(r[..2]) == d.day && Number(r[3..5]) == d.month && Number(r[6..]) == d.year
  {
    var r := Pad2(d.day) + "." + Pad2(d.month) + "." + Pad4(d.year);
    assert r[..2] == Pad2(d.day) && r[3..5] == Pad2(d.month) && r[6..] == Pad4(d.year);
    Pad2Number(d.day);
    Pad2Number(d.month);
    Pad4Number(d.year);
    r
  }

  /**
   * The date get_data reports: when the control's value is present and not
   * empty, its spaces are removed and a successful parse is reformatted;
   * otherwise, and on any parse failure, the fallback.
   */
  function ReportDate(value: Option<string>, fallback: string): (r: string)
    ensures value.None? || value.value == "" ==> r == fallback
    ensures r == fallback || exists d :: ValidDate(d) && r == FormatDate(d)
  {
    if value.None? || value.value == "" then fallback
    else
      match ParseDate(Text.RemoveAll(value.value, ' '))
      case Some(d) => FormatDate(d)
      case None => fallback
  }

  /** The numbers a month or day can be spelled as: two digits, or one digit when below ten. */
  predicate Spellable(n: nat, padded: bool) {
    if padded then n < 100 else n < 10
  }

  /** A month or day as written on the page: zero-padded ("05") or not ("5"). */
  function Spell(n: nat, padded: bool): string
    requires Spellable(n, padded)
  {
    if padded then Pad2(n) else [DigitChar(n)]
  }

  /** The page's M/D/YYYY spelling of a date, month and day each padded or not. */
  function UsDate(year: nat, month: nat, day: nat, padMonth: bool, padDay: bool): string
    requires year < 10000 && Spellable(month, padMonth) && Spellable(day, padDay)
  {
    Spell(month, padMonth) + "/" + Spell(day, padDay) + "/" + Pad4(year)
  }

  // ---------------------------------------------------------------------------
  // Lemmas

  /** The last digit of a numeral adds to ten times the numeral before it. */
  lemma NumberSnoc(s: string, c: char)
    requires AllDigits(s) && Text.IsDigit(c)
    ensures AllDigits(s + [c]) && Number(s + [c]) == 10 * Number(s) + (c as int - '0' as int)
  {
    assert (s + [c])[..|s|] == s;
  }

  lemma Pad2Number(n: nat)
    requires n < 100
    ensures AllDigits(Pad2(n)) && Number(Pad2(n)) == n
  {
    var a, b := DigitChar(n / 10), DigitChar(n % 10);
    NumberSnoc([], a);
    assert [] + [a] == [a];
    NumberSnoc([a], b);
    assert Pad2(n) == [a] + [b];
  }

  lemma Pad4Number(n: nat)
    requires n < 10000
    ensures AllDigits(Pad4(n)) && Number(Pad4(n)) == n
  {
    var q1 := n / 10;
    var q2 := q1 / 10;
    var q3 := q2 / 10;
    var a, b, c, d := DigitChar(q3), DigitChar(q2 % 10), DigitChar(q1 % 10), DigitChar(n % 10);
    NumberSnoc([], a);
    assert [] + [a] == [a];
    NumberSnoc([a], b);
    NumberSnoc([a] + [b], c);
    NumberSnoc([a] + [b] + [c], d);
    assert Pad4(n) == [a] + [b] + [c] + [d];
    assert n == 10 * q1 + n % 10;
    assert q1 == 10 * q2 + q1 % 10;
    assert q2 == 10 * q3 + q2 % 10;
  }

  lemma {:induction false} FieldsOfSlashFree(a: string)
    requires '/' !in a
    ensures Fields(a) == [a]
  {
    if a != [] {
      assert '/' !in a[1..];
      FieldsOfSlashFree(a[1..]);
      assert [a[0]] + a[1..] == a;
    }
  }

  lemma {:induction false} FieldsSlash(a: string, rest: string)
    requires '/' !in a
    ensures Fields(a + "/" + rest) == [a] + Fields(rest)
  {
    var s := a + "/" + rest;
    if a == [] {
      assert s == "/" + rest && s[1..] == rest;
    } else {
      assert '/' !in a[1..];
      assert s[1..] == a[1..] + "/" + rest;
      FieldsSlash(a[1..], rest);
      assert [a[0]] + a[1..] == a;
    }
  }

  lemma SpellNumber(n: nat, padded: bool)
    requires Spellable(n, padded)
    ensures AllDigits(Spell(n, padded)) && Number(Spell(n, padded)) == n
    ensures |Spell(n, padded)| == (if padded then 2 else 1)
  {
    if padded {
      Pad2Number(n);
    } else {
      NumberSnoc([], DigitChar(n));
      assert [] + [DigitChar(n)] == [DigitChar(n)];
    }
  }

  /** Splitting the page's spelling of a date gives back its three fields. */
  lemma UsDateFields(year: nat, month: nat, day: nat, padMonth: bool, padDay: bool)
    requires year < 10000 && Spellable(month, padMonth) && Spellable(day, padDay)
    ensures Fields(UsDate(year, month, day, padMonth, padDay)) == [Spell(month, padMonth), Spell(day, padDay), Pad4(year)]
  {
    var m, d, y := Spell(month, padMonth), Spell(day, padDay), Pad4(year);
    SpellNumber(month, padMonth);
    SpellNumber(day, padDay);
    Pad4Number(year);
    assert '/' !in m && '/' !in d && '/' !in y;
    assert UsDate(year, month, day, padMonth, padDay) == m + "/" + (d + "/" + y);
    FieldsSlash(m, d + "/" + y);
    FieldsSlash(d, y);
    FieldsOfSlashFree(y);
  }

  /**
   * strptime reads every spelling of month and day, padded or not, and the
   * four-digit year back as the numbers written, and succeeds exactly when
   * they form a real date (month 13 and February 30 fail).
   */
  lemma ParseUsDate(year: nat, month: nat, day: nat, padMonth: bool, padDay: bool)
    requires year < 10000 && Spellable(month, padMonth) && Spellable(day, padDay)
    ensures ParseDate(UsDate(year, month, day, padMonth, padDay)) ==
      if ValidDate(Date(year, month, day)) then Some(Date(year, month, day)) else None
  {
    UsDateFields(year, month, day, padMonth, padDay);
    SpellNumber(month, padMonth);
    SpellNumber(day, padDay);
    Pad4Number(year);
    DayNumberOfSpell(day, padDay);
    if ValidDate(Date(year, month, day)) {
      MonthTokenOfSpell(month, padMonth);
      DayTokenOfSpell(day, padDay);
    }
  }

  lemma MonthTokenOfSpell(month: nat, padded: bool)
    requires 1 <= month <= 12 && Spellable(month, padded)
    ensures MonthToken(Spell(month, padded))
  {
    var m := Spell(month, padded);
    if !padded { assert m[0] == DigitChar(month); }
    else if month < 10 { assert m[0] == '0'; }
    else { assert m[0] == '1'; }
  }

  lemma DayTokenOfSpell(day: nat, padded: bool)
    requires 1 <= day <= 31 && Spellable(day, padded)
    ensures DayToken(Spell(day, padded))
  {
    var d := Spell(day, padded);
    if !padded { assert d[0] == DigitChar(day); }
    else if day < 10 { assert d[0] == '0'; }
    else if day < 20 { assert d[0] == '1'; }
    else if day < 30 { assert d[0] == '2'; }
    else { assert d[0] == '3'; }
  }

  lemma DayNumberOfSpell(day: nat, padded: bool)
    requires Spellable(day, padded)
    ensures DayToken(Spell(day, padded)) ==> DayNumber(Spell(day, padded)) == Number(Spell(day, padded))
  {
    assert Spell(day, padded)[0] != ' ';
  }

  /**
   * The report date for a control holding M/D/YYYY, month and day padded or
   * not, is that date as DD.MM.YYYY when it exists in the calendar, and the
   * fallback when not (month 13, February 30, February 29 outside a leap
   * year, year 0000).
   */
  lemma ReportDateOfUsDate(year: nat, month: nat, day: nat, padMonth: bool, padDay: bool, fallback: string)
    requires year < 10000 && Spellable(month, padMonth) && Spellable(day, padDay)
    ensures ReportDate(Some(UsDate(year, month, day, padMonth, padDay)), fallback) ==
      if ValidDate(Date(year, month, day)) then FormatDate(Date(year, month, day)) else fallback
  {
    var v := UsDate(year, month, day, padMonth, padDay);
    UsDateFields(year, month, day, padMonth, padDay);
    assert ' ' !in v by {
      SpellNumber(month, padMonth);
      SpellNumber(day, padDay);
      Pad4Number(year);
    }
    ParseUsDate(year, month, day, padMonth, padDay);
  }

  /** The fields joined back with '/': the inverse of Fields. */
  function JoinFields(f: seq<string>): string
    requires |f| >= 1
  {
    if |f| == 1 then f[0] else f[0] + "/" + JoinFields(f[1..])
  }

  lemma {:induction false} FieldsInverse(s: string)
    ensures JoinFields(Fields(s)) == s
  {
    if s != [] {
      var f := Fields(s[1..]);
      FieldsInverse(s[1..]);
      if s[0] == '/' {
        assert ([""] + f)[1..] == f;
        assert s == "" + "/" + s[1..];
      } else {
        var g := [[s[0]] + f[0]] + f[1..];
        assert g[1..] == f[1..];
        if |f| > 1 {
          assert JoinFields(f) == f[0] + "/" + JoinFields(f[1..]);
        }
        assert s == [s[0]] + s[1..];
      }
    }
  }

  lemma DivMod10(x: nat, y: nat)
    requires y < 10
    ensures (10 * x + y) / 10 == x && (10 * x + y) % 10 == y
  {
  }

  /** A one-digit field is the unpadded spelling of its own number. */
  lemma {:induction false} OneDigitSpelled(t: string)
    requires |t| == 1 && AllDigits(t)
    ensures Spellable(Number(t), false) && Spell(Number(t), false) == t
  {
    NumberSnoc([], t[0]);
    assert [] + [t[0]] == [t[0]] == t;
    assert DigitChar(DigitValue(t[0])) == t[0];
  }

  /** A two-digit field is the padded spelling of its own number. */
  lemma {:induction false} TwoDigitSpelled(t: string)
    requires |t| == 2 && AllDigits(t)
    ensures Spellable(Number(t), true) && Spell(Number(t), true) == t
  {
    var a, b := t[0], t[1];
    NumberSnoc([], a);
    assert [] + [a] == [a];
    NumberSnoc([a], b);
    assert t == [a] + [b];
    DivMod10(DigitValue(a), DigitValue(b));
    assert Number(t) == 10 * DigitValue(a) + DigitValue(b);
  }

  /** A one- or two-digit field is the spelling of its own number. */
  lemma SpelledToken(t: string)
    requires (|t| == 1 || |t| == 2) && AllDigits(t)
    ensures Spellable(Number(t), |t| == 2) && Spell(Number(t), |t| == 2) == t
  {
    if |t| == 1 {
      OneDigitSpelled(t);
    } else {
      TwoDigitSpelled(t);
    }
  }

  /** The value of one digit character. */
  function DigitValue(c: char): (n: nat)
    requires Text.IsDigit(c)
    ensures n < 10 && DigitChar(n) == c
  {
    c as int - '0' as int
  }

  lemma {:induction false} FourDigitNumber(t: string)
    requires YearToken(t)
    ensures Number(t) == 1000 * DigitValue(t[0]) + 100 * DigitValue(t[1]) + 10 * DigitValue(t[2]) + DigitValue(t[3])
  {
    var a, b, c, d := t[0], t[1], t[2], t[3];
    NumberSnoc([], a);
    assert [] + [a] == [a];
    NumberSnoc([a], b);
    NumberSnoc([a] + [b], c);
    NumberSnoc([a] + [b] + [c], d);
    assert t == [a] + [b] + [c] + [d];
  }

  lemma {:induction false} Pad4Digits(a: nat, b: nat, c: nat, d: nat)
    requires a < 10 && b < 10 && c < 10 && d < 10
    ensures Pad4(1000 * a + 100 * b + 10 * c + d) == [DigitChar(a), DigitChar(b), DigitChar(c), DigitChar(d)]
  {
    var n := 1000 * a + 100 * b + 10 * c + d;
    assert n / 10 == 100 * a + 10 * b + c && n % 10 == d;
    assert n / 10 / 10 == 10 * a + b && n / 10 % 10 == c;
    assert n / 10 / 10 / 10 == a && n / 10 / 10 % 10 == b;
  }

  /** A four-digit field is the %Y spelling of its own number. */
  lemma {:induction false} PaddedYear(t: string)
    requires YearToken(t)
    ensures Number(t) < 10000 && Pad4(Number(t)) == t
  {
    FourDigitNumber(t);
    Pad4Digits(DigitValue(t[0]), DigitValue(t[1]), DigitValue(t[2]), DigitValue(t[3]));
    assert t == [t[0], t[1], t[2], t[3]];
  }

  /** A value with three '/'-separated fields is those fields joined by '/'. */
  lemma ThreeFields(raw: string)
    requires |Fields(raw)| == 3
    ensures var f := Fields(raw); raw == f[0] + "/" + f[1] + "/" + f[2]
  {
    var f := Fields(raw);
    FieldsInverse(raw);
    var g := f[1..];
    assert g[1..] == [f[2]];
    assert JoinFields(g) == f[1] + "/" + f[2];
  }

  /** Three digit fields of the accepted widths spell the date made of their numbers. */
  lemma SpelledFields(m: string, dd: string, y: string)
    requires (|m| == 1 || |m| == 2) && AllDigits(m)
    requires (|dd| == 1 || |dd| == 2) && AllDigits(dd)
    requires YearToken(y)
    ensures Spellable(Number(m), |m| == 2) && Spellable(Number(dd), |dd| == 2) && Number(y) < 10000
    ensures UsDate(Number(y), Number(m), Number(dd), |m| == 2, |dd| == 2) == m + "/" + dd + "/" + y
  {
    SpelledToken(m);
    SpelledToken(dd);
    PaddedYear(y);
  }

  /**
   * Conversely, every value without spaces that strptime accepts is one of
   * those spellings of the date it returns.
   */
  lemma {:induction false} ParsedIsSpelled(raw: string)
    requires ' ' !in raw && ParseDate(raw).Some?
    ensures var d := ParseDate(raw).value;
      exists padMonth: bool, padDay: bool ::
        Spellable(d.month, padMonth) && Spellable(d.day, padDay) &&
        raw == UsDate(d.year, d.month, d.day, padMonth, padDay)
  {
    var f := Fields(raw);
    ThreeFields(raw);
    assert raw[|f[0]| + 1] == f[1][0];
    assert f[1][0] != ' ';
    MonthDigits(f[0]);
    DayDigits(f[1]);
    SpelledFields(f[0], f[1], f[2]);
  }

  /** An accepted month field is made of digits. */
  lemma MonthDigits(t: string)
    requires MonthToken(t)
    ensures (|t| == 1 || |t| == 2) && AllDigits(t)
  {
  }

  /** An accepted day field without a leading space is made of digits and is its own number. */
  lemma DayDigits(t: string)
    requires DayToken(t) && t[0] != ' '
    ensures (|t| == 1 || |t| == 2) && AllDigits(t) && DayNumber(t) == Number(t)
  {
  }


  /** Spaces in the control's value do not matter: "12 /15 /2025" reads as "12/15/2025". */
  lemma ReportDateIgnoresSpaces(value: string, fallback: string)
    ensures ReportDate(Some(value), fallback) == ReportDate(Some(Text.RemoveAll(value, ' ')), fallback)
  {
    var stripped := Text.RemoveAll(value, ' ');
    if value != "" && stripped == "" {
      assert Fields("") == [""];
    }
  }
}
