/**
 * Strict xs:dateTime parsing (section 3.2.7 of XML Schema Part 2) as the SAML code does it, and the UTC printer on the
 * identity-provider side.
 */
module SamlInstant {
  import opened Text
  import opened Arithmetic
  import opened Calendar

  // ---------------------------------------------------------------- digits

  predicate IsDigit(c: char) { '0' <= c <= '9' }

  predicate AllDigits(s: string) { forall i :: 0 <= i < |s| ==> IsDigit(s[i]) }

  function D(c: char): (n: nat)
    requires IsDigit(c)
    ensures n <= 9
  {
    c as int - '0' as int
  }

  function Dig(n: int): (c: char)
    ensures IsDigit(c) && (0 <= n <= 9 ==> D(c) == n)
  {
    ('0' as int + n % 10) as char
  }

  lemma DigOfD(c: char)
    requires IsDigit(c)
    ensures Dig(D(c)) == c
  {
  }

  function Two(n: int): (s: string)
    ensures |s| == 2 && AllDigits(s)
  {
    [Dig(n / 10), Dig(n % 10)]
  }

  function Three(n: int): (s: string)
    ensures |s| == 3 && AllDigits(s)
  {
    [Dig(n / 100)] + Two(n % 100)
  }

  function Four(n: int): (s: string)
    ensures |s| == 4 && AllDigits(s)
  {
    Two(n / 100) + Two(n % 100)
  }

  function N2(s: string): (n: nat)
    requires |s| == 2 && AllDigits(s)
    ensures n <= 99
  {
    10 * D(s[0]) + D(s[1])
  }

  function N3(s: string): (n: nat)
    requires |s| == 3 && AllDigits(s)
    ensures n <= 999
  {
    100 * D(s[0]) + 10 * D(s[1]) + D(s[2])
  }

  function N4(s: string): (n: nat)
    requires |s| == 4 && AllDigits(s)
    ensures n <= 9999
  {
    1000 * D(s[0]) + 100 * D(s[1]) + 10 * D(s[2]) + D(s[3])
  }

  lemma TwoIff(s: string, n: int)
    requires |s| == 2 && 0 <= n <= 99
    ensures AllDigits(s) && N2(s) == n <==> s == Two(n)
  {
    if AllDigits(s) { DigOfD(s[0]); DigOfD(s[1]); }
  }

  lemma FourIff(s: string, n: int)
    requires |s| == 4 && 0 <= n <= 9999
    ensures AllDigits(s) && N4(s) == n <==> s == Four(n)
  {
    assert s == s[..2] + s[2..];
    TwoIff(s[..2], n / 100);
    TwoIff(s[2..], n % 100);
    assert AllDigits(s) <==> AllDigits(s[..2]) && AllDigits(s[2..]) by {
      assert s[0] == s[..2][0] && s[1] == s[..2][1] && s[2] == s[2..][0] && s[3] == s[2..][1];
    }
  }

  // ---------------------------------------------------------------- the lexical form

  datatype Zone = Utc | Offset(plus: bool, hour: nat, minute: nat)

  datatype Fields = Fields(date: Date, hour: int, minute: int, second: int, fraction: Option<string>, zone: Zone)

  /** Values the digit counts of the lexical form allow. */
  predicate Lexical(f: Fields) {
    && 0 <= f.date.year <= 9999 && 0 <= f.date.month <= 99 && 0 <= f.date.day <= 99
    && 0 <= f.hour <= 99 && 0 <= f.minute <= 99 && 0 <= f.second <= 99
    && (f.fraction.Some? ==> f.fraction.value != "" && AllDigits(f.fraction.value))
    && (f.zone.Offset? ==> f.zone.hour <= 99 && f.zone.minute <= 99)
  }

  function WriteHead(f: Fields): (s: string)
    ensures |s| == 19
  {
    Four(f.date.year) + "-" + Two(f.date.month) + "-" + Two(f.date.day)
    + "T" + Two(f.hour) + ":" + Two(f.minute) + ":" + Two(f.second)
  }

  function WriteZone(z: Zone): string {
    match z
    case Utc => "Z"
    case Offset(plus, hour, minute) => (if plus then "+" else "-") + Two(hour) + ":" + Two(minute)
  }

  function WriteTail(f: Fields): string {
    (if f.fraction.Some? then "." + f.fraction.value else "") + WriteZone(f.zone)
  }

  function Write(f: Fields): string { WriteHead(f) + WriteTail(f) }

  // ---------------------------------------------------------------- the regular expression

  /** How many digits a string starts with. */
  function DigitRun(s: string): (n: nat)
    ensures n <= |s| && AllDigits(s[..n]) && (n < |s| ==> !IsDigit(s[n]))
  {
    if s == "" || !IsDigit(s[0]) then 0
    else
      var n := 1 + DigitRun(s[1..]);
      assert s[..n] == [s[0]] + s[1..][..n - 1];
      n
  }

  predicate IsHead(h: string)
    requires |h| == 19
  {
    && AllDigits(h[..4]) && h[4] == '-' && AllDigits(h[5..7]) && h[7] == '-' && AllDigits(h[8..10]) && h[10] == 'T'
    && AllDigits(h[11..13]) && h[13] == ':' && AllDigits(h[14..16]) && h[16] == ':' && AllDigits(h[17..19])
  }

  function ExecZone(z: string): Option<Zone> {
    if z == "Z" then Some(Utc)
    else if |z| == 6 && (z[0] == '+' || z[0] == '-') && AllDigits(z[1..3]) && z[3] == ':' && AllDigits(z[4..6]) then
      Some(Offset(z[0] == '+', N2(z[1..3]), N2(z[4..6])))
    else None
  }

  /** `SAML_DATE_TIME.exec` and the numbers of its groups. */
  function Exec(s: string): Option<Fields> {
    if |s| < 20 || !IsHead(s[..19]) then None
    else
      var h, rest := s[..19], s[19..];
      var run := if rest[0] == '.' then DigitRun(rest[1..]) else 0;
      if rest[0] == '.' && run == 0 then None
      else
        var fraction := if rest[0] == '.' then Some(rest[1..1 + run]) else None;
        var zone := ExecZone(if rest[0] == '.' then rest[1 + run..] else rest);
        if zone.None? then None
        else Some(Fields(Date(N4(h[..4]), N2(h[5..7]), N2(h[8..10])), N2(h[11..13]), N2(h[14..16]), N2(h[17..19]),
          fraction, zone.value))
  }

  lemma HeadIff(h: string, f: Fields)
    requires |h| == 19 && Lexical(f)
    ensures h == WriteHead(f) <==>
              && IsHead(h)
              && N4(h[..4]) == f.date.year && N2(h[5..7]) == f.date.month && N2(h[8..10]) == f.date.day
              && N2(h[11..13]) == f.hour && N2(h[14..16]) == f.minute && N2(h[17..19]) == f.second
  {
    hide Two, Four, N2, N4, AllDigits;
    FourIff(h[..4], f.date.year);
    TwoIff(h[5..7], f.date.month);
    TwoIff(h[8..10], f.date.day);
    TwoIff(h[11..13], f.hour);
    TwoIff(h[14..16], f.minute);
    TwoIff(h[17..19], f.second);
    HeadParts(h, f);
  }

  lemma HeadParts(h: string, f: Fields)
    requires |h| == 19
    ensures h == WriteHead(f) <==>
              && h[..4] == Four(f.date.year) && h[4] == '-' && h[5..7] == Two(f.date.month) && h[7] == '-'
              && h[8..10] == Two(f.date.day) && h[10] == 'T' && h[11..13] == Two(f.hour) && h[13] == ':'
              && h[14..16] == Two(f.minute) && h[16] == ':' && h[17..19] == Two(f.second)
  {
    hide Two, Four;
    var w := WriteHead(f);
    assert w[..4] == Four(f.date.year) && w[5..7] == Two(f.date.month) && w[8..10] == Two(f.date.day);
    assert w[11..13] == Two(f.hour) && w[14..16] == Two(f.minute) && w[17..19] == Two(f.second);
    assert h == h[..4] + [h[4]] + h[5..7] + [h[7]] + h[8..10] + [h[10]] + h[11..13] + [h[13]] + h[14..16] + [h[16]]
      + h[17..19];
  }

  predicate ZoneDigits(z: Zone) { z.Offset? ==> z.hour <= 99 && z.minute <= 99 }

  lemma ZoneIff(z: string, zone: Zone)
    requires ZoneDigits(zone)
    ensures ExecZone(z) == Some(zone) <==> z == WriteZone(zone)
    ensures ExecZone(z).Some? ==> ZoneDigits(ExecZone(z).value)
  {
    hide N2, Two;
    if zone.Offset? {
      var w := WriteZone(zone);
      assert w[1..3] == Two(zone.hour) && w[4..6] == Two(zone.minute);
      if |z| == 6 {
        TwoIff(z[1..3], zone.hour);
        TwoIff(z[4..6], zone.minute);
        assert z == [z[0]] + z[1..3] + [z[3]] + z[4..6];
      }
    }
  }

  lemma {:induction false} RunOf(digits: string, rest: string)
    requires AllDigits(digits) && (rest == "" || !IsDigit(rest[0]))
    ensures DigitRun(digits + rest) == |digits|
  {
    if digits == "" {
      assert digits + rest == rest;
    } else {
      assert IsDigit(digits[0]) && (digits + rest)[1..] == digits[1..] + rest;
      RunOf(digits[1..], rest);
    }
  }

  /** The optional fraction and the zone, from what follows the seconds. */
  function ExecTail(rest: string): Option<(Option<string>, Zone)> {
    if rest == "" then None
    else
      var run := if rest[0] == '.' then DigitRun(rest[1..]) else 0;
      if rest[0] == '.' && run == 0 then None
      else
        var zone := ExecZone(if rest[0] == '.' then rest[1 + run..] else rest);
        if zone.None? then None else Some((if rest[0] == '.' then Some(rest[1..1 + run]) else None, zone.value))
  }

  lemma TailIff(rest: string, f: Fields)
    requires Lexical(f)
    ensures ExecTail(rest) == Some((f.fraction, f.zone)) <==> rest == WriteTail(f)
  {
    hide ExecZone, DigitRun;
    var z := WriteZone(f.zone);
    assert z != "" && !IsDigit(z[0]) && z[0] != '.';
    ZoneIff(z, f.zone);
    if rest == WriteTail(f) {
      if f.fraction.Some? {
        RunOf(f.fraction.value, z);
        assert rest[1..] == f.fraction.value + z;
        assert rest[1..1 + |f.fraction.value|] == f.fraction.value && rest[1 + |f.fraction.value|..] == z;
      } else {
        assert rest == z;
      }
    }
    if ExecTail(rest) == Some((f.fraction, f.zone)) {
      var run := if rest[0] == '.' then DigitRun(rest[1..]) else 0;
      ZoneIff(if rest[0] == '.' then rest[1 + run..] else rest, f.zone);
      if rest[0] == '.' { assert rest == "." + rest[1..1 + run] + rest[1 + run..]; }
    }
  }

  lemma ExecLexical(s: string)
    ensures Exec(s).Some? ==> Lexical(Exec(s).value)
  {
    if Exec(s).Some? {
      var rest := s[19..];
      var run := if rest[0] == '.' then DigitRun(rest[1..]) else 0;
      ZoneIff(if rest[0] == '.' then rest[1 + run..] else rest, Utc);
      assert rest[0] == '.' ==> rest[1..][..run] == rest[1..1 + run];
    }
  }

  /** The expression matches exactly the written forms, each with its own fields. */
  lemma ExecIff(s: string, f: Fields)
    requires Lexical(f)
    ensures Exec(s) == Some(f) <==> s == Write(f)
  {
    hide Lexical, WriteHead, WriteTail, IsHead, ExecZone, DigitRun, N2, N4;
    var w := Write(f);
    assert w[..19] == WriteHead(f) && w[19..] == WriteTail(f);
    TailNotEmpty(f);
    if |s| >= 20 {
      HeadIff(s[..19], f);
      TailIff(s[19..], f);
      assert s == s[..19] + s[19..];
      ExecByParts(s);
    }
  }

  lemma TailNotEmpty(f: Fields)
    ensures WriteTail(f) != ""
  {
  }

  lemma ExecByParts(s: string)
    requires |s| >= 20
    ensures Exec(s) ==
              if !IsHead(s[..19]) || ExecTail(s[19..]).None? then None
              else
                var h, tail := s[..19], ExecTail(s[19..]).value;
                Some(Fields(Date(N4(h[..4]), N2(h[5..7]), N2(h[8..10])), N2(h[11..13]), N2(h[14..16]), N2(h[17..19]),
                  tail.0, tail.1))
  {
  }

  // ---------------------------------------------------------------- the instant

  /** Milliseconds of a fraction: its first three digits, zero-filled. */
  function FractionMs(fraction: Option<string>): (ms: nat)
    requires fraction.Some? ==> AllDigits(fraction.value)
    ensures ms <= 999
  {
    N3(((if fraction.Some? then fraction.value else "") + "000")[..3])
  }

  function Decimal(s: string): nat
    requires AllDigits(s)
  {
    if s == "" then 0 else Decimal(s[..|s| - 1]) * 10 + D(s[|s| - 1])
  }

  function Pow10(n: nat): (p: nat)
    ensures p > 0
  {
    if n == 0 then 1 else 10 * Pow10(n - 1)
  }

  lemma TimesTen(a: nat, p: nat)
    ensures a * (10 * p) == 10 * (a * p)
  {
  }

  lemma DecimalLast(s: string)
    requires s != "" && AllDigits(s)
    ensures Decimal(s) == Decimal(s[..|s| - 1]) * 10 + D(s[|s| - 1])
  {
  }

  lemma {:induction false} DecimalSplit(a: string, b: string)
    requires AllDigits(a) && AllDigits(b)
    ensures AllDigits(a + b) && Decimal(a + b) == Decimal(a) * Pow10(|b|) + Decimal(b) && Decimal(b) < Pow10(|b|)
  {
    if b == "" {
      assert a + b == a;
    } else {
      var init := b[..|b| - 1];
      DecimalSplit(a, init);
      DecimalLast(a + b);
      DecimalLast(b);
      assert (a + b)[..|a| + |b| - 1] == a + init;
      TimesTen(Decimal(a), Pow10(|init|));
      hide Decimal;
    }
  }

  lemma TruncatedQuotient(head: nat, rest: nat, p: nat)
    requires rest < p
    ensures (head * p + rest) * 1000 / (1000 * p) == head
  {
    assert (head * p + rest) * 1000 == head * (1000 * p) + rest * 1000;
    QuotientIs((head * p + rest) * 1000, 1000 * p, head, rest * 1000);
  }

  lemma ShortFraction(digits: string)
    requires AllDigits(digits) && |digits| < 3
    ensures FractionMs(Some(digits)) == Decimal(digits) * 1000 / Pow10(|digits|)
  {
    if |digits| == 2 {
      assert (digits + "000")[..3] == digits + "0" && digits[..1] == [digits[0]];
      assert Decimal(digits) == 10 * D(digits[0]) + D(digits[1]) && Pow10(2) == 100;
    } else if |digits| == 1 {
      assert (digits + "000")[..3] == digits + "00" && Pow10(1) == 10;
    } else {
      assert (digits + "000")[..3] == "000";
    }
  }

  lemma ThreeDigits(head: string)
    requires |head| == 3 && AllDigits(head)
    ensures Decimal(head) == N3(head)
  {
    var two := head[..2];
    var one := two[..1];
    assert head[..|head| - 1] == two && two[..|two| - 1] == one && one[..|one| - 1] == "";
    assert Decimal(one) == D(head[0]);
    assert Decimal(two) == Decimal(one) * 10 + D(head[1]);
  }

  /** The fraction of a second is truncated, not rounded, to milliseconds. */
  lemma {:induction false} FractionTruncates(digits: string)
    requires AllDigits(digits)
    ensures FractionMs(Some(digits)) == Decimal(digits) * 1000 / Pow10(|digits|)
  {
    hide Decimal, N3;
    if |digits| >= 3 {
      var head, rest := digits[..3], digits[3..];
      assert digits == head + rest && (digits + "000")[..3] == head;
      DecimalSplit(head, rest);
      ThreeDigits(head);
      assert Pow10(|digits|) == 1000 * Pow10(|rest|) by { PowThree(|rest|); }
      TruncatedQuotient(Decimal(head), Decimal(rest), Pow10(|rest|));
    } else {
      ShortFraction(digits);
    }
  }

  lemma PowThree(n: nat)
    ensures Pow10(n + 3) == 1000 * Pow10(n)
  {
    assert Pow10(n + 3) == 10 * Pow10(n + 2) && Pow10(n + 2) == 10 * Pow10(n + 1) && Pow10(n + 1) == 10 * Pow10(n);
  }

  function OffsetMs(z: Zone): int {
    match z
    case Utc => 0
    case Offset(plus, hour, minute) => (hour * 60 + minute) * 60 * 1000 * (if plus then 1 else -1)
  }

  predicate InBounds(f: Fields) {
    && f.date.year != 0 && 1 <= f.date.month <= 12 && f.hour <= 23 && f.minute <= 59 && f.second <= 59
    && (f.zone.Offset? ==> f.zone.hour <= 14 && f.zone.minute <= 59 && !(f.zone.hour == 14 && f.zone.minute != 0))
  }

  /** `parseSamlInstant`; the calendar is written by setUTCFullYear and setUTCHours and then read back. */
  function ParseSamlInstant(value: Option<string>): Option<int> {
    if value.None? || value.value == "" then None
    else
      var m := Exec(value.value);
      ExecLexical(value.value);
      if m.None? || !InBounds(m.value) then None
      else
        var f := m.value;
        var day := MakeDay(f.date);
        var calendar := MakeDate(DayOf(MakeDate(day, Clock(0, 0, 0, 0))),
          Clock(f.hour, f.minute, f.second, FractionMs(f.fraction)));
        var clock := ClockOf(calendar);
        if DateOf(DayOf(calendar)) != f.date || clock.hour != f.hour || clock.minute != f.minute
          || clock.second != f.second then None
        else Some(calendar - OffsetMs(f.zone))
  }

  /**
   * A dateTime that denotes an instant: a day the Gregorian calendar has, from year 1, and an offset of at most 14
   * hours.
   */
  predicate Denotes(f: Fields) {
    && Lexical(f) && 1 <= f.date.year && IsReal(f.date) && f.hour < 24 && f.minute < 60 && f.second < 60
    && (f.zone.Offset? ==> f.zone.minute < 60 && f.zone.hour * 60 + f.zone.minute <= 14 * 60)
  }

  function InstantOf(f: Fields): int
    requires Denotes(f)
  {
    MakeDate(MakeDay(f.date), Clock(f.hour, f.minute, f.second, FractionMs(f.fraction))) - OffsetMs(f.zone)
  }

  /** The instant in milliseconds: the day's, the time of day's, less what the zone is ahead of UTC. */
  lemma InstantIs(f: Fields)
    requires Denotes(f)
    ensures var ahead: int := if f.zone.Utc? then 0 else f.zone.hour * 3_600_000 + f.zone.minute * 60_000;
            InstantOf(f) + (if f.zone.Utc? || f.zone.plus then ahead else -ahead) ==
              MakeDay(f.date) * 86_400_000 + f.hour * 3_600_000 + f.minute * 60_000 + f.second * 1000
              + FractionMs(f.fraction)
  {
    hide MakeDay, FractionMs;
  }

  lemma ParseFields(f: Fields)
    requires Lexical(f)
    ensures ParseSamlInstant(Some(Write(f))) == if Denotes(f) then Some(InstantOf(f)) else None
  {
    hide Exec, Write, MakeDay, DateOf, IsReal, ClockOf, MakeDate, FractionMs;
    ExecIff(Write(f), f);
    WriteNotEmpty(f);
    if InBounds(f) {
      var c := Clock(f.hour, f.minute, f.second, FractionMs(f.fraction));
      ClockReadBack(MakeDay(f.date), Clock(0, 0, 0, 0));
      ClockReadBack(MakeDay(f.date), c);
      ReadBackIff(f.date);
    } else {
      RealMonth(f.date);
    }
  }

  lemma WriteNotEmpty(f: Fields)
    ensures Write(f) != ""
  {
  }

  lemma RealMonth(d: Date)
    ensures IsReal(d) ==> 1 <= d.month <= 12
  {
  }

  /** Accepted are exactly the written forms of instants, with exactly the instant each denotes. */
  lemma ParseIff(s: string, t: int)
    ensures ParseSamlInstant(Some(s)) == Some(t) <==> exists f :: Denotes(f) && s == Write(f) && t == InstantOf(f)
  {
    hide Write, Denotes, InstantOf, Lexical;
    if ParseSamlInstant(Some(s)).Some? {
      ExecLexical(s);
      var f := Exec(s).value;
      ExecIff(s, f);
      ParseFields(f);
    }
    forall f | Denotes(f) && s == Write(f) && t == InstantOf(f)
      ensures ParseSamlInstant(Some(s)) == Some(t)
    {
      DenotesLexical(f);
      ParseFields(f);
    }
  }

  lemma DenotesLexical(f: Fields)
    requires Denotes(f)
    ensures Lexical(f)
  {
  }

  // ---------------------------------------------------------------- the printer

  const MAX_TIME := 8_640_000_000_000_000

  function YearOf(t: int): int { DateOf(DayOf(t)).year }

  /** Four digits, or outside the years 0 to 9999 a sign and six. */
  function YearText(year: int): string {
    if 0 <= year <= 9999 then Four(year)
    else
      var years := if year < 0 then -year else year;
      (if year < 0 then "-" else "+") + Two(years / 10000) + Four(years % 10000)
  }

  lemma YearIsWritten(year: int)
    requires -1_000_000 < year < 1_000_000
    ensures var text := YearText(year);
            if 0 <= year <= 9999 then |text| == 4 && AllDigits(text) && N4(text) == year
            else
              && |text| == 7 && text[0] == (if year < 0 then '-' else '+')
              && AllDigits(text[1..3]) && AllDigits(text[3..7])
              && N2(text[1..3]) * 10_000 + N4(text[3..7]) == if year < 0 then -year else year
  {
    hide Two, Four, N2, N4;
    if 0 <= year <= 9999 {
      FourIff(Four(year), year);
    } else {
      var years := if year < 0 then -year else year;
      TwoIff(Two(years / 10000), years / 10000);
      FourIff(Four(years % 10000), years % 10000);
      assert YearText(year)[1..3] == Two(years / 10000) && YearText(year)[3..7] == Four(years % 10000);
    }
  }

  /** `new Date(t).toISOString()`; outside the range of a Date it throws. */
  function Print(t: int): Option<string> {
    if t > MAX_TIME || t < -MAX_TIME then None
    else
      var d, c := DateOf(DayOf(t)), ClockOf(t);
      Some(YearText(d.year) + "-" + Two(d.month) + "-" + Two(d.day) + "T" + Two(c.hour) + ":" + Two(c.minute) + ":"
           + Two(c.second) + "." + Three(c.ms) + "Z")
  }

  /** What is printed for every instant a Date has, and for no other. */
  lemma PrintIs(t: int)
    ensures Print(t).None? <==> t < -8_640_000_000_000_000 || t > 8_640_000_000_000_000
  {
    hide DateOf, ClockOf, YearText;
  }

  function UtcFields(t: int): Fields {
    var d, c := DateOf(DayOf(t)), ClockOf(t);
    Fields(d, c.hour, c.minute, c.second, Some(Three(c.ms)), Utc)
  }

  lemma ThreeValue(ms: int)
    requires 0 <= ms <= 999
    ensures FractionMs(Some(Three(ms))) == ms
  {
    assert (Three(ms) + "000")[..3] == Three(ms);
  }

  lemma PrintIsWrite(t: int)
    requires Print(t).Some? && 0 <= YearOf(t) <= 9999
    ensures Print(t).value == Write(UtcFields(t)) && Lexical(UtcFields(t))
  {
    hide Two, Three, Four, DateOf, ClockOf;
    RealMonth(DateOf(DayOf(t)));
    RealDay(DateOf(DayOf(t)));
  }

  lemma RealDay(d: Date)
    requires IsReal(d)
    ensures 1 <= d.day <= 31
  {
  }

  /** Printed instants of the years 1 to 9999 come back to the millisecond; any other printed instant is refused. */
  lemma ParseOfPrint(t: int)
    requires -MAX_TIME <= t <= MAX_TIME
    ensures Print(t).Some?
    ensures ParseSamlInstant(Print(t)) == if 1 <= YearOf(t) <= 9999 then Some(t) else None
  {
    hide Write, Exec, DateOf, ClockOf, Two, Three, Four, FractionMs, MakeDate, MakeDay;
    if 0 <= YearOf(t) <= 9999 {
      var f := UtcFields(t);
      PrintIsWrite(t);
      ParseFields(f);
      ThreeValue(ClockOf(t).ms);
    } else {
      assert !IsDigit(Print(t).value[0]);
      SignedIsRefused(Print(t).value);
    }
  }

  lemma SignedIsRefused(s: string)
    requires s != "" && !IsDigit(s[0])
    ensures Exec(s) == None
  {
    if |s| >= 20 { assert s[..19][..4][0] == s[0]; }
  }

  // ---------------------------------------------------------------- the freshness of a logout request

  const MAX_AGE := 5 * 60 * 1000
  const MAX_SKEW := 5 * 60 * 1000

  datatype Freshness =
    | Fresh(validUntil: int) | BadTolerance | BadIssueInstant | InFuture | BadNotOnOrAfter | BadInterval | Stale

  /** The time checks of `verifySamlLogoutRequest`; an attribute that is missing is None. */
  function CheckFreshness(issueInstant: Option<string>, notOnOrAfter: Option<string>, now: int, skew: int): Freshness {
    if skew < 0 || skew > MAX_SKEW then BadTolerance
    else
      var issued := ParseSamlInstant(issueInstant);
      if issued.None? then BadIssueInstant
      else if issued.value > now + skew then InFuture
      else
        var deadline := issued.value + MAX_AGE;
        var declared := if notOnOrAfter.Some? then ParseSamlInstant(notOnOrAfter) else None;
        if notOnOrAfter.Some? && declared.None? then BadNotOnOrAfter
        else if declared.Some? && declared.value <= issued.value then BadInterval
        else
          var validUntil := if declared.None? || deadline < declared.value then deadline else declared.value;
          if now >= validUntil then Stale else Fresh(validUntil)
  }

  /** The result r for these two instants, the second of which is of an attribute that may be missing. */
  predicate Judged(r: Freshness, issue: Option<int>, hasEnd: bool, end: Option<int>, now: int, skew: int) {
    var tolerable := 0 <= skew <= 300_000;
    var issued := tolerable && issue.Some? && issue.value - skew <= now;
    && (r == BadTolerance <==> !tolerable)
    && (r == BadIssueInstant <==> tolerable && issue.None?)
    && (r == InFuture <==> tolerable && issue.Some? && issue.value - skew > now)
    && (r == BadNotOnOrAfter <==> issued && hasEnd && end.None?)
    && (r == BadInterval <==> issued && hasEnd && end.Some? && end.value <= issue.value)
    && (r.Fresh? <==>
          && issued && now < issue.value + 300_000
          && (hasEnd ==> end.Some? && issue.value < end.value && now < end.value))
    && (r.Fresh? ==>
          && r.validUntil <= issue.value + 300_000 && (hasEnd ==> r.validUntil <= end.value)
          && (r.validUntil == issue.value + 300_000 || (hasEnd && r.validUntil == end.value)))
  }

  /**
   * Which requests are fresh, until when, and what each refusal means, for every pair of attributes and every clock:
   * the issue is readable and not ahead of the clock by more than the tolerance; an end, if there is one, is readable
   * and after the issue; and neither the end nor five minutes have passed.
   */
  lemma FreshnessOutcome(issueInstant: Option<string>, notOnOrAfter: Option<string>, now: int, skew: int)
    ensures Judged(CheckFreshness(issueInstant, notOnOrAfter, now, skew), ParseSamlInstant(issueInstant),
                   notOnOrAfter.Some?, ParseSamlInstant(notOnOrAfter), now, skew)
  {
    hide ParseSamlInstant;
  }

  /**
   * A request printed at t with a validity of v milliseconds is accepted exactly from t - skew until the earlier of t +
   * v and five minutes after t.
   */
  lemma PrintedRequestWindow(t: int, v: Option<int>, now: int, skew: int)
    requires 1 <= YearOf(t) <= 9999 && Print(t).Some?
    requires v.Some? ==> Print(t + v.value).Some? && 1 <= YearOf(t + v.value) <= 9999
    ensures CheckFreshness(Print(t), if v.Some? then Print(t + v.value) else None, now, skew).Fresh? <==>
              && 0 <= skew <= MAX_SKEW && t - skew <= now < t + MAX_AGE
              && (v.Some? ==> 0 < v.value && now < t + v.value)
  {
    hide Print, ParseSamlInstant, YearOf;
    PrintRange(t);
    ParseOfPrint(t);
    if v.Some? {
      PrintRange(t + v.value);
      ParseOfPrint(t + v.value);
    }
  }

  lemma PrintRange(t: int)
    requires Print(t).Some?
    ensures -MAX_TIME <= t <= MAX_TIME
  {
  }
}
