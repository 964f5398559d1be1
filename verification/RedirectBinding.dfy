/**
 * The strings that HTTP-Redirect signatures cover (section 3.4.4.1 of SAML 2.0 Bindings), over encodeURIComponent with
 * its UTF-8 and percent escapes spelled out.
 */
module RedirectBinding {
  import opened Text

  // ---------------------------------------------------------------- encodeURIComponent

  predicate IsUnreserved(c: char) {
    'A' <= c <= 'Z' || 'a' <= c <= 'z' || '0' <= c <= '9'
    || c == '-' || c == '_' || c == '.' || c == '!' || c == '~' || c == '*' || c == '\'' || c == '(' || c == ')'
  }

  function Utf8(c: char): seq<byte> {
    var n := c as int;
    if n < 0x80 then [n]
    else if n < 0x800 then [0xC0 + n / 0x40, 0x80 + n % 0x40]
    else if n < 0x1_0000 then [0xE0 + n / 0x1000, 0x80 + n / 0x40 % 0x40, 0x80 + n % 0x40]
    else [0xF0 + n / 0x4_0000, 0x80 + n / 0x1000 % 0x40, 0x80 + n / 0x40 % 0x40, 0x80 + n % 0x40]
  }

  function Hex(n: int): (c: char)
    requires 0 <= n < 16
    ensures IsHex(c) && HexValue(c) == n
  {
    if n < 10 then ('0' as int + n) as char else ('A' as int + n - 10) as char
  }

  predicate IsHex(c: char) { '0' <= c <= '9' || 'A' <= c <= 'F' }

  function HexValue(c: char): (n: int)
    requires IsHex(c)
    ensures 0 <= n < 16
  {
    if c <= '9' then c as int - '0' as int else c as int - 'A' as int + 10
  }

  function Escape(b: byte): string { ['%', Hex(b / 16), Hex(b % 16)] }

  function Escapes(bs: seq<byte>): string {
    if bs == [] then "" else Escape(bs[0]) + Escapes(bs[1..])
  }

  function EncodeChar(c: char): string { if IsUnreserved(c) then [c] else Escapes(Utf8(c)) }

  function EncodeURIComponent(s: string): string {
    if s == "" then "" else EncodeChar(s[0]) + EncodeURIComponent(s[1..])
  }

  // ---------------------------------------------------------------- what is written

  /** These characters stand for themselves: letters, digits and - _ . ! ~ * ' ( ), by code. */
  predicate StandsForItself(n: int) {
    65 <= n <= 90 || 97 <= n <= 122 || 48 <= n <= 57 || n in {45, 95, 46, 33, 126, 42, 39, 40, 41}
  }

  /** Continuation bytes of UTF-8 carry six bits each, the first byte the rest and the length (RFC 3629, section 3). */
  predicate IsUtf8(n: int, bs: seq<int>) {
    && (forall i :: 1 <= i < |bs| ==> 128 <= bs[i] < 192)
    && ((|bs| == 1 && bs[0] == n < 128)
        || (|bs| == 2 && 192 <= bs[0] < 224 && n == (bs[0] - 192) * 64 + (bs[1] - 128) && n >= 128)
        || (|bs| == 3 && 224 <= bs[0] < 240 && n == (bs[0] - 224) * 4096 + (bs[1] - 128) * 64 + (bs[2] - 128)
          && n >= 2048)
        || (|bs| == 4 && 240 <= bs[0] < 248 && n >= 65536
            && n == (bs[0] - 240) * 262144 + (bs[1] - 128) * 4096 + (bs[2] - 128) * 64 + (bs[3] - 128)))
  }

  /** The code of a hexadecimal digit in upper case. */
  function HexCode(d: int): int { if d < 10 then 48 + d else 55 + d }

  /**
   * What encodeURIComponent writes for a character: itself, or for each byte of its UTF-8 form a percent sign and two
   * hexadecimal digits in upper case, the higher first.
   */
  lemma CharIsWritten(c: char)
    ensures var e := EncodeURIComponent([c]);
            if StandsForItself(c as int) then e == [c]
            else
              && IsUtf8(c as int, Utf8(c)) && |e| == 3 * |Utf8(c)|
              && forall k :: 0 <= k < |Utf8(c)| ==>
                   && e[3 * k] == '%' && e[3 * k + 1] as int == HexCode(Utf8(c)[k] / 16)
                   && e[3 * k + 2] as int == HexCode(Utf8(c)[k] % 16)
  {
    assert [c][1..] == "";
    Utf8IsUtf8(c);
    hide Utf8, Escapes, IsUtf8;
    if !IsUnreserved(c) { EscapesAre(Utf8(c)); }
    assert EncodeURIComponent([c]) == EncodeChar(c);
  }

  lemma Utf8IsUtf8(c: char)
    ensures IsUtf8(c as int, Utf8(c))
  {
    Sixes(c as int);
    var n, bs := c as int, Utf8(c);
    if n < 0x80 {
      assert bs == [n];
    } else if n < 0x800 {
      assert bs[0] == 192 + n / 64 && bs[1] == 128 + n % 64;
    } else if n < 0x1_0000 {
      assert bs[0] == 224 + n / 4096 && bs[1] == 128 + n / 64 % 64 && bs[2] == 128 + n % 64;
    } else {
      assert bs[0] == 240 + n / 262144 && bs[1] == 128 + n / 4096 % 64 && bs[2] == 128 + n / 64 % 64;
      assert bs[3] == 128 + n % 64;
    }
  }

  lemma {:induction false} EscapesAre(bs: seq<byte>)
    ensures |Escapes(bs)| == 3 * |bs|
    ensures forall k :: 0 <= k < |bs| ==>
              && Escapes(bs)[3 * k] == '%' && Escapes(bs)[3 * k + 1] as int == HexCode(bs[k] / 16)
              && Escapes(bs)[3 * k + 2] as int == HexCode(bs[k] % 16)
  {
    if bs != [] {
      EscapesAre(bs[1..]);
      var head, rest := Escape(bs[0]), Escapes(bs[1..]);
      assert Escapes(bs) == head + rest;
      forall k | 0 <= k < |bs|
        ensures Escapes(bs)[3 * k] == '%' && Escapes(bs)[3 * k + 1] as int == HexCode(bs[k] / 16)
        ensures Escapes(bs)[3 * k + 2] as int == HexCode(bs[k] % 16)
      {
        if k > 0 {
          assert bs[k] == bs[1..][k - 1] && rest[3 * (k - 1)] == '%';
          assert (head + rest)[3 * k] == rest[3 * (k - 1)] && (head + rest)[3 * k + 1] == rest[3 * (k - 1) + 1];
          assert (head + rest)[3 * k + 2] == rest[3 * (k - 1) + 2];
        }
      }
    }
  }

  /** Texts are written character by character. */
  lemma {:induction false} TextIsWritten(s: string, t: string)
    ensures EncodeURIComponent("") == "" && EncodeURIComponent(s + t) == EncodeURIComponent(s) + EncodeURIComponent(t)
  {
    hide EncodeChar;
    if s == "" {
      assert s + t == t;
    } else {
      TextIsWritten(s[1..], t);
      assert (s + t)[1..] == s[1..] + t;
    }
  }

  // ---------------------------------------------------------------- reading back

  /** The byte of the escape at position i. */
  function ByteAt(s: string, i: nat): Option<byte> {
    if i + 3 <= |s| && s[i] == '%' && IsHex(s[i + 1]) && IsHex(s[i + 2])
      then Some(HexValue(s[i + 1]) * 16 + HexValue(s[i + 2]))
    else None
  }

  /** How many bytes a UTF-8 sequence has, from its first. */
  function Length(first: byte): nat {
    if first < 0x80 then 1 else if first < 0xE0 then 2 else if first < 0xF0 then 3 else 4
  }

  /** The bits of a continuation byte. */
  function Tail(b: int): int { b - 0x80 }

  function CodePoint(bs: seq<byte>): int
    requires 1 <= |bs| <= 4
  {
    if |bs| == 1 then bs[0]
    else if |bs| == 2 then (bs[0] as int - 0xC0) * 0x40 + Tail(bs[1])
    else if |bs| == 3 then (bs[0] as int - 0xE0) * 0x1000 + Tail(bs[1]) * 0x40 + Tail(bs[2])
    else (bs[0] as int - 0xF0) * 0x4_0000 + Tail(bs[1]) * 0x1000 + Tail(bs[2]) * 0x40 + Tail(bs[3])
  }

  function ReadBytes(s: string, n: nat): Option<seq<byte>> {
    if n == 0 then Some([])
    else
      var b := ByteAt(s, 0);
      if b.None? then None
      else
        var more := ReadBytes(s[3..], n - 1);
        if more.None? then None else Some([b.value] + more.value)
  }

  /** The code point at the head of an encoded string and the length of its encoding. */
  function ReadChar(s: string): Option<(int, nat)> {
    if s == "" then None
    else if s[0] != '%' then Some((s[0] as int, 1))
    else if ByteAt(s, 0).None? then None
    else
      var n := Length(ByteAt(s, 0).value);
      var bs := ReadBytes(s, n);
      if bs.None? || |bs.value| != n then None else Some((CodePoint(bs.value), 3 * n))
  }

  /** Six bits at a time. */
  lemma Sixes(n: nat)
    ensures n == n / 0x40 * 0x40 + n % 0x40
    ensures n / 0x40 == n / 0x1000 * 0x40 + n / 0x40 % 0x40
    ensures n / 0x1000 == n / 0x4_0000 * 0x40 + n / 0x1000 % 0x40
  {
  }

  lemma Utf8Back(c: char)
    ensures 1 <= |Utf8(c)| <= 4 && |Utf8(c)| == Length(Utf8(c)[0]) && CodePoint(Utf8(c)) == c as int
  {
    Sixes(c as int);
    Utf8Length(c);
  }

  lemma Utf8Length(c: char)
    ensures 1 <= |Utf8(c)| <= 4 && |Utf8(c)| == Length(Utf8(c)[0])
  {
  }

  lemma ByteBack(b: byte, rest: string)
    ensures ByteAt(Escape(b) + rest, 0) == Some(b) && (Escape(b) + rest)[3..] == rest && |Escape(b)| == 3
              && Escape(b)[0] == '%'
  {
  }

  lemma {:induction false} EscapesBack(bs: seq<byte>, rest: string)
    ensures ReadBytes(Escapes(bs) + rest, |bs|) == Some(bs) && |Escapes(bs)| == 3 * |bs|
  {
    hide ByteAt, Escape;
    if bs != [] {
      var more := Escapes(bs[1..]) + rest;
      EscapesBack(bs[1..], rest);
      ByteBack(bs[0], more);
      assert Escapes(bs) + rest == Escape(bs[0]) + more && [bs[0]] + bs[1..] == bs;
    }
  }

  /** One character is read back from the head of any text its encoding starts. */
  lemma CharBack(c: char, rest: string)
    ensures ReadChar(EncodeChar(c) + rest) == Some((c as int, |EncodeChar(c)|)) && EncodeChar(c) != ""
  {
    hide Utf8, CodePoint, Length, ReadBytes, ByteAt, Escape;
    if !IsUnreserved(c) {
      var bs := Utf8(c);
      Utf8Back(c);
      EscapesBack(bs, rest);
      ByteBack(bs[0], Escapes(bs[1..]) + rest);
      assert Escapes(bs) + rest == Escape(bs[0]) + (Escapes(bs[1..]) + rest);
    }
  }

  /** So an encoding determines its text. */
  lemma {:induction false} EncodingInjective(s: string, t: string)
    requires EncodeURIComponent(s) == EncodeURIComponent(t)
    ensures s == t
  {
    hide ReadChar, EncodeChar;
    if s != "" { CharBack(s[0], EncodeURIComponent(s[1..])); }
    if t != "" { CharBack(t[0], EncodeURIComponent(t[1..])); }
    if s != "" && t != "" {
      assert s[0] == t[0];
      var n := |EncodeChar(s[0])|;
      assert EncodeURIComponent(s)[n..] == EncodeURIComponent(s[1..])
        && EncodeURIComponent(t)[n..] == EncodeURIComponent(t[1..]);
      EncodingInjective(s[1..], t[1..]);
      assert s == [s[0]] + s[1..] && t == [t[0]] + t[1..];
    }
  }

  lemma {:induction false} EscapesClean(bs: seq<byte>)
    ensures '&' !in Escapes(bs) && '=' !in Escapes(bs)
  {
    if bs != [] { EscapesClean(bs[1..]); }
  }

  lemma {:induction false} EncodingClean(s: string)
    ensures '&' !in EncodeURIComponent(s) && '=' !in EncodeURIComponent(s)
  {
    if s != "" {
      EscapesClean(Utf8(s[0]));
      EncodingClean(s[1..]);
    }
  }

  // ---------------------------------------------------------------- the builders

  /**
   * message=..&RelayState=..&SigAlg=.. with each value as given; an absent RelayState has no part, an empty one has.
   */
  function Parts(name: string, message: string, relayState: Option<string>, sigAlg: string): seq<string> {
    [name + "=" + message]
    + (if relayState.Some? then ["RelayState=" + relayState.value] else [])
    + ["SigAlg=" + sigAlg]
  }

  function EncodedRelay(relayState: Option<string>): Option<string> {
    if relayState.Some? then Some(EncodeURIComponent(relayState.value)) else None
  }

  function RequestString(message: string, relayState: Option<string>, sigAlg: string): string {
    Join(Parts("SAMLRequest", EncodeURIComponent(message), EncodedRelay(relayState), EncodeURIComponent(sigAlg)), '&')
  }

  function ResponseString(message: string, relayState: Option<string>, sigAlg: string): string {
    Join(Parts("SAMLResponse", EncodeURIComponent(message), EncodedRelay(relayState), EncodeURIComponent(sigAlg)), '&')
  }

  datatype Wire = Wire(samlMessage: string, relayState: Option<string>, sigAlg: string)

  /** The values as they stood in the query, still encoded. */
  function WireString(messageName: string, w: Wire): string {
    Join(Parts(messageName, w.samlMessage, w.relayState, w.sigAlg), '&')
  }

  /** The signed strings, letter by letter. */
  lemma StringsAre(message: string, relayState: Option<string>, sigAlg: string)
    ensures var m, a := EncodeURIComponent(message), EncodeURIComponent(sigAlg);
            var rest := if relayState.None? then "&SigAlg=" + a
                        else "&RelayState=" + EncodeURIComponent(relayState.value) + "&SigAlg=" + a;
            && RequestString(message, relayState, sigAlg) == "SAMLRequest=" + m + rest
            && ResponseString(message, relayState, sigAlg) == "SAMLResponse=" + m + rest
  {
    hide EncodeURIComponent, Parts;
    var m, a := EncodeURIComponent(message), EncodeURIComponent(sigAlg);
    PartsJoined("SAMLRequest", m, EncodedRelay(relayState), a);
    PartsJoined("SAMLResponse", m, EncodedRelay(relayState), a);
    assert "SAMLRequest" + "=" == "SAMLRequest=" && "SAMLResponse" + "=" == "SAMLResponse=";
  }

  lemma WireStringIs(name: string, w: Wire)
    ensures var rest := if w.relayState.None? then "&SigAlg=" + w.sigAlg
                        else "&RelayState=" + w.relayState.value + "&SigAlg=" + w.sigAlg;
            WireString(name, w) == name + "=" + w.samlMessage + rest
  {
    PartsJoined(name, w.samlMessage, w.relayState, w.sigAlg);
  }

  lemma PartsJoined(name: string, m: string, r: Option<string>, a: string)
    ensures Join(Parts(name, m, r, a), '&') ==
              name + "=" + m + if r.None? then "&SigAlg=" + a else "&RelayState=" + r.value + "&SigAlg=" + a
  {
    var parts := Parts(name, m, r, a);
    var last := "SigAlg=" + a;
    assert "&SigAlg=" == ['&'] + "SigAlg=" && "&RelayState=" == ['&'] + "RelayState=" ;
    if r.Some? {
      assert parts[1..] == ["RelayState=" + r.value, last] && parts[1..][1..] == [last];
      assert Join(parts[1..], '&') == "RelayState=" + r.value + ['&'] + last;
    } else {
      assert parts[1..] == [last];
    }
  }

  /** Values cut out of a query hold no separator. */
  predicate FromQuery(w: Wire) {
    '&' !in w.samlMessage && (w.relayState.Some? ==> '&' !in w.relayState.value) && '&' !in w.sigAlg
  }

  predicate IsMessageName(name: string) { name == "SAMLRequest" || name == "SAMLResponse" }

  lemma PartsDiffer(name: string, name': string, a: string, b: string)
    requires IsMessageName(name) && IsMessageName(name') && name + "=" + a == name' + "=" + b
    ensures name == name' && a == b
  {
    assert (name + "=" + a)[7] == name[7] && (name' + "=" + b)[7] == name'[7];
    assert (name + "=" + a)[|name| + 1..] == a && (name' + "=" + b)[|name'| + 1..] == b;
  }

  /** Signed strings over query values determine the message kind and every value. */
  lemma WireInjective(name: string, w: Wire, name': string, w': Wire)
    requires IsMessageName(name) && IsMessageName(name') && FromQuery(w) && FromQuery(w')
    requires WireString(name, w) == WireString(name', w')
    ensures name == name' && w == w'
  {
    var p, q := Parts(name, w.samlMessage, w.relayState, w.sigAlg),
      Parts(name', w'.samlMessage, w'.relayState, w'.sigAlg);
    SplitOfJoin(p, '&');
    SplitOfJoin(q, '&');
    assert p == q && |p| == (if w.relayState.Some? then 3 else 2) && |q| == (if w'.relayState.Some? then 3 else 2);
    assert p[0] == name + "=" + w.samlMessage && q[0] == name' + "=" + w'.samlMessage;
    PartsDiffer(name, name', w.samlMessage, w'.samlMessage);
    assert p[|p| - 1] == "SigAlg=" + w.sigAlg && q[|q| - 1] == "SigAlg=" + w'.sigAlg;
    assert p[|p| - 1][7..] == w.sigAlg && q[|q| - 1][7..] == w'.sigAlg;
    if w.relayState.Some? {
      assert p[1] == "RelayState=" + w.relayState.value && q[1] == "RelayState=" + w'.relayState.value;
      assert p[1][11..] == w.relayState.value && q[1][11..] == w'.relayState.value;
    }
  }

  function Encoded(message: string, relayState: Option<string>, sigAlg: string): (w: Wire) {
    Wire(EncodeURIComponent(message), EncodedRelay(relayState), EncodeURIComponent(sigAlg))
  }

  lemma EncodedFromQuery(message: string, relayState: Option<string>, sigAlg: string)
    ensures FromQuery(Encoded(message, relayState, sigAlg))
  {
    EncodingClean(message);
    EncodingClean(sigAlg);
    if relayState.Some? { EncodingClean(relayState.value); }
  }

  /**
   * A query's wire string is the string another party signed iff the query holds that party's encodings under the same
   * message name.
   */
  lemma WireMatchesIff(name: string, w: Wire, message: string, relayState: Option<string>, sigAlg: string)
    requires IsMessageName(name) && FromQuery(w)
    ensures WireString(name, w) == RequestString(message, relayState, sigAlg) <==>
              name == "SAMLRequest" && w == Encoded(message, relayState, sigAlg)
    ensures WireString(name, w) == ResponseString(message, relayState, sigAlg) <==>
              name == "SAMLResponse" && w == Encoded(message, relayState, sigAlg)
  {
    hide FromQuery, IsMessageName;
    var e := Encoded(message, relayState, sigAlg);
    EncodedFromQuery(message, relayState, sigAlg);
    assert RequestString(message, relayState, sigAlg) == WireString("SAMLRequest", e);
    assert ResponseString(message, relayState, sigAlg) == WireString("SAMLResponse", e);
    assert IsMessageName("SAMLRequest") && IsMessageName("SAMLResponse") by { Names(); }
    if WireString(name, w) == WireString("SAMLRequest", e) { WireInjective(name, w, "SAMLRequest", e); }
    if WireString(name, w) == WireString("SAMLResponse", e) { WireInjective(name, w, "SAMLResponse", e); }
  }

  lemma Names()
    ensures IsMessageName("SAMLRequest") && IsMessageName("SAMLResponse")
  {
  }

  /**
   * Equal signed strings mean equal message, RelayState (absent, empty or a value) and algorithm; requests and
   * responses never coincide.
   */
  lemma SignedStringsInjective(m: string, r: Option<string>, a: string, m': string, r': Option<string>, a': string)
    ensures RequestString(m, r, a) == RequestString(m', r', a') ==> m == m' && r == r' && a == a'
    ensures ResponseString(m, r, a) == ResponseString(m', r', a') ==> m == m' && r == r' && a == a'
    ensures RequestString(m, r, a) != ResponseString(m', r', a')
  {
    hide FromQuery, EncodeURIComponent;
    var e := Encoded(m, r, a);
    EncodedFromQuery(m, r, a);
    assert RequestString(m, r, a) == WireString("SAMLRequest", e)
      && ResponseString(m, r, a) == WireString("SAMLResponse", e);
    WireMatchesIff("SAMLRequest", e, m', r', a');
    WireMatchesIff("SAMLResponse", e, m', r', a');
    if e == Encoded(m', r', a') {
      EncodingInjective(m, m');
      EncodingInjective(a, a');
      if r.Some? { EncodingInjective(r.value, r'.value); }
    }
  }

  /**
   * Without that guarantee about the query one string has two readings: a message that carries its own RelayState part.
   */
  lemma UnsplitValuesCollide(message: string, relayState: string, sigAlg: string)
    ensures WireString("SAMLRequest", Wire(message, Some(relayState), sigAlg))
            == WireString("SAMLRequest", Wire(message + "&RelayState=" + relayState, None, sigAlg))
    ensures !FromQuery(Wire(message + "&RelayState=" + relayState, None, sigAlg))
  {
    var long := message + "&RelayState=" + relayState;
    WireStringIs("SAMLRequest", Wire(message, Some(relayState), sigAlg));
    WireStringIs("SAMLRequest", Wire(long, None, sigAlg));
    hide WireString;
    assert "SAMLRequest" + "=" + long + ("&SigAlg=" + sigAlg)
      == "SAMLRequest" + "=" + message + ("&RelayState=" + relayState + "&SigAlg=" + sigAlg);
    assert long[|message|] == '&';
  }
}
