/**
 * Base64url without padding (section 5 of RFC 4648), built on btoa and on the forgiving atob of the WHATWG Infra
 * standard.
 */
module Base64Url {
  import opened Text
  import opened Arithmetic

  type sextet = n: int | 0 <= n < 64

  // ---------------------------------------------------------------- bits

  /** Each three bytes as four sextets; a shorter end is zero-filled. */
  function Sextets(b: seq<byte>): (r: seq<sextet>)
    ensures |r| % 4 != 1 && |r| == (|b| * 4 + 2) / 3
  {
    if |b| == 0 then []
    else if |b| == 1 then [b[0] / 4, b[0] % 4 * 16]
    else if |b| == 2 then [b[0] / 4, b[0] % 4 * 16 + b[1] / 16, b[1] % 16 * 4]
    else [b[0] / 4, b[0] % 4 * 16 + b[1] / 16, b[1] % 16 * 4 + b[2] / 64, b[2] % 64] + Sextets(b[3..])
  }

  predicate Sextet(n: int) { 0 <= n < 64 }

  function High(a: int, b: int): byte
    requires Sextet(a) && Sextet(b)
  {
    a * 4 + b / 16
  }

  function Middle(b: int, c: int): byte
    requires Sextet(b) && Sextet(c)
  {
    b % 16 * 16 + c / 4
  }

  function Low(c: int, d: int): byte
    requires Sextet(c) && Sextet(d)
  {
    c % 4 * 64 + d
  }

  /** The whole bytes of a sextet string; bits left over are dropped. */
  function Octets(s: seq<sextet>): seq<byte> {
    if |s| <= 1 then []
    else if |s| == 2 then [High(s[0], s[1])]
    else if |s| == 3 then [High(s[0], s[1]), Middle(s[1], s[2])]
    else [High(s[0], s[1]), Middle(s[1], s[2]), Low(s[2], s[3])] + Octets(s[4..])
  }

  lemma ThreeBack(a: byte, b: byte, c: byte)
    ensures High(a / 4, a % 4 * 16 + b / 16) == a && High(a / 4, a % 4 * 16) == a
    ensures Middle(a % 4 * 16 + b / 16, b % 16 * 4 + c / 64) == b && Middle(a % 4 * 16 + b / 16, b % 16 * 4) == b
    ensures Low(b % 16 * 4 + c / 64, c % 64) == c
  {
  }

  lemma {:induction false} OctetsOfSextets(b: seq<byte>)
    ensures Octets(Sextets(b)) == b
  {
    hide High, Middle, Low;
    if |b| > 2 {
      ThreeBack(b[0], b[1], b[2]);
      OctetsOfSextets(b[3..]);
      assert Sextets(b)[4..] == Sextets(b[3..]);
      assert b == [b[0], b[1], b[2]] + b[3..];
    } else if |b| == 2 {
      ThreeBack(b[0], b[1], 0);
    } else if |b| == 1 {
      ThreeBack(b[0], 0, 0);
    }
  }

  /** No bits are lost when the sextets are read. */
  predicate Canonical(s: seq<sextet>) {
    && |s| % 4 != 1
    && (|s| % 4 == 2 ==> s[|s| - 1] % 16 == 0)
    && (|s| % 4 == 3 ==> s[|s| - 1] % 4 == 0)
  }

  lemma SameHead(head: seq<sextet>, a: seq<sextet>, b: seq<sextet>)
    ensures head + a == head + b <==> a == b
  {
    assert (head + a)[|head|..] == a && (head + b)[|head|..] == b;
  }

  lemma ShortBack(s: seq<sextet>)
    requires |s| < 4 && |s| != 1
    ensures Sextets(Octets(s)) == s <==> Canonical(s)
    ensures |Sextets(Octets(s))| == |s|
  {
    if |s| == 2 {
      assert High(s[0], s[1]) / 4 == s[0] && High(s[0], s[1]) % 4 * 16 == s[1] / 16 * 16;
    } else if |s| == 3 {
      assert High(s[0], s[1]) / 4 == s[0] && High(s[0], s[1]) % 4 * 16 + Middle(s[1], s[2]) / 16 == s[1];
      assert Middle(s[1], s[2]) % 16 * 4 == s[2] / 4 * 4;
    }
  }

  lemma {:induction false} SextetsOfOctetsIff(s: seq<sextet>)
    requires |s| % 4 != 1
    ensures Sextets(Octets(s)) == s <==> Canonical(s)
    ensures |Sextets(Octets(s))| == |s|
  {
    if |s| >= 4 {
      hide Sextets, Octets, Canonical;
      var head, tail := s[..4], s[4..];
      SextetsOfOctetsIff(tail);
      GroupBack(head, tail);
      assert s == head + tail;
      CanonicalTail(head, tail);
      SameHead(head, Sextets(Octets(tail)), tail);
    } else {
      ShortBack(s);
    }
  }

  lemma FourBack(a: int, b: int, c: int, d: int)
    requires Sextet(a) && Sextet(b) && Sextet(c) && Sextet(d)
    ensures High(a, b) / 4 == a && High(a, b) % 4 * 16 + Middle(b, c) / 16 == b
    ensures Middle(b, c) % 16 * 4 + Low(c, d) / 64 == c && Low(c, d) % 64 == d
  {
    assert High(a, b) % 4 == b / 16;
    assert Middle(b, c) / 16 == b % 16 && Middle(b, c) % 16 == c / 4;
    assert Low(c, d) / 64 == c % 4;
  }

  /** A whole group of four loses nothing. */
  lemma GroupBack(head: seq<sextet>, tail: seq<sextet>)
    requires |head| == 4
    ensures Sextets(Octets(head + tail)) == head + Sextets(Octets(tail))
  {
    hide High, Middle, Low, Octets, Sextets;
    var a, b, c, d := head[0], head[1], head[2], head[3];
    FourBack(a, b, c, d);
    assert head == [a, b, c, d];
    OctetsOfGroup(head, tail);
    SextetsOfGroup(High(a, b), Middle(b, c), Low(c, d), Octets(tail));
  }

  lemma OctetsOfGroup(head: seq<sextet>, tail: seq<sextet>)
    requires |head| == 4
    ensures Octets(head + tail) == [High(head[0], head[1]), Middle(head[1], head[2]), Low(head[2], head[3])]
              + Octets(tail)
  {
    hide High, Middle, Low;
    assert (head + tail)[4..] == tail;
  }

  lemma SextetsOfGroup(x: byte, y: byte, z: byte, rest: seq<byte>)
    ensures Sextets([x, y, z] + rest) == [x / 4, x % 4 * 16 + y / 16, y % 16 * 4 + z / 64, z % 64] + Sextets(rest)
  {
    assert ([x, y, z] + rest)[3..] == rest;
  }

  lemma CanonicalTail(head: seq<sextet>, tail: seq<sextet>)
    requires |head| == 4
    ensures Canonical(head + tail) <==> Canonical(tail)
  {
    assert tail != [] ==> (head + tail)[|head + tail| - 1] == tail[|tail| - 1];
  }

  // ---------------------------------------------------------------- characters

  function Char(n: sextet): char {
    if n < 26 then ('A' as int + n) as char
    else if n < 52 then ('a' as int + n - 26) as char
    else if n < 62 then ('0' as int + n - 52) as char
    else if n == 62 then '+' else '/'
  }

  predicate IsChar(c: char) { 'A' <= c <= 'Z' || 'a' <= c <= 'z' || '0' <= c <= '9' || c == '+' || c == '/' }

  function Index(c: char): sextet
    requires IsChar(c)
  {
    if 'A' <= c <= 'Z' then c as int - 'A' as int
    else if 'a' <= c <= 'z' then c as int - 'a' as int + 26
    else if '0' <= c <= '9' then c as int - '0' as int + 52
    else if c == '+' then 62 else 63
  }

  predicate AllChars(s: string) { forall i :: 0 <= i < |s| ==> IsChar(s[i]) }

  function Chars(s: seq<sextet>): (r: string)
    ensures |r| == |s| && AllChars(r)
  {
    seq(|s|, i requires 0 <= i < |s| => Char(s[i]))
  }

  function Indices(s: string): seq<sextet>
    requires AllChars(s)
  {
    seq(|s|, i requires 0 <= i < |s| => Index(s[i]))
  }

  function Fill(n: nat): (r: string)
    ensures |r| == n && forall i :: 0 <= i < n ==> r[i] == '='
  {
    seq(n, _ => '=')
  }

  function Missing(n: nat): nat { (4 - n % 4) % 4 }

  function Btoa(b: seq<byte>): string { Chars(Sextets(b)) + Fill(Missing(|Sextets(b)|)) }

  predicate IsSpace(c: char) { c == ' ' || c == '\t' || c == '\n' || c == '\r' || c as int == 12 }

  function WithoutSpace(s: string): (r: string)
    ensures (forall i :: 0 <= i < |s| ==> !IsSpace(s[i])) ==> r == s
  {
    if s == "" then "" else if IsSpace(s[0]) then WithoutSpace(s[1..]) else [s[0]] + WithoutSpace(s[1..])
  }

  /** One or two trailing '=' of a string whose length divides by four. */
  function WithoutFill(s: string): string {
    if |s| % 4 != 0 || s == "" || s[|s| - 1] != '=' then s
    else if s[|s| - 2] == '=' then s[..|s| - 2]
    else s[..|s| - 1]
  }

  function Atob(s: string): Option<seq<byte>> {
    var data := WithoutFill(WithoutSpace(s));
    if |data| % 4 == 1 || !AllChars(data) then None else Some(Octets(Indices(data)))
  }

  // ---------------------------------------------------------------- base64url

  function Replace(s: string, from: char, to: char): (r: string)
    ensures |r| == |s|
  {
    seq(|s|, i requires 0 <= i < |s| => if s[i] == from then to else s[i])
  }

  function Delete(s: string, c: char): string {
    if s == "" then "" else if s[0] == c then Delete(s[1..], c) else [s[0]] + Delete(s[1..], c)
  }

  function Encode(b: seq<byte>): string {
    Delete(Replace(Replace(Btoa(b), '+', '-'), '/', '_'), '=')
  }

  function Decode(value: string): Option<seq<byte>> {
    var normalized := Replace(Replace(value, '-', '+'), '_', '/');
    Atob(normalized + Fill(Missing(|normalized|)))
  }

  predicate IsUrlChar(c: char) { 'A' <= c <= 'Z' || 'a' <= c <= 'z' || '0' <= c <= '9' || c == '-' || c == '_' }

  predicate AllUrlChars(s: string) { forall i :: 0 <= i < |s| ==> IsUrlChar(s[i]) }

  function ToUrl(s: string): string { Replace(Replace(s, '+', '-'), '/', '_') }

  function FromUrl(s: string): string { Replace(Replace(s, '-', '+'), '_', '/') }

  lemma {:induction false} DeleteNone(s: string, c: char)
    requires c !in s
    ensures Delete(s, c) == s
  {
    if s != "" {
      assert s[0] in s && forall x :: x in s[1..] ==> x in s;
      DeleteNone(s[1..], c);
    }
  }

  lemma {:induction false} DeleteTail(s: string, n: nat)
    requires '=' !in s
    ensures Delete(s + Fill(n), '=') == s
  {
    if s == "" {
      assert s + Fill(n) == Fill(n);
      if n > 0 {
        assert Fill(n)[1..] == Fill(n - 1) && "" + Fill(n - 1) == Fill(n - 1);
        DeleteTail("", n - 1);
      }
    } else {
      assert s[0] in s && forall x :: x in s[1..] ==> x in s;
      DeleteTail(s[1..], n);
      assert (s + Fill(n))[1..] == s[1..] + Fill(n);
    }
  }

  /** The padding is exactly what the last replace deletes. */
  lemma EncodeIsUnpadded(b: seq<byte>)
    ensures Encode(b) == ToUrl(Chars(Sextets(b)))
  {
    var s := Chars(Sextets(b));
    var n := Missing(|Sextets(b)|);
    assert ToUrl(s + Fill(n)) == ToUrl(s) + Fill(n);
    DeleteTail(ToUrl(s), n);
  }

  /** Only characters of the URL alphabet come out, in the number the bits need. */
  lemma EncodedForm(b: seq<byte>)
    ensures AllUrlChars(Encode(b)) && |Encode(b)| == (|b| * 4 + 2) / 3
    ensures '.' !in Encode(b) && '=' !in Encode(b)
    ensures Encode(b) == "" <==> b == []
  {
    EncodeIsUnpadded(b);
  }

  /**
   * What a string that decodes may hold, by code: letters, digits, hyphen, underscore, plus, slash, the equals sign,
   * and the five characters that are skipped.
   */
  predicate MayOccur(n: int) {
    65 <= n <= 90 || 97 <= n <= 122 || 48 <= n <= 57 || n in {45, 95, 43, 47, 61, 32, 9, 10, 12, 13}
  }

  /** A string with any other character is refused. */
  lemma OthersAreRefused(value: string, i: nat)
    requires i < |value| && !MayOccur(value[i] as int)
    ensures Decode(value) == None
  {
    var c := value[i];
    var s := FromUrl(value) + Fill(Missing(|value|));
    assert s[i] == c && c in s;
    KeptInText(s, c);
    var t := WithoutSpace(s);
    KeptBeforeFill(t, c);
    assert !IsChar(c);
    assert Decode(value) == Atob(s);
    assert !AllChars(t) && !AllChars(WithoutFill(t));
  }

  lemma {:induction false} KeptInText(s: string, c: char)
    requires c in s && !IsSpace(c)
    ensures c in WithoutSpace(s)
  {
    if s[0] != c { KeptInText(s[1..], c); }
  }

  lemma KeptBeforeFill(s: string, c: char)
    requires c in s && c != '='
    ensures c in WithoutFill(s)
  {
  }

  /** A byte, or zero beyond the end. */
  function ByteOr0(b: seq<byte>, i: nat): byte { if i < |b| then b[i] else 0 }

  /** Six bits of a window of two bytes, two thirds of a byte further for each r. */
  function Seen(x: byte, y: byte, r: nat): int
    requires r < 4
  {
    var window := 256 * (x as int) + y;
    if r == 0 then window / 1024 % 64
    else if r == 1 then window / 16 % 64
    else if r == 2 then window / 64 % 64
    else window / 256 % 64
  }

  /** Six bits of the bytes from bit 6k on; beyond the end there are zeros. */
  function SixBits(b: seq<byte>, k: nat): int
    requires 6 * k < 8 * |b|
  {
    var first := 6 * k / 8;
    Seen(b[first], ByteOr0(b, first + 1), k % 4)
  }

  /** Table 2 of RFC 4648 by code: A to Z, a to z, 0 to 9, hyphen, underscore. */
  function UrlCode(n: int): int {
    if n < 26 then 65 + n else if n < 52 then 97 + n - 26 else if n < 62 then 48 + n - 52 else if n == 62 then 45
      else 95
  }

  lemma Windows(x: byte, y: byte)
    ensures Seen(x, y, 0) == x / 4 && Seen(x, y, 1) == x % 4 * 16 + y / 16
    ensures Seen(x, y, 2) == x % 16 * 4 + y / 64 && Seen(x, y, 3) == x % 64
  {
    var w := 256 * (x as int) + y;
    QuotientIs(w, 1024, x / 4, x % 4 * 256 + y);
    QuotientIs(w, 16, 16 * (x as int) + y / 16, y % 16);
    QuotientIs(16 * (x as int) + y / 16, 64, x / 4, x % 4 * 16 + y / 16);
    QuotientIs(w, 64, 4 * (x as int) + y / 64, y % 64);
    QuotientIs(4 * (x as int) + y / 64, 64, x / 16, x % 16 * 4 + y / 64);
    QuotientIs(w, 256, x, y);
  }

  /** The first four groups. */
  lemma FirstSextets(b: seq<byte>, k: nat)
    requires k < 4 && k < |Sextets(b)|
    ensures 6 * k < 8 * |b| && Sextets(b)[k] == SixBits(b, k)
  {
    hide Sextets;
    if b != [] { FirstGroup(b); }
    if k == 0 {
      assert SixBits(b, 0) == Seen(b[0], ByteOr0(b, 1), 0);
    } else if k == 1 {
      assert SixBits(b, 1) == Seen(b[0], ByteOr0(b, 1), 1);
    } else if k == 2 {
      assert SixBits(b, 2) == Seen(b[1], ByteOr0(b, 2), 2);
    } else {
      assert SixBits(b, 3) == Seen(b[2], ByteOr0(b, 3), 3);
    }
  }

  /** What the first group holds, byte by byte. */
  lemma FirstGroup(b: seq<byte>)
    requires b != []
    ensures |Sextets(b)| > 1 && |Sextets(b)| == (|b| * 4 + 2) / 3
    ensures Sextets(b)[0] == Seen(b[0], ByteOr0(b, 1), 0) && Sextets(b)[1] == Seen(b[0], ByteOr0(b, 1), 1)
    ensures |b| > 1 ==> |Sextets(b)| > 2 && Sextets(b)[2] == Seen(b[1], ByteOr0(b, 2), 2)
    ensures |b| > 2 ==> |Sextets(b)| > 3 && Sextets(b)[3] == Seen(b[2], ByteOr0(b, 3), 3)
  {
    hide Seen;
    Windows(b[0], ByteOr0(b, 1));
    Windows(ByteOr0(b, 1), ByteOr0(b, 2));
    Windows(ByteOr0(b, 2), ByteOr0(b, 3));
  }

  lemma {:induction false} SextetsAre(b: seq<byte>, k: nat)
    requires k < |Sextets(b)|
    ensures 6 * k < 8 * |b| && Sextets(b)[k] == SixBits(b, k)
    decreases k
  {
    if k < 4 {
      FirstSextets(b, k);
    } else {
      SextetsAre(b[3..], k - 4);
      SameWindow(b, k);
    }
  }

  /** Four groups further on is three bytes further on. */
  lemma SameWindow(b: seq<byte>, k: nat)
    requires k >= 4 && |b| >= 3 && 6 * (k - 4) < 8 * |b[3..]|
    ensures 6 * k < 8 * |b| && SixBits(b, k) == SixBits(b[3..], k - 4)
  {
    var first, before := 6 * k / 8, 6 * (k - 4) / 8;
    assert first == before + 3 && k % 4 == (k - 4) % 4;
    assert b[first] == b[3..][before];
    assert first + 1 < |b| ==> b[first + 1] == b[3..][before + 1];
  }

  /** The k-th character of an encoding is the k-th group of six bits, by the table. */
  lemma EncodedBits(b: seq<byte>, k: nat)
    requires k < |Encode(b)|
    ensures 6 * k < 8 * |b| && Encode(b)[k] as int == UrlCode(SixBits(b, k))
  {
    EncodeIsUnpadded(b);
    SextetsAre(b, k);
  }

  lemma AtobPadded(s: string)
    requires AllChars(s)
    ensures Atob(s + Fill(Missing(|s|))) == if |s| % 4 == 1 then None else Some(Octets(Indices(s)))
  {
    var n := Missing(|s|);
    var padded := s + Fill(n);
    assert forall i :: 0 <= i < |padded| ==> !IsSpace(padded[i]);
    assert WithoutSpace(padded) == padded && |padded| % 4 == 0;
    if n == 3 {
      assert WithoutFill(padded)[|s|] == '=' && !IsChar('=');
    } else if n == 2 {
      assert WithoutFill(padded) == s;
    } else if n == 1 {
      assert IsChar(s[|s| - 1]);
      assert WithoutFill(padded) == s;
    } else {
      assert s != "" ==> IsChar(s[|s| - 1]);
      assert WithoutFill(padded) == s == padded;
    }
  }

  /** A string over the URL alphabet decodes iff its length is not 1 modulo 4. */
  lemma DecodeUrl(value: string)
    requires AllUrlChars(value)
    ensures AllChars(FromUrl(value))
    ensures Decode(value) == if |value| % 4 == 1 then None else Some(Octets(Indices(FromUrl(value))))
  {
    assert AllChars(FromUrl(value));
    AtobPadded(FromUrl(value));
  }

  lemma CharsBack(s: seq<sextet>)
    ensures AllUrlChars(ToUrl(Chars(s))) && FromUrl(ToUrl(Chars(s))) == Chars(s) && Indices(Chars(s)) == s
  {
  }

  /** Decoding undoes encoding on every byte string. */
  lemma RoundTrip(b: seq<byte>)
    ensures Decode(Encode(b)) == Some(b)
  {
    EncodeIsUnpadded(b);
    CharsBack(Sextets(b));
    DecodeUrl(Encode(b));
    OctetsOfSextets(b);
  }

  lemma UrlBack(value: string)
    requires AllUrlChars(value)
    ensures AllChars(FromUrl(value)) && ToUrl(FromUrl(value)) == value
              && Chars(Indices(FromUrl(value))) == FromUrl(value)
  {
  }

  lemma CharsInjective(s: seq<sextet>, t: seq<sextet>)
    requires Chars(s) == Chars(t)
    ensures s == t
  {
    CharsBack(s);
    CharsBack(t);
  }

  /** Of the strings that decode to some bytes only the one with zero left-over bits is their encoding. */
  lemma EncodeOfDecodeIff(value: string)
    requires AllUrlChars(value) && |value| % 4 != 1
    ensures AllChars(FromUrl(value)) && Decode(value).Some?
    ensures Encode(Decode(value).value) == value <==> Canonical(Indices(FromUrl(value)))
  {
    DecodeUrl(value);
    UrlBack(value);
    var s := Indices(FromUrl(value));
    SextetsOfOctetsIff(s);
    EncodeIsUnpadded(Octets(s));
    if Encode(Octets(s)) == value {
      CharsBack(Sextets(Octets(s)));
      CharsInjective(Sextets(Octets(s)), s);
    }
  }

  // ---------------------------------------------------------------- the loops

  const CHUNK := 0x8000

  /** The binary string is grown chunk by chunk; its characters are the bytes whatever the chunk size. */
  method EncodeBytes(bytes: array<byte>) returns (out: string)
    ensures out == Encode(bytes[..])
  {
    var binary: string := "";
    var i := 0;
    while i < bytes.Length
      invariant 0 <= i && binary == Binary(bytes[..if i < bytes.Length then i else bytes.Length])
    {
      var end := if i + CHUNK < bytes.Length then i + CHUNK else bytes.Length;
      assert bytes[..end] == bytes[..i] + bytes[i..end];
      BinaryConcat(bytes[..i], bytes[i..end]);
      binary := binary + Binary(bytes[i..end]);
      i := i + CHUNK;
    }
    assert bytes[..bytes.Length] == bytes[..];
    BinaryBytes(bytes[..]);
    out := Delete(Replace(Replace(Btoa(CharCodes(binary)), '+', '-'), '/', '_'), '=');
  }

  /** `String.fromCharCode(...bytes)`. */
  function Binary(b: seq<byte>): (r: string)
    ensures |r| == |b| && forall i :: 0 <= i < |r| ==> r[i] as int < 256
  {
    seq(|b|, i requires 0 <= i < |b| => b[i] as char)
  }

  function CharCodes(s: string): seq<byte>
    requires forall i :: 0 <= i < |s| ==> s[i] as int < 256
  {
    seq(|s|, i requires 0 <= i < |s| => s[i] as int)
  }

  lemma BinaryConcat(a: seq<byte>, b: seq<byte>)
    ensures Binary(a + b) == Binary(a) + Binary(b)
  {
  }

  lemma BinaryBytes(b: seq<byte>)
    ensures CharCodes(Binary(b)) == b
  {
  }

  method DecodeString(value: string) returns (out: Option<array<byte>>)
    ensures out.Some? <==> Decode(value).Some?
    ensures out.Some? ==> out.value[..] == Decode(value).value
  {
    var normalized := Replace(Replace(value, '-', '+'), '_', '/');
    var decoded := Atob(normalized + Fill(Missing(|normalized|)));
    if decoded.None? { return None; }
    var binary := Binary(decoded.value);
    var bytes := new byte[|binary|](_ => 0);
    var i := 0;
    while i < |binary|
      invariant 0 <= i <= |binary| && bytes[..i] == decoded.value[..i]
    {
      bytes[i] := binary[i] as int;
      i := i + 1;
    }
    return Some(bytes);
  }
}
