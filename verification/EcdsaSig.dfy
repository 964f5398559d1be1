/** ECDSA P-256 signatures between DER and the 64-byte JOSE form. */
module EcdsaSig {
  import opened Text

  const COORD := 32

  datatype DerError =
    | BadLength | ExpectedInteger | ExpectedSequence | LongForm
    | OutOfBounds | OutOfRange | Mismatch | Trailing

  // ---------------------------------------------------------------- specification

  /** The unsigned big-endian number the bytes spell. */
  function Value(s: seq<byte>): nat {
    if s == [] then 0 else Value(s[..|s| - 1]) * 256 + s[|s| - 1]
  }

  function Zeros(n: nat): (r: seq<byte>)
    ensures |r| == n && forall i :: 0 <= i < n ==> r[i] == 0
  {
    seq(n, _ => 0)
  }

  predicate AllZero(s: seq<byte>) { forall i :: 0 <= i < |s| ==> s[i] == 0 }

  /** Drop zeros on the left, but never the last byte. */
  function Trim(c: seq<byte>): (r: seq<byte>)
    ensures |r| <= |c| && c == Zeros(|c| - |r|) + r
    ensures |c| > 0 ==> |r| > 0
    ensures |r| > 1 ==> r[0] != 0
  {
    if |c| > 1 && c[0] == 0 then
      var r := Trim(c[1..]);
      assert Zeros(|c| - |r|) == [0] + Zeros(|c| - 1 - |r|);
      r
    else c
  }

  /** The shortest content octets of the INTEGER with this unsigned value. */
  function DerInteger(c: seq<byte>): seq<byte> {
    var t := Trim(c);
    if t != [] && t[0] >= 0x80 then [0] + t else t
  }

  /** One DER element in short form. */
  function Element(tag: byte, content: seq<byte>): seq<byte>
    requires |content| < 0x80
  {
    [tag, |content|] + content
  }

  function Signature(r: seq<byte>, s: seq<byte>): seq<byte>
    requires 4 + |r| + |s| < 0x80
  {
    Element(0x30, Element(0x02, r) + Element(0x02, s))
  }

  function Encode(p: seq<byte>): seq<byte>
    requires |p| == 2 * COORD
  {
    Signature(DerInteger(p[..COORD]), DerInteger(p[COORD..]))
  }

  /** The content without its one permitted sign octet. */
  function Magnitude(content: seq<byte>): seq<byte> {
    if content != [] && content[0] == 0 then content[1..] else content
  }

  /** Content octets the decoder takes: a value left after the sign octet, of at most 32 bytes. */
  predicate Decodable(content: seq<byte>) { 1 <= |Magnitude(content)| <= COORD }

  function Coordinate(content: seq<byte>): (r: seq<byte>)
    requires Decodable(content)
    ensures |r| == COORD
  {
    Zeros(COORD - |Magnitude(content)|) + Magnitude(content)
  }

  datatype Integer = Integer(content: seq<byte>, next: nat)

  function ReadInteger(der: seq<byte>, offset: nat): (r: Result<Integer, DerError>)
    ensures r.Ok? ==> Decodable(r.value.content) && r.value.next <= |der|
  {
    if offset >= |der| || der[offset] != 0x02 then Err(ExpectedInteger)
    else if offset + 1 >= |der| || der[offset + 1] >= 0x80 then Err(LongForm)
    else
      var end := offset + 2 + der[offset + 1];
      if der[offset + 1] == 0 || end > |der| then Err(OutOfBounds)
      else
        var content := der[offset + 2..end];
        if Decodable(content) then Ok(Integer(content, end)) else Err(OutOfRange)
  }

  function Decode(der: seq<byte>): Result<seq<byte>, DerError> {
    if |der| < 1 || der[0] != 0x30 then Err(ExpectedSequence)
    else if |der| < 2 || der[1] >= 0x80 then Err(LongForm)
    else if |der| != 2 + der[1] then Err(Mismatch)
    else
      var r := ReadInteger(der, 2);
      if r.Err? then Err(r.error)
      else
        var s := ReadInteger(der, r.value.next);
        if s.Err? then Err(s.error)
        else if s.value.next != |der| then Err(Trailing)
        else Ok(Coordinate(r.value.content) + Coordinate(s.value.content))
  }

  // ---------------------------------------------------------------- refusals

  /** The element at the offset: its tag, then its length in short form, then that many octets, all there. */
  predicate HasTag(der: seq<byte>, offset: nat) { offset < |der| && der[offset] == 2 }

  predicate IsShort(der: seq<byte>, offset: nat) { offset + 1 < |der| && der[offset + 1] < 128 }

  predicate IsThere(der: seq<byte>, offset: nat)
    requires IsShort(der, offset)
  {
    1 <= der[offset + 1] as int <= |der| - offset - 2
  }

  /** How many octets of the element count: a zero in front does not. */
  function Counted(der: seq<byte>, offset: nat): int
    requires IsShort(der, offset) && IsThere(der, offset)
  {
    der[offset + 1] as int - if der[offset + 2] == 0 then 1 else 0
  }

  /** What reading an INTEGER comes to, for every input and offset: the first thing wrong names the error. */
  lemma ReadOutcome(der: seq<byte>, offset: nat)
    ensures var r := ReadInteger(der, offset);
            && (!HasTag(der, offset) ==> r == Err(ExpectedInteger))
            && (HasTag(der, offset) && !IsShort(der, offset) ==> r == Err(LongForm))
            && (HasTag(der, offset) && IsShort(der, offset) ==>
                  && (!IsThere(der, offset) ==> r == Err(OutOfBounds))
                  && (IsThere(der, offset) ==>
                        && (!(1 <= Counted(der, offset) <= 32) ==> r == Err(OutOfRange))
                        && (1 <= Counted(der, offset) <= 32 ==>
                              && r.Ok? && r.value.next == offset + 2 + der[offset + 1] as int
                              && r.value.content == der[offset + 2..r.value.next])))
  {
  }

  /** What decoding comes to, for every input, when it is refused. */
  lemma DecodeOutcome(der: seq<byte>)
    ensures var d := Decode(der);
            if der == [] || der[0] != 48 then d == Err(ExpectedSequence)
            else if |der| == 1 || der[1] >= 128 then d == Err(LongForm)
            else if |der| != 2 + der[1] as int then d == Err(Mismatch)
            else
              var first := ReadInteger(der, 2);
              && (first.Err? ==> d == Err(first.error))
              && (first.Ok? ==>
                    var second := ReadInteger(der, first.value.next);
                    && (second.Err? ==> d == Err(second.error))
                    && (second.Ok? ==> (d == Err(Trailing) <==> second.value.next < |der|))
                    && (second.Ok? && second.value.next == |der| ==> d.Ok? && |d.value| == 64))
  {
    hide ReadInteger;
  }

  /** The number of a string of bytes, byte by byte. */
  lemma ValueIs(s: seq<byte>, b: byte)
    ensures Value([]) == 0 && Value([b]) == b && Value(s + [b]) == 256 * Value(s) + b
  {
    assert (s + [b])[..|s|] == s && ([b])[..0] == [];
  }

  // ---------------------------------------------------------------- numbers

  lemma {:induction false} LeadingZeros(n: nat, s: seq<byte>)
    ensures Value(Zeros(n) + s) == Value(s)
  {
    if s == [] {
      if n > 0 {
        LeadingZeros(n - 1, []);
        assert (Zeros(n) + s)[..n - 1] == Zeros(n - 1) + [];
      } else {
        assert Zeros(n) + s == s;
      }
    } else {
      LeadingZeros(n, s[..|s| - 1]);
      assert (Zeros(n) + s)[..n + |s| - 1] == Zeros(n) + s[..|s| - 1];
    }
  }

  lemma MagnitudeValue(content: seq<byte>)
    ensures Value(Magnitude(content)) == Value(content)
    ensures Decodable(content) ==> Value(Coordinate(content)) == Value(content)
  {
    if content != [] && content[0] == 0 {
      LeadingZeros(1, content[1..]);
      assert content == Zeros(1) + content[1..];
    }
    if Decodable(content) { LeadingZeros(COORD - |Magnitude(content)|, Magnitude(content)); }
  }

  /** Minimal content of a non-negative INTEGER: no sign bit set, and no octet to spare. */
  predicate Minimal(content: seq<byte>) {
    content != [] && content[0] < 0x80 && (|content| > 1 && content[0] == 0 ==> content[1] >= 0x80)
  }

  /** The encoder writes the shortest non-negative INTEGER of the coordinate's value, in at most 33 octets. */
  lemma DerIntegerMinimal(c: seq<byte>)
    requires |c| == COORD
    ensures Minimal(DerInteger(c)) && |DerInteger(c)| <= COORD + 1
    ensures Value(DerInteger(c)) == Value(c)
    ensures DerInteger(c) == [0] <==> AllZero(c)
  {
    var t := Trim(c);
    LeadingZeros(COORD - |t|, t);
    LeadingZeros(1, t);
    assert Zeros(1) + t == [0] + t;
    assert c[COORD - |t|] == t[0];
    assert AllZero(c) ==> t[0] == 0;
    assert t == [0] ==> AllZero(c);
  }

  /** So the signature always fits the short form. */
  lemma EncodingIsShort(p: seq<byte>)
    requires |p| == 2 * COORD
    ensures 4 + |DerInteger(p[..COORD])| + |DerInteger(p[COORD..])| <= 70
    ensures |Encode(p)| <= 72
  {
    DerIntegerMinimal(p[..COORD]);
    DerIntegerMinimal(p[COORD..]);
  }

  // ---------------------------------------------------------------- the two directions

  /** The element starting at an offset is what is read there. */
  lemma ReadElement(der: seq<byte>, before: seq<byte>, content: seq<byte>, after: seq<byte>)
    requires |content| < 0x80 && der == before + Element(0x02, content) + after
    ensures ReadInteger(der, |before|) ==
              if content == [] then Err(OutOfBounds)
              else if Decodable(content) then Ok(Integer(content, |before| + 2 + |content|))
              else Err(OutOfRange)
  {
    assert der[|before|] == 0x02 && der[|before| + 1] == |content|;
    assert der[|before| + 2..|before| + 2 + |content|] == content;
  }

  /** What the decoder does with any two INTEGERs put together. */
  lemma DecodeSignature(a: seq<byte>, b: seq<byte>)
    requires a != [] && b != [] && 4 + |a| + |b| < 0x80
    ensures Decode(Signature(a, b)) ==
              if Decodable(a) && Decodable(b) then Ok(Coordinate(a) + Coordinate(b)) else Err(OutOfRange)
  {
    var der := Signature(a, b);
    assert der == der[..2] + Element(0x02, a) + Element(0x02, b);
    ReadElement(der, der[..2], a, Element(0x02, b));
    var first := der[..2] + Element(0x02, a);
    assert der == first + Element(0x02, b) + [];
    ReadElement(der, first, b, []);
  }

  /** What was read at an offset is an element standing there. */
  lemma ReadBack(der: seq<byte>, offset: nat)
    requires ReadInteger(der, offset).Ok?
    ensures var element := ReadInteger(der, offset).value;
            && |element.content| < 0x80 && offset <= element.next == offset + 2 + |element.content| <= |der|
            && der[offset..element.next] == Element(0x02, element.content)
  {
  }

  lemma Wraps(der: seq<byte>, content: seq<byte>)
    requires |der| >= 2 && der[0] == 0x30 && der[1] == |content| < 0x80 && der[2..] == content
    ensures der == Element(0x30, content)
  {
    assert der == [der[0], der[1]] + der[2..];
  }

  lemma AcceptedHeader(der: seq<byte>)
    requires Decode(der).Ok?
    ensures |der| >= 2 && der[0] == 0x30 && |der| == 2 + der[1] && der[1] < 0x80
    ensures ReadInteger(der, 2).Ok? && ReadInteger(der, ReadInteger(der, 2).value.next).Ok?
    ensures ReadInteger(der, ReadInteger(der, 2).value.next).value.next == |der|
  {
    hide ReadInteger;
  }

  lemma AcceptedParts(der: seq<byte>)
    requires Decode(der).Ok?
    ensures exists a, b :: 4 + |a| + |b| < 0x80 && Decodable(a) && Decodable(b) && der == Signature(a, b)
  {
    hide Decodable, ReadInteger, Decode, Element;
    AcceptedHeader(der);
    var r := ReadInteger(der, 2).value;
    var s := ReadInteger(der, r.next).value;
    ReadBack(der, 2);
    ReadBack(der, r.next);
    assert der[2..] == der[2..r.next] + der[r.next..s.next];
    Wraps(der, Element(0x02, r.content) + Element(0x02, s.content));
    assert der == Signature(r.content, s.content);
  }

  /**
   * Exactly two decodable INTEGERs in a SEQUENCE that ends with them are accepted; the bytes of any accepted input are
   * such a pair.
   */
  lemma AcceptedIff(der: seq<byte>)
    ensures Decode(der).Ok? <==>
              exists a, b :: 4 + |a| + |b| < 0x80 && Decodable(a) && Decodable(b) && der == Signature(a, b)
  {
    if Decode(der).Ok? { AcceptedParts(der); }
    hide Decodable, Signature;
    forall a, b | 4 + |a| + |b| < 0x80 && Decodable(a) && Decodable(b) && der == Signature(a, b)
      ensures Decode(der).Ok?
    {
      DecodeSignature(a, b);
    }
  }

  /** Any accepted encoding, minimal or not, yields the two unsigned values it spells. */
  lemma DecodesValues(a: seq<byte>, b: seq<byte>)
    requires 4 + |a| + |b| < 0x80 && Decodable(a) && Decodable(b)
    ensures var out := Decode(Signature(a, b));
            out.Ok? && |out.value| == 2 * COORD
            && Value(out.value[..COORD]) == Value(a) && Value(out.value[COORD..]) == Value(b)
  {
    DecodeSignature(a, b);
    MagnitudeValue(a);
    MagnitudeValue(b);
    var out := Decode(Signature(a, b)).value;
    assert out[..COORD] == Coordinate(a) && out[COORD..] == Coordinate(b);
  }

  lemma ZeroTrimmed(c: seq<byte>)
    requires |c| == COORD && Trim(c) == [0]
    ensures AllZero(c)
  {
    DerIntegerMinimal(c);
    assert c == Zeros(COORD - 1) + [0];
  }

  lemma CoordinateBack(c: seq<byte>)
    requires |c| == COORD
    ensures Decodable(DerInteger(c)) <==> !AllZero(c)
    ensures !AllZero(c) ==> Coordinate(DerInteger(c)) == c
  {
    DerIntegerMinimal(c);
    var t := Trim(c);
    if !AllZero(c) {
      if t == [0] { ZeroTrimmed(c); }
      assert t[0] != 0;
      assert Magnitude(DerInteger(c)) == t;
    }
  }

  /**
   * Decoding undoes encoding exactly when neither coordinate is zero; a zero coordinate makes an INTEGER the decoder
   * refuses.
   */
  lemma RoundTripIff(p: seq<byte>)
    requires |p| == 2 * COORD
    ensures Decode(Encode(p)) == if AllZero(p[..COORD]) || AllZero(p[COORD..]) then Err(OutOfRange) else Ok(p)
  {
    hide DerInteger, AllZero, Coordinate, Decodable;
    EncodingIsShort(p);
    DerIntegerMinimal(p[..COORD]);
    DerIntegerMinimal(p[COORD..]);
    CoordinateBack(p[..COORD]);
    CoordinateBack(p[COORD..]);
    DecodeSignature(DerInteger(p[..COORD]), DerInteger(p[COORD..]));
    assert p == p[..COORD] + p[COORD..];
  }

  lemma TrimOnce(c: seq<byte>)
    requires |c| > 1 && c[0] == 0
    ensures Trim(c) == Trim(c[1..])
  {
  }

  lemma {:induction false} TrimOfPadded(n: nat, m: seq<byte>)
    requires m != [] && m[0] != 0
    ensures Trim(Zeros(n) + m) == m
  {
    if n == 0 {
      assert Zeros(0) + m == m;
    } else {
      TrimOfPadded(n - 1, m);
      assert (Zeros(n) + m)[1..] == Zeros(n - 1) + m && (Zeros(n) + m)[0] == 0;
      TrimOnce(Zeros(n) + m);
      hide Trim;
    }
  }

  lemma ContentBack(a: seq<byte>)
    requires Decodable(a)
    ensures DerInteger(Coordinate(a)) == a <==> Minimal(a)
  {
    hide Trim;
    DerIntegerMinimal(Coordinate(a));
    if Minimal(a) {
      TrimOfPadded(COORD - |Magnitude(a)|, Magnitude(a));
    }
  }

  lemma SignatureParts(a: seq<byte>, b: seq<byte>, a': seq<byte>, b': seq<byte>)
    requires 4 + |a| + |b| < 0x80 && 4 + |a'| + |b'| < 0x80 && Signature(a, b) == Signature(a', b')
    ensures a == a' && b == b'
  {
    assert Signature(a, b)[3] == |a| && Signature(a', b')[3] == |a'|;
    assert Signature(a, b)[4..4 + |a|] == a && Signature(a', b')[4..4 + |a|] == a';
    assert Signature(a, b)[6 + |a|..] == b && Signature(a', b')[6 + |a|..] == b';
  }

  /**
   * Re-encoding an accepted signature gives it back exactly when both INTEGERs were minimal: one DER form per
   * signature.
   */
  lemma ReencodeIff(a: seq<byte>, b: seq<byte>)
    requires 4 + |a| + |b| < 0x80 && Decodable(a) && Decodable(b)
    ensures Decode(Signature(a, b)).Ok? && |Decode(Signature(a, b)).value| == 2 * COORD
    ensures Encode(Decode(Signature(a, b)).value) == Signature(a, b) <==> Minimal(a) && Minimal(b)
  {
    DecodeSignature(a, b);
    var p := Decode(Signature(a, b)).value;
    assert p[..COORD] == Coordinate(a) && p[COORD..] == Coordinate(b);
    EncodingIsShort(p);
    ContentBack(a);
    ContentBack(b);
    if Encode(p) == Signature(a, b) { SignatureParts(DerInteger(p[..COORD]), DerInteger(p[COORD..]), a, b); }
  }

  // ---------------------------------------------------------------- the code

  lemma {:induction false} TrimAt(c: seq<byte>, start: nat)
    requires start < |c| && AllZero(c[..start]) && (start == |c| - 1 || c[start] != 0)
    ensures Trim(c) == c[start..]
  {
    if start > 0 {
      assert c[..start][0] == 0 && c[1..][..start - 1] == c[..start][1..];
      TrimAt(c[1..], start - 1);
    }
  }

  method ToDerInteger(coord: array<byte>) returns (out: array<byte>)
    ensures out[..] == DerInteger(coord[..]) && fresh(out)
  {
    hide Trim;
    var start := 0;
    while start < coord.Length - 1 && coord[start] == 0
      invariant 0 <= start <= coord.Length && (coord.Length > 0 ==> start < coord.Length)
      invariant AllZero(coord[..start])
    {
      start := start + 1;
    }
    assert Trim(coord[..]) == coord[start..] by {
      if coord.Length > 0 {
        assert coord[..][..start] == coord[..start];
        TrimAt(coord[..], start);
      } else {
        assert coord[..] == [] == coord[start..];
      }
    }
    var trimmed := coord.Length - start;
    if trimmed > 0 && coord[start] >= 0x80 {
      out := new byte[trimmed + 1](_ => 0);
      Blit(out, coord, start, trimmed, 1);
      assert out[..] == [0] + coord[start..];
    } else {
      out := Slice(coord, start, trimmed);
    }
  }

  /** `target.set(source.subarray(from, from + n), at)`. */
  method Blit(target: array<byte>, source: array<byte>, from: nat, n: nat, at: nat)
    requires target != source && from + n <= source.Length && at + n <= target.Length
    modifies target
    ensures forall i :: 0 <= i < target.Length ==>
              target[i] == if at <= i < at + n then source[from + (i - at)] else old(target[i])
  {
    forall i | 0 <= i < n { target[at + i] := source[from + i]; }
    forall i | 0 <= i < target.Length
      ensures target[i] == if at <= i < at + n then source[from + (i - at)] else old(target[i])
    {
      assert at <= i < at + n ==> target[at + (i - at)] == source[from + (i - at)];
    }
  }

  method Slice(source: array<byte>, from: nat, n: nat) returns (part: array<byte>)
    requires from + n <= source.Length
    ensures part[..] == source[from..from + n] && fresh(part)
  {
    part := new byte[n](_ => 0);
    Blit(part, source, from, n, 0);
  }

  method P1363ToDer(p: array<byte>) returns (out: Result<array<byte>, DerError>)
    ensures out.Ok? <==> p.Length == 2 * COORD
    ensures out.Ok? ==> 4 + |DerInteger(p[..COORD])| + |DerInteger(p[COORD..])| < 0x80 && out.value[..] == Encode(p[..])
  {
    hide DerInteger;
    if p.Length != 2 * COORD { return Err(BadLength); }
    var high := Slice(p, 0, COORD);
    var low := Slice(p, COORD, COORD);
    ghost var q := p[..];
    assert q[..COORD] == p[..COORD] == high[..] && q[COORD..] == p[COORD..] == low[..];
    EncodingIsShort(q);
    var r := ToDerInteger(high);
    var s := ToDerInteger(low);
    assert r.Length == |r[..]| && s.Length == |s[..]|;
    var der := Assemble(r, s);
    return Ok(der);
  }

  method Assemble(r: array<byte>, s: array<byte>) returns (der: array<byte>)
    requires 4 + r.Length + s.Length < 0x80
    ensures der[..] == Signature(r[..], s[..])
  {
    var body := Body(r, s);
    der := new byte[2 + body.Length](_ => 0);
    der[0] := 0x30;
    der[1] := body.Length;
    Blit(der, body, 0, body.Length, 2);
    assert der[..] == Element(0x30, body[..]);
  }

  method Body(r: array<byte>, s: array<byte>) returns (body: array<byte>)
    requires r.Length < 0x80 && s.Length < 0x80
    ensures body[..] == Element(0x02, r[..]) + Element(0x02, s[..]) && fresh(body)
  {
    body := new byte[2 + r.Length + 2 + s.Length](_ => 0);
    var offset := 0;
    body[offset] := 0x02; offset := offset + 1;
    body[offset] := r.Length; offset := offset + 1;
    Blit(body, r, 0, r.Length, offset);
    offset := offset + r.Length;
    body[offset] := 0x02; offset := offset + 1;
    body[offset] := s.Length; offset := offset + 1;
    Blit(body, s, 0, s.Length, offset);
    assert body[..] == Element(0x02, r[..]) + Element(0x02, s[..]);
  }

  datatype Part = Part(coord: array<byte>, next: nat)

  method RightAligned(der: array<byte>, from: nat, n: nat) returns (coord: array<byte>)
    requires from + n <= der.Length && n <= COORD
    ensures coord[..] == Zeros(COORD - n) + der[..][from..from + n]
  {
    coord := new byte[COORD](_ => 0);
    Blit(coord, der, from, n, COORD - n);
    assert coord[..] == Zeros(COORD - n) + der[..][from..from + n];
  }

  method ReadDerInteger(der: array<byte>, offset: nat) returns (out: Result<Part, DerError>)
    ensures out.Ok? <==> ReadInteger(der[..], offset).Ok?
    ensures out.Err? ==> ReadInteger(der[..], offset) == Err(out.error)
    ensures out.Ok? ==>
              var element := ReadInteger(der[..], offset).value;
              out.value.next == element.next && out.value.coord[..] == Coordinate(element.content)
  {
    ghost var d := der[..];
    if offset >= der.Length || der[offset] != 0x02 { return Err(ExpectedInteger); }
    if offset + 1 >= der.Length || der[offset + 1] >= 0x80 { return Err(LongForm); }
    var len := der[offset + 1];
    var valueStart := offset + 2;
    var valueLen: int := len;
    var end := valueStart + len;
    if len == 0 || end > der.Length { return Err(OutOfBounds); }
    ghost var content := d[offset + 2..end];
    if der[valueStart] == 0x00 {
      valueStart := valueStart + 1;
      valueLen := valueLen - 1;
    }
    assert Magnitude(content) == d[valueStart..end];
    assert ReadInteger(d, offset) == if Decodable(content) then Ok(Integer(content, end)) else Err(OutOfRange);
    hide ReadInteger;
    if valueLen < 1 || valueLen > COORD { return Err(OutOfRange); }
    var coord := RightAligned(der, valueStart, valueLen);
    return Ok(Part(coord, end));
  }

  method DerToP1363(der: array<byte>) returns (out: Result<array<byte>, DerError>)
    ensures out.Ok? <==> Decode(der[..]).Ok?
    ensures out.Ok? ==> Decode(der[..]) == Ok(out.value[..])
    ensures out.Err? ==> Decode(der[..]) == Err(out.error)
  {
    hide ReadInteger, Coordinate, Decodable;
    if der.Length < 1 || der[0] != 0x30 { return Err(ExpectedSequence); }
    if der.Length < 2 || der[1] >= 0x80 { return Err(LongForm); }
    if der.Length != 2 + der[1] { return Err(Mismatch); }
    var r := ReadDerInteger(der, 2);
    if r.Err? { return Err(r.error); }
    var s := ReadDerInteger(der, r.value.next);
    if s.Err? { return Err(s.error); }
    if s.value.next != der.Length { return Err(Trailing); }
    var bytes := new byte[2 * COORD](_ => 0);
    Blit(bytes, r.value.coord, 0, COORD, 0);
    Blit(bytes, s.value.coord, 0, COORD, COORD);
    assert bytes[..] == r.value.coord[..] + s.value.coord[..];
    return Ok(bytes);
  }
}
