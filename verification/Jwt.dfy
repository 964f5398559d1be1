/** Compact JWTs: what signing writes, what parsing reads back, and verification against a published key set. */
module Jwt {
  import opened Text
  import B = Base64Url
  import K = KeyRotation

  datatype Header = Header(typ: Option<string>, kid: string, alg: string)

  datatype Audience = NoAudience | One(aud: string) | Many(auds: seq<string>)

  /** The claims verification reads; `rest` stands for all others. */
  datatype Claims = Claims(exp: Option<int>, nbf: Option<int>, iat: Option<int>, iss: Option<string>, aud: Audience,
    rest: nat)

  /** JSON in UTF-8: parsing undoes writing, and no value is written as nothing. */
  datatype Json<!T> = Json(write: T -> seq<byte>, parse: seq<byte> -> Option<T>)

  ghost predicate IsJson<T(!new)>(j: Json<T>) {
    forall v: T {:trigger j.write(v)} :: j.parse(j.write(v)) == Some(v) && j.write(v) != []
  }

  datatype Format = Format(header: Json<Header>, claims: Json<Claims>)

  ghost predicate IsFormat(f: Format) { IsJson(f.header) && IsJson(f.claims) }

  // ---------------------------------------------------------------- signing and parsing

  /** The default type gives way to the caller's. */
  function Defaulted(h: Header): Header { if h.typ.None? then h.(typ := Some("JWT")) else h }

  function SigningInput(f: Format, h: Header, c: Claims): string {
    B.Encode(f.header.write(Defaulted(h))) + "." + B.Encode(f.claims.write(c))
  }

  /** `signature` is what the key produced over the signing input. */
  function SignJwt(f: Format, h: Header, c: Claims, signature: seq<byte>): string {
    SigningInput(f, h, c) + "." + B.Encode(signature)
  }

  datatype Parsed = Parsed(header: Header, payload: Claims, signingInput: string, signature: seq<byte>)

  function ParseJwt(f: Format, token: string): Option<Parsed> {
    var parts := Split(token, '.');
    if |parts| != 3 || parts[0] == "" || parts[1] == "" || parts[2] == "" then None
    else
      var h, p, s := B.Decode(parts[0]), B.Decode(parts[1]), B.Decode(parts[2]);
      if h.None? || p.None? then None
      else
        var header, payload := f.header.parse(h.value), f.claims.parse(p.value);
        if header.None? || payload.None? || header.value.kid == "" || header.value.alg == "" || s.None? then None
        else Some(Parsed(header.value, payload.value, parts[0] + "." + parts[1], s.value))
  }

  lemma SplitThree(a: string, b: string, c: string)
    requires '.' !in a && '.' !in b && '.' !in c
    ensures Split(a + "." + b + "." + c, '.') == [a, b, c]
  {
    SplitAtFirst(a, '.', b + "." + c);
    SplitAtFirst(b, '.', c);
    SplitWithout(c, '.');
    assert a + "." + b + "." + c == a + ['.'] + (b + "." + c) && b + "." + c == b + ['.'] + c;
  }

  /**
   * Parsing a signed token gives back its header, payload, signing input and signature, unless its kid, alg or
   * signature is empty.
   */
  lemma ParseOfSign(f: Format, h: Header, c: Claims, signature: seq<byte>)
    requires IsFormat(f)
    ensures ParseJwt(f, SignJwt(f, h, c, signature)) ==
              if h.kid == "" || h.alg == "" || signature == [] then None
              else Some(Parsed(Header(if h.typ.Some? then h.typ else Some("JWT"), h.kid, h.alg), c,
                               SigningInput(f, h, c), signature))
  {
    hide B.Encode, B.Decode, Split;
    var a, b := f.header.write(Defaulted(h)), f.claims.write(c);
    B.EncodedForm(a); B.EncodedForm(b); B.EncodedForm(signature);
    B.RoundTrip(a); B.RoundTrip(b); B.RoundTrip(signature);
    SplitThree(B.Encode(a), B.Encode(b), B.Encode(signature));
  }

  /**
   * The signature covers all that is read: two accepted tokens with one signing input have one header and one payload.
   */
  lemma SigningInputDetermines(f: Format, s: string, t: string)
    requires ParseJwt(f, s).Some? && ParseJwt(f, t).Some?
    requires ParseJwt(f, s).value.signingInput == ParseJwt(f, t).value.signingInput
    ensures ParseJwt(f, s).value.header == ParseJwt(f, t).value.header
    ensures ParseJwt(f, s).value.payload == ParseJwt(f, t).value.payload
  {
    hide B.Decode;
    var p, q := Split(s, '.'), Split(t, '.');
    SplitPartsClean(s, '.');
    SplitPartsClean(t, '.');
    SplitTwo(p[0], p[1]);
    SplitTwo(q[0], q[1]);
  }

  /** The parts of a token, told without parsing it. */
  ghost predicate IsToken(f: Format, token: string, a: string, b: string, c: string, p: Parsed) {
    && '.' !in a && '.' !in b && '.' !in c && a != "" && b != "" && c != ""
    && token == a + "." + b + "." + c && p.signingInput == a + "." + b
    && B.Decode(a).Some? && f.header.parse(B.Decode(a).value) == Some(p.header)
    && B.Decode(b).Some? && f.claims.parse(B.Decode(b).value) == Some(p.payload)
    && B.Decode(c) == Some(p.signature) && p.header.kid != "" && p.header.alg != ""
  }

  /** Parsing reads exactly the tokens of three non-empty decodable parts whose header names a key and an algorithm. */
  lemma ParseIff(f: Format, token: string, p: Parsed)
    ensures ParseJwt(f, token) == Some(p) <==> exists a, b, c :: IsToken(f, token, a, b, c, p)
  {
    hide B.Decode, Split;
    if a, b, c :| IsToken(f, token, a, b, c, p) { SplitThree(a, b, c); }
    if ParseJwt(f, token) == Some(p) {
      var parts := Split(token, '.');
      SplitPartsClean(token, '.');
      assert parts[0] in parts && parts[1] in parts && parts[2] in parts;
      JoinThree(token);
      assert IsToken(f, token, parts[0], parts[1], parts[2], p);
    }
  }

  lemma JoinThree(token: string)
    requires |Split(token, '.')| == 3
    ensures var parts := Split(token, '.'); token == parts[0] + "." + parts[1] + "." + parts[2]
  {
    hide Split;
    var parts := Split(token, '.');
    JoinOfSplit(token, '.');
    assert Join(parts[1..], '.') == parts[1] + "." + Join(parts[2..], '.');
    assert Join(parts[2..], '.') == parts[2];
  }

  lemma SplitTwo(a: string, b: string)
    requires '.' !in a && '.' !in b
    ensures Split(a + "." + b, '.') == [a, b]
  {
    SplitAtFirst(a, '.', b);
    SplitWithout(b, '.');
    assert a + "." + b == a + ['.'] + b;
  }

  // ---------------------------------------------------------------- verification

  datatype Reason =
    | Malformed | UnknownKid | UnsupportedAlg | BadSignature
    | Expired | NotYetValid | IssuedInFuture | IssuerMismatch | AudienceMismatch

  datatype Options = Options(now: int, tolerance: int, allowExpired: bool, issuer: Option<string>,
    audience: Option<string>)

  function CheckTime(c: Claims, o: Options): Option<Reason> {
    if !o.allowExpired && c.exp.Some? && o.now > c.exp.value + o.tolerance then Some(Expired)
    else if c.nbf.Some? && o.now + o.tolerance < c.nbf.value then Some(NotYetValid)
    else if c.iat.Some? && o.now + o.tolerance < c.iat.value then Some(IssuedInFuture)
    else None
  }

  predicate Names(audience: Audience, wanted: string) {
    match audience
    case Many(auds) => wanted in auds
    case One(aud) => aud == wanted
    case NoAudience => false
  }

  /** An expectation that is missing or empty is not checked. */
  function CheckClaims(c: Claims, o: Options): Option<Reason> {
    if o.issuer.Some? && o.issuer.value != "" && c.iss != o.issuer then Some(IssuerMismatch)
    else if o.audience.Some? && o.audience.value != "" && !Names(c.aud, o.audience.value) then Some(AudienceMismatch)
    else None
  }

  function VerifyJwt(f: Format, token: string, keys: seq<K.PublicJwk>, o: Options,
                     valid: (string, nat, string, seq<byte>) -> bool): Result<Parsed, Reason> {
    var parsed := ParseJwt(f, token);
    if parsed.None? then Err(Malformed)
    else
      var p := parsed.value;
      match VerifySignature(p, keys, valid)
      case UnknownKid => Err(UnknownKid)
      case UnsupportedAlg => Err(UnsupportedAlg)
      case BadSignature => Err(BadSignature)
      case Valid =>
        if CheckTime(p.payload, o).Some? then Err(CheckTime(p.payload, o).value)
        else if CheckClaims(p.payload, o).Some? then Err(CheckClaims(p.payload, o).value)
        else Ok(p)
  }

  function VerifySignature(p: Parsed, keys: seq<K.PublicJwk>, valid: (string, nat, string, seq<byte>) -> bool)
    : K.Verdict
  {
    K.VerifySignature(K.Header(p.header.kid, p.header.alg), p.signingInput, p.signature, keys, valid)
  }

  predicate InTime(c: Claims, o: Options) {
    && (!o.allowExpired && c.exp.Some? ==> o.now - o.tolerance <= c.exp.value)
    && (c.nbf.Some? ==> c.nbf.value <= o.now + o.tolerance)
    && (c.iat.Some? ==> c.iat.value <= o.now + o.tolerance)
  }

  predicate Expected(c: Claims, o: Options) {
    && (o.issuer.Some? && o.issuer.value != "" ==> c.iss == o.issuer)
    && (o.audience.Some? && o.audience.value != "" ==>
          c.aud == One(o.audience.value) || (c.aud.Many? && o.audience.value in c.aud.auds))
  }

  /** The first key with this kid; without any, the one key there is if its kid is empty. */
  ghost predicate Resolves(keys: seq<K.PublicJwk>, kid: string, key: K.PublicJwk) {
    || (exists i :: 0 <= i < |keys| && keys[i] == key && key.kid == kid && forall j :: 0 <= j < i ==>
      keys[j].kid != kid)
    || ((forall j :: 0 <= j < |keys| ==> keys[j].kid != kid) && keys == [key] && key.kid == "")
  }

  lemma ResolvesIff(keys: seq<K.PublicJwk>, kid: string, key: K.PublicJwk)
    ensures K.ResolveKey(kid, keys) == Some(key) <==> Resolves(keys, kid, key)
    ensures K.ResolveKey(kid, keys).None? <==>
              (forall j :: 0 <= j < |keys| ==> keys[j].kid != kid) && !(|keys| == 1 && keys[0].kid == "")
  {
    var p := (k: K.PublicJwk) => k.kid == kid;
    if K.FindJwk(keys, kid).Some? {
      var i := FoundFirst(keys, p);
      assert keys[i].kid == kid;
      forall n | 0 <= n < |keys| && keys[n] == key && key.kid == kid && forall j :: 0 <= j < n ==> keys[j].kid != kid
        ensures n == i
      {
      }
    } else {
      assert keys == [key] <==> |keys| == 1 && keys[0] == key;
    }
  }

  /** Made by the published key of the token's kid, with the algorithm of both. */
  ghost predicate WellSigned(p: Parsed, keys: seq<K.PublicJwk>, valid: (string, nat, string, seq<byte>) -> bool) {
    exists key :: Resolves(keys, p.header.kid, key) && key.alg == p.header.alg
                  && valid(p.header.alg, key.pair, p.signingInput, p.signature)
  }

  /**
   * Which tokens are accepted, and what each refusal means, for every token, key list and options: a token must parse,
   * be signed by the published key of its kid, and be presented in time to whom it was meant for.
   */
  lemma VerifyOutcome(f: Format, token: string, keys: seq<K.PublicJwk>, o: Options,
                      valid: (string, nat, string, seq<byte>) -> bool)
    ensures var r := VerifyJwt(f, token, keys, o, valid);
            && (r == Err(Malformed) <==> ParseJwt(f, token).None?)
            && (ParseJwt(f, token).Some? ==>
                  var p := ParseJwt(f, token).value;
                  var c, kid := p.payload, p.header.kid;
                  && (r == Err(UnknownKid) <==> forall key :: !Resolves(keys, kid, key))
                  && (r == Err(UnsupportedAlg) <==> exists key :: Resolves(keys, kid, key) && key.alg != p.header.alg)
                  && (r == Err(BadSignature) <==>
                        exists key :: Resolves(keys, kid, key) && key.alg == p.header.alg
                                      && !valid(key.alg, key.pair, p.signingInput, p.signature))
                  && (r.Ok? ==> r.value == p)
                  && (r.Ok? <==> WellSigned(p, keys, valid) && InTime(c, o) && Expected(c, o))
                  && (r == Err(Expired) <==>
                        WellSigned(p, keys, valid) && c.exp.Some? && !o.allowExpired
                          && c.exp.value < o.now - o.tolerance)
                  && (r.Err? && r.error in {NotYetValid, IssuedInFuture} ==>
                    WellSigned(p, keys, valid) && !InTime(c, o))
                  && (r == Err(NotYetValid) ==> c.nbf.Some? && c.nbf.value > o.now + o.tolerance)
                  && (r == Err(IssuedInFuture) ==> c.iat.Some? && c.iat.value > o.now + o.tolerance)
                  && (r.Err? && r.error in {IssuerMismatch, AudienceMismatch} ==>
                        WellSigned(p, keys, valid) && InTime(c, o) && !Expected(c, o))
                  && (r == Err(IssuerMismatch) ==> c.iss != o.issuer))
  {
    hide ParseJwt;
    if ParseJwt(f, token).Some? {
      var p := ParseJwt(f, token).value;
      var found := K.ResolveKey(p.header.kid, keys);
      forall key
        ensures Resolves(keys, p.header.kid, key) <==> found == Some(key)
      {
        ResolvesIff(keys, p.header.kid, key);
      }
      assert found.Some? ==> Resolves(keys, p.header.kid, found.value);
    }
  }

  /**
   * End to end: a token signed under the active key of one table of keys is accepted under every later JWKS, until its
   * kid is retired, exactly when it is presented in time to whom it was meant for.
   */
  lemma SignedIsAccepted(f: Format, signing: K.Rows, cs: seq<K.Change>, rows: K.Rows, typ: Option<string>, c: Claims,
                         signature: seq<byte>, o: Options, valid: (string, nat, string, seq<byte>) -> bool)
    requires IsFormat(f) && K.UniqueKids(signing) && K.Paired(signing) && K.Usable(signing) != []
               && K.Changes(signing, cs, rows)
    requires K.BuildSigningKeySet(signing).activeKid != "" && K.Keeps(cs, K.BuildSigningKeySet(signing).activeKid)
    requires signature != []
    requires var ks := K.BuildSigningKeySet(signing);
             K.Signer(ks).Some? ==>
               valid(K.ActiveKey(ks).alg, K.Signer(ks).value,
                 SigningInput(f, Header(typ, K.ActiveKey(ks).kid, K.ActiveKey(ks).alg), c), signature)
    ensures var h := Header(typ, K.ActiveKey(K.BuildSigningKeySet(signing)).kid,
              K.ActiveKey(K.BuildSigningKeySet(signing)).alg);
            VerifyJwt(f, SignJwt(f, h, c, signature), K.BuildJwks(K.BuildSigningKeySet(rows).keys), o, valid).Ok?
            <==> InTime(c, o) && Expected(c, o)
  {
    hide SignJwt, SigningInput, ParseJwt, K.BuildJwks, K.Usable, K.FindKid, K.Changes;
    var ks := K.BuildSigningKeySet(signing);
    var h := Header(typ, K.ActiveKey(ks).kid, K.ActiveKey(ks).alg);
    K.SignerIsPublished(signing);
    K.PublishedAlg(signing, h.kid, h.alg, K.Signer(ks).value);
    K.VerifiesUntilRetired(signing, cs, rows, SigningInput(f, h, c), signature, valid);
    ParseOfSign(f, h, c, signature);
  }
}
