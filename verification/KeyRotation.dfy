/**
 * Signing-key rotation from the stored rows to a verifier: which key signs, what the JWKS publishes, which key a
 * token's header resolves to, and what each rotation step changes about that.
 */
module KeyRotation {
  import opened Text

  const ALGS: set<string> := {"ES256", "RS256", "PS256"}
  const STATUSES: set<string> := {"active", "next", "retiring"}

  /** A stored JWK may carry members of its own; `pair` names the key pair. */
  datatype StoredJwk = StoredJwk(pair: nat, kid: Option<string>, alg: Option<string>)

  datatype Row = Row(kid: string, alg: string, status: string, publicKey: StoredJwk, privatePair: nat)

  type Rows = seq<Row>

  // ---------------------------------------------------------------- from rows to a verifier

  predicate IsUsable(r: Row) { r.alg in ALGS && r.status in STATUSES }

  /** Three algorithms and three statuses count. */
  lemma UsableIff(r: Row)
    ensures IsUsable(r) <==>
              && (r.alg == "ES256" || r.alg == "RS256" || r.alg == "PS256")
              && (r.status == "active" || r.status == "next" || r.status == "retiring")
  {
  }

  function Usable(rows: Rows): (r: Rows)
    ensures forall k :: k in r <==> k in rows && IsUsable(k)
  {
    if rows == [] then []
    else if IsUsable(rows[0]) then [rows[0]] + Usable(rows[1..])
    else Usable(rows[1..])
  }

  function FindStatus(rows: Rows, status: string): Option<Row> { FindFirst(rows, (k: Row) => k.status == status) }

  function FindKid(rows: Rows, kid: string): Option<Row> { FindFirst(rows, (k: Row) => k.kid == kid) }

  datatype SigningKeySet = SigningKeySet(activeKid: string, defaultAlg: string, keys: Rows)

  function BuildSigningKeySet(rows: Rows): SigningKeySet {
    var keys := Usable(rows);
    var active := FindStatus(keys, "active");
    SigningKeySet(
      if active.Some? then active.value.kid else if keys != [] then keys[0].kid else "",
      if active.Some? then active.value.alg else "ES256",
      keys)
  }

  datatype Header = Header(kid: string, alg: string)

  /** The header every token of this key set is signed under. */
  function ActiveKey(ks: SigningKeySet): Header {
    var material := FindKid(ks.keys, ks.activeKid);
    Header(ks.activeKid, if material.Some? then material.value.alg else ks.defaultAlg)
  }

  /** The signer loads the private key stored under the active kid. */
  function Signer(ks: SigningKeySet): Option<nat> {
    var material := FindKid(ks.keys, ks.activeKid);
    if material.Some? then Some(material.value.privatePair) else None
  }

  datatype PublicJwk = PublicJwk(pair: nat, kid: string, alg: string)

  /** The row's kid and alg override whatever the stored JWK says. */
  function MaterialToJwk(r: Row): PublicJwk { PublicJwk(r.publicKey.pair, r.kid, r.alg) }

  function BuildJwks(keys: Rows): seq<PublicJwk> {
    seq(|keys|, i requires 0 <= i < |keys| => MaterialToJwk(keys[i]))
  }

  function FindJwk(keys: seq<PublicJwk>, kid: string): Option<PublicJwk> {
    FindFirst(keys, (k: PublicJwk) => k.kid == kid)
  }

  function ResolveKey(kid: string, keys: seq<PublicJwk>): Option<PublicJwk> {
    var found := FindJwk(keys, kid);
    if found.Some? then found
    else if |keys| == 1 && keys[0].kid == "" then Some(keys[0])
    else None
  }

  datatype Verdict = Valid | UnknownKid | UnsupportedAlg | BadSignature

  /** `valid(alg, pair, input, signature)` says that the signature was made with the private half of the pair. */
  function VerifySignature<S>(h: Header, input: string, signature: S, keys: seq<PublicJwk>,
                              valid: (string, nat, string, S) -> bool): Verdict {
    var key := ResolveKey(h.kid, keys);
    if key.None? then UnknownKid
    else if key.value.alg != h.alg then UnsupportedAlg
    else if valid(h.alg, key.value.pair, input, signature) then Valid
    else BadSignature
  }

  // ---------------------------------------------------------------- rotation

  datatype Entry = Entry(kid: string, status: string)

  datatype RotationStep = PublishNext | PromoteActive | RetireOld

  function PlanRotation(current: seq<Entry>, step: RotationStep, target: string): seq<Entry> {
    match step
    case PublishNext => current + [Entry(target, "next")]
    case PromoteActive =>
      seq(|current|, i requires 0 <= i < |current| =>
        if current[i].kid == target then Entry(current[i].kid, "active")
        else if current[i].status == "active" then Entry(current[i].kid, "retiring")
        else current[i])
    case RetireOld => WithoutKid(current, target)
  }

  /**
   * What each step of the plan means: publishing adds one next key at the end; promoting changes statuses only, the
   * target's to active and that of other active keys to retiring; retiring removes the target and keeps the rest in
   * order.
   */
  lemma PlanOutcome(current: seq<Entry>, target: string)
    ensures PlanRotation(current, PublishNext, target) == current + [Entry(target, "next")]
    ensures var promoted := PlanRotation(current, PromoteActive, target);
            && |promoted| == |current|
            && forall i :: 0 <= i < |current| ==>
                 && promoted[i].kid == current[i].kid
                 && (promoted[i].status == "active" <==> current[i].kid == target)
                 && (current[i].kid != target && current[i].status == "active" ==> promoted[i].status == "retiring")
                 && (current[i].kid != target && current[i].status != "active" ==>
                   promoted[i].status == current[i].status)
    ensures forall a, b, x :: current == a + [x] + b ==>
              PlanRotation(current, RetireOld, target)
              == PlanRotation(a, RetireOld, target) + (if x.kid == target then []
                else [x]) + PlanRotation(b, RetireOld, target)
    ensures PlanRotation([], RetireOld, target) == []
  {
    forall a, b, x | current == a + [x] + b
      ensures WithoutKid(current, target)
              == WithoutKid(a, target) + (if x.kid == target then [] else [x]) + WithoutKid(b, target)
    {
      WithoutConcat(a, [x] + b, target);
      assert a + ([x] + b) == current && ([x] + b)[1..] == b;
    }
  }

  lemma {:induction false} WithoutConcat(a: seq<Entry>, b: seq<Entry>, target: string)
    ensures WithoutKid(a + b, target) == WithoutKid(a, target) + WithoutKid(b, target)
  {
    if a == [] {
      assert a + b == b;
    } else {
      var rest := a[1..] + b;
      assert (a + b)[1..] == rest && (a + b)[0] == a[0];
      WithoutConcat(a[1..], b, target);
      var head := if a[0].kid == target then [] else [a[0]];
      assert WithoutKid(a + b, target) == head + WithoutKid(rest, target);
      assert WithoutKid(a, target) == head + WithoutKid(a[1..], target);
    }
  }

  function WithoutKid(current: seq<Entry>, target: string): (r: seq<Entry>) {
    if current == [] then []
    else if current[0].kid == target then WithoutKid(current[1..], target)
    else [current[0]] + WithoutKid(current[1..], target)
  }

  function Entries(rows: Rows): seq<Entry> {
    seq(|rows|, i requires 0 <= i < |rows| => Entry(rows[i].kid, rows[i].status))
  }

  /** A step on the stored rows; the row published is generated with status next. */
  datatype Change = Publish(row: Row) | Promote(kid: string) | Retire(kid: string)

  function RowsWithout(rows: Rows, kid: string): (r: Rows)
    ensures forall k :: k in r <==> k in rows && k.kid != kid
  {
    if rows == [] then []
    else if rows[0].kid == kid then RowsWithout(rows[1..], kid)
    else [rows[0]] + RowsWithout(rows[1..], kid)
  }

  function Apply(rows: Rows, c: Change): Rows {
    match c
    case Publish(row) => rows + [row]
    case Promote(kid) =>
      var plan := PlanRotation(Entries(rows), PromoteActive, kid);
      seq(|rows|, i requires 0 <= i < |rows| => rows[i].(status := plan[i].status))
    case Retire(kid) => RowsWithout(rows, kid)
  }

  function PlanOf(rows: Rows, c: Change): seq<Entry> {
    match c
    case Publish(row) => PlanRotation(Entries(rows), PublishNext, row.kid)
    case Promote(kid) => PlanRotation(Entries(rows), PromoteActive, kid)
    case Retire(kid) => PlanRotation(Entries(rows), RetireOld, kid)
  }

  /** The unique index on (instance, kid) refuses a kid that is already stored. */
  predicate Accepts(rows: Rows, c: Change) {
    c.Publish? ==>
      && c.row.status == "next" && c.row.alg in ALGS && c.row.publicKey.pair == c.row.privatePair
      && forall k :: k in rows ==> k.kid != c.row.kid
  }

  predicate UniqueKids(rows: Rows) {
    forall i, j :: 0 <= i < j < |rows| ==> rows[i].kid != rows[j].kid
  }

  predicate Changes(rows: Rows, cs: seq<Change>, rows': Rows)
    decreases |cs|
  {
    if cs == [] then rows == rows' else Accepts(rows, cs[0]) && Changes(Apply(rows, cs[0]), cs[1..], rows')
  }

  /** The rows after a step have exactly the kids and statuses the plan gives, in its order. */
  lemma ApplyFollowsPlan(rows: Rows, c: Change)
    requires Accepts(rows, c)
    ensures Entries(Apply(rows, c)) == PlanOf(rows, c)
  {
    if c.Retire? { RetireFollowsPlan(rows, c.kid); }
  }

  lemma {:induction false} RetireFollowsPlan(rows: Rows, kid: string)
    ensures Entries(RowsWithout(rows, kid)) == WithoutKid(Entries(rows), kid)
  {
    if rows != [] {
      RetireFollowsPlan(rows[1..], kid);
      assert Entries(rows)[1..] == Entries(rows[1..]);
    }
  }

  lemma {:induction false} WithoutUnique(rows: Rows, kid: string)
    requires UniqueKids(rows)
    ensures UniqueKids(RowsWithout(rows, kid))
  {
    if rows != [] {
      WithoutUnique(rows[1..], kid);
      forall r | r in RowsWithout(rows[1..], kid)
        ensures r.kid != rows[0].kid
      {
        assert r in rows[1..];
      }
    }
  }

  lemma ApplyUnique(rows: Rows, c: Change)
    requires UniqueKids(rows) && Accepts(rows, c)
    ensures UniqueKids(Apply(rows, c))
  {
    if c.Retire? { WithoutUnique(rows, c.kid); }
  }

  lemma {:induction false} ChangesUnique(rows: Rows, cs: seq<Change>, rows': Rows)
    requires UniqueKids(rows) && Changes(rows, cs, rows')
    ensures UniqueKids(rows')
    decreases |cs|
  {
    if cs != [] {
      ApplyUnique(rows, cs[0]);
      ChangesUnique(Apply(rows, cs[0]), cs[1..], rows');
    }
  }

  // ---------------------------------------------------------------- verification is not interrupted

  /** The key set publishes this pair under this kid and alg. */
  predicate Publishes(rows: Rows, kid: string, alg: string, pair: nat) {
    exists r :: r in rows && IsUsable(r) && r.kid == kid && r.alg == alg && r.publicKey.pair == pair
  }

  lemma OneRowPerKid(rows: Rows, a: Row, b: Row)
    requires UniqueKids(rows) && a in rows && b in rows && a.kid == b.kid
    ensures a == b
  {
    var i :| 0 <= i < |rows| && rows[i] == a;
    var j :| 0 <= j < |rows| && rows[j] == b;
    assert i == j;
  }

  /** A kid resolves to what the rows publish under it, and to nothing else. */
  lemma {:induction false} ResolvesIff(rows: Rows, kid: string, alg: string, pair: nat)
    requires UniqueKids(rows)
    ensures FindKid(Usable(rows), kid).Some? ==>
              (Publishes(rows, kid, alg, pair) <==>
               ResolveKey(kid, BuildJwks(BuildSigningKeySet(rows).keys)) == Some(PublicJwk(pair, kid, alg)))
    ensures ResolveKey(kid, BuildJwks(BuildSigningKeySet(rows).keys)) == None <==>
              (forall r :: r in rows && IsUsable(r) ==> r.kid != kid)
                && !(|Usable(rows)| == 1 && Usable(rows)[0].kid == "")
  {
    var keys := Usable(rows);
    var jwks := BuildJwks(keys);
    var found := FindJwk(jwks, kid);
    forall i | 0 <= i < |keys|
      ensures jwks[i] in jwks && jwks[i].kid == keys[i].kid
    {
    }
    if found.Some? {
      var i :| 0 <= i < |jwks| && jwks[i] == found.value;
      assert keys[i] in keys;
      forall r | r in rows && IsUsable(r) && r.kid == kid
        ensures r == keys[i]
      {
        OneRowPerKid(rows, r, keys[i]);
      }
    } else {
      forall r | r in keys
        ensures r.kid != kid
      {
        var i :| 0 <= i < |keys| && keys[i] == r;
        assert jwks[i] in jwks;
      }
    }
  }

  lemma StepPublishes(rows: Rows, c: Change, kid: string, alg: string, pair: nat)
    requires UniqueKids(rows) && Accepts(rows, c) && Publishes(rows, kid, alg, pair) && c != Retire(kid)
    ensures Publishes(Apply(rows, c), kid, alg, pair)
  {
    var r :| r in rows && IsUsable(r) && r.kid == kid && r.alg == alg && r.publicKey.pair == pair;
    var i :| 0 <= i < |rows| && rows[i] == r;
    var rows' := Apply(rows, c);
    match c {
      case Publish(_) => assert rows'[i] == r;
      case Promote(_) => assert rows'[i] in rows' && IsUsable(rows'[i]);
      case Retire(_) => assert r in rows';
    }
  }

  /** No step retires this kid. */
  predicate Keeps(cs: seq<Change>, kid: string) {
    forall i :: 0 <= i < |cs| ==> cs[i] != Retire(kid)
  }

  /** No step publishes this kid. */
  predicate NeverPublished(cs: seq<Change>, kid: string) {
    forall i :: 0 <= i < |cs| ==> !(cs[i].Publish? && cs[i].row.kid == kid)
  }

  lemma {:induction false} StaysPublished(rows: Rows, cs: seq<Change>, rows': Rows, kid: string, alg: string, pair: nat)
    requires UniqueKids(rows) && Changes(rows, cs, rows') && Publishes(rows, kid, alg, pair) && Keeps(cs, kid)
    ensures Publishes(rows', kid, alg, pair)
    decreases |cs|
  {
    if cs != [] {
      StepPublishes(rows, cs[0], kid, alg, pair);
      ApplyUnique(rows, cs[0]);
      StaysPublished(Apply(rows, cs[0]), cs[1..], rows', kid, alg, pair);
    }
  }

  /** Rows hold both halves of one pair. */
  predicate Paired(rows: Rows) {
    forall r :: r in rows ==> r.publicKey.pair == r.privatePair
  }

  lemma {:induction false} ChangesPaired(rows: Rows, cs: seq<Change>, rows': Rows)
    requires Paired(rows) && Changes(rows, cs, rows')
    ensures Paired(rows')
    decreases |cs|
  {
    if cs != [] {
      ChangesPaired(Apply(rows, cs[0]), cs[1..], rows');
    }
  }

  lemma PublishedAlg(rows: Rows, kid: string, alg: string, pair: nat)
    requires Publishes(rows, kid, alg, pair)
    ensures alg != ""
  {
  }

  /** With any key at all, active or not, the signer and its header name one published key. */
  lemma SignerIsPublished(rows: Rows)
    requires UniqueKids(rows) && Paired(rows) && Usable(rows) != []
    ensures var ks := BuildSigningKeySet(rows);
            && Signer(ks).Some? && Publishes(rows, ActiveKey(ks).kid, ActiveKey(ks).alg, Signer(ks).value)
            && (FindStatus(ks.keys, "active").Some? ==> ActiveKey(ks).kid == FindStatus(ks.keys, "active").value.kid)
  {
    var ks := BuildSigningKeySet(rows);
    var keys := Usable(rows);
    assert keys[0] in keys;
    var material := FindKid(keys, ks.activeKid);
    assert material.Some?;
    assert material.value in rows && IsUsable(material.value);
  }

  /** Without any key there is no signer, the header names no kid and ES256, and no kid resolves. */
  lemma NoKeysNoSigner(rows: Rows, kid: string)
    requires Usable(rows) == []
    ensures var ks := BuildSigningKeySet(rows);
            ActiveKey(ks) == Header("", "ES256") && Signer(ks) == None && ResolveKey(kid, BuildJwks(ks.keys)) == None
  {
  }

  /** The algorithm offered by default is that of the active key. */
  lemma DefaultAlgorithm(rows: Rows)
    ensures var active := FindStatus(Usable(rows), "active");
            BuildSigningKeySet(rows).defaultAlg == if active.Some? then active.value.alg else "ES256"
  {
  }

  /**
   * Verification is not interrupted: a token signed now is accepted, with exactly the signatures of its own pair, under
   * every later JWKS until its own kid is retired.
   */
  lemma VerifiesUntilRetired<S>(signing: Rows, cs: seq<Change>, rows: Rows, input: string, signature: S,
                                valid: (string, nat, string, S) -> bool)
    requires UniqueKids(signing) && Paired(signing) && Usable(signing) != [] && Changes(signing, cs, rows)
    requires Keeps(cs, BuildSigningKeySet(signing).activeKid)
    ensures var ks := BuildSigningKeySet(signing);
            VerifySignature(ActiveKey(ks), input, signature, BuildJwks(BuildSigningKeySet(rows).keys), valid)
            == if valid(ActiveKey(ks).alg, Signer(ks).value, input, signature) then Valid else BadSignature
  {
    var ks := BuildSigningKeySet(signing);
    var h := ActiveKey(ks);
    SignerIsPublished(signing);
    StaysPublished(signing, cs, rows, h.kid, h.alg, Signer(ks).value);
    PublishedVerifies(signing, cs, rows, h, Signer(ks).value);
  }

  lemma PublishedVerifies(before: Rows, cs: seq<Change>, rows: Rows, h: Header, pair: nat)
    requires UniqueKids(before) && Changes(before, cs, rows) && Publishes(rows, h.kid, h.alg, pair)
    ensures ResolveKey(h.kid, BuildJwks(BuildSigningKeySet(rows).keys)) == Some(PublicJwk(pair, h.kid, h.alg))
  {
    ChangesUnique(before, cs, rows);
    var r :| r in rows && IsUsable(r) && r.kid == h.kid && r.alg == h.alg && r.publicKey.pair == pair;
    assert r in Usable(rows);
    ResolvesIff(rows, h.kid, h.alg, pair);
  }

  /**
   * A verifier holding an older JWKS accepts tokens of a later active key if that JWKS already listed it and it was not
   * retired since.
   */
  lemma OlderJwksVerifies<S>(cached: Rows, cs: seq<Change>, signing: Rows, input: string, signature: S,
                             valid: (string, nat, string, S) -> bool)
    requires UniqueKids(cached) && Paired(cached) && Changes(cached, cs, signing) && Usable(signing) != []
    requires FindKid(Usable(cached), BuildSigningKeySet(signing).activeKid).Some?
    requires Keeps(cs, BuildSigningKeySet(signing).activeKid)
    ensures var ks := BuildSigningKeySet(signing);
            VerifySignature(ActiveKey(ks), input, signature, BuildJwks(BuildSigningKeySet(cached).keys), valid)
            == if valid(ActiveKey(ks).alg, Signer(ks).value, input, signature) then Valid else BadSignature
  {
    var ks := BuildSigningKeySet(signing);
    var h := ActiveKey(ks);
    ChangesUnique(cached, cs, signing);
    ChangesPaired(cached, cs, signing);
    SignerIsPublished(signing);
    var r := FindKid(Usable(cached), h.kid).value;
    assert Publishes(cached, h.kid, r.alg, r.publicKey.pair);
    StaysPublished(cached, cs, signing, h.kid, r.alg, r.publicKey.pair);
    SamePublication(signing, h.kid, r.alg, r.publicKey.pair, h.alg, Signer(ks).value);
    ResolvesIff(cached, h.kid, r.alg, r.publicKey.pair);
  }

  lemma SamePublication(rows: Rows, kid: string, alg: string, pair: nat, alg': string, pair': nat)
    requires UniqueKids(rows) && Publishes(rows, kid, alg, pair) && Publishes(rows, kid, alg', pair')
    ensures alg == alg' && pair == pair'
  {
    var a :| a in rows && IsUsable(a) && a.kid == kid && a.alg == alg && a.publicKey.pair == pair;
    var b :| b in rows && IsUsable(b) && b.kid == kid && b.alg == alg' && b.publicKey.pair == pair';
    OneRowPerKid(rows, a, b);
  }

  /** A retired kid is unknown until it is published again, unless the one key left has the empty kid. */
  lemma RetiredIsUnknown(rows: Rows, kid: string, cs: seq<Change>, rows': Rows)
    requires UniqueKids(rows) && Changes(Apply(rows, Retire(kid)), cs, rows')
    requires NeverPublished(cs, kid)
    ensures ResolveKey(kid, BuildJwks(BuildSigningKeySet(rows').keys)) == None <==>
              !(|Usable(rows')| == 1 && Usable(rows')[0].kid == "")
  {
    ApplyUnique(rows, Retire(kid));
    ChangesUnique(Apply(rows, Retire(kid)), cs, rows');
    StaysAbsent(Apply(rows, Retire(kid)), cs, rows', kid);
    ResolvesIff(rows', kid, "", 0);
  }

  lemma {:induction false} StaysAbsent(rows: Rows, cs: seq<Change>, rows': Rows, kid: string)
    requires Changes(rows, cs, rows') && (forall r :: r in rows ==> r.kid != kid)
    requires NeverPublished(cs, kid)
    ensures forall r :: r in rows' ==> r.kid != kid
    decreases |cs|
  {
    if cs != [] {
      var mid := Apply(rows, cs[0]);
      forall r | r in mid
        ensures r.kid != kid
      {
        if cs[0].Promote? {
          var i :| 0 <= i < |mid| && mid[i] == r;
          assert rows[i] in rows;
        }
      }
      StaysAbsent(mid, cs[1..], rows', kid);
    }
  }

  // ---------------------------------------------------------------- the active key

  predicate IsActiveAt(rows: Rows, i: int) { 0 <= i < |rows| && rows[i].status == "active" }

  ghost predicate AtMostOneActive(rows: Rows) {
    forall i, j :: IsActiveAt(rows, i) && IsActiveAt(rows, j) ==> i == j
  }

  ghost predicate OneActive(rows: Rows) {
    AtMostOneActive(rows) && exists i :: IsActiveAt(rows, i)
  }

  predicate HasKid(rows: Rows, kid: string) { exists r :: r in rows && r.kid == kid }

  /** Promoting a stored kid; and, while a key is active, every publish and retiring any kid but the active one. */
  predicate SafeChange(rows: Rows, c: Change) {
    var active := FindStatus(rows, "active");
    match c
    case Publish(_) => active.Some?
    case Promote(kid) => HasKid(rows, kid)
    case Retire(kid) => active.Some? && active.value.kid != kid
  }

  lemma ActiveIsFound(rows: Rows)
    requires AtMostOneActive(rows)
    ensures OneActive(rows) <==> FindStatus(rows, "active").Some?
    ensures forall i :: IsActiveAt(rows, i) ==> FindStatus(rows, "active") == Some(rows[i])
  {
    var found := FindStatus(rows, "active");
    if found.Some? {
      var k :| 0 <= k < |rows| && rows[k] == found.value;
      assert IsActiveAt(rows, k);
    }
    forall i | IsActiveAt(rows, i)
      ensures found == Some(rows[i])
    {
      assert rows[i] in rows;
    }
  }

  /** No step makes a second active key, and exactly the safe steps leave one. */
  lemma KeepsOneActiveIff(rows: Rows, c: Change)
    requires UniqueKids(rows) && Accepts(rows, c) && AtMostOneActive(rows)
    ensures AtMostOneActive(Apply(rows, c))
    ensures OneActive(Apply(rows, c)) <==> SafeChange(rows, c)
  {
    var rows' := Apply(rows, c);
    ActiveIsFound(rows);
    match c {
      case Publish(_) =>
        assert forall k :: IsActiveAt(rows', k) <==> IsActiveAt(rows, k);
      case Promote(kid) =>
        if HasKid(rows, kid) {
          var r :| r in rows && r.kid == kid;
          var k :| 0 <= k < |rows| && rows[k] == r;
          assert IsActiveAt(rows', k);
        }
      case Retire(kid) =>
        ActiveRows(rows, kid);
    }
  }

  lemma ActiveRows(rows: Rows, kid: string)
    requires UniqueKids(rows) && AtMostOneActive(rows)
    ensures AtMostOneActive(RowsWithout(rows, kid))
    ensures OneActive(RowsWithout(rows, kid)) <==>
            FindStatus(rows, "active").Some? && FindStatus(rows, "active").value.kid != kid
  {
    var left := RowsWithout(rows, kid);
    var active := FindStatus(rows, "active");
    forall i | IsActiveAt(left, i)
      ensures active == Some(left[i])
    {
      assert left[i] in left;
      var k :| 0 <= k < |rows| && rows[k] == left[i];
      assert IsActiveAt(rows, k);
      ActiveIsFound(rows);
    }
    WithoutUnique(rows, kid);
    if active.Some? && active.value.kid != kid {
      var k :| 0 <= k < |left| && left[k] == active.value;
      assert IsActiveAt(left, k);
    } else {
      forall i | 0 <= i < |left|
        ensures !IsActiveAt(left, i)
      {
        assert left[i] in left;
      }
    }
  }

  /** Over every run of steps, safe or not, at most one key is active. */
  lemma {:induction false} AtMostOneAlways(rows: Rows, cs: seq<Change>, rows': Rows)
    requires UniqueKids(rows) && AtMostOneActive(rows) && Changes(rows, cs, rows')
    ensures UniqueKids(rows') && AtMostOneActive(rows')
    decreases |cs|
  {
    if cs != [] {
      KeepsOneActiveIff(rows, cs[0]);
      ApplyUnique(rows, cs[0]);
      AtMostOneAlways(Apply(rows, cs[0]), cs[1..], rows');
    }
  }

  /** After every step of the run exactly one key is active. */
  ghost predicate OneThroughout(rows: Rows, cs: seq<Change>)
    decreases |cs|
  {
    cs == [] || (OneActive(Apply(rows, cs[0])) && OneThroughout(Apply(rows, cs[0]), cs[1..]))
  }

  /** Every step of the run is safe where it is taken. */
  predicate SafeRun(rows: Rows, cs: seq<Change>)
    decreases |cs|
  {
    cs == [] || (SafeChange(rows, cs[0]) && SafeRun(Apply(rows, cs[0]), cs[1..]))
  }

  /** A run has exactly one active key throughout exactly when each of its steps is safe. */
  lemma {:induction false} OneThroughoutIff(rows: Rows, cs: seq<Change>, rows': Rows)
    requires UniqueKids(rows) && AtMostOneActive(rows) && Changes(rows, cs, rows')
    ensures OneThroughout(rows, cs) <==> SafeRun(rows, cs)
    ensures OneActive(rows) && SafeRun(rows, cs) ==> OneActive(rows')
    decreases |cs|
  {
    if cs != [] {
      KeepsOneActiveIff(rows, cs[0]);
      ApplyUnique(rows, cs[0]);
      OneThroughoutIff(Apply(rows, cs[0]), cs[1..], rows');
    }
  }
}
