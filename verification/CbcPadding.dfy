/**
 * AES-CBC with the padding of section 5.2 of XML Encryption 1.1 (any filler, last byte its length).
 *
 * It is read through an API that only strips PKCS#7 padding, by appending a block that decrypts to a full PKCS#7 block.
 */
module CbcPadding {
  import opened Text

  type Bytes = seq<bv8>

  const BLOCK := 16

  /** AES under one key: any permutation of the blocks. */
  datatype Cipher = Cipher(enc: Bytes -> Bytes, dec: Bytes -> Bytes)

  ghost predicate IsBlockCipher(c: Cipher) {
    && (forall b: Bytes {:trigger c.enc(b)} :: |b| == BLOCK ==> |c.enc(b)| == BLOCK)
    && (forall b: Bytes {:trigger c.dec(b)} :: |b| == BLOCK ==> |c.dec(b)| == BLOCK)
    && (forall b: Bytes {:trigger c.dec(c.enc(b))} :: |b| == BLOCK ==> c.dec(c.enc(b)) == b)
    && (forall b: Bytes {:trigger c.enc(c.dec(b))} :: |b| == BLOCK ==> c.enc(c.dec(b)) == b)
  }

  predicate Whole(s: Bytes) { |s| % BLOCK == 0 }

  function Xor(a: Bytes, b: Bytes): (r: Bytes)
    requires |a| == |b|
    ensures |r| == |a|
  {
    seq(|a|, i requires 0 <= i < |a| => a[i] ^ b[i])
  }

  lemma XorTwice(a: Bytes, b: Bytes)
    requires |a| == |b|
    ensures Xor(Xor(a, b), b) == a
  {
    forall i | 0 <= i < |a|
      ensures Xor(Xor(a, b), b)[i] == a[i]
    {
      assert (a[i] ^ b[i]) ^ b[i] == a[i];
    }
  }

  // ---------------------------------------------------------------- CBC

  ghost function CbcEncrypt(c: Cipher, iv: Bytes, plain: Bytes): (r: Bytes)
    requires IsBlockCipher(c) && |iv| == BLOCK && Whole(plain)
    ensures |r| == |plain|
    decreases |plain|
  {
    if plain == [] then []
    else
      var head := c.enc(Xor(plain[..BLOCK], iv));
      head + CbcEncrypt(c, head, plain[BLOCK..])
  }

  ghost function CbcBlocks(c: Cipher, iv: Bytes, cipher: Bytes): (r: Bytes)
    requires IsBlockCipher(c) && |iv| == BLOCK && Whole(cipher)
    ensures |r| == |cipher|
    decreases |cipher|
  {
    if cipher == [] then []
    else Xor(c.dec(cipher[..BLOCK]), iv) + CbcBlocks(c, cipher[..BLOCK], cipher[BLOCK..])
  }

  lemma {:induction false} BlocksOfEncrypted(c: Cipher, iv: Bytes, plain: Bytes)
    requires IsBlockCipher(c) && |iv| == BLOCK && Whole(plain)
    ensures CbcBlocks(c, iv, CbcEncrypt(c, iv, plain)) == plain
    decreases |plain|
  {
    if plain != [] {
      var head := c.enc(Xor(plain[..BLOCK], iv));
      BlocksOfEncrypted(c, head, plain[BLOCK..]);
      XorTwice(plain[..BLOCK], iv);
      assert plain == plain[..BLOCK] + plain[BLOCK..];
      assert CbcEncrypt(c, iv, plain)[..BLOCK] == head
        && CbcEncrypt(c, iv, plain)[BLOCK..] == CbcEncrypt(c, head, plain[BLOCK..]);
    }
  }

  lemma {:induction false} EncryptedOfBlocks(c: Cipher, iv: Bytes, cipher: Bytes)
    requires IsBlockCipher(c) && |iv| == BLOCK && Whole(cipher)
    ensures CbcEncrypt(c, iv, CbcBlocks(c, iv, cipher)) == cipher
    decreases |cipher|
  {
    if cipher != [] {
      var head, tail := cipher[..BLOCK], cipher[BLOCK..];
      var plain := CbcBlocks(c, iv, cipher);
      EncryptedOfBlocks(c, head, tail);
      XorTwice(c.dec(head), iv);
      assert plain[..BLOCK] == Xor(c.dec(head), iv) && plain[BLOCK..] == CbcBlocks(c, head, tail);
      assert cipher == head + tail;
    }
  }

  /** The block before the end of the ciphertext, or the IV. */
  function LastBlock(iv: Bytes, cipher: Bytes): (r: Bytes)
    requires |iv| == BLOCK && Whole(cipher)
    ensures |r| == BLOCK
  {
    if cipher == [] then iv else cipher[|cipher| - BLOCK..]
  }

  lemma FirstBlock(c: Cipher, iv: Bytes, head: Bytes, tail: Bytes)
    requires IsBlockCipher(c) && |iv| == BLOCK && |head| == BLOCK && Whole(tail)
    ensures CbcBlocks(c, iv, head + tail) == Xor(c.dec(head), iv) + CbcBlocks(c, head, tail)
  {
    assert (head + tail)[..BLOCK] == head && (head + tail)[BLOCK..] == tail;
  }

  lemma {:induction false} BlocksOfAppended(c: Cipher, iv: Bytes, cipher: Bytes, last: Bytes)
    requires IsBlockCipher(c) && |iv| == BLOCK && Whole(cipher) && |last| == BLOCK
    ensures CbcBlocks(c, iv, cipher + last) == CbcBlocks(c, iv, cipher) + Xor(c.dec(last), LastBlock(iv, cipher))
    decreases |cipher|
  {
    hide CbcBlocks, Xor;
    if cipher == [] {
      FirstBlock(c, iv, last, []);
      NoBlocks(c, last);
      NoBlocks(c, iv);
      assert last + [] == last == cipher + last;
    } else {
      var head, tail := cipher[..BLOCK], cipher[BLOCK..];
      BlocksOfAppended(c, head, tail, last);
      FirstBlock(c, iv, head, tail);
      FirstBlock(c, iv, head, tail + last);
      assert head + tail == cipher && head + (tail + last) == cipher + last;
      assert LastBlock(head, tail) == LastBlock(iv, cipher);
    }
  }

  lemma NoBlocks(c: Cipher, iv: Bytes)
    requires IsBlockCipher(c) && |iv| == BLOCK
    ensures CbcBlocks(c, iv, []) == []
  {
  }

  // ---------------------------------------------------------------- the API, which knows PKCS#7 only

  function Repeat(b: bv8, n: nat): (r: Bytes)
    ensures |r| == n && forall i :: 0 <= i < n ==> r[i] == b
  {
    seq(n, _ => b)
  }

  function PkcsPad(data: Bytes): (r: Bytes)
    ensures Whole(r)
  {
    var n := BLOCK - |data| % BLOCK;
    data + Repeat(n as bv8, n)
  }

  function PkcsStrip(blocks: Bytes): Option<Bytes>
    requires blocks != [] && Whole(blocks)
  {
    var n := blocks[|blocks| - 1];
    if 1 <= n <= 16 && blocks[|blocks| - n as nat..] == Repeat(n, n as nat)
    then Some(blocks[..|blocks| - n as nat])
    else None
  }

  lemma StripOfPad(data: Bytes)
    ensures Whole(PkcsPad(data)) && PkcsStrip(PkcsPad(data)) == Some(data)
  {
    var k := BLOCK - |data| % BLOCK;
    var blocks := PkcsPad(data);
    assert (k as bv8) as nat == k;
    assert |blocks| == |data| + k && blocks[|blocks| - 1] == k as bv8;
    assert blocks[..|data|] == data && blocks[|data|..] == Repeat(k as bv8, k);
  }

  lemma PadLength(len: nat, n: nat)
    requires len % 16 == 0 && 1 <= n <= 16 && n <= len
    ensures 16 - (len - n) % 16 == n
  {
  }

  lemma PadOfStrip(blocks: Bytes)
    requires blocks != [] && Whole(blocks) && PkcsStrip(blocks).Some?
    ensures PkcsPad(PkcsStrip(blocks).value) == blocks
  {
    var last := blocks[|blocks| - 1];
    var n := last as nat;
    var data := blocks[..|blocks| - n];
    assert 1 <= n <= 16;
    PadLength(|blocks|, n);
    assert n as bv8 == last && PkcsPad(data) == data + Repeat(last, n);
  }

  /** The API takes off exactly what PKCS#7 puts on, and refuses everything else. */
  lemma StripIff(blocks: Bytes, data: Bytes)
    requires blocks != [] && Whole(blocks)
    ensures PkcsStrip(blocks) == Some(data) <==> blocks == PkcsPad(data)
  {
    hide PkcsStrip, PkcsPad;
    StripOfPad(data);
    if PkcsStrip(blocks).Some? { PadOfStrip(blocks); }
  }

  ghost function ApiEncrypt(c: Cipher, iv: Bytes, data: Bytes): Bytes
    requires IsBlockCipher(c) && |iv| == BLOCK
  {
    CbcEncrypt(c, iv, PkcsPad(data))
  }

  ghost function ApiDecrypt(c: Cipher, iv: Bytes, data: Bytes): Option<Bytes>
    requires IsBlockCipher(c) && |iv| == BLOCK
  {
    if data == [] || !Whole(data) then None else PkcsStrip(CbcBlocks(c, iv, data))
  }

  // ---------------------------------------------------------------- the sentinel

  ghost function Sentinel(c: Cipher, lastBlock: Bytes): (r: Bytes)
    requires IsBlockCipher(c) && |lastBlock| == BLOCK
    ensures |r| == BLOCK
  {
    ApiEncrypt(c, lastBlock, Repeat(16, BLOCK))[..BLOCK]
  }

  lemma SentinelBlock(c: Cipher, last: Bytes)
    requires IsBlockCipher(c) && |last| == BLOCK
    ensures c.dec(Sentinel(c, last)) == Xor(Repeat(16, BLOCK), last)
  {
    var full := Repeat(16, BLOCK);
    assert PkcsPad(full) == full + full && PkcsPad(full)[..BLOCK] == full;
    assert Sentinel(c, last) == c.enc(Xor(full, last));
  }

  lemma SentinelDecrypts(c: Cipher, iv: Bytes, body: Bytes)
    requires IsBlockCipher(c) && |iv| == BLOCK && Whole(body)
    ensures var extended := body + Sentinel(c, LastBlock(iv, body));
            Whole(extended) && CbcBlocks(c, iv, extended) == CbcBlocks(c, iv, body) + Repeat(16, BLOCK)
              && Whole(CbcBlocks(c, iv, body))
  {
    hide CbcBlocks, Xor, Sentinel, Repeat;
    var last := LastBlock(iv, body);
    SentinelBlock(c, last);
    XorTwice(Repeat(16, BLOCK), last);
    BlocksOfAppended(c, iv, body, Sentinel(c, last));
  }

  lemma FullBlockStrips(blocks: Bytes)
    requires Whole(blocks)
    ensures PkcsStrip(blocks + Repeat(16, BLOCK)) == Some(blocks)
  {
    var padded := blocks + Repeat(16, BLOCK);
    assert padded[|padded| - 1] == 16;
    assert padded[|blocks|..] == Repeat(16, BLOCK) && padded[..|blocks|] == blocks;
  }

  /**
   * Appended to any ciphertext, the sentinel decrypts to a full PKCS#7 block, so the API returns every block before it.
   */
  lemma {:induction false} SentinelReveals(c: Cipher, iv: Bytes, body: Bytes)
    requires IsBlockCipher(c) && |iv| == BLOCK && body != [] && Whole(body)
    ensures ApiDecrypt(c, iv, body + Sentinel(c, LastBlock(iv, body))) == Some(CbcBlocks(c, iv, body))
  {
    hide CbcBlocks, IsBlockCipher, Sentinel, PkcsStrip, Repeat, LastBlock, Whole;
    SentinelDecrypts(c, iv, body);
    FullBlockStrips(CbcBlocks(c, iv, body));
  }

  // ---------------------------------------------------------------- decryption

  datatype CbcError = NotWholeBlocks | ApiFailed | InvalidPadding | TooShort

  /** What is left after dropping as many bytes as the last byte says. */
  function XmlStrip(blocks: Bytes): Result<Bytes, CbcError>
    requires blocks != [] && Whole(blocks)
  {
    var n := blocks[|blocks| - 1];
    if n < 1 || n > 16 then Err(InvalidPadding) else Ok(blocks[..|blocks| - n as nat])
  }

  ghost function DecryptCbc(c: Cipher, iv: Bytes, body: Bytes): Result<Bytes, CbcError>
    requires IsBlockCipher(c) && |iv| == BLOCK
  {
    if body == [] || !Whole(body) then Err(NotWholeBlocks)
    else
      var blocks := ApiDecrypt(c, iv, body + Sentinel(c, body[|body| - BLOCK..]));
      if blocks.None? then Err(ApiFailed)
      else if blocks.value == [] || !Whole(blocks.value) then Err(InvalidPadding)
      else XmlStrip(blocks.value)
  }

  /** Bytes that may follow a message: up to a block, ending in their own number, completing the last block. */
  predicate IsFiller(message: Bytes, filler: Bytes) {
    1 <= |filler| <= BLOCK && Whole(message + filler) && filler[|filler| - 1] == |filler| as bv8
  }

  /** The API call never fails; decryption fails exactly on a bad block length or a last byte outside 1..16. */
  lemma {:induction false} DecryptsAsXmlEnc(c: Cipher, iv: Bytes, body: Bytes)
    requires IsBlockCipher(c) && |iv| == BLOCK
    ensures DecryptCbc(c, iv, body) ==
              if body == [] || !Whole(body) then Err(NotWholeBlocks) else XmlStrip(CbcBlocks(c, iv, body))
  {
    if body != [] && Whole(body) { SentinelReveals(c, iv, body); }
  }

  lemma StripFiller(message: Bytes, filler: Bytes)
    requires IsFiller(message, filler)
    ensures XmlStrip(message + filler) == Ok(message)
  {
    var blocks := message + filler;
    assert blocks[|blocks| - 1] == filler[|filler| - 1];
    assert (|filler| as bv8) as nat == |filler|;
    assert blocks[..|message|] == message;
  }

  lemma StrippedFiller(blocks: Bytes, message: Bytes) returns (filler: Bytes)
    requires blocks != [] && Whole(blocks) && XmlStrip(blocks) == Ok(message)
    ensures IsFiller(message, filler) && blocks == message + filler
  {
    filler := blocks[|message|..];
    assert filler[|filler| - 1] == blocks[|blocks| - 1];
    assert blocks == message + filler;
  }

  /**
   * Decryption returns a message iff the ciphertext is the CBC encryption of that message and some permitted filler.
   */
  lemma DecryptsIff(c: Cipher, iv: Bytes, body: Bytes, message: Bytes)
    requires IsBlockCipher(c) && |iv| == BLOCK
    ensures DecryptCbc(c, iv, body) == Ok(message) <==>
              exists filler :: IsFiller(message, filler) && body == CbcEncrypt(c, iv, message + filler)
  {
    hide CbcBlocks, CbcEncrypt, DecryptCbc, IsBlockCipher, XmlStrip;
    DecryptsAsXmlEnc(c, iv, body);
    if DecryptCbc(c, iv, body) == Ok(message) {
      var blocks := CbcBlocks(c, iv, body);
      EncryptedOfBlocks(c, iv, body);
      var filler := StrippedFiller(blocks, message);
    }
    forall filler | IsFiller(message, filler) && body == CbcEncrypt(c, iv, message + filler)
      ensures DecryptCbc(c, iv, body) == Ok(message)
    {
      RoundTrip(c, iv, message, filler);
    }
  }

  /** Every message comes back from its encryption under every filler. */
  lemma RoundTrip(c: Cipher, iv: Bytes, message: Bytes, filler: Bytes)
    requires IsBlockCipher(c) && |iv| == BLOCK && IsFiller(message, filler)
    ensures DecryptCbc(c, iv, CbcEncrypt(c, iv, message + filler)) == Ok(message)
  {
    var plain := message + filler;
    DecryptsAsXmlEnc(c, iv, CbcEncrypt(c, iv, plain));
    BlocksOfEncrypted(c, iv, plain);
    StripFiller(message, filler);
  }

  /** The API as the caller sees it. */
  ghost predicate Implements(c: Cipher, encrypt: (Bytes, Bytes) -> Bytes, decrypt: (Bytes, Bytes) -> Option<Bytes>)
    requires IsBlockCipher(c)
  {
    forall iv: Bytes, data: Bytes {:trigger encrypt(iv, data)} {:trigger decrypt(iv, data)} :: |iv| == BLOCK ==>
      encrypt(iv, data) == ApiEncrypt(c, iv, data) && decrypt(iv, data) == ApiDecrypt(c, iv, data)
  }

  /** `decryptCbc`: the extended ciphertext is filled into one buffer, body first. */
  method DecryptBuffer(ghost c: Cipher, encrypt: (Bytes, Bytes) -> Bytes, decrypt: (Bytes, Bytes) -> Option<Bytes>,
                       iv: Bytes, body: array<bv8>) returns (out: Result<Bytes, CbcError>)
    requires IsBlockCipher(c) && |iv| == BLOCK && Implements(c, encrypt, decrypt)
    ensures out == DecryptCbc(c, iv, body[..])
  {
    hide IsBlockCipher, CbcEncrypt, CbcBlocks, PkcsStrip;
    if body.Length == 0 || body.Length % BLOCK != 0 { return Err(NotWholeBlocks); }
    var lastBlock := body[body.Length - BLOCK..];
    var fullPadding := new bv8[BLOCK](_ => 16);
    assert fullPadding[..] == Repeat(16, BLOCK) && lastBlock == body[..][body.Length - BLOCK..];
    var encrypted := encrypt(lastBlock, fullPadding[..]);
    assert Sentinel(c, lastBlock) == encrypted[..BLOCK];
    var extended := new bv8[body.Length + BLOCK](_ => 0);
    forall i | 0 <= i < body.Length { extended[i] := body[i]; }
    forall i | 0 <= i < BLOCK { extended[body.Length + i] := encrypted[i]; }
    assert extended[..] == body[..] + encrypted[..BLOCK] by {
      forall k | 0 <= k < BLOCK
        ensures extended[body.Length + k] == encrypted[k]
      {
      }
    }
    hide Sentinel, Repeat;
    assert lastBlock == body[..][|body[..]| - BLOCK..];
    var blocks := decrypt(iv, extended[..]);
    assert blocks == ApiDecrypt(c, iv, body[..] + Sentinel(c, body[..][|body[..]| - BLOCK..]));
    if blocks.None? { return Err(ApiFailed); }
    if blocks.value == [] || |blocks.value| % BLOCK != 0 { return Err(InvalidPadding); }
    var padLength := blocks.value[|blocks.value| - 1];
    if padLength < 1 || padLength > 16 { return Err(InvalidPadding); }
    return Ok(blocks.value[..|blocks.value| - padLength as nat]);
  }

  /** The cipher value carries the IV first. */
  ghost function DecryptData(c: Cipher, cipher: Bytes): Result<Bytes, CbcError>
    requires IsBlockCipher(c)
  {
    if |cipher| <= BLOCK then Err(TooShort) else DecryptCbc(c, cipher[..BLOCK], cipher[BLOCK..])
  }

  lemma {:induction false} DataRoundTrip(c: Cipher, iv: Bytes, message: Bytes, filler: Bytes)
    requires IsBlockCipher(c) && |iv| == BLOCK && IsFiller(message, filler)
    ensures DecryptData(c, iv + CbcEncrypt(c, iv, message + filler)) == Ok(message)
  {
    RoundTrip(c, iv, message, filler);
    var cipher := iv + CbcEncrypt(c, iv, message + filler);
    assert cipher[..BLOCK] == iv && cipher[BLOCK..] == CbcEncrypt(c, iv, message + filler);
  }

  /** The blocks less what their last byte says, if it says 1 to 16. */
  predicate Stripped(r: Result<Bytes, CbcError>, blocks: Bytes)
    requires |blocks| >= 16
  {
    var last := blocks[|blocks| - 1] as int;
    if 1 <= last <= 16 then r == Ok(blocks[..|blocks| - last]) else r == Err(InvalidPadding)
  }

  lemma StripsWhatIsSaid(blocks: Bytes)
    requires |blocks| >= 16 && Whole(blocks)
    ensures Stripped(XmlStrip(blocks), blocks)
  {
  }

  lemma ShortData(c: Cipher, cipher: Bytes)
    requires IsBlockCipher(c) && |cipher| <= 16
    ensures DecryptData(c, cipher) == Err(TooShort)
  {
  }

  lemma DataIs(c: Cipher, iv: Bytes, body: Bytes)
    requires IsBlockCipher(c) && |iv| == BLOCK && body != []
    ensures DecryptData(c, iv + body) == DecryptCbc(c, iv, body)
  {
    hide DecryptCbc, IsBlockCipher;
    assert (iv + body)[..BLOCK] == iv && (iv + body)[BLOCK..] == body;
  }

  /** What any longer input comes to: not whole blocks, a bad last byte, or the blocks less what that byte says. */
  lemma DataOutcome(c: Cipher, iv: Bytes, body: Bytes)
    requires IsBlockCipher(c) && |iv| == BLOCK && body != []
    ensures !Whole(body) ==> DecryptData(c, iv + body) == Err(NotWholeBlocks)
    ensures Whole(body) ==>
              |CbcBlocks(c, iv, body)| == |body| >= 16 && Stripped(DecryptData(c, iv + body), CbcBlocks(c, iv, body))
  {
    hide Stripped, XmlStrip, DecryptCbc, DecryptData, CbcBlocks, IsBlockCipher;
    DataIs(c, iv, body);
    DecryptsAsXmlEnc(c, iv, body);
    if Whole(body) { StripsWhatIsSaid(CbcBlocks(c, iv, body)); }
  }
}
