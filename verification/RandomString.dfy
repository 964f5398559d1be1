/**
 * Random strings by rejection sampling over a stream of random bytes:
 *
 * - bytes from the limit on are rejected, all others are reduced modulo the size of the alphabet,
 * - buffers are filled until enough symbols are drawn,
 * - and unit ids are drawn by an inlined copy of the same code.
 *
 * What is drawn does not depend on the buffers, and every output comes from equally many byte strings.
 */
module RandomString {
  import opened Text
  import UnitPaths
  import opened Arithmetic

  /** Bytes below the limit map onto the alphabet evenly. */
  function Limit(n: nat): nat
    requires 2 <= n <= 256
  {
    256 - 256 % n
  }

  /** The indices that accepted bytes select, in order. */
  function Drawn(bytes: seq<byte>, n: nat, limit: nat): (r: seq<nat>)
    requires n > 0
    ensures forall i :: 0 <= i < |r| ==> r[i] < n
  {
    if bytes == [] then []
    else
      var last := bytes[|bytes| - 1];
      Drawn(bytes[..|bytes| - 1], n, limit) + if last >= limit then [] else [last % n]
  }

  function Symbols(indices: seq<nat>, alphabet: string): string
    requires forall i :: 0 <= i < |indices| ==> indices[i] < |alphabet|
  {
    seq(|indices|, i requires 0 <= i < |indices| => alphabet[indices[i]])
  }

  /** All bytes the source has handed out, whatever the buffers were. */
  type Stream = nat -> byte

  function Prefix(s: Stream, m: nat): (r: seq<byte>)
    ensures |r| == m && forall i :: 0 <= i < m ==> r[i] == s(i)
  {
    seq(m, i requires 0 <= i < m => s(i))
  }

  lemma PrefixGrows(s: Stream, m: nat, n: nat, limit: nat)
    requires n > 0
    ensures Prefix(s, m + 1) == Prefix(s, m) + [s(m)]
    ensures Drawn(Prefix(s, m + 1), n, limit)
              == Drawn(Prefix(s, m), n, limit) + if s(m) >= limit then [] else [s(m) % n]
  {
    assert Prefix(s, m + 1)[..m] == Prefix(s, m);
  }

  lemma {:induction false} DrawnExtends(s: Stream, m: nat, m': nat, n: nat, limit: nat)
    requires n > 0 && m <= m'
    ensures Drawn(Prefix(s, m), n, limit) <= Drawn(Prefix(s, m'), n, limit)
    decreases m'
  {
    hide Drawn, Prefix;
    if m < m' {
      DrawnExtends(s, m, m' - 1, n, limit);
      PrefixGrows(s, m' - 1, n, limit);
    }
  }

  /** The string a stream determines: its first `length` drawn symbols. */
  ghost predicate IsDrawn(r: string, s: Stream, length: nat, alphabet: string, limit: nat)
    requires |alphabet| > 0
  {
    |r| == length && forall m: nat {:trigger Prefix(s, m)} :: |Drawn(Prefix(s, m), |alphabet|, limit)| >= length ==>
      r == Symbols(Drawn(Prefix(s, m), |alphabet|, limit)[..length], alphabet)
  }

  lemma EnoughIsDrawn(r: string, s: Stream, m: nat, length: nat, alphabet: string, limit: nat)
    requires |alphabet| > 0 && |Drawn(Prefix(s, m), |alphabet|, limit)| == length
    requires r == Symbols(Drawn(Prefix(s, m), |alphabet|, limit), alphabet)
    ensures IsDrawn(r, s, length, alphabet, limit)
  {
    forall m': nat | |Drawn(Prefix(s, m'), |alphabet|, limit)| >= length
      ensures r == Symbols(Drawn(Prefix(s, m'), |alphabet|, limit)[..length], alphabet)
    {
      if m <= m' { DrawnExtends(s, m, m', |alphabet|, limit); } else { DrawnExtends(s, m', m, |alphabet|, limit); }
    }
  }

  // ---------------------------------------------------------------- the loops

  method Fill(s: Stream, from: nat, bytes: array<byte>)
    modifies bytes
    ensures forall i :: 0 <= i < bytes.Length ==> bytes[i] == s(from + i)
  {
    forall i | 0 <= i < bytes.Length { bytes[i] := s(from + i); }
  }

  /** The inner loop: append symbols until the buffer or the length is used up. */
  method Take(s: Stream, from: nat, bytes: array<byte>, soFar: string, length: nat, alphabet: string, limit: nat)
    returns (r: string, ghost used: nat)
    requires |alphabet| > 0 && |soFar| < length
    requires forall i :: 0 <= i < bytes.Length ==> bytes[i] == s(from + i)
    requires soFar == Symbols(Drawn(Prefix(s, from), |alphabet|, limit), alphabet)
    ensures from <= used <= from + bytes.Length && (bytes.Length > 0 ==> from < used) && |r| <= length
              && (|r| < length ==> used == from + bytes.Length)
    ensures r == Symbols(Drawn(Prefix(s, used), |alphabet|, limit), alphabet)
  {
    r, used := soFar, from;
    var i := 0;
    while i < bytes.Length
      invariant 0 <= i <= bytes.Length && used == from + i && |r| < length
      invariant r == Symbols(Drawn(Prefix(s, used), |alphabet|, limit), alphabet)
    {
      var b := bytes[i];
      PrefixGrows(s, used, |alphabet|, limit);
      used := used + 1;
      i := i + 1;
      if b >= limit { continue; }
      r := r + [alphabet[b % |alphabet|]];
      if |r| == length { break; }
    }
  }

  const MAX_SAFE := 9_007_199_254_740_991

  datatype RangeError = BadLength | BadAlphabet

  /**
   * The source may reject bytes for ever, so the loop need not end: None says that it is still running after so many
   * buffers. It ends as soon as the bytes of the buffers, at least 32 each, hold enough accepted ones.
   */
  method Generate(length: int, alphabet: string, s: Stream, rounds: nat)
    returns (r: Option<Result<string, RangeError>>)
    ensures r.Some? && r.value.Err? <==>
              length < 0 || length > 9_007_199_254_740_991 || |alphabet| < 2 || |alphabet| > 256
    ensures r.Some? && r.value.Err? ==>
              (r.value.error.BadLength? <==> length < 0 || length > 9_007_199_254_740_991)
    ensures r.Some? && r.value.Ok? ==> IsDrawn(r.value.value, s, length, alphabet, Limit(|alphabet|))
    ensures r.None? ==> |Drawn(Prefix(s, 32 * rounds), |alphabet|, Limit(|alphabet|))| < length
  {
    if length > MAX_SAFE || length < 0 { return Some(Err(BadLength)); }
    if |alphabet| < 2 || |alphabet| > 256 { return Some(Err(BadAlphabet)); }
    var limit := Limit(|alphabet|);
    hide Limit, Drawn, Prefix, IsDrawn;
    var result := "";
    ghost var used := 0;
    var drawn, left := 0, rounds;
    while |result| < length
      invariant |result| <= length && (|result| < length ==> used == drawn)
      invariant result == Symbols(Drawn(Prefix(s, used), |alphabet|, limit), alphabet)
      invariant 0 <= left <= rounds && drawn >= 32 * (rounds - left)
      decreases left
    {
      if left == 0 {
        DrawnExtends(s, 32 * rounds, used, |alphabet|, limit);
        return None;
      }
      left := left - 1;
      var remaining := length - |result|;
      var size := if remaining < 32 then 32 else if remaining > 65_536 then 65_536 else remaining;
      var bytes := new byte[size](_ => 0);
      Fill(s, drawn, bytes);
      result, used := Take(s, drawn, bytes, result, length, alphabet, limit);
      drawn := drawn + size;
    }
    EnoughIsDrawn(result, s, used, length, alphabet, limit);
    return Some(Ok(result));
  }

  /** Upper case, lower case, digits. */
  function Base62(i: nat): char
    requires i < 62
  {
    if i < 26 then ('A' as int + i) as char
    else if i < 52 then ('a' as int + i - 26) as char
    else ('0' as int + i - 52) as char
  }

  const BASE62: string := seq(62, i requires 0 <= i < 62 => Base62(i))
  const ACCEPT_BELOW := 248
  const RANDOM_LENGTH := 21

  /** The inlined limit is the general one for 62 symbols. */
  lemma Base62Limit()
    ensures |BASE62| == 62 && Limit(62) == ACCEPT_BELOW == 248 && RANDOM_LENGTH == 21
    ensures forall i :: 0 <= i < |BASE62| ==> UnitPaths.IsBase62(BASE62[i])
  {
  }

  /** By code: A to Z, a to z, 0 to 9. */
  lemma Base62Order(i: nat)
    requires i < 26
    ensures BASE62[i] as int == 65 + i && BASE62[26 + i] as int == 97 + i
    ensures i < 10 ==> BASE62[52 + i] as int == 48 + i
  {
  }

  /** Organisation-unit ids: the same stream gives the same symbols although the buffers are sized differently. */
  method NewUnitId(s: Stream, rounds: nat) returns (id: Option<string>)
    ensures id.Some? ==> UnitPaths.IsUnitId(id.value)
    ensures id.Some? ==> IsDrawn(id.value[3..], s, RANDOM_LENGTH, BASE62, Limit(|BASE62|))
    ensures id.None? ==> |Drawn(Prefix(s, rounds), |BASE62|, Limit(|BASE62|))| < RANDOM_LENGTH
  {
    Base62Limit();
    var suffix := "";
    ghost var used := 0;
    var drawn, left := 0, rounds;
    while |suffix| < RANDOM_LENGTH
      invariant |suffix| <= RANDOM_LENGTH && (|suffix| < RANDOM_LENGTH ==> used == drawn)
      invariant suffix == Symbols(Drawn(Prefix(s, used), |BASE62|, ACCEPT_BELOW), BASE62)
      invariant 0 <= left <= rounds && drawn >= rounds - left
      decreases left
    {
      if left == 0 {
        DrawnExtends(s, rounds, used, |BASE62|, ACCEPT_BELOW);
        return None;
      }
      left := left - 1;
      var bytes := new byte[RANDOM_LENGTH - |suffix|](_ => 0);
      Fill(s, drawn, bytes);
      suffix, used := Take(s, drawn, bytes, suffix, RANDOM_LENGTH, BASE62, ACCEPT_BELOW);
      drawn := drawn + bytes.Length;
    }
    EnoughIsDrawn(suffix, s, used, RANDOM_LENGTH, BASE62, ACCEPT_BELOW);
    var full := "ou_" + suffix;
    assert full[3..] == suffix;
    id := Some(full);
  }

  // ---------------------------------------------------------------- uniformity

  /** How many bytes from v on are accepted with index k. */
  function Hits(v: nat, n: nat, limit: nat, k: nat): nat
    requires n > 0
    decreases 256 - v
  {
    if v >= 256 then 0 else (if v < limit && v % n == k then 1 else 0) + Hits(v + 1, n, limit, k)
  }

  function Rejections(v: nat, limit: nat): nat
    decreases 256 - v
  {
    if v >= 256 then 0 else (if v < limit then 0 else 1) + Rejections(v + 1, limit)
  }

  lemma {:induction false} RejectionsFrom(v: nat, limit: nat)
    requires limit <= 256 && v <= 256
    ensures Rejections(v, limit) == if v <= limit then 256 - limit else 256 - v
    decreases 256 - v
  {
    if v < 256 { RejectionsFrom(v + 1, limit); }
  }

  lemma {:induction false} NoHits(v: nat, n: nat, limit: nat, k: nat)
    requires n > 0 && limit <= v
    ensures Hits(v, n, limit, k) == 0
    decreases 256 - v
  {
    if v < 256 { NoHits(v + 1, n, limit, k); }
  }

  lemma NextRemainder(v: nat, n: nat)
    requires n > 0
    ensures (v + 1) % n == if v % n == n - 1 then 0 else v % n + 1
  {
    DivNext(v, n);
    assert v == v / n * n + v % n && v + 1 == (v + 1) / n * n + (v + 1) % n;
    assert (v / n + 1) * n == v / n * n + n;
  }

  lemma Rounds(blocks: int, n: nat)
    requires n > 0
    ensures (blocks - 1) * n == blocks * n - n
    ensures blocks * n < n ==> blocks <= 0
    ensures blocks * n >= 0 ==> blocks >= 0
  {
    assert blocks > 0 ==> blocks * n >= n;
    assert blocks < 0 ==> blocks * n + n <= 0;
  }

  /**
   * Within `blocks` whole rounds of the alphabet, the first already entered as far as v, every index still comes once a
   * round.
   */
  lemma {:induction false} HitsFrom(v: nat, r: nat, n: nat, limit: nat, k: nat, blocks: nat)
    requires 0 < n && k < n && v <= limit <= 256 && r == v % n && limit + r == v + blocks * n
    ensures Hits(v, n, limit, k) == if k < r then blocks - 1 else blocks
    decreases 256 - v
  {
    assert r < n;
    Rounds(blocks, n);
    if v == limit {
      NoHits(v, n, limit, k);
    } else if v < 256 {
      NextRemainder(v, n);
      assert blocks > 0;
      if r == n - 1 {
        HitsFrom(v + 1, 0, n, limit, k, blocks - 1);
      } else {
        HitsFrom(v + 1, r + 1, n, limit, k, blocks);
      }
      FirstHit(v, n, limit, k);
    }
  }

  lemma FirstHit(v: nat, n: nat, limit: nat, k: nat)
    requires 0 < n && v < 256
    ensures Hits(v, n, limit, k) == (if v < limit && v % n == k then 1 else 0) + Hits(v + 1, n, limit, k)
  {
  }

  /** The number of byte strings of length `more` that, after `before`, make the output start with `want`. */
  function Count(before: seq<byte>, more: nat, want: seq<nat>, n: nat, limit: nat): nat
    requires n > 0
    decreases more, 257
  {
    if more == 0 then (if want <= Drawn(before, n, limit) then 1 else 0) else CountFrom(before, more, want, n, limit, 0)
  }

  function CountFrom(before: seq<byte>, more: nat, want: seq<nat>, n: nat, limit: nat, v: nat): nat
    requires n > 0 && more > 0 && v <= 256
    decreases more, 256 - v
  {
    if v == 256 then 0
      else Count(before + [v], more - 1, want, n, limit) + CountFrom(before, more, want, n, limit, v + 1)
  }

  /** Byte values per symbol. */
  function Share(n: nat): nat
    requires n > 0
  {
    256 / n
  }

  /** Ways to draw m more given symbols from `more` bytes: it depends on their number only. */
  function Ways(more: nat, m: nat, n: nat): nat
    requires 2 <= n <= 256
  {
    if more == 0 then (if m == 0 then 1 else 0)
    else if m == 0 then 256 * Ways(more - 1, 0, n)
    else 256 % n * Ways(more - 1, m, n) + Share(n) * Ways(more - 1, m - 1, n)
  }

  lemma AllHits(n: nat, k: nat)
    requires 2 <= n <= 256 && k < n
    ensures Hits(0, n, Limit(n), k) == 256 / n && Rejections(0, Limit(n)) == 256 % n
  {
    assert 256 == 256 / n * n + 256 % n;
    HitsFrom(0, 0, n, Limit(n), k, 256 / n);
    RejectionsFrom(0, Limit(n));
  }

  /**
   * Each symbol has exactly as many accepted byte values as any other, 256 / n of them, and more than half of all bytes
   * are accepted.
   */
  lemma SymbolsAreEven(n: nat, k: nat, k': nat)
    requires 2 <= n <= 256 && k < n && k' < n
    ensures Hits(0, n, Limit(n), k) == Hits(0, n, Limit(n), k') == 256 / n > 0
    ensures Limit(n) == 256 / n * n > 128
  {
    hide Hits, Rejections;
    AllHits(n, k);
    AllHits(n, k');
    OverHalf(n, 256 / n, 256 % n);
  }

  lemma OverHalf(n: nat, q: int, r: int)
    requires 2 <= n <= 256 && 256 == q * n + r && 0 <= r < n
    ensures q > 0 && q * n > 128 && 256 - r == q * n
  {
    assert q <= 0 ==> q * n <= 0;
    assert q >= 1 ==> q * n >= n;
  }

  /** Neither wanted symbols nor drawn ones contradict the other. */
  predicate Agree(drawn: seq<nat>, want: seq<nat>) { drawn <= want || want <= drawn }

  /** What the next bytes add, when the byte strings one longer are counted by Ways. */
  function After(drawn: seq<nat>, more: nat, want: seq<nat>, n: nat): nat
    requires 2 <= n <= 256
  {
    if !Agree(drawn, want) then 0
    else if |want| <= |drawn| then Ways(more, 0, n)
    else Ways(more, |want| - |drawn|, n)
  }

  lemma DrawnByte(before: seq<byte>, v: byte, n: nat, limit: nat)
    requires n > 0
    ensures Drawn(before + [v], n, limit) == Drawn(before, n, limit) + if v >= limit then [] else [v % n]
  {
    assert (before + [v])[..|before|] == before;
  }

  /**
   * After one more drawn symbol: nothing changes once enough is drawn, and otherwise only the wanted symbol leads on.
   */
  lemma AfterSymbol(drawn: seq<nat>, x: nat, more: nat, want: seq<nat>, n: nat)
    requires 2 <= n <= 256
    ensures |want| <= |drawn| ==> After(drawn + [x], more, want, n) == After(drawn, more, want, n)
    ensures |drawn| < |want| ==>
              After(drawn + [x], more, want, n) ==
                if drawn <= want && x == want[|drawn|] then Ways(more, |want| - |drawn| - 1, n) else 0
  {
    var d := drawn + [x];
    assert d[..|drawn|] == drawn && d[|drawn|] == x;
    if |want| <= |drawn| {
      assert want <= d <==> want <= drawn;
      assert d <= want ==> false;
      assert drawn <= want ==> drawn == want;
    } else {
      assert d <= want <==> drawn <= want && x == want[|drawn|];
      assert want <= d ==> want == d;
    }
  }

  /** One byte value more. */
  lemma ByteAdds(before: seq<byte>, v: nat, more: nat, want: seq<nat>, n: nat)
    requires 2 <= n <= 256 && v < 256
    ensures var d := Drawn(before, n, Limit(n));
            After(Drawn(before + [v], n, Limit(n)), more, want, n) ==
              if |want| <= |d| || v >= Limit(n) then After(d, more, want, n)
              else if d <= want && v % n == want[|d|] then Ways(more, |want| - |d| - 1, n) else 0
  {
    hide Ways, Drawn, After;
    var d := Drawn(before, n, Limit(n));
    DrawnByte(before, v, n, Limit(n));
    if v < Limit(n) { AfterSymbol(d, v % n, more, want, n); } else { assert d + [] == d; }
  }

  /** The sum over the byte values from v on. */
  function Sum(v: nat, d: seq<nat>, more: nat, want: seq<nat>, n: nat): int
    requires 2 <= n <= 256 && v <= 256
  {
    if |want| <= |d| then (256 - v) * After(d, more, want, n)
    else if d <= want then
      Rejections(v, Limit(n)) * Ways(more, |want| - |d|, n)
        + Hits(v, n, Limit(n), want[|d|]) * Ways(more, |want| - |d| - 1, n)
    else 0
  }

  lemma {:induction false} CountFromIs(before: seq<byte>, more: nat, want: seq<nat>, n: nat, v: nat)
    requires 2 <= n <= 256 && v <= 256 && more > 0 && forall i :: 0 <= i < |want| ==> want[i] < n
    ensures CountFrom(before, more, want, n, Limit(n), v) == Sum(v, Drawn(before, n, Limit(n)), more - 1, want, n)
    decreases more, 256 - v
  {
    hide Ways, Drawn, Limit, Sum, After;
    if v < 256 {
      CountIs(before + [v], more - 1, want, n);
      CountFromIs(before, more, want, n, v + 1);
      ByteAdds(before, v, more - 1, want, n);
      SumStep(v, Drawn(before, n, Limit(n)), more - 1, want, n);
    } else {
      SumEnd(Drawn(before, n, Limit(n)), more - 1, want, n);
    }
  }

  lemma SumEnd(d: seq<nat>, more: nat, want: seq<nat>, n: nat)
    requires 2 <= n <= 256
    ensures Sum(256, d, more, want, n) == 0
  {
  }

  lemma SumStep(v: nat, d: seq<nat>, more: nat, want: seq<nat>, n: nat)
    requires 2 <= n <= 256 && v < 256
    ensures Sum(v, d, more, want, n) == Sum(v + 1, d, more, want, n) +
              if |want| <= |d| || v >= Limit(n) then After(d, more, want, n)
              else if d <= want && v % n == want[|d|] then Ways(more, |want| - |d| - 1, n) else 0
  {
    hide Ways, Limit;
    if |want| <= |d| {
      Distribute(1, 256 - v - 1, After(d, more, want, n));
    } else if d <= want {
      var k := want[|d|];
      var a, b := Ways(more, |want| - |d|, n), Ways(more, |want| - |d| - 1, n);
      Distribute(if v < Limit(n) then 0 else 1, Rejections(v + 1, Limit(n)), a);
      Distribute(if v < Limit(n) && v % n == k then 1 else 0, Hits(v + 1, n, Limit(n), k), b);
    }
  }

  lemma Distribute(x: int, y: int, a: int)
    ensures (x + y) * a == x * a + y * a
  {
  }

  /** Counting byte strings by brute force gives Ways. */
  lemma {:induction false} CountIs(before: seq<byte>, more: nat, want: seq<nat>, n: nat)
    requires 2 <= n <= 256 && forall i :: 0 <= i < |want| ==> want[i] < n
    ensures Count(before, more, want, n, Limit(n)) == After(Drawn(before, n, Limit(n)), more, want, n)
    decreases more, 257
  {
    hide Drawn, Limit, Sum;
    if more > 0 {
      CountFromIs(before, more, want, n, 0);
      SumAll(Drawn(before, n, Limit(n)), more - 1, want, n);
    }
  }

  lemma SumAll(d: seq<nat>, more: nat, want: seq<nat>, n: nat)
    requires 2 <= n <= 256 && forall i :: 0 <= i < |want| ==> want[i] < n
    ensures Sum(0, d, more, want, n) == After(d, more + 1, want, n)
  {
    hide Hits, Rejections;
    if |d| < |want| && d <= want { AllHits(n, want[|d|]); }
  }

  /**
   * The output is uniform: among all byte strings of a length exactly as many make the output start with one string of
   * symbols as with any other of the same length, rejected bytes and all.
   */
  lemma OutputIsUniform(more: nat, want: seq<nat>, want': seq<nat>, n: nat)
    requires 2 <= n <= 256 && |want| == |want'|
    requires forall i :: 0 <= i < |want| ==> want[i] < n && want'[i] < n
    ensures Count([], more, want, n, Limit(n)) == Count([], more, want', n, Limit(n)) == Ways(more, |want|, n)
  {
    CountIs([], more, want, n);
    CountIs([], more, want', n);
    assert [] <= want && [] <= want';
  }
}
