/**
 * What several files of the repository rely on:
 *
 * - results and optional values,
 * - bytes,
 * - `split` and `join` of JavaScript for a separator of one character, and that they undo each other,
 * - dropping empty parts,
 * - and the first element that meets a condition.
 */
module Text {
  datatype Option<+T> = None | Some(value: T)

  datatype Result<+T, +E> = Ok(value: T) | Err(error: E)

  type byte = b: int | 0 <= b < 256

  /** JavaScript `s.split(c)` for a one-character separator: always at least one part. */
  function Split(s: string, c: char): (parts: seq<string>)
    ensures parts != []
  {
    if s == "" then [""]
    else
      var rest := Split(s[1..], c);
      if s[0] == c then [""] + rest else [[s[0]] + rest[0]] + rest[1..]
  }

  /** JavaScript `parts.join(c)`. */
  function Join(parts: seq<string>, c: char): string {
    if parts == [] then ""
    else if |parts| == 1 then parts[0]
    else parts[0] + [c] + Join(parts[1..], c)
  }

  /** `parts.filter(Boolean)`: the non-empty parts in order. */
  function NonEmpty(parts: seq<string>): (r: seq<string>)
    ensures forall w :: w in r <==> w in parts && w != ""
  {
    if parts == [] then []
    else if parts[0] == "" then NonEmpty(parts[1..])
    else [parts[0]] + NonEmpty(parts[1..])
  }

  /** Splitting cuts at the first separator. */
  lemma {:induction false} SplitAtFirst(head: string, c: char, tail: string)
    requires c !in head
    ensures Split(head + [c] + tail, c) == [head] + Split(tail, c)
  {
    if head == "" {
      assert head + [c] + tail == [c] + tail;
    } else {
      SplitAtFirst(head[1..], c, tail);
      assert (head + [c] + tail)[1..] == head[1..] + [c] + tail;
      assert [head[0]] + head[1..] == head;
    }
  }

  lemma {:induction false} SplitWithout(s: string, c: char)
    requires c !in s
    ensures Split(s, c) == [s]
  {
    if s != "" {
      SplitWithout(s[1..], c);
      assert [s[0]] + s[1..] == s;
    }
  }

  /** Splitting undoes joining when no part holds the separator. */
  lemma {:induction false} SplitOfJoin(parts: seq<string>, c: char)
    requires parts != []
    requires forall i :: 0 <= i < |parts| ==> c !in parts[i]
    ensures Split(Join(parts, c), c) == parts
  {
    if |parts| == 1 {
      SplitWithout(parts[0], c);
    } else {
      SplitOfJoin(parts[1..], c);
      SplitAtFirst(parts[0], c, Join(parts[1..], c));
    }
  }

  /** Joining undoes splitting. */
  lemma {:induction false} JoinOfSplit(s: string, c: char)
    ensures Join(Split(s, c), c) == s
  {
    if s != "" {
      JoinOfSplit(s[1..], c);
      assert [s[0]] + s[1..] == s;
    }
  }

  /** No part of a split holds the separator. */
  lemma {:induction false} SplitPartsClean(s: string, c: char)
    ensures forall i :: 0 <= i < |Split(s, c)| ==> c !in Split(s, c)[i]
  {
    if s != "" {
      SplitPartsClean(s[1..], c);
      var rest := Split(s[1..], c);
      assert c !in rest[0];
    }
  }

  /** JavaScript `s.find(p)`. */
  function FindFirst<T>(s: seq<T>, p: T -> bool): (r: Option<T>)
    ensures r.Some? ==> r.value in s && p(r.value)
    ensures r.None? ==> forall i :: 0 <= i < |s| ==> !p(s[i])
  {
    if s == [] then None else if p(s[0]) then Some(s[0]) else FindFirst(s[1..], p)
  }

  /** What is found stands before everything else that meets the condition. */
  lemma {:induction false} FoundFirst<T>(s: seq<T>, p: T -> bool) returns (i: nat)
    requires FindFirst(s, p).Some?
    ensures i < |s| && FindFirst(s, p) == Some(s[i]) && p(s[i]) && forall j :: 0 <= j < i ==> !p(s[j])
  {
    if p(s[0]) {
      i := 0;
    } else {
      var k := FoundFirst(s[1..], p);
      i := k + 1;
      forall j | 0 <= j < i
        ensures !p(s[j])
      {
        assert j > 0 ==> s[j] == s[1..][j - 1];
      }
    }
  }
}
