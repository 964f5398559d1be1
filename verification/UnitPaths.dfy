/**
 * The path column of `org_units`: "/" + id for every unit from the root down. Ids have a fixed length and no character
 * that GLOB treats specially, so a path can be cut back into its ids and a string prefix is an ancestor.
 */
module UnitPaths {
  import opened Text

  const ID_LENGTH := 24
  const SEGMENT := 25

  predicate IsBase62(c: char) {
    'A' <= c <= 'Z' || 'a' <= c <= 'z' || '0' <= c <= '9'
  }

  /** "ou_" and 21 base62 characters. */
  predicate IsUnitId(id: string) {
    |id| == ID_LENGTH && id[..3] == "ou_" && forall i :: 3 <= i < ID_LENGTH ==> IsBase62(id[i])
  }

  lemma IdChars(id: string, c: char)
    requires IsUnitId(id) && !IsBase62(c) && c != '_'
    ensures c !in id
  {
    assert forall i :: 0 <= i < 3 ==> id[i] == id[..3][i];
  }

  predicate AllIds(ids: seq<string>) {
    forall i :: 0 <= i < |ids| ==> IsUnitId(ids[i])
  }

  /** The path of the unit reached from a root by `ids`. */
  function PathOf(ids: seq<string>): string {
    if ids == [] then "" else PathOf(ids[..|ids| - 1]) + "/" + ids[|ids| - 1]
  }

  /** The id in the k-th segment of a path, by position. */
  function IdAt(path: string, k: int): string
    requires 0 <= k < |path| / SEGMENT
  {
    path[SEGMENT * k + 1..SEGMENT * k + SEGMENT]
  }

  /** Cutting a path back into its ids. */
  function IdsOf(path: string): (ids: seq<string>)
    ensures |ids| == |path| / SEGMENT
  {
    seq(|path| / SEGMENT, k requires 0 <= k < |path| / SEGMENT => IdAt(path, k))
  }

  predicate IsSegment(path: string, k: int)
    requires 0 <= k < |path| / SEGMENT
  {
    path[SEGMENT * k] == '/' && IsUnitId(IdAt(path, k))
  }

  /** A string made of whole segments. */
  predicate IsPath(path: string) {
    |path| % SEGMENT == 0 && forall k {:trigger IsSegment(path, k)} :: 0 <= k < |path| / SEGMENT ==> IsSegment(path, k)
  }

  lemma {:induction false} PathLength(ids: seq<string>)
    requires AllIds(ids)
    ensures |PathOf(ids)| == SEGMENT * |ids|
  {
    if ids != [] {
      PathLength(ids[..|ids| - 1]);
    }
  }

  lemma {:induction false} SegmentAt(ids: seq<string>, i: nat)
    requires AllIds(ids) && i < |ids|
    ensures |PathOf(ids)| == SEGMENT * |ids|
    ensures PathOf(ids)[SEGMENT * i] == '/'
    ensures PathOf(ids)[SEGMENT * i + 1..SEGMENT * i + SEGMENT] == ids[i]
  {
    PathLength(ids);
    var front := ids[..|ids| - 1];
    PathLength(front);
    if i < |front| {
      SegmentAt(front, i);
      assert PathOf(ids)[..SEGMENT * |front|] == PathOf(front);
      assert PathOf(ids)[SEGMENT * i + 1..SEGMENT * i + SEGMENT]
        == PathOf(front)[SEGMENT * i + 1..SEGMENT * i + SEGMENT];
    }
  }

  /** Round trip: the ids of a path are the ids it was built from. */
  lemma IdsOfPath(ids: seq<string>)
    requires AllIds(ids)
    ensures IdsOf(PathOf(ids)) == ids && IsPath(PathOf(ids))
  {
    PathLength(ids);
    forall i | 0 <= i < |ids|
      ensures IdsOf(PathOf(ids))[i] == ids[i] && IsSegment(PathOf(ids), i)
    {
      SegmentAt(ids, i);
    }
  }

  /** Round trip the other way: a string of whole segments is the path of its ids. */
  lemma PathOfIds(path: string)
    requires IsPath(path)
    ensures AllIds(IdsOf(path)) && PathOf(IdsOf(path)) == path
  {
    var ids := IdsOf(path);
    forall k | 0 <= k < |ids|
      ensures IsUnitId(ids[k])
    {
      assert IsSegment(path, k);
    }
    PathLength(ids);
    forall n | 0 <= n < |path|
      ensures PathOf(ids)[n] == path[n]
    {
      var k := n / SEGMENT;
      assert IsSegment(path, k);
      SegmentAt(ids, k);
      assert n == SEGMENT * k || PathOf(ids)[n] == ids[k][n - SEGMENT * k - 1];
    }
  }

  /** A child's path holds the parent's ids and its own. */
  lemma AppendId(ids: seq<string>, id: string)
    requires AllIds(ids) && IsUnitId(id)
    ensures PathOf(ids + [id]) == PathOf(ids) + "/" + id
    ensures IdsOf(PathOf(ids) + "/" + id) == ids + [id] && IsPath(PathOf(ids) + "/" + id)
  {
    assert (ids + [id])[..|ids|] == ids;
    IdsOfPath(ids + [id]);
  }

  lemma RootPath(id: string)
    requires IsUnitId(id)
    ensures IdsOf("/" + id) == [id] && IsPath("/" + id)
  {
    AppendId([], id);
    assert PathOf([]) == "";
    assert "" + "/" + id == "/" + id;
    assert [] + [id] == [id];
  }

  lemma PrefixOfAppended(a: seq<string>, b: seq<string>, id: string)
    ensures a <= b + [id] <==> a <= b || a == b + [id]
  {
    if a <= b + [id] && |a| <= |b| {
      assert a == (b + [id])[..|a|] == b[..|a|];
    }
  }

  lemma {:induction false} PathConcat(a: seq<string>, b: seq<string>)
    ensures PathOf(a + b) == PathOf(a) + PathOf(b)
  {
    if b == [] {
      assert a + b == a;
    } else {
      var front := b[..|b| - 1];
      PathConcat(a, front);
      assert (a + b)[..|a + b| - 1] == a + front;
    }
  }

  /** String prefix and id prefix are the same relation; with the trailing slash, the proper one. */
  lemma PrefixIffIds(a: seq<string>, b: seq<string>)
    requires AllIds(a) && AllIds(b)
    ensures PathOf(a) <= PathOf(b) <==> a <= b
    ensures PathOf(a) + "/" <= PathOf(b) <==> a < b
  {
    PathLength(a);
    PathLength(b);
    if PathOf(a) <= PathOf(b) {
      forall i | 0 <= i < |a|
        ensures a[i] == b[i]
      {
        SegmentAt(a, i);
        SegmentAt(b, i);
        assert PathOf(b)[..|PathOf(a)|] == PathOf(a);
        assert PathOf(b)[SEGMENT * i + 1..SEGMENT * i + SEGMENT] == PathOf(a)[SEGMENT * i + 1..SEGMENT * i + SEGMENT];
      }
    }
    if a <= b {
      assert b == a + b[|a|..];
      PathConcat(a, b[|a|..]);
      if a < b {
        SegmentAt(b, |a|);
      }
    }
  }

  /** SQLite GLOB with `*` and `?`; bracket classes are not part of this model. */
  predicate Glob(pattern: string, text: string)
    requires '[' !in pattern
    decreases |pattern| + |text|
  {
    if pattern == "" then text == ""
    else if pattern[0] == '*' then Glob(pattern[1..], text) || (text != "" && Glob(pattern, text[1..]))
    else text != "" && (pattern[0] == '?' || pattern[0] == text[0]) && Glob(pattern[1..], text[1..])
  }

  lemma {:induction false} GlobStar(text: string)
    ensures Glob("*", text)
  {
    if text != "" {
      GlobStar(text[1..]);
    } else {
      assert Glob("*"[1..], text);
    }
  }

  /** For a literal prefix without wildcard characters, `prefix*` matches exactly the extensions of it. */
  lemma {:induction false} GlobIsPrefix(prefix: string, text: string)
    requires '*' !in prefix && '?' !in prefix && '[' !in prefix
    ensures Glob(prefix + "*", text) <==> prefix <= text
  {
    if prefix == "" {
      GlobStar(text);
      assert prefix + "*" == "*";
    } else {
      var pattern := prefix + "*";
      assert pattern[0] == prefix[0] && pattern[1..] == prefix[1..] + "*";
      if text != "" {
        GlobIsPrefix(prefix[1..], text[1..]);
        assert prefix == [prefix[0]] + prefix[1..];
        assert text == [text[0]] + text[1..];
        assert prefix <= text <==> prefix[0] == text[0] && prefix[1..] <= text[1..];
      }
    }
  }

  lemma {:induction false} PathHasNoWildcard(ids: seq<string>)
    requires AllIds(ids)
    ensures '*' !in PathOf(ids) && '?' !in PathOf(ids) && '[' !in PathOf(ids)
  {
    if ids != [] {
      PathHasNoWildcard(ids[..|ids| - 1]);
      var id := ids[|ids| - 1];
      IdChars(id, '*');
      IdChars(id, '?');
      IdChars(id, '[');
    }
  }

  /** The index probe `path GLOB '<node path>*'` selects exactly the paths that extend the node's ids. */
  lemma GlobIffIds(a: seq<string>, b: seq<string>)
    requires AllIds(a) && AllIds(b)
    ensures '[' !in PathOf(a) + "*"
    ensures Glob(PathOf(a) + "*", PathOf(b)) <==> a <= b
  {
    PathHasNoWildcard(a);
    GlobIsPrefix(PathOf(a), PathOf(b));
    PrefixIffIds(a, b);
  }

  /** `path.split('/')` without its empty parts gives the ids back. */
  lemma {:induction false} SplitPath(ids: seq<string>)
    requires AllIds(ids)
    ensures NonEmpty(Split(PathOf(ids), '/')) == ids
    ensures |ids| > 0 ==> Split(PathOf(ids), '/') == [""] + ids
  {
    if ids != [] {
      PathIsJoin(ids);
      forall i | 0 <= i < |ids|
        ensures '/' !in ids[i]
      {
        IdChars(ids[i], '/');
      }
      SplitOfJoin([""] + ids, '/');
      assert ([""] + ids)[1..] == ids;
      NonEmptyIds(ids);
    } else {
      assert Split("", '/') == [""];
    }
  }

  lemma {:induction false} NonEmptyIds(ids: seq<string>)
    requires AllIds(ids)
    ensures NonEmpty(ids) == ids
  {
    if ids != [] {
      assert IsUnitId(ids[0]);
      NonEmptyIds(ids[1..]);
    }
  }

  lemma {:induction false} PathIsJoin(ids: seq<string>)
    requires ids != []
    ensures PathOf(ids) == Join([""] + ids, '/')
  {
    PathConcat(ids[..1], ids[1..]);
    assert ids == ids[..1] + ids[1..];
    assert PathOf(ids[..1]) == "/" + ids[0];
    assert ([""] + ids)[1..] == ids;
    assert Join([""] + ids, '/') == "/" + Join(ids, '/');
    if |ids| > 1 {
      PathIsJoin(ids[1..]);
      var rest := [""] + ids[1..];
      assert rest[1..] == ids[1..];
      assert Join(rest, '/') == "/" + Join(ids[1..], '/');
      assert Join(ids, '/') == ids[0] + "/" + Join(ids[1..], '/');
    } else {
      assert PathOf(ids[1..]) == "";
    }
  }
}
