/**
 * Escaping text for XML, and the check that incoming XML has to pass.
 *
 * - `EscapeXml` is five replaces in a row, as the code has it.
 * - `Unescape` expands every reference once, from left to right.
 * - The precheck rejects document types, entities, stylesheets and all but predefined and numeric references.
 *
 * Escaping is shown to be one replacement of all characters at once, to be undone by expanding, and to pass the check.
 */
module XmlEscape {
  import opened Text

  // ---------------------------------------------------------------- the five replaces

  /** `s.replace(/c/g, by)` for one character. */
  function ReplaceAll(s: string, c: char, with: string): string {
    if s == "" then "" else (if s[0] == c then with else [s[0]]) + ReplaceAll(s[1..], c, with)
  }

  function EscapeXml(s: string): string {
    ReplaceAll(ReplaceAll(ReplaceAll(ReplaceAll(ReplaceAll(s, '&', "&amp;"), '<', "&lt;"), '>', "&gt;"), '"',
      "&quot;"), '\'', "&apos;")
  }

  /** What one character becomes. */
  function Entity(c: char): string {
    if c == '&' then "&amp;" else if c == '<' then "&lt;" else if c == '>' then "&gt;"
    else if c == '"' then "&quot;" else if c == '\'' then "&apos;" else [c]
  }

  function Simultaneous(s: string): string {
    if s == "" then "" else Entity(s[0]) + Simultaneous(s[1..])
  }

  lemma ReplaceFirst(s: string, c: char, with: string)
    requires s != ""
    ensures ReplaceAll(s, c, with) == (if s[0] == c then with else [s[0]]) + ReplaceAll(s[1..], c, with)
  {
  }

  lemma Associative(a: string, b: string, c: string)
    ensures a + (b + c) == (a + b) + c
  {
  }

  lemma {:induction false} ReplaceConcat(a: string, b: string, c: char, with: string)
    ensures ReplaceAll(a + b, c, with) == ReplaceAll(a, c, with) + ReplaceAll(b, c, with)
  {
    if a == "" {
      assert a + b == b && ReplaceAll(a, c, with) == "" && "" + ReplaceAll(b, c, with) == ReplaceAll(b, c, with);
    } else {
      hide ReplaceAll;
      ReplaceConcat(a[1..], b, c, with);
      assert (a + b)[1..] == a[1..] + b && (a + b)[0] == a[0];
      ReplaceFirst(a, c, with);
      ReplaceFirst(a + b, c, with);
      Associative(if a[0] == c then with else [a[0]], ReplaceAll(a[1..], c, with), ReplaceAll(b, c, with));
    }
  }

  lemma {:induction false} ReplaceNone(s: string, c: char, with: string)
    requires c !in s
    ensures ReplaceAll(s, c, with) == s
  {
    if s != "" {
      assert s[0] in s && forall x :: x in s[1..] ==> x in s;
      ReplaceNone(s[1..], c, with);
    }
  }

  /** What the replaces after the k-th leave of an entity: nothing in it matches them. */
  lemma EntitySurvives(e: string)
    requires '<' !in e && '>' !in e && '"' !in e && '\'' !in e
    ensures ReplaceAll(ReplaceAll(ReplaceAll(ReplaceAll(e, '<', "&lt;"), '>', "&gt;"), '"', "&quot;"), '\'', "&apos;")
              == e
  {
    ReplaceNone(e, '<', "&lt;");
    ReplaceNone(e, '>', "&gt;");
    ReplaceNone(e, '"', "&quot;");
    ReplaceNone(e, '\'', "&apos;");
  }

  lemma EscapeConcat(a: string, b: string)
    ensures EscapeXml(a + b) == EscapeXml(a) + EscapeXml(b)
  {
    hide ReplaceAll;
    ReplaceConcat(a, b, '&', "&amp;");
    var a1, b1 := ReplaceAll(a, '&', "&amp;"), ReplaceAll(b, '&', "&amp;");
    ReplaceConcat(a1, b1, '<', "&lt;");
    var a2, b2 := ReplaceAll(a1, '<', "&lt;"), ReplaceAll(b1, '<', "&lt;");
    ReplaceConcat(a2, b2, '>', "&gt;");
    var a3, b3 := ReplaceAll(a2, '>', "&gt;"), ReplaceAll(b2, '>', "&gt;");
    ReplaceConcat(a3, b3, '"', "&quot;");
    ReplaceConcat(ReplaceAll(a3, '"', "&quot;"), ReplaceAll(b3, '"', "&quot;"), '\'', "&apos;");
  }

  lemma One(c: char, d: char, with: string)
    ensures ReplaceAll([c], d, with) == if c == d then with else [c]
  {
    assert [c][1..] == "";
  }

  lemma EscapeOne(c: char)
    ensures EscapeXml([c]) == Entity(c)
  {
    hide ReplaceAll;
    One(c, '&', "&amp;");
    One(c, '<', "&lt;");
    One(c, '>', "&gt;");
    One(c, '"', "&quot;");
    One(c, '\'', "&apos;");
    if c == '&' { EntitySurvives("&amp;"); }
    if c == '<' {
      ReplaceNone("&lt;", '>', "&gt;");
      ReplaceNone("&lt;", '"', "&quot;");
      ReplaceNone("&lt;", '\'', "&apos;");
    }
    if c == '>' { ReplaceNone("&gt;", '"', "&quot;"); ReplaceNone("&gt;", '\'', "&apos;"); }
    if c == '"' { ReplaceNone("&quot;", '\'', "&apos;"); }
  }

  /** The five replaces one after the other equal one simultaneous replacement; `&` first is what makes it so. */
  lemma {:induction false} EscapeIsSimultaneous(s: string)
    ensures EscapeXml(s) == Simultaneous(s)
  {
    if s == "" {
    } else {
      hide EscapeXml;
      EscapeIsSimultaneous(s[1..]);
      assert s == [s[0]] + s[1..];
      EscapeConcat([s[0]], s[1..]);
      EscapeOne(s[0]);
    }
  }

  // ---------------------------------------------------------------- reading back

  predicate StartsWith(s: string, p: string) { |p| <= |s| && s[..|p|] == p }

  /** The predefined entity at the head of a text, and its length. */
  function EntityAtHead(s: string): (char, nat) {
    if StartsWith(s, "&amp;") then ('&', 5) else if StartsWith(s, "&lt;") then ('<', 4)
    else if StartsWith(s, "&gt;") then ('>', 4) else if StartsWith(s, "&quot;") then ('"', 6)
    else if StartsWith(s, "&apos;") then ('\'', 6) else if s == "" then ('&', 0) else (s[0], 1)
  }

  /** One pass from the left, as an XML parser expands the predefined entities. */
  function Unescape(s: string): string
    decreases |s|
  {
    if s == "" then ""
    else
      var (c, n) := EntityAtHead(s);
      [c] + Unescape(s[n..])
  }

  lemma HeadEntity(c: char, rest: string)
    ensures EntityAtHead(Entity(c) + rest) == (c, |Entity(c)|)
  {
    var s := Entity(c) + rest;
    assert s[..|Entity(c)|] == Entity(c);
    assert forall p: string {:trigger StartsWith(s, p)} :: StartsWith(s, p) ==> forall k :: 0 <= k < |p| ==>
      p[k] == s[k];
    assert s[0] == Entity(c)[0];
    if c == '&' { assert StartsWith(s, "&amp;"); }
    if c == '<' { assert s[1] == 'l' && StartsWith(s, "&lt;"); }
    if c == '>' { assert s[1] == 'g' && StartsWith(s, "&gt;"); }
    if c == '"' { assert s[1] == 'q' && StartsWith(s, "&quot;"); }
    if c == '\'' { assert s[1] == 'a' && s[2] == 'p' && StartsWith(s, "&apos;"); }
  }

  /** Expanding the entities of an escaped text gives the text back. */
  lemma {:induction false} UnescapeOfEscape(s: string)
    ensures Unescape(EscapeXml(s)) == s
  {
    hide EscapeXml, EntityAtHead, Entity;
    EscapeIsSimultaneous(s);
    if s != "" {
      var rest := Simultaneous(s[1..]);
      EscapeIsSimultaneous(s[1..]);
      UnescapeOfEscape(s[1..]);
      HeadEntity(s[0], rest);
      EntityNotEmpty(s[0]);
      assert (Entity(s[0]) + rest)[|Entity(s[0])|..] == rest;
    }
  }

  lemma EntityNotEmpty(c: char)
    ensures Entity(c) != ""
  {
  }

  // ---------------------------------------------------------------- the precheck

  function Upper(c: char): char { if 'a' <= c <= 'z' then (c as int - 32) as char else c }

  /** A case-insensitive literal somewhere in the text. */
  predicate Contains(s: string, literal: string) {
    exists i :: 0 <= i <= |s| - |literal| && MatchesAt(s, i, literal)
  }

  predicate MatchesAt(s: string, i: nat, literal: string)
    requires i + |literal| <= |s|
  {
    forall k :: 0 <= k < |literal| ==> Upper(s[i + k]) == Upper(literal[k])
  }

  predicate IsLetter(c: char) { 'a' <= c <= 'z' || 'A' <= c <= 'Z' }

  predicate IsDecimal(c: char) { '0' <= c <= '9' }

  predicate IsHexDigit(c: char) { IsDecimal(c) || 'a' <= c <= 'f' || 'A' <= c <= 'F' }

  predicate IsNameChar(c: char) { IsLetter(c) || IsDecimal(c) || c == '_' || c == '.' || c == '-' }

  function NameRun(s: string): (n: nat)
    ensures n <= |s| && (forall i :: 0 <= i < n ==> IsNameChar(s[i])) && (n < |s| ==> !IsNameChar(s[n]))
  {
    if s == "" || !IsNameChar(s[0]) then 0 else 1 + NameRun(s[1..])
  }

  /** The length of the reference the text starts with: an ampersand, `#` or a letter, name characters, a semicolon. */
  function ReferenceAtHead(s: string): (n: Option<nat>)
    ensures n.Some? ==> 3 <= n.value <= |s|
  {
    if |s| >= 3 && s[0] == '&' && (s[1] == '#' || IsLetter(s[1])) then
      var n := NameRun(s[2..]);
      if 2 + n < |s| && s[2 + n] == ';' then Some(3 + n) else None
    else None
  }

  /** All matches, from the left and without overlap. */
  function References(s: string): seq<string>
    decreases |s|
  {
    if s == "" then []
    else
      var n := ReferenceAtHead(s);
      if n.Some? then [s[..n.value]] + References(s[n.value..]) else References(s[1..])
  }

  predicate IsNumeric(m: string) {
    && |m| >= 4 && m[0] == '&' && m[1] == '#' && m[|m| - 1] == ';'
    && ((forall i :: 2 <= i < |m| - 1 ==> IsDecimal(m[i]))
        || (|m| >= 5 && m[2] == 'x' && forall i :: 3 <= i < |m| - 1 ==> IsHexDigit(m[i])))
  }

  predicate IsAllowed(m: string) { m in ["&amp;", "&lt;", "&gt;", "&quot;", "&apos;"] || IsNumeric(m) }

  predicate HasUnsafeEntity(xml: string) { exists m :: m in References(xml) && !IsAllowed(m) }

  predicate SecurityPrecheck(xml: string) {
    !Contains(xml, "<!DOCTYPE") && !Contains(xml, "<!ENTITY") && !Contains(xml, "<?xml-stylesheet")
      && !HasUnsafeEntity(xml)
  }

  /** A reference stands at position i. */
  predicate ReferenceAt(s: string, i: nat, m: string) {
    i + |m| <= |s| && s[i..i + |m|] == m && ReferenceAtHead(s[i..]) == Some(|m|)
  }

  // The character classes by code: A to Z and a to z, 0 to 9, and with underscore, full stop and hyphen.

  predicate Letter(c: char) { 65 <= c as int <= 90 || 97 <= c as int <= 122 }

  predicate Digit(c: char) { 48 <= c as int <= 57 }

  predicate Name(c: char) { Letter(c) || Digit(c) || c as int in {95, 46, 45} }

  /** An entity or character reference, told by its characters. */
  predicate IsReference(m: string) {
    && |m| >= 3 && m[0] == '&' && (m[1] == '#' || Letter(m[1])) && m[|m| - 1] == ';'
    && forall k :: 2 <= k < |m| - 1 ==> Name(m[k])
  }

  /** Such a head, then something, all of which the class accepts, then a semicolon. */
  ghost predicate Encloses(m: string, head: string, accepts: char -> bool) {
    && |head| + 1 < |m| && m[..|head|] == head && m[|m| - 1] == ';'
    && forall i :: |head| <= i < |m| - 1 ==> accepts(m[i])
  }

  /** The five predefined entities, and numbers in decimal or hexadecimal. */
  ghost predicate IsHarmless(m: string) {
    || m == "&amp;" || m == "&lt;" || m == "&gt;" || m == "&quot;" || m == "&apos;"
    || Encloses(m, "&#", (c: char) => Digit(c))
    || Encloses(m, "&#x", (c: char) => Digit(c) || 65 <= c as int <= 70 || 97 <= c as int <= 102)
  }

  /** The same character, or the same letter in the other case. */
  predicate SameLetter(a: char, b: char) {
    a == b || (Letter(a) && Letter(b) && (a as int == b as int + 32 || b as int == a as int + 32))
  }

  predicate StandsAt(xml: string, i: int, literal: string) {
    0 <= i && i + |literal| <= |xml| && forall k :: 0 <= k < |literal| ==> SameLetter(xml[i + k], literal[k])
  }

  /** The literal stands somewhere in the text, in upper or lower case. */
  ghost predicate Stands(xml: string, literal: string) {
    exists i :: StandsAt(xml, i, literal)
  }

  lemma StandsIff(xml: string, literal: string)
    ensures Contains(xml, literal) <==> Stands(xml, literal)
  {
    forall i | 0 <= i <= |xml| - |literal|
      ensures MatchesAt(xml, i, literal) <==> StandsAt(xml, i, literal)
    {
      forall k | 0 <= k < |literal|
        ensures Upper(xml[i + k]) == Upper(literal[k]) <==> SameLetter(xml[i + k], literal[k])
      {
      }
    }
    if Stands(xml, literal) {
      var i :| StandsAt(xml, i, literal);
      assert MatchesAt(xml, i, literal);
    }
  }

  lemma HarmlessIff(m: string)
    ensures IsAllowed(m) <==> IsHarmless(m)
  {
    if |m| >= 4 {
      assert m[..2] == "&#" <==> m[0] == '&' && m[1] == '#';
      assert m[..3] == "&#x" <==> m[0] == '&' && m[1] == '#' && m[2] == 'x';
    }
  }

  lemma HeadTaken(s: string, n: nat)
    requires ReferenceAtHead(s) == Some(n)
    ensures n <= |s| && IsReference(s[..n])
  {
    var m, rest := s[..n], s[2..];
    var run := NameRun(rest);
    assert n == run + 3 && rest[run] == s[n - 1];
    forall k | 2 <= k < n - 1
      ensures Name(m[k])
    {
      assert m[k] == rest[k - 2] && IsNameChar(rest[k - 2]);
    }
  }

  lemma HeadStands(s: string, n: nat)
    requires n <= |s| && IsReference(s[..n])
    ensures ReferenceAtHead(s) == Some(n)
  {
    var m, rest := s[..n], s[2..];
    assert s[0] == m[0] && s[1] == m[1] && rest[n - 3] == m[n - 1];
    forall k | 0 <= k < n - 3
      ensures IsNameChar(rest[k])
    {
      assert rest[k] == m[k + 2] && Name(m[k + 2]);
    }
    NameRunIs(rest, n - 3);
  }

  /** What the scan takes at the head of a text is the one reference the text starts with. */
  lemma HeadIff(s: string, n: nat)
    ensures ReferenceAtHead(s) == Some(n) <==> n <= |s| && IsReference(s[..n])
  {
    hide ReferenceAtHead, IsReference;
    if ReferenceAtHead(s) == Some(n) { HeadTaken(s, n); }
    if n <= |s| && IsReference(s[..n]) { HeadStands(s, n); }
  }

  /**
   * What passes the precheck: exactly the texts in which no document type, entity declaration or stylesheet instruction
   * stands, and in which every reference is a predefined entity or a number.
   */
  lemma PrecheckIff(xml: string)
    ensures SecurityPrecheck(xml) <==>
              && !Stands(xml, "<!DOCTYPE") && !Stands(xml, "<!ENTITY") && !Stands(xml, "<?xml-stylesheet")
              && forall i, j :: 0 <= i < j <= |xml| && IsReference(xml[i..j]) ==> IsHarmless(xml[i..j])
  {
    hide Contains, Stands, IsReference, IsHarmless, IsAllowed, ReferenceAtHead, References;
    StandsIff(xml, "<!DOCTYPE");
    StandsIff(xml, "<!ENTITY");
    StandsIff(xml, "<?xml-stylesheet");
    forall i, j | 0 <= i < j <= |xml|
      ensures IsReference(xml[i..j]) ==> xml[i..j] in References(xml) && ReferenceAt(xml, i, xml[i..j])
    {
      HeadIff(xml[i..], j - i);
      assert xml[i..][..j - i] == xml[i..j] && xml[i..i + (j - i)] == xml[i..j];
      if IsReference(xml[i..j]) {
        assert ReferenceAt(xml, i, xml[i..j]);
        ScanIsComplete(xml, xml[i..j]);
      }
    }
    forall m | m in References(xml)
      ensures exists i, j :: 0 <= i < j <= |xml| && xml[i..j] == m && IsReference(m)
    {
      ScanIsComplete(xml, m);
      var i :| 0 <= i <= |xml| && ReferenceAt(xml, i, m);
      HeadIff(xml[i..], |m|);
      assert xml[i..][..|m|] == m == xml[i..i + |m|];
      NotEmpty(m);
    }
    forall m: string
      ensures IsAllowed(m) <==> IsHarmless(m)
    {
      HarmlessIff(m);
    }
  }

  lemma NotEmpty(m: string)
    requires IsReference(m)
    ensures |m| > 0
  {
  }

  lemma NoAmpersandInside(s: string, i: nat)
    requires ReferenceAtHead(s).Some? && 0 < i < ReferenceAtHead(s).value
    ensures s[i] != '&'
  {
    assert i >= 2 ==> s[2..][i - 2] == s[i];
  }

  /** The scan without overlap misses no reference and invents none. */
  lemma {:induction false} ScanIsComplete(s: string, m: string)
    ensures m in References(s) <==> exists i :: 0 <= i <= |s| && ReferenceAt(s, i, m)
    decreases |s|
  {
    hide ReferenceAtHead;
    if s == "" {
      EmptyHasNone();
    } else {
      var n := ReferenceAtHead(s);
      var skip := if n.Some? then n.value else 1;
      ScanIsComplete(s[skip..], m);
      forall i | 0 <= i <= |s| - skip
        ensures ReferenceAt(s[skip..], i, m) == ReferenceAt(s, skip + i, m)
      {
        assert s[skip..][i..] == s[skip + i..];
        assert i + |m| <= |s| - skip ==> s[skip..][i..i + |m|] == s[skip + i..skip + i + |m|];
      }
      forall i | 0 < i < skip
        ensures !ReferenceAt(s, i, m)
      {
        if ReferenceAtHead(s[i..]).Some? { HeadIsAmpersand(s[i..]); NoAmpersandInside(s, i); }
      }
      assert s[0..] == s;
      assert ReferenceAt(s, 0, m) <==> n == Some(|m|) && s[..|m|] == m;
      if m in References(s[skip..]) {
        var i :| 0 <= i <= |s[skip..]| && ReferenceAt(s[skip..], i, m);
        assert ReferenceAt(s, skip + i, m);
      }
      forall i | 0 <= i <= |s| && ReferenceAt(s, i, m)
        ensures m in References(s)
      {
        assert i >= skip ==> ReferenceAt(s[skip..], i - skip, m);
      }
    }
  }

  lemma EmptyHasNone()
    ensures ReferenceAtHead("") == None
  {
  }

  lemma HeadIsAmpersand(s: string)
    requires ReferenceAtHead(s).Some?
    ensures s[0] == '&'
  {
  }

  lemma {:induction false} EscapedHasNo(s: string, c: char)
    requires c == '<' || c == '>' || c == '"' || c == '\''
    ensures c !in Simultaneous(s)
  {
    if s != "" {
      EscapedHasNo(s[1..], c);
      EntityHasNo(s[0], c);
    }
  }

  lemma EntityHasNo(d: char, c: char)
    requires c == '<' || c == '>' || c == '"' || c == '\''
    ensures c !in Entity(d)
  {
  }

  lemma NotContained(s: string, literal: string)
    requires '<' !in s && literal != "" && literal[0] == '<'
    ensures !Contains(s, literal)
  {
    forall i | 0 <= i <= |s| - |literal|
      ensures !MatchesAt(s, i, literal)
    {
      assert s[i + 0] in s && Upper(s[i + 0]) != Upper(literal[0]);
    }
  }

  lemma NameRunIs(s: string, n: nat)
    requires n < |s| && (forall i :: 0 <= i < n ==> IsNameChar(s[i])) && !IsNameChar(s[n])
    ensures NameRun(s) == n
  {
  }

  lemma ReferenceHead(e: string, rest: string)
    requires |e| >= 3 && e[0] == '&' && IsLetter(e[1]) && e[|e| - 1] == ';' && forall i :: 2 <= i < |e| - 1 ==>
               IsNameChar(e[i])
    ensures ReferenceAtHead(e + rest) == Some(|e|)
  {
    var s := e + rest;
    assert s[0] == e[0] && s[1] == e[1];
    assert s[2..][|e| - 3] == ';';
    assert forall i :: 0 <= i < |e| - 3 ==> s[2..][i] == e[i + 2];
    NameRunIs(s[2..], |e| - 3);
  }

  lemma {:induction false} EscapedReferences(s: string)
    ensures forall m :: m in References(Simultaneous(s)) ==> IsAllowed(m)
  {
    if s != "" {
      var e, rest := Entity(s[0]), Simultaneous(s[1..]);
      EscapedReferences(s[1..]);
      assert (e + rest)[|e|..] == rest && (e + rest)[..|e|] == e;
      if e[0] == '&' {
        ReferenceHead(e, rest);
      } else {
        assert e == [s[0]] && ReferenceAtHead(e + rest) == None;
      }
    }
  }

  /**
   * Escaped text always passes the precheck: no angle bracket or quote is left, and every reference in it is a
   * predefined one.
   */
  lemma EscapedPassesPrecheck(s: string)
    ensures SecurityPrecheck(EscapeXml(s))
    ensures forall c :: c in EscapeXml(s) ==> c != '<' && c != '>' && c != '"' && c != '\''
  {
    EscapeIsSimultaneous(s);
    EscapedHasNo(s, '<'); EscapedHasNo(s, '>'); EscapedHasNo(s, '"'); EscapedHasNo(s, '\'');
    EscapedReferences(s);
    var e := Simultaneous(s);
    NotContained(e, "<!DOCTYPE");
    NotContained(e, "<!ENTITY");
    NotContained(e, "<?xml-stylesheet");
  }
}
