/**
 * String handling with the meaning of the JavaScript built-ins the task store
 * relies on (the `\s` class, `String.prototype.trim`, `toLowerCase`), and the
 * two text filters of the application: the sanitiser applied to stored task
 * texts and subcategory names (`sanitizeStoredText`), and the HTML escaper used
 * before task text is put into markup (`escapeHtml`).
 */
module Text {

  /** JavaScript's WhiteSpace and LineTerminator code points: what `\s`
      matches and what `trim()` removes. U+200B is not among them. */
  predicate IsWhitespace(c: char) {
    || c == '\t' || c == '\n' || c == '\U{000B}' || c == '\U{000C}' || c == '\r'
    || c == ' ' || c == '\U{00A0}' || c == '\U{1680}'
    || ('\U{2000}' <= c <= '\U{200A}')
    || c == '\U{2028}' || c == '\U{2029}' || c == '\U{202F}' || c == '\U{205F}'
    || c == '\U{3000}' || c == '\U{FEFF}'
  }

  predicate IsBlank(s: string) {
    forall i :: 0 <= i < |s| ==> IsWhitespace(s[i])
  }

  /** No two neighbouring characters are both white space. */
  predicate NoAdjacentWhitespace(s: string) {
    forall i :: 0 <= i < |s| - 1 ==> !(IsWhitespace(s[i]) && IsWhitespace(s[i + 1]))
  }

  function TrimStart(s: string): (r: string)
    ensures |r| <= |s| && r == s[|s| - |r|..]
    ensures r == [] || !IsWhitespace(r[0])
    ensures forall i :: 0 <= i < |s| - |r| ==> IsWhitespace(s[i])
  {
    if s != [] && IsWhitespace(s[0]) then TrimStart(s[1..]) else s
  }

  function TrimEnd(s: string): (r: string)
    ensures |r| <= |s| && r == s[..|r|]
    ensures r == [] || !IsWhitespace(r[|r| - 1])
    ensures forall i :: |r| <= i < |s| ==> IsWhitespace(s[i])
  {
    if s != [] && IsWhitespace(s[|s| - 1]) then TrimEnd(s[..|s| - 1]) else s
  }

  /** Neither end is white space. */
  predicate IsTrimmed(s: string) {
    s == [] || (!IsWhitespace(s[0]) && !IsWhitespace(s[|s| - 1]))
  }

  /** `String.prototype.trim`: drops the white space at both ends. */
  function Trim(s: string): (r: string)
    ensures IsTrimmed(r)
    ensures r == [] <==> IsBlank(s)
  {
    var t := TrimStart(s);
    var r := TrimEnd(t);
    assert t != [] ==> r != [] by {
      if t != [] {
        assert !IsWhitespace(t[0]);
      }
    }
    r
  }

  lemma TrimIdempotent(s: string)
    ensures Trim(Trim(s)) == Trim(s)
  {
    var r := Trim(s);
    if r != [] {
      assert TrimStart(r) == r;
      assert TrimEnd(r) == r;
    }
  }

  /** Trimming keeps an infix of the input. */
  lemma TrimKeeps(s: string)
    ensures forall c :: c in Trim(s) ==> c in s
    ensures NoAdjacentWhitespace(s) ==> NoAdjacentWhitespace(Trim(s))
  {
    var t := TrimStart(s);
    var k := |s| - |t|;
    var r := Trim(s);
    assert r == TrimEnd(t);
    assert r == t[..|r|];
    forall i | 0 <= i < |r| ensures r[i] == s[k + i] {
      assert r[i] == t[i];
    }
    forall c | c in r ensures c in s {
      var i :| 0 <= i < |r| && r[i] == c;
      assert s[k + i] == c;
    }
    if NoAdjacentWhitespace(s) {
      forall i | 0 <= i < |r| - 1 ensures !(IsWhitespace(r[i]) && IsWhitespace(r[i + 1])) {
        assert r[i] == s[k + i] && r[i + 1] == s[k + i + 1];
      }
    }
  }

  /** `toLowerCase` on the letters the application's aliases use: Latin A-Z,
      Cyrillic А-Я and Ё. Other characters are left as they are. */
  function LowerChar(c: char): char {
    if 'A' <= c <= 'Z' || '\U{0410}' <= c <= '\U{042F}' then (c as int + 32) as char
    else if c == '\U{0401}' then '\U{0451}'
    else c
  }

  function Lower(s: string): string {
    seq(|s|, i requires 0 <= i < |s| => LowerChar(s[i]))
  }

  // ---------------------------------------------------------------------------
  // sanitizeStoredText, one regular-expression replacement per step

  const ReplacementChar: char := '\U{FFFD}'
  const SoftHyphen: char := '\U{00AD}'
  const ZeroWidthSpace: char := '\U{200B}'

  /** `s.replace(/c/g, '')` */
  function RemoveChar(s: string, c: char): (r: string)
    ensures c !in r
    ensures forall x :: x in r ==> x in s
  {
    if s == [] then []
    else (if s[0] == c then [] else [s[0]]) + RemoveChar(s[1..], c)
  }

  /** The entity `&shy;` starts at position `i` of `s`. */
  predicate ShyAt(s: string, i: nat) {
    i + 5 <= |s| && s[i] == '&' && s[i + 1] == 's' && s[i + 2] == 'h' && s[i + 3] == 'y' && s[i + 4] == ';'
  }

  /** The entity `&#173;` starts at position `i` of `s`. */
  predicate NumericShyAt(s: string, i: nat) {
    i + 6 <= |s| && s[i] == '&' && s[i + 1] == '#' && s[i + 2] == '1' && s[i + 3] == '7' && s[i + 4] == '3' &&
    s[i + 5] == ';'
  }

  /** `s.replace(/&shy;|&#173;|\u00AD/g, '')`: the alternatives are tried in
      order at each position, left to right. */
  function StripSoftHyphens(s: string): (r: string)
    ensures SoftHyphen !in r
    ensures forall x :: x in r ==> x in s
    decreases |s|
  {
    if s == [] then []
    else if ShyAt(s, 0) then
      var r := StripSoftHyphens(s[5..]);
      assert forall x :: x in s[5..] ==> x in s;
      r
    else if NumericShyAt(s, 0) then
      var r := StripSoftHyphens(s[6..]);
      assert forall x :: x in s[6..] ==> x in s;
      r
    else if s[0] == SoftHyphen then StripSoftHyphens(s[1..])
    else [s[0]] + StripSoftHyphens(s[1..])
  }

  predicate IsLineBreak(c: char) {
    c == '\r' || c == '\n'
  }

  function SkipLineBreaks(s: string): (r: string)
    ensures |r| <= |s| && r == s[|s| - |r|..]
    ensures r == [] || !IsLineBreak(r[0])
  {
    if s != [] && IsLineBreak(s[0]) then SkipLineBreaks(s[1..]) else s
  }

  /** `s.replace(/[\r\n]+/g, ' ')`: every run of line breaks becomes one space. */
  function JoinLineBreaks(s: string): (r: string)
    ensures '\r' !in r && '\n' !in r
    ensures forall x :: x in r ==> x == ' ' || x in s
    decreases |s|
  {
    if s == [] then []
    else if IsLineBreak(s[0]) then
      var rest := SkipLineBreaks(s[1..]);
      assert forall x :: x in rest ==> x in s;
      [' '] + JoinLineBreaks(rest)
    else [s[0]] + JoinLineBreaks(s[1..])
  }

  /** Length of the white-space run that starts `s`. */
  function WhitespaceRun(s: string): (n: nat)
    ensures n <= |s|
    ensures n == |s| || !IsWhitespace(s[n])
  {
    if s != [] && IsWhitespace(s[0]) then 1 + WhitespaceRun(s[1..]) else 0
  }

  /** `s.replace(/\s{2,}/g, ' ')`: a run of two or more white-space characters
      becomes one space; a single white-space character is kept as it is. */
  function CollapseWhitespace(s: string): (r: string)
    ensures NoAdjacentWhitespace(r)
    ensures forall x :: x in r ==> x == ' ' || x in s
    ensures s != [] && !IsWhitespace(s[0]) ==> r != [] && r[0] == s[0]
    decreases |s|
  {
    if s == [] then []
    else if !IsWhitespace(s[0]) then [s[0]] + CollapseWhitespace(s[1..])
    else
      var n := WhitespaceRun(s);
      assert n >= 1;
      assert forall x :: x in s[n..] ==> x in s;
      (if n >= 2 then [' '] else [s[0]]) + CollapseWhitespace(s[n..])
  }

  /** `sanitizeStoredText` on a string: drops U+FFFD, soft hyphens (the
      character and its two entity spellings) and U+200B, turns line-break
      runs into a space, collapses white-space runs and trims. */
  function SanitizeStoredText(s: string): (r: string)
    ensures ReplacementChar !in r && SoftHyphen !in r && ZeroWidthSpace !in r
    ensures '\r' !in r && '\n' !in r
    ensures NoAdjacentWhitespace(r)
    ensures r == [] || (!IsWhitespace(r[0]) && !IsWhitespace(r[|r| - 1]))
  {
    var t1 := RemoveChar(s, ReplacementChar);
    var t2 := StripSoftHyphens(t1);
    var t3 := RemoveChar(t2, ZeroWidthSpace);
    var t4 := JoinLineBreaks(t3);
    var t5 := CollapseWhitespace(t4);
    assert ReplacementChar !in t3 && SoftHyphen !in t3 && ZeroWidthSpace !in t3;
    assert ReplacementChar !in t4 && SoftHyphen !in t4 && ZeroWidthSpace !in t4;
    assert ReplacementChar !in t5 && SoftHyphen !in t5 && ZeroWidthSpace !in t5;
    assert '\r' !in t5 && '\n' !in t5;
    TrimKeeps(t5);
    Trim(t5)
  }

  /** Text the sanitiser leaves as it is: none of the removed characters or
      entity spellings, no line break, no white-space pair, trimmed. */
  predicate CleanStoredText(s: string) {
    && ReplacementChar !in s && SoftHyphen !in s && ZeroWidthSpace !in s
    && '\r' !in s && '\n' !in s
    && NoAdjacentWhitespace(s)
    && (s == [] || (!IsWhitespace(s[0]) && !IsWhitespace(s[|s| - 1])))
    && NoSoftHyphenEntity(s)
  }

  /** Neither entity spelling of the soft hyphen occurs in `s`. */
  predicate NoSoftHyphenEntity(s: string) {
    forall i: nat :: i < |s| ==> !ShyAt(s, i) && !NumericShyAt(s, i)
  }

  lemma {:induction false} RemoveAbsentChar(s: string, c: char)
    requires c !in s
    ensures RemoveChar(s, c) == s
  {
    if s != [] {
      RemoveAbsentChar(s[1..], c);
      assert s == [s[0]] + s[1..];
    }
  }

  lemma {:induction false} StripSoftHyphensClean(s: string)
    requires SoftHyphen !in s && NoSoftHyphenEntity(s)
    ensures StripSoftHyphens(s) == s
    decreases |s|
  {
    if s != [] {
      assert !ShyAt(s, 0) && !NumericShyAt(s, 0);
      forall i: nat | i < |s[1..]| ensures !ShyAt(s[1..], i) && !NumericShyAt(s[1..], i) {
        assert !ShyAt(s, i + 1) && !NumericShyAt(s, i + 1);
      }
      StripSoftHyphensClean(s[1..]);
      assert s == [s[0]] + s[1..];
    }
  }

  lemma {:induction false} JoinLineBreaksClean(s: string)
    requires '\r' !in s && '\n' !in s
    ensures JoinLineBreaks(s) == s
  {
    if s != [] {
      JoinLineBreaksClean(s[1..]);
      assert s == [s[0]] + s[1..];
    }
  }

  lemma {:induction false} CollapseWhitespaceClean(s: string)
    requires NoAdjacentWhitespace(s)
    ensures CollapseWhitespace(s) == s
  {
    if s != [] {
      assert NoAdjacentWhitespace(s[1..]) by {
        forall i | 0 <= i < |s[1..]| - 1 ensures !(IsWhitespace(s[1..][i]) && IsWhitespace(s[1..][i + 1])) {
          assert s[1..][i] == s[i + 1] && s[1..][i + 1] == s[i + 2];
        }
      }
      CollapseWhitespaceClean(s[1..]);
      if IsWhitespace(s[0]) {
        assert WhitespaceRun(s) == 1 by {
          assert |s| == 1 || !IsWhitespace(s[1]);
        }
      }
      assert s == [s[0]] + s[1..];
    }
  }

  lemma TrimTrimmed(s: string)
    requires IsTrimmed(s)
    ensures Trim(s) == s
  {
    if s != [] {
      assert TrimStart(s) == s;
      assert TrimEnd(s) == s;
    }
  }

  /** Clean text comes back from the sanitiser unchanged. Every result of the
      sanitiser is clean, except that it may still hold an entity spelling
      (see `SanitizeNotIdempotent`). */
  lemma SanitizeCleanIsIdentity(s: string)
    requires CleanStoredText(s)
    ensures SanitizeStoredText(s) == s
  {
    RemoveAbsentChar(s, ReplacementChar);
    StripSoftHyphensClean(s);
    RemoveAbsentChar(s, ZeroWidthSpace);
    JoinLineBreaksClean(s);
    CollapseWhitespaceClean(s);
    TrimTrimmed(s);
  }

  /** The replacement is a single left-to-right pass, so removing one entity
      can join the text around it into another: sanitising twice differs from
      sanitising once. */
  lemma SanitizeNotIdempotent()
    ensures SanitizeStoredText("&s&shy;hy;") == "&shy;"
    ensures SanitizeStoredText(SanitizeStoredText("&s&shy;hy;")) == ""
  {
    SanitizeJoinedEntity();
    SanitizeEntity();
  }

  lemma SanitizeJoinedEntity()
    ensures SanitizeStoredText("&s&shy;hy;") == "&shy;"
  {
    var s := "&s&shy;hy;";
    JoinedEntity();
    EntityTextClean();
    assert ReplacementChar !in s by {
      assert forall i :: 0 <= i < |s| ==> s[i] in "&shy;";
    }
    SanitizeAfterStrip(s);
  }

  /** The entity's own text has nothing the later passes would change. */
  lemma EntityTextClean()
    ensures var e := "&shy;";
      ZeroWidthSpace !in e && '\r' !in e && '\n' !in e && NoAdjacentWhitespace(e) &&
      !IsWhitespace(e[0]) && !IsWhitespace(e[|e| - 1]) && ReplacementChar !in e
  {
    var e := "&shy;";
    assert e == ['&', 's', 'h', 'y', ';'];
    assert NoAdjacentWhitespace(e) by {
      assert forall i :: 0 <= i < |e| ==> !IsWhitespace(e[i]);
    }
  }

  lemma SanitizeEntity()
    ensures SanitizeStoredText("&shy;") == ""
  {
    var e := "&shy;";
    assert ReplacementChar !in e;
    assert ShyAt(e, 0) && e[5..] == [];
    assert StripSoftHyphens(e) == "";
    SanitizeAfterStrip(e);
  }

  /** When only the soft-hyphen pass has anything to remove, the sanitiser
      returns what that pass returns. */
  lemma SanitizeAfterStrip(s: string)
    requires ReplacementChar !in s
    requires var e := StripSoftHyphens(s);
      ZeroWidthSpace !in e && '\r' !in e && '\n' !in e && NoAdjacentWhitespace(e) &&
      (e == [] || (!IsWhitespace(e[0]) && !IsWhitespace(e[|e| - 1])))
    ensures SanitizeStoredText(s) == StripSoftHyphens(s)
  {
    var e := StripSoftHyphens(s);
    RemoveAbsentChar(s, ReplacementChar);
    RemoveAbsentChar(e, ZeroWidthSpace);
    JoinLineBreaksClean(e);
    CollapseWhitespaceClean(e);
    TrimTrimmed(e);
  }

  /** Removing the entity in the middle of `&s&shy;hy;` joins its two ends
      into a new entity. */
  lemma JoinedEntity()
    ensures StripSoftHyphens("&s&shy;hy;") == "&shy;"
  {
    var t := "hy;";
    StripSoftHyphensClean(t);
    var a := "&shy;" + t;
    StripAfterShy(t);
    var b := ['s'] + a;
    StripAfterChar('s', a);
    assert b[0] == 's' && b[1] == '&';
    StripAfterChar('&', b);
    assert ['&'] + b == "&s&shy;hy;";
  }

  /** The named entity at the front is dropped. */
  lemma StripAfterShy(t: string)
    ensures StripSoftHyphens("&shy;" + t) == StripSoftHyphens(t)
  {
    var s := "&shy;" + t;
    assert ShyAt(s, 0) && s[5..] == t;
  }

  /** A first character that starts no entity, and is no soft hyphen, is kept. */
  lemma StripAfterChar(c: char, t: string)
    requires c != SoftHyphen
    requires !ShyAt([c] + t, 0) && !NumericShyAt([c] + t, 0)
    ensures StripSoftHyphens([c] + t) == [c] + StripSoftHyphens(t)
  {
    var s := [c] + t;
    assert s[1..] == t;
  }

  /** A stored `text` field: a string, or some other JSON value, of which only
      its JavaScript truthiness matters to the store. */
  datatype TextValue = Str(s: string) | NonString(truthy: bool)

  predicate Truthy(v: TextValue) {
    match v
    case Str(s) => s != []
    case NonString(t) => t
  }

  /** `sanitizeStoredText` on any stored value: non-strings come back unchanged. */
  function SanitizeStoredValue(v: TextValue): (r: TextValue)
    ensures !v.Str? ==> r == v
    ensures v.Str? ==> r.Str? && r.s == SanitizeStoredText(v.s)
  {
    match v
    case Str(s) => Str(SanitizeStoredText(s))
    case NonString(_) => v
  }

  // ---------------------------------------------------------------------------
  // escapeHtml

  /** The chained replacements of `escapeHtml`, `&` first, so that the
      ampersands they insert are not escaped again; done character by
      character this gives the same string. */
  function EscapeChar(c: char): (r: string)
    ensures '<' !in r && '>' !in r && '"' !in r && '\'' !in r
    ensures |r| >= 1
  {
    if c == '&' then "&amp;"
    else if c == '<' then "&lt;"
    else if c == '>' then "&gt;"
    else if c == '"' then "&quot;"
    else if c == '\'' then "&#039;"
    else [c]
  }

  /** `escapeHtml`; the empty string (JavaScript's falsy case) escapes to itself. */
  function EscapeHtml(s: string): (r: string)
    ensures '<' !in r && '>' !in r && '"' !in r && '\'' !in r
    ensures |r| >= |s|
  {
    if s == [] then [] else EscapeChar(s[0]) + EscapeHtml(s[1..])
  }

  predicate StartsWith(s: string, prefix: string) {
    |prefix| <= |s| && s[..|prefix|] == prefix
  }

  /** What a browser reads back from the escaped text: the five entities
      `escapeHtml` writes, decoded. */
  function UnescapeHtml(r: string): string
    decreases |r|
  {
    if r == [] then []
    else if StartsWith(r, "&amp;") then "&" + UnescapeHtml(r[5..])
    else if StartsWith(r, "&lt;") then "<" + UnescapeHtml(r[4..])
    else if StartsWith(r, "&gt;") then ">" + UnescapeHtml(r[4..])
    else if StartsWith(r, "&quot;") then "\"" + UnescapeHtml(r[6..])
    else if StartsWith(r, "&#039;") then "'" + UnescapeHtml(r[6..])
    else [r[0]] + UnescapeHtml(r[1..])
  }

  /** A character other than `&` is read back as itself. */
  lemma UnescapePlainChar(c: char, t: string)
    requires c != '&'
    ensures UnescapeHtml([c] + t) == [c] + UnescapeHtml(t)
  {
    var u := [c] + t;
    assert u[0] == c && u[1..] == t;
    assert !StartsWith(u, "&amp;");
    assert !StartsWith(u, "&lt;");
    assert !StartsWith(u, "&gt;");
    assert !StartsWith(u, "&quot;");
    assert !StartsWith(u, "&#039;");
  }

  /** Each of the five entities is read back as the character it stands
      for. */
  lemma UnescapeEntity(c: char, t: string)
    requires c == '&' || c == '<' || c == '>' || c == '"' || c == '\''
    ensures UnescapeHtml(EscapeChar(c) + t) == [c] + UnescapeHtml(t)
  {
    var e := EscapeChar(c);
    var u := e + t;
    assert u[..|e|] == e && u[|e|..] == t;
    if c == '&' {
      assert StartsWith(u, "&amp;");
    } else if c == '<' {
      UnescapeLt(u, t);
    } else if c == '>' {
      UnescapeGt(u, t);
    } else if c == '"' {
      UnescapeQuot(u, t);
    } else {
      UnescapeApos(u, t);
    }
  }

  lemma StartsWithConcat(p: string, t: string)
    ensures StartsWith(p + t, p) && (p + t)[|p|..] == t
  {
    assert (p + t)[..|p|] == p;
  }

  lemma UnescapeLt(u: string, t: string)
    requires u == "&lt;" + t
    ensures UnescapeHtml(u) == "<" + UnescapeHtml(t)
  {
    StartsWithConcat("&lt;", t);
    assert u[1] == 'l';
    assert !StartsWith(u, "&amp;") by { if |u| >= 5 { assert u[..5][1] != "&amp;"[1]; } }
  }

  lemma UnescapeGt(u: string, t: string)
    requires u == "&gt;" + t
    ensures UnescapeHtml(u) == ">" + UnescapeHtml(t)
  {
    StartsWithConcat("&gt;", t);
    assert u[1] == 'g';
    assert !StartsWith(u, "&amp;") by { if |u| >= 5 { assert u[..5][1] != "&amp;"[1]; } }
    assert !StartsWith(u, "&lt;") by { assert u[..4][1] != "&lt;"[1]; }
  }

  lemma UnescapeQuot(u: string, t: string)
    requires u == "&quot;" + t
    ensures UnescapeHtml(u) == "\"" + UnescapeHtml(t)
  {
    StartsWithConcat("&quot;", t);
    assert u[1] == 'q';
    assert !StartsWith(u, "&amp;") by { assert u[..5][1] != "&amp;"[1]; }
    assert !StartsWith(u, "&lt;") by { assert u[..4][1] != "&lt;"[1]; }
    assert !StartsWith(u, "&gt;") by { assert u[..4][1] != "&gt;"[1]; }
  }

  lemma UnescapeApos(u: string, t: string)
    requires u == "&#039;" + t
    ensures UnescapeHtml(u) == "'" + UnescapeHtml(t)
  {
    StartsWithConcat("&#039;", t);
    assert u[1] == '#';
    assert !StartsWith(u, "&amp;") by { assert u[..5][1] != "&amp;"[1]; }
    assert !StartsWith(u, "&lt;") by { assert u[..4][1] != "&lt;"[1]; }
    assert !StartsWith(u, "&gt;") by { assert u[..4][1] != "&gt;"[1]; }
    assert !StartsWith(u, "&quot;") by { assert u[..6][1] != "&quot;"[1]; }
  }

  lemma UnescapeEscapedChar(c: char, t: string)
    ensures UnescapeHtml(EscapeChar(c) + t) == [c] + UnescapeHtml(t)
  {
    if c == '&' || c == '<' || c == '>' || c == '"' || c == '\'' {
      UnescapeEntity(c, t);
    } else {
      UnescapePlainChar(c, t);
    }
  }

  /** Escaping loses nothing: the displayed text is the task text. */
  lemma {:induction false} UnescapeEscapeHtml(s: string)
    ensures UnescapeHtml(EscapeHtml(s)) == s
  {
    if s != [] {
      UnescapeEscapedChar(s[0], EscapeHtml(s[1..]));
      UnescapeEscapeHtml(s[1..]);
      assert [s[0]] + s[1..] == s;
    }
  }

  // ---------------------------------------------------------------------------
  // Line splitting of pasted and typed text

  /** `s.split('\n')`: the pieces between newlines, at least one. */
  function SplitLines(s: string): (r: seq<string>)
    ensures |r| >= 1
    ensures forall i :: 0 <= i < |r| ==> '\n' !in r[i]
  {
    if s == [] then [[]]
    else if s[0] == '\n' then [[]] + SplitLines(s[1..])
    else
      var rest := SplitLines(s[1..]);
      [[s[0]] + rest[0]] + rest[1..]
  }

  /** `lines.join('\n')` */
  function JoinLines(lines: seq<string>): string {
    if lines == [] then []
    else if |lines| == 1 then lines[0]
    else lines[0] + "\n" + JoinLines(lines[1..])
  }

  /** Splitting loses nothing: joining the pieces gives the text back. */
  lemma {:induction false} JoinSplitLines(s: string)
    ensures JoinLines(SplitLines(s)) == s
  {
    if s != [] {
      JoinSplitLines(s[1..]);
      var rest := SplitLines(s[1..]);
      if s[0] == '\n' {
        assert s == "\n" + s[1..];
      } else if |rest| == 1 {
        assert s == [s[0]] + s[1..];
      } else {
        assert rest == [rest[0]] + rest[1..];
        assert JoinLines(rest) == rest[0] + "\n" + JoinLines(rest[1..]);
        assert s == [s[0]] + s[1..];
      }
    }
  }
}
