/**
  The string operations the search relies on: `toLowerCase`, `trim` and
  `includes`. Case folding covers the ASCII letters only.
 */
module Text {

  /** ASCII case folding of one character. */
  function LowerChar(c: char): (r: char)
    ensures 'A' <= c <= 'Z' ==> r as int == c as int + 32
    ensures !('A' <= c <= 'Z') ==> r == c
    ensures !('A' <= r <= 'Z')
  {
    if 'A' <= c <= 'Z' then (c as int + 32) as char else c
  }

  /** `toLowerCase` restricted to ASCII letters. */
  function Lower(s: string): (r: string)
    ensures |r| == |s|
    ensures forall i :: 0 <= i < |s| ==> r[i] == LowerChar(s[i])
    ensures forall c :: c in r ==> !('A' <= c <= 'Z')
  {
    seq(|s|, i requires 0 <= i < |s| => LowerChar(s[i]))
  }

  /** The characters `String.prototype.trim` strips: white space and line terminators. */
  predicate IsWhite(c: char)
  {
    || c == ' ' || c == '\t' || c == '\n' || c == '\r'
    || c == '\U{000B}' || c == '\U{000C}' || c == '\U{00A0}' || c == '\U{1680}'
    || ('\U{2000}' <= c <= '\U{200A}')
    || c == '\U{2028}' || c == '\U{2029}' || c == '\U{202F}' || c == '\U{205F}'
    || c == '\U{3000}' || c == '\U{FEFF}'
  }

  /** Every character of `s` is white space. */
  ghost predicate AllWhite(s: string)
  {
    forall k :: 0 <= k < |s| ==> IsWhite(s[k])
  }

  /** `r` is the infix of `s` at offset `i` and only white space surrounds it. */
  ghost predicate TrimmedAt(s: string, r: string, i: int)
  {
    0 <= i && i + |r| <= |s| && r == s[i..i + |r|] && AllWhite(s[..i]) && AllWhite(s[i + |r|..])
  }

  /** `trimStart`: the suffix left after the leading white space. */
  function TrimStart(s: string): (r: string)
    ensures |r| <= |s| && r == s[|s| - |r|..] && AllWhite(s[..|s| - |r|])
    ensures r != [] ==> !IsWhite(r[0])
  {
    if s == [] then s
    else if IsWhite(s[0]) then
      var r := TrimStart(s[1..]);
      assert s[..|s| - |r|] == [s[0]] + s[1..][..|s[1..]| - |r|];
      r
    else
      s
  }

  /** `trimEnd`: the prefix left before the trailing white space. */
  function TrimEnd(s: string): (r: string)
    ensures |r| <= |s| && r == s[..|r|] && AllWhite(s[|r|..])
    ensures r != [] ==> !IsWhite(r[|r| - 1])
  {
    if s == [] then s
    else if IsWhite(s[|s| - 1]) then
      var r := TrimEnd(s[..|s| - 1]);
      assert s[|r|..] == s[..|s| - 1][|r|..] + [s[|s| - 1]];
      r
    else
      s
  }

  /** Nothing is left of a string that is all white space. */
  lemma {:induction false} TrimStartAllWhite(s: string)
    requires AllWhite(s)
    ensures TrimStart(s) == []
  {
    if s != [] {
      assert AllWhite(s[1..]);
      TrimStartAllWhite(s[1..]);
    }
  }

  /**
    `trim`: the infix of `s` that neither starts nor ends with white space,
    with only white space cut off on either side.
   */
  function Trim(s: string): (r: string)
    ensures exists i :: TrimmedAt(s, r, i)
    ensures forall c :: c in r ==> c in s
    ensures r != [] ==> !IsWhite(r[0]) && !IsWhite(r[|r| - 1])
  {
    var t := TrimStart(s);
    var r := TrimEnd(t);
    var i := |s| - |t|;
    assert s[i + |r|..] == t[|r|..];
    assert TrimmedAt(s, r, i);
    r
  }

  /** `needle` occurs in `hay` starting at offset `i`. */
  ghost predicate OccursAt(needle: string, hay: string, i: int)
  {
    0 <= i && i + |needle| <= |hay| && hay[i..i + |needle|] == needle
  }

  /** `needle` occurs in `hay` at some offset. */
  ghost predicate IsInfix(needle: string, hay: string)
  {
    exists i :: OccursAt(needle, hay, i)
  }

  /** `hay.includes(needle)`. */
  function Includes(hay: string, needle: string): (r: bool)
    ensures r <==> IsInfix(needle, hay)
    decreases |hay|
  {
    if |needle| > |hay| then
      false
    else if hay[..|needle|] == needle then
      assert OccursAt(needle, hay, 0);
      true
    else
      var rest := Includes(hay[1..], needle);
      InfixOfTail(needle, hay);
      rest
  }

  /** An occurrence not at offset 0 is an occurrence in the tail, and back. */
  lemma InfixOfTail(needle: string, hay: string)
    requires |needle| <= |hay| && hay[..|needle|] != needle
    ensures IsInfix(needle, hay) <==> IsInfix(needle, hay[1..])
  {
    if IsInfix(needle, hay[1..]) {
      var i :| OccursAt(needle, hay[1..], i);
      assert hay[i + 1..i + 1 + |needle|] == hay[1..][i..i + |needle|];
      assert OccursAt(needle, hay, i + 1);
    }
    if IsInfix(needle, hay) {
      var i :| OccursAt(needle, hay, i);
      assert i != 0;
      assert hay[1..][i - 1..i - 1 + |needle|] == hay[i..i + |needle|];
      assert OccursAt(needle, hay[1..], i - 1);
    }
  }
}
