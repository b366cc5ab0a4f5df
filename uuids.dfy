/** UUID values and their text: `str()` of a UUID, and the conversion a UUID field applies to a
    lookup value given as text (`uuid.UUID(hex=...)`, which in turn reads the digits with
    `int(..., 16)`). A UUID is its 128-bit number. */
module Uuids {
  import opened Results
  import opened Text

  function Pow16(n: nat): nat {
    if n == 0 then 1 else 16 * Pow16(n - 1)
  }

  /** One more than the largest UUID. */
  const UuidLimit: nat := Pow16(32)

  /** `s.replace(pat, '')`: every occurrence of `pat`, found left to right without overlap, removed. */
  function RemoveAll(s: string, pat: string): string
    requires pat != []
    decreases |s|
  {
    if |s| < |pat| then s
    else if s[..|pat|] == pat then RemoveAll(s[|pat|..], pat)
    else [s[0]] + RemoveAll(s[1..], pat)
  }

  /** `s.lstrip(cs)`. */
  function TrimStart(s: string, cs: set<char>): string {
    if s != [] && s[0] in cs then TrimStart(s[1..], cs) else s
  }

  /** `s.rstrip(cs)`. */
  function TrimEnd(s: string, cs: set<char>): string {
    if s != [] && s[|s| - 1] in cs then TrimEnd(s[..|s| - 1], cs) else s
  }

  /** `s.replace(c, '')` for one character. */
  function RemoveChar(s: string, c: char): string {
    if s == [] then [] else (if s[0] == c then [] else [s[0]]) + RemoveChar(s[1..], c)
  }

  /** A digit `int(..., 16)` reads: a decimal digit of any script, or a letter a-f in either case. */
  predicate IsHexDigit(c: char) {
    IsDecimalDigit(c) || 'a' <= c <= 'f' || 'A' <= c <= 'F'
  }

  function HexDigitValue(c: char): (v: nat)
    requires IsHexDigit(c)
    ensures v < 16
  {
    if IsDecimalDigit(c) then DigitValue(c)
    else if 'a' <= c <= 'f' then c as int - 'a' as int + 10
    else c as int - 'A' as int + 10
  }

  predicate HexOrUnderscores(s: string) {
    forall i :: 0 <= i < |s| ==> IsHexDigit(s[i]) || s[i] == '_'
  }

  /** Hex digits with single underscores between them. */
  predicate WellFormedHex(s: string) {
    s != [] && IsHexDigit(s[0]) && IsHexDigit(s[|s| - 1]) && HexOrUnderscores(s) && NoDoubleUnderscore(s)
  }

  /** The number the hex digits of `s` write, underscores ignored. */
  function HexValue(s: string): nat
    requires HexOrUnderscores(s)
  {
    if s == [] then 0
    else if s[|s| - 1] == '_' then HexValue(s[..|s| - 1])
    else HexValue(s[..|s| - 1]) * 16 + HexDigitValue(s[|s| - 1])
  }

  /** The digits after the sign: an optional `0x` or `0X` prefix, which one underscore may
      follow, then well-formed hex digits. */
  function HexBody(t: string): Option<nat> {
    if |t| >= 2 && t[0] == '0' && (t[1] == 'x' || t[1] == 'X') then
      var rest := if |t| >= 3 && t[2] == '_' then t[3..] else t[2..];
      if WellFormedHex(rest) then Some(HexValue(rest)) else None
    else if WellFormedHex(t) then Some(HexValue(t))
    else None
  }

  /** `int(s, 16)`: surrounding whitespace, an optional sign, then the digits; `None` where
      Python raises `ValueError`. */
  function ParseHex(s: string): Option<int> {
    var t := Strip(s);
    if t != [] && (t[0] == '+' || t[0] == '-') then
      match HexBody(t[1..])
      case None => None
      case Some(v) => Some(if t[0] == '-' then 0 - v else v)
    else match HexBody(t)
      case None => None
      case Some(v) => Some(v)
  }

  const Braces: set<char> := {'{', '}'}

  /** What the conversion keeps of a lookup value: "urn:" and "uuid:" removed, braces stripped
      from both ends, hyphens removed. */
  function UuidDigits(s: string): string {
    var a := RemoveAll(RemoveAll(s, "urn:"), "uuid:");
    RemoveChar(TrimEnd(TrimStart(a, Braces), Braces), '-')
  }

  /** The UUID a lookup value names: exactly 32 characters must remain of it, which
      `int(..., 16)` must read as a number below 2^128. `None` where the conversion raises. */
  function ParseUuid(s: string): (r: Option<nat>)
    ensures r.Some? ==> r.value < UuidLimit
  {
    var b := UuidDigits(s);
    if |b| != 32 then None
    else match ParseHex(b)
      case None => None
      case Some(v) => if 0 <= v < UuidLimit then Some(v) else None
  }

  predicate IsLowerHex(c: char) {
    '0' <= c <= '9' || 'a' <= c <= 'f'
  }

  function HexChar(d: nat): (c: char)
    requires d < 16
    ensures IsLowerHex(c) && IsHexDigit(c) && HexDigitValue(c) == d
  {
    if d < 10 then ('0' as int + d) as char else ('a' as int + d - 10) as char
  }

  /** The last `n` hex digits of `x`, lower case, most significant first. */
  function HexDigits(x: nat, n: nat): (r: string)
    ensures |r| == n && forall i :: 0 <= i < n ==> IsLowerHex(r[i])
  {
    if n == 0 then [] else HexDigits(x / 16, n - 1) + [HexChar(x % 16)]
  }

  /** `str(uuid)`: 32 lower-case hex digits in groups of 8, 4, 4, 4 and 12 joined by hyphens. */
  function UuidText(x: nat): string
    requires x < UuidLimit
  {
    var d := HexDigits(x, 32);
    d[..8] + "-" + d[8..12] + "-" + d[12..16] + "-" + d[16..20] + "-" + d[20..]
  }

  /** Writing `n` hex digits of a number below 16^n and reading them back gives the number. */
  lemma {:induction false} HexDigitsValue(x: nat, n: nat)
    requires x < Pow16(n)
    ensures HexOrUnderscores(HexDigits(x, n)) && HexValue(HexDigits(x, n)) == x
  {
    var d := HexDigits(x, n);
    if n > 0 {
      HexDigitsValue(x / 16, n - 1);
      assert d[..n - 1] == HexDigits(x / 16, n - 1);
    }
  }

  lemma {:induction false} RemoveCharAppend(a: string, b: string, c: char)
    ensures RemoveChar(a + b, c) == RemoveChar(a, c) + RemoveChar(b, c)
  {
    if a == [] {
      assert a + b == b;
    } else {
      var head: string := if a[0] == c then [] else [a[0]];
      RemoveCharAppend(a[1..], b, c);
      assert (a + b)[0] == a[0];
      assert (a + b)[1..] == a[1..] + b;
      assert RemoveChar(a + b, c) == head + RemoveChar(a[1..] + b, c);
      assert RemoveChar(a, c) == head + RemoveChar(a[1..], c);
    }
  }

  lemma {:induction false} RemoveCharAbsent(s: string, c: char)
    requires forall i :: 0 <= i < |s| ==> s[i] != c
    ensures RemoveChar(s, c) == s
  {
    if s != [] {
      RemoveCharAbsent(s[1..], c);
    }
  }

  /** Text without ':' holds no occurrence of a pattern that has one. */
  lemma {:induction false} RemoveAllAbsent(s: string, pat: string)
    requires pat != [] && ':' in pat
    requires forall i :: 0 <= i < |s| ==> s[i] != ':'
    ensures RemoveAll(s, pat) == s
  {
    if |s| >= |pat| {
      var j :| 0 <= j < |pat| && pat[j] == ':';
      assert s[..|pat|][j] == s[j];
      RemoveAllAbsent(s[1..], pat);
    }
  }

  lemma {:induction false} NoUnderscoreNoDouble(s: string)
    requires forall i :: 0 <= i < |s| ==> s[i] != '_'
    ensures NoDoubleUnderscore(s)
  {
    if |s| >= 2 {
      NoUnderscoreNoDouble(s[1..]);
    }
  }

  lemma HyphenJoin(p: string, q: string)
    ensures RemoveChar(p + "-" + q, '-') == RemoveChar(p, '-') + RemoveChar(q, '-')
  {
    var h := "-";
    assert RemoveChar(h, '-') == [] by {
      assert h[0] == '-' && h[1..] == [];
    }
    RemoveCharAppend(p, h, '-');
    RemoveCharAppend(p + h, q, '-');
    assert RemoveChar(p + h, '-') == RemoveChar(p, '-');
  }

  /** A UUID's text is 36 characters of lower-case hex digits and hyphens, starting and ending
      with a digit. */
  lemma UuidTextShape(x: nat)
    requires x < UuidLimit
    ensures var u := UuidText(x);
      |u| == 36 && IsLowerHex(u[0]) && IsLowerHex(u[35])
      && forall i :: 0 <= i < |u| ==> IsLowerHex(u[i]) || u[i] == '-'
  {
  }

  /** Removing the hyphens from 32 characters without one, grouped 8-4-4-4-12 with hyphens,
      gives the characters back. */
  lemma GroupsJoin(d: string)
    requires |d| == 32 && forall i :: 0 <= i < |d| ==> d[i] != '-'
    ensures RemoveChar(d[..8] + "-" + d[8..12] + "-" + d[12..16] + "-" + d[16..20] + "-" + d[20..], '-') == d
  {
    var g1, g2, g3, g4, g5 := d[..8], d[8..12], d[12..16], d[16..20], d[20..];
    var x1 := g1 + "-" + g2;
    var x2 := x1 + "-" + g3;
    var x3 := x2 + "-" + g4;
    HyphenJoin(g1, g2);
    HyphenJoin(x1, g3);
    HyphenJoin(x2, g4);
    HyphenJoin(x3, g5);
    RemoveCharAbsent(g1, '-');
    RemoveCharAbsent(g2, '-');
    RemoveCharAbsent(g3, '-');
    RemoveCharAbsent(g4, '-');
    RemoveCharAbsent(g5, '-');
    assert g1 + g2 == d[..12];
    assert RemoveChar(x1, '-') == d[..12];
    assert d[..12] + g3 == d[..16];
    assert RemoveChar(x2, '-') == d[..16];
    assert d[..16] + g4 == d[..20];
    assert RemoveChar(x3, '-') == d[..20];
    assert d[..20] + g5 == d;
  }

  /** Removing the hyphens of a UUID's text gives its 32 digits back. */
  lemma UuidTextDigits(x: nat)
    requires x < UuidLimit
    ensures RemoveChar(UuidText(x), '-') == HexDigits(x, 32)
  {
    var d := HexDigits(x, 32);
    assert forall i :: 0 <= i < |d| ==> d[i] != '-';
    GroupsJoin(d);
  }

  /** The 32 digits of a UUID read back, by `int(..., 16)`, as the UUID. */
  lemma HexDigitsParse(x: nat)
    requires x < UuidLimit
    ensures ParseHex(HexDigits(x, 32)) == Some(x)
  {
    var d := HexDigits(x, 32);
    StripUnpadded(d);
    HexDigitsValue(x, 32);
    NoUnderscoreNoDouble(d);
    assert WellFormedHex(d);
  }

  lemma UuidDigitsOfText(x: nat)
    requires x < UuidLimit
    ensures UuidDigits(UuidText(x)) == HexDigits(x, 32)
  {
    var u := UuidText(x);
    UuidTextShape(x);
    RemoveAllAbsent(u, "urn:");
    RemoveAllAbsent(u, "uuid:");
    assert TrimEnd(TrimStart(u, Braces), Braces) == u;
    UuidTextDigits(x);
  }

  lemma UuidDigitsOfBraced(x: nat)
    requires x < UuidLimit
    ensures UuidDigits("{" + UuidText(x) + "}") == HexDigits(x, 32)
  {
    var u := UuidText(x);
    var w := "{" + u + "}";
    UuidTextShape(x);
    assert forall i :: 0 <= i < |w| ==> w[i] != ':';
    RemoveAllAbsent(w, "urn:");
    RemoveAllAbsent(w, "uuid:");
    assert w[1..] == u + "}";
    assert TrimStart(w, Braces) == u + "}";
    assert (u + "}")[..|u|] == u;
    assert TrimEnd(u + "}", Braces) == u;
    UuidTextDigits(x);
  }

  /** The text of a UUID converts back to that UUID: `str()` and the field's conversion are
      inverse. So does the text in braces. */
  lemma UuidRoundTrip(x: nat)
    requires x < UuidLimit
    ensures ParseUuid(UuidText(x)) == Some(x)
    ensures ParseUuid("{" + UuidText(x) + "}") == Some(x)
  {
    UuidDigitsOfText(x);
    UuidDigitsOfBraced(x);
    HexDigitsParse(x);
  }

  /** A bare number is not a UUID: the conversion raises. */
  lemma NumberIsNoUuid()
    ensures ParseUuid("5") == None
    ensures ParseUuid("42") == None
  {
  }
}
