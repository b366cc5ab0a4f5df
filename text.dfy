/** The few Python `str` operations the core relies on: `strip`, `lower`, `title`, `isdigit`,
    `split` on one character, and `int()` on text. */
module Text {
  import opened Results

  /** `str.isspace` for one character: the ASCII whitespace and separators and the Unicode spaces. */
  predicate IsSpace(c: char) {
    c == ' ' || ('\t' <= c <= '\r') || ('\U{1C}' <= c <= '\U{1F}')
    || c == '\U{85}' || c == '\U{A0}' || c == '\U{1680}' || ('\U{2000}' <= c <= '\U{200A}')
    || c == '\U{2028}' || c == '\U{2029}' || c == '\U{202F}' || c == '\U{205F}' || c == '\U{3000}'
  }

  /** `s.lstrip()`: drops the leading whitespace. */
  function LStrip(s: string): string {
    if s != [] && IsSpace(s[0]) then LStrip(s[1..]) else s
  }

  lemma {:induction false} LStripSpec(s: string)
    ensures var r := LStrip(s); |r| <= |s| && r == s[|s| - |r|..]
    ensures var r := LStrip(s); r == [] || !IsSpace(r[0])
    ensures var r := LStrip(s); forall i :: 0 <= i < |s| - |r| ==> IsSpace(s[i])
  {
    if s != [] && IsSpace(s[0]) {
      var t := s[1..];
      var r := LStrip(t);
      LStripSpec(t);
      assert t[|t| - |r|..] == s[|s| - |r|..];
      forall i | 0 <= i < |s| - |r| ensures IsSpace(s[i]) {
        if i > 0 {
          assert s[i] == t[i - 1];
        }
      }
    }
  }

  /** `s.rstrip()`: drops the trailing whitespace. */
  function RStrip(s: string): string {
    if s != [] && IsSpace(s[|s| - 1]) then RStrip(s[..|s| - 1]) else s
  }

  lemma {:induction false} RStripSpec(s: string)
    ensures var r := RStrip(s); |r| <= |s| && r == s[..|r|]
    ensures var r := RStrip(s); r == [] || !IsSpace(r[|r| - 1])
    ensures var r := RStrip(s); forall i :: |r| <= i < |s| ==> IsSpace(s[i])
  {
    if s != [] && IsSpace(s[|s| - 1]) {
      RStripSpec(s[..|s| - 1]);
    }
  }

  /** `s.strip()`. */
  function Strip(s: string): string {
    RStrip(LStrip(s))
  }

  /** The stripped text is empty exactly when `s` is blank (all whitespace), and otherwise
      neither starts nor ends with whitespace. */
  lemma StripSpec(s: string)
    ensures |Strip(s)| <= |s|
    ensures Strip(s) == [] <==> forall i :: 0 <= i < |s| ==> IsSpace(s[i])
    ensures Strip(s) != [] ==> !IsSpace(Strip(s)[0]) && !IsSpace(Strip(s)[|Strip(s)| - 1])
  {
    var l := LStrip(s);
    LStripSpec(s);
    RStripSpec(l);
    var r := RStrip(l);
    assert r == [] ==> l == [];
  }

  /** Python's "not blank": `s.strip()` is non-empty. */
  predicate IsBlank(s: string) {
    Strip(s) == []
  }

  /** Stripping twice is stripping once. */
  lemma StripIdempotent(s: string)
    ensures Strip(Strip(s)) == Strip(s)
  {
    var t := Strip(s);
    StripSpec(s);
    if t != [] {
      assert LStrip(t) == t;
      assert RStrip(t) == t;
    }
  }

  /** Some character of `s` is not whitespace: the same test as "not blank", stated without
      computing the stripped text. */
  predicate HasText(s: string) {
    exists i :: 0 <= i < |s| && !IsSpace(s[i])
  }

  lemma HasTextIffNotBlank(s: string)
    ensures HasText(s) <==> !IsBlank(s)
  {
    StripSpec(s);
  }

  /** Stripping a text that is not blank keeps it not blank, and a second strip changes
      nothing. */
  lemma StripKeepsText(s: string)
    requires HasText(s)
    ensures HasText(Strip(s)) && Strip(Strip(s)) == Strip(s)
  {
    StripIdempotent(s);
    StripSpec(s);
    var t := Strip(s);
    assert !IsSpace(t[0]);
  }

  predicate IsAsciiUpper(c: char) { 'A' <= c <= 'Z' }
  predicate IsAsciiLower(c: char) { 'a' <= c <= 'z' }
  predicate IsAsciiLetter(c: char) { IsAsciiUpper(c) || IsAsciiLower(c) }
  predicate IsAsciiDigit(c: char) { '0' <= c <= '9' }

  function LowerChar(c: char): char {
    if IsAsciiUpper(c) then (c as int + 32) as char else c
  }

  function UpperChar(c: char): char {
    if IsAsciiLower(c) then (c as int - 32) as char else c
  }

  /** `s.lower()` on the ASCII letters. */
  function Lower(s: string): (r: string)
    ensures |r| == |s|
    ensures forall i :: 0 <= i < |s| ==> r[i] == LowerChar(s[i])
  {
    if s == [] then [] else [LowerChar(s[0])] + Lower(s[1..])
  }

  /** Lower-cased text holds no upper-case ASCII letter. */
  lemma LowerHasNoUpper(s: string)
    ensures forall i :: 0 <= i < |Lower(s)| ==> !IsAsciiUpper(Lower(s)[i])
  {
    forall i | 0 <= i < |Lower(s)| ensures !IsAsciiUpper(Lower(s)[i]) {
      assert Lower(s)[i] == LowerChar(s[i]);
    }
  }

  /** Text without upper-case ASCII letters is its own lower case. */
  lemma LowerKeepsLowercase(s: string)
    requires forall i :: 0 <= i < |s| ==> !IsAsciiUpper(s[i])
    ensures Lower(s) == s
  {
  }

  /** `s.title()` from a position whose previous character was (`prevCased`) or was not a letter:
      the first letter of every run of letters is upper-cased, the others lower-cased. */
  function TitleFrom(s: string, prevCased: bool): (r: string)
    ensures |r| == |s|
  {
    if s == [] then []
    else [if prevCased then LowerChar(s[0]) else UpperChar(s[0])] + TitleFrom(s[1..], IsAsciiLetter(s[0]))
  }

  function Title(s: string): string {
    TitleFrom(s, false)
  }

  /** Title-casing keeps the letters and only changes their case, position by position. */
  lemma {:induction false} TitleKeepsLetters(s: string, prevCased: bool, i: nat)
    requires i < |s|
    ensures LowerChar(TitleFrom(s, prevCased)[i]) == LowerChar(s[i])
    ensures IsAsciiLetter(s[i]) && (i == 0 ==> !prevCased) && (i > 0 ==> !IsAsciiLetter(s[i - 1]))
            ==> IsAsciiUpper(TitleFrom(s, prevCased)[i])
  {
    if i > 0 {
      TitleKeepsLetters(s[1..], IsAsciiLetter(s[0]), i - 1);
    }
  }

  /** Unicode decimal digits (`\d` in a Python `str` pattern, and what `int()` reads):
      ASCII and the Arabic-Indic, Extended Arabic-Indic, Devanagari and full-width blocks. */
  predicate IsDecimalDigit(c: char) {
    IsAsciiDigit(c) || ('\U{660}' <= c <= '\U{669}') || ('\U{6F0}' <= c <= '\U{6F9}')
    || ('\U{966}' <= c <= '\U{96F}') || ('\U{FF10}' <= c <= '\U{FF19}')
  }

  /** The value of a decimal digit: its offset from the zero of its block. */
  function DigitValue(c: char): (v: int)
    requires IsDecimalDigit(c)
    ensures 0 <= v <= 9
  {
    if IsAsciiDigit(c) then c as int - '0' as int
    else if c <= '\U{669}' then c as int - 0x660
    else if c <= '\U{6F9}' then c as int - 0x6F0
    else if c <= '\U{96F}' then c as int - 0x966
    else c as int - 0xFF10
  }

  /** `str.isdigit` for one character: the decimal digits plus superscript, subscript and
      circled digits. */
  predicate IsDigitChar(c: char) {
    IsDecimalDigit(c) || c == '\U{B2}' || c == '\U{B3}' || c == '\U{B9}' || c == '\U{2070}'
    || ('\U{2074}' <= c <= '\U{2079}') || ('\U{2080}' <= c <= '\U{2089}') || ('\U{2460}' <= c <= '\U{2468}')
  }

  /** `s.isdigit()`: non-empty and every character a digit. */
  predicate IsDigitString(s: string) {
    s != [] && forall i :: 0 <= i < |s| ==> IsDigitChar(s[i])
  }

  /** `s.split(c)[0]`: the text before the first `c`, or all of `s` when there is none. */
  function BeforeFirst(s: string, c: char): (r: string)
    ensures r <= s && c !in r
    ensures |r| < |s| ==> s[|r|] == c
  {
    if s == [] || s[0] == c then [] else [s[0]] + BeforeFirst(s[1..], c)
  }

  /** `s.split(c)[-1]`: the text after the last `c`, or all of `s` when there is none. */
  function AfterLast(s: string, c: char): (r: string)
    ensures |r| <= |s| && r == s[|s| - |r|..] && c !in r
    ensures |r| < |s| ==> s[|s| - |r| - 1] == c
  {
    if s == [] || s[|s| - 1] == c then [] else AfterLast(s[..|s| - 1], c) + [s[|s| - 1]]
  }

  /** The text after the last `c` of `a`, `c`, `b` is `b` when `b` holds no `c`. */
  lemma {:induction false} AfterLastOfSuffix(a: string, c: char, b: string)
    requires c !in b
    ensures AfterLast(a + [c] + b, c) == b
  {
    var s := a + [c] + b;
    if b != [] {
      var b' := b[..|b| - 1];
      assert s[..|s| - 1] == a + [c] + b';
      AfterLastOfSuffix(a, c, b');
      assert b == b' + [b[|b| - 1]];
    }
  }

  /** Without any `c`, the text after the last `c` is all of it. */
  lemma {:induction false} AfterLastWithout(s: string, c: char)
    requires c !in s
    ensures AfterLast(s, c) == s
  {
    if s != [] {
      AfterLastWithout(s[..|s| - 1], c);
    }
  }

  /** Lower-casing brings in no '.' that was not there. */
  lemma LowerNoDot(s: string)
    requires '.' !in s
    ensures '.' !in Lower(s)
  {
    forall i | 0 <= i < |s| ensures Lower(s)[i] != '.' {
      assert s[i] != '.';
    }
  }

  /** Lower-casing works position by position, so it distributes over concatenation. */
  lemma LowerAppend(a: string, b: string)
    ensures Lower(a + b) == Lower(a) + Lower(b)
  {
  }

  /** What `int()` accepts after the sign: decimal digits, with single underscores between them. */
  predicate WellFormedDigits(s: string) {
    s != [] && IsDecimalDigit(s[0]) && IsDecimalDigit(s[|s| - 1]) && DigitsOrUnderscores(s)
    && NoDoubleUnderscore(s)
  }

  predicate NoDoubleUnderscore(s: string) {
    |s| < 2 || (!(s[0] == '_' && s[1] == '_') && NoDoubleUnderscore(s[1..]))
  }

  lemma {:induction false} DigitsHaveNoDoubleUnderscore(s: string)
    requires forall i :: 0 <= i < |s| ==> IsAsciiDigit(s[i])
    ensures NoDoubleUnderscore(s)
  {
    if |s| >= 2 {
      DigitsHaveNoDoubleUnderscore(s[1..]);
    }
  }

  predicate DigitsOrUnderscores(s: string) {
    forall i :: 0 <= i < |s| ==> IsDecimalDigit(s[i]) || s[i] == '_'
  }

  /** The number written by the digits of `s`, underscores ignored. */
  function DigitsValue(s: string): (n: nat)
    requires DigitsOrUnderscores(s)
  {
    if s == [] then 0
    else if s[|s| - 1] == '_' then DigitsValue(s[..|s| - 1])
    else DigitsValue(s[..|s| - 1]) * 10 + DigitValue(s[|s| - 1])
  }

  /** `int(s)` on a text: surrounding whitespace, an optional sign, then digits;
      `None` where Python raises `ValueError`. */
  function ParseInt(s: string): Option<int> {
    var t := Strip(s);
    if t != [] && (t[0] == '+' || t[0] == '-') then
      var body := t[1..];
      if WellFormedDigits(body) then Some(if t[0] == '-' then 0 - DigitsValue(body) else DigitsValue(body))
      else None
    else if WellFormedDigits(t) then Some(DigitsValue(t))
    else None
  }

  /** `str(n)` for a natural number. */
  function ShowNat(n: nat): (r: string)
    ensures r != [] && forall i :: 0 <= i < |r| ==> IsAsciiDigit(r[i])
  {
    if n < 10 then [('0' as int + n) as char]
    else ShowNat(n / 10) + [('0' as int + n % 10) as char]
  }

  lemma {:induction false} DigitsValueOfShowNat(n: nat)
    ensures DigitsValue(ShowNat(n)) == n
  {
    if n >= 10 {
      var s := ShowNat(n);
      DigitsValueOfShowNat(n / 10);
      assert s[..|s| - 1] == ShowNat(n / 10);
    }
  }

  /** A text that neither starts nor ends with whitespace strips to itself. */
  lemma StripUnpadded(s: string)
    requires s != [] && !IsSpace(s[0]) && !IsSpace(s[|s| - 1])
    ensures Strip(s) == s
  {
    assert LStrip(s) == s;
    assert RStrip(s) == s;
  }

  /** The digits `str` writes for a natural number are what `int()` reads, unpadded. */
  lemma ShowNatReadable(m: nat)
    ensures WellFormedDigits(ShowNat(m)) && Strip(ShowNat(m)) == ShowNat(m)
    ensures DigitsValue(ShowNat(m)) == m
  {
    var d := ShowNat(m);
    assert IsAsciiDigit(d[0]) && IsAsciiDigit(d[|d| - 1]);
    DigitsHaveNoDoubleUnderscore(d);
    StripUnpadded(d);
    DigitsValueOfShowNat(m);
  }

  /** `int(str(n)) == n` for every natural number: reading back what `str` wrote gives the number. */
  lemma ParseShowNat(n: nat)
    ensures ParseInt(ShowNat(n)) == Some(n)
  {
    var d := ShowNat(n);
    ShowNatReadable(n);
    assert IsAsciiDigit(d[0]);
  }

  /** Python's `a <= b` on text: lexicographic by code point, a prefix before its extensions. */
  predicate NameLe(a: string, b: string) {
    a == [] || (b != [] && (a[0] < b[0] || (a[0] == b[0] && NameLe(a[1..], b[1..]))))
  }

  lemma {:induction false} NameLeRefl(a: string)
    ensures NameLe(a, a)
  {
    if a != [] {
      NameLeRefl(a[1..]);
    }
  }

  lemma {:induction false} NameLeTotal(a: string, b: string)
    ensures NameLe(a, b) || NameLe(b, a)
  {
    if a != [] && b != [] && a[0] == b[0] {
      NameLeTotal(a[1..], b[1..]);
    }
  }

  lemma {:induction false} NameLeTrans(a: string, b: string, c: string)
    requires NameLe(a, b) && NameLe(b, c)
    ensures NameLe(a, c)
  {
    if a != [] && b != [] && c != [] && a[0] == b[0] && b[0] == c[0] {
      NameLeTrans(a[1..], b[1..], c[1..]);
    }
  }

  /** The least name of a non-empty table in code-point order: what `.first()` returns on a
      table ordered by name under a C collation. */
  function FirstByName(names: seq<string>): (r: string)
    requires names != []
    ensures r in names
    ensures forall n :: n in names ==> NameLe(r, n)
  {
    if |names| == 1 then NameLeRefl(names[0]); names[0]
    else
      var rest := FirstByName(names[1..]);
      NameLeTotal(names[0], rest);
      if NameLe(names[0], rest) then
        forall n | n in names[1..] ensures NameLe(names[0], n) {
          NameLeTrans(names[0], rest, n);
        }
        NameLeRefl(names[0]);
        assert names == [names[0]] + names[1..];
        names[0]
      else
        assert names == [names[0]] + names[1..];
        rest
  }
}
