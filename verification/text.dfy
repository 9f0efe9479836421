/** The string operations the page script relies on: stripping a price text to
    its digits and reading the number (`parseInt(text.replace(/[^0-9]/g, ''))`),
    the Korean thousands grouping of `toLocaleString('ko-KR')`, `String.prototype.trim`
    and the lower-casing used in anchors and product ids. */
module Text {
  import opened Common

  predicate IsDigit(c: char) {
    '0' <= c <= '9'
  }

  predicate AllDigits(s: string) {
    forall i :: 0 <= i < |s| ==> IsDigit(s[i])
  }

  /** `s.replace(/[^0-9]/g, '')`: the digits of `s`, in their order. */
  function DigitsOnly(s: string): (r: string)
    ensures |r| <= |s|
    ensures AllDigits(r)
  {
    if s == [] then [] else (if IsDigit(s[0]) then [s[0]] else []) + DigitsOnly(s[1..])
  }

  /** Removing non-digits distributes over concatenation. */
  lemma {:induction false} DigitsOnlyAppend(a: string, b: string)
    ensures DigitsOnly(a + b) == DigitsOnly(a) + DigitsOnly(b)
  {
    if a == [] {
      assert a + b == b;
    } else {
      var head := if IsDigit(a[0]) then [a[0]] else [];
      assert (a + b)[0] == a[0] && (a + b)[1..] == a[1..] + b;
      assert DigitsOnly(a + b) == head + DigitsOnly(a[1..] + b);
      assert DigitsOnly(a) == head + DigitsOnly(a[1..]);
      DigitsOnlyAppend(a[1..], b);
    }
  }

  /** A string of digits passes through unchanged, so stripping twice is stripping once. */
  lemma {:induction false} DigitsOnlyOfDigits(s: string)
    requires AllDigits(s)
    ensures DigitsOnly(s) == s
  {
    if s != [] {
      DigitsOnlyOfDigits(s[1..]);
    }
  }

  /** A text none of whose characters is a digit strips to nothing. */
  lemma {:induction false} DigitsOnlyOfNonDigits(s: string)
    requires forall i :: 0 <= i < |s| ==> !IsDigit(s[i])
    ensures DigitsOnly(s) == []
  {
    if s != [] {
      DigitsOnlyOfNonDigits(s[1..]);
    }
  }

  function DigitValue(c: char): nat
    requires IsDigit(c)
  {
    (c as int) - ('0' as int)
  }

  function DigitChar(d: nat): (c: char)
    requires d < 10
    ensures IsDigit(c) && DigitValue(c) == d
  {
    ('0' as int + d) as char
  }

  /** The number a string of decimal digits denotes (most significant first). */
  function DecimalValue(s: string): nat
    requires AllDigits(s)
  {
    if s == [] then 0 else DecimalValue(s[..|s| - 1]) * 10 + DigitValue(s[|s| - 1])
  }

  /** `parseInt(text.replace(/[^0-9]/g, ''))`: `None` stands for the NaN that
      `parseInt('')` gives when the text holds no digit at all. */
  function PriceValue(text: string): (r: Option<nat>)
    ensures r.None? <==> DigitsOnly(text) == []
  {
    var digits := DigitsOnly(text);
    if digits == [] then None else Some(DecimalValue(digits))
  }

  /** The decimal numeral of `n`, without leading zeros. */
  function Decimal(n: nat): (s: string)
    ensures s != [] && AllDigits(s)
  {
    if n < 10 then [DigitChar(n)] else Decimal(n / 10) + [DigitChar(n % 10)]
  }

  /** Exactly three digits, with leading zeros: a group after a thousands separator. */
  function Pad3(r: nat): (s: string)
    requires r < 1000
    ensures |s| == 3 && AllDigits(s)
  {
    [DigitChar(r / 100), DigitChar(r / 10 % 10), DigitChar(r % 10)]
  }

  /** `n.toLocaleString('ko-KR')` for a non-negative integer: groups of three
      digits separated by commas. */
  function Grouped(n: nat): (s: string)
    ensures s != []
  {
    if n < 1000 then Decimal(n) else Grouped(n / 1000) + "," + Pad3(n % 1000)
  }

  /** A grouped numeral starts with a digit and holds only digits and separators. */
  lemma {:induction false} GroupedShape(n: nat)
    ensures IsDigit(Grouped(n)[0])
    ensures forall i :: 0 <= i < |Grouped(n)| ==> IsDigit(Grouped(n)[i]) || Grouped(n)[i] == ','
  {
    if n >= 1000 {
      GroupedShape(n / 1000);
      var h, p := Grouped(n / 1000), Pad3(n % 1000);
      assert Grouped(n) == h + [','] + p;
      forall i | 0 <= i < |Grouped(n)|
        ensures IsDigit(Grouped(n)[i]) || Grouped(n)[i] == ','
      {
        if i < |h| {
          assert Grouped(n)[i] == h[i];
        } else if i > |h| {
          assert Grouped(n)[i] == p[i - |h| - 1];
        }
      }
    }
  }

  /** A price as the page displays it: grouped digits followed by the won sign. */
  function FormatWon(n: nat): (s: string)
    ensures |s| >= 2 && IsDigit(s[0]) && s[|s| - 1] == '원'
    ensures forall i :: 0 <= i < |s| - 1 ==> IsDigit(s[i]) || s[i] == ','
  {
    GroupedShape(n);
    Grouped(n) + "원"
  }

  lemma DecimalValueSnoc(s: string, c: char)
    requires AllDigits(s) && IsDigit(c)
    ensures AllDigits(s + [c]) && DecimalValue(s + [c]) == DecimalValue(s) * 10 + DigitValue(c)
  {
    assert (s + [c])[..|s|] == s;
  }

  /** Reading back a numeral gives the number. */
  lemma {:induction false} DecimalRoundTrip(n: nat)
    ensures DecimalValue(Decimal(n)) == n
  {
    if n >= 10 {
      DecimalRoundTrip(n / 10);
      DecimalValueSnoc(Decimal(n / 10), DigitChar(n % 10));
    }
  }

  /** Appending a three-digit group multiplies by a thousand and adds the group. */
  lemma Pad3Value(s: string, r: nat)
    requires AllDigits(s) && r < 1000
    ensures AllDigits(s + Pad3(r)) && DecimalValue(s + Pad3(r)) == DecimalValue(s) * 1000 + r
  {
    var p := Pad3(r);
    DecimalValueSnoc(s, p[0]);
    DecimalValueSnoc(s + [p[0]], p[1]);
    DecimalValueSnoc(s + [p[0]] + [p[1]], p[2]);
    assert s + p == s + [p[0]] + [p[1]] + [p[2]];
  }

  /** Stripping the separators from a grouped numeral leaves digits denoting the same number. */
  lemma {:induction false} GroupedDigits(n: nat)
    ensures AllDigits(DigitsOnly(Grouped(n)))
    ensures DigitsOnly(Grouped(n)) != [] && DecimalValue(DigitsOnly(Grouped(n))) == n
  {
    if n < 1000 {
      DigitsOnlyOfDigits(Decimal(n));
      DecimalRoundTrip(n);
    } else {
      var head, tail := Grouped(n / 1000), Pad3(n % 1000);
      GroupedDigits(n / 1000);
      DigitsOnlyAppend(head + ",", tail);
      DigitsOnlyAppend(head, ",");
      DigitsOnlyOfDigits(tail);
      assert DigitsOnly(Grouped(n)) == DigitsOnly(head) + tail;
      Pad3Value(DigitsOnly(head), n % 1000);
    }
  }

  /** The price count-up's final frame reads back as the price it counted to:
      parsing a formatted price inverts the formatting. */
  lemma {:induction false} PriceRoundTrip(n: nat)
    ensures PriceValue(FormatWon(n)) == Some(n)
  {
    GroupedDigits(n);
    DigitsOnlyAppend(Grouped(n), "원");
    assert DigitsOnly("원") == [];
    assert DigitsOnly(FormatWon(n)) == DigitsOnly(Grouped(n));
  }

  /** The characters `String.prototype.trim` removes: ECMAScript WhiteSpace and
      LineTerminator code points. */
  predicate IsJsSpace(c: char) {
    c == '\t' || c == '\n' || c == '\U{B}' || c == '\U{C}' || c == '\r' || c == ' '
    || c == '\U{A0}' || c == '\U{1680}' || ('\U{2000}' <= c <= '\U{200A}')
    || c == '\U{2028}' || c == '\U{2029}' || c == '\U{202F}' || c == '\U{205F}'
    || c == '\U{3000}' || c == '\U{FEFF}'
  }

  /** Every character is white space (the empty string included). */
  predicate Blank(s: string) {
    forall i :: 0 <= i < |s| ==> IsJsSpace(s[i])
  }

  /** `s.trimStart()`. */
  function TrimStart(s: string): string {
    if s != [] && IsJsSpace(s[0]) then TrimStart(s[1..]) else s
  }

  /** `s.trimEnd()`. */
  function TrimEnd(s: string): string {
    if s != [] && IsJsSpace(s[|s| - 1]) then TrimEnd(s[..|s| - 1]) else s
  }

  /** `s.trim()`: leading and trailing white space removed. */
  function Trim(s: string): string {
    TrimEnd(TrimStart(s))
  }

  /** Trimming the start drops a blank prefix and stops at the first other character. */
  lemma {:induction false} TrimStartDropsBlankPrefix(s: string)
    ensures |TrimStart(s)| <= |s| && TrimStart(s) == s[|s| - |TrimStart(s)|..]
    ensures Blank(s[..|s| - |TrimStart(s)|])
    ensures TrimStart(s) == [] || !IsJsSpace(TrimStart(s)[0])
  {
    if s != [] && IsJsSpace(s[0]) {
      TrimStartDropsBlankPrefix(s[1..]);
      var r := TrimStart(s);
      assert s[..|s| - |r|] == [s[0]] + s[1..][..|s| - 1 - |r|];
    }
  }

  /** Trimming the end drops a blank suffix and stops at the last other character. */
  lemma {:induction false} TrimEndDropsBlankSuffix(s: string)
    ensures |TrimEnd(s)| <= |s| && TrimEnd(s) == s[..|TrimEnd(s)|]
    ensures Blank(s[|TrimEnd(s)|..])
    ensures TrimEnd(s) == [] || !IsJsSpace(TrimEnd(s)[|TrimEnd(s)| - 1])
  {
    if s != [] && IsJsSpace(s[|s| - 1]) {
      var t := s[..|s| - 1];
      TrimEndDropsBlankSuffix(t);
      var r := TrimEnd(s);
      assert s[|r|..] == t[|r|..] + [s[|s| - 1]];
    }
  }

  /** The trimmed value is empty exactly when the value is all white space
      (which is when `!value.trim()` holds). */
  lemma TrimEmptyIffBlank(s: string)
    ensures Trim(s) == [] <==> Blank(s)
  {
    var t := TrimStart(s);
    TrimStartDropsBlankPrefix(s);
    TrimEndDropsBlankSuffix(t);
    if Trim(s) == [] {
      assert Blank(t[0..]);
      assert s == s[..|s| - |t|] + t;
    } else {
      var r := Trim(s);
      assert !IsJsSpace(r[0]);
      assert r[0] == t[0] == s[|s| - |t|];
    }
  }

  /** `toLowerCase` on the ASCII capitals; every other character is kept. */
  function LowerAscii(s: string): (r: string)
    ensures |r| == |s|
    ensures forall i :: 0 <= i < |s| ==> r[i] == (if 'A' <= s[i] <= 'Z' then (s[i] as int + 32) as char else s[i])
  {
    if s == [] then [] else
      [if 'A' <= s[0] <= 'Z' then (s[0] as int + 32) as char else s[0]] + LowerAscii(s[1..])
  }
}
