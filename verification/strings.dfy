/** Character and string helpers of the browser runtime that the catalog relies
    on: ASCII lower-casing (`toLowerCase`), substring search (`includes`) and the
    global `parseInt` used to read the upload limit out of the settings. */
module Strings {

  datatype Option<T> = None | Some(value: T)

  /** `toLowerCase` on one character, for the ASCII letters. */
  function LowerChar(c: char): char
  {
    if 'A' <= c <= 'Z' then (c as int + 32) as char else c
  }

  predicate IsLowerCase(s: string)
  {
    forall i :: 0 <= i < |s| ==> !('A' <= s[i] <= 'Z')
  }

  /** `s.toLowerCase()`: the result holds no upper-case ASCII letter, keeps
      every other character where it was, and leaves lower-case text alone. */
  function Lower(s: string): (r: string)
    ensures |r| == |s|
  {
    if s == [] then []
    else Lower(s[..|s| - 1]) + [LowerChar(s[|s| - 1])]
  }

  /** Lower-casing works character by character. */
  lemma {:induction false} LowerPointwise(s: string)
    ensures forall i :: 0 <= i < |s| ==> Lower(s)[i] == LowerChar(s[i])
  {
    if s != [] {
      var init := s[..|s| - 1];
      LowerPointwise(init);
      assert Lower(s) == Lower(init) + [LowerChar(s[|s| - 1])];
    }
  }

  /** Lower-casing turns each upper-case ASCII letter into its lower-case
      partner (32 code points on), keeps every other character where it was,
      and so leaves no upper-case letter and lower-case text alone. */
  lemma LowerSpec(s: string)
    ensures forall i :: 0 <= i < |s| && 'A' <= s[i] <= 'Z' ==> Lower(s)[i] as int == s[i] as int + 32
    ensures IsLowerCase(Lower(s))
    ensures forall i :: 0 <= i < |s| && !('A' <= s[i] <= 'Z') ==> Lower(s)[i] == s[i]
    ensures IsLowerCase(s) ==> Lower(s) == s
  {
    LowerPointwise(s);
    var r := Lower(s);
    forall i | 0 <= i < |s|
      ensures !('A' <= r[i] <= 'Z')
      ensures !('A' <= s[i] <= 'Z') ==> r[i] == s[i]
    {
      assert r[i] == LowerChar(s[i]);
    }
    if IsLowerCase(s) {
      assert r == s;
    }
  }

  /** `q` sits in `s` starting at position `i`. */
  predicate OccursAt(s: string, q: string, i: nat)
  {
    i + |q| <= |s| && s[i..i + |q|] == q
  }

  /** `s.includes(q)`, scanning `s` from the left; the empty query is found
      everywhere. */
  function Contains(s: string, q: string): bool
    decreases |s|
  {
    q <= s || (s != [] && Contains(s[1..], q))
  }

  /** An occurrence in the tail is an occurrence one place further on. */
  lemma OccursInTail(s: string, q: string, i: nat)
    requires s != []
    ensures OccursAt(s[1..], q, i) <==> OccursAt(s, q, i + 1)
  {
    if i + 1 + |q| <= |s| {
      assert s[1..][i..i + |q|] == s[i + 1..i + 1 + |q|];
    }
  }

  /** `Contains` finds exactly the queries that occur somewhere in `s`. */
  lemma {:induction false} ContainsIff(s: string, q: string)
    ensures Contains(s, q) <==> exists i: nat :: OccursAt(s, q, i)
    decreases |s|
  {
    if q <= s {
      assert OccursAt(s, q, 0);
    } else if s != [] {
      ContainsIff(s[1..], q);
      if Contains(s[1..], q) {
        var i: nat :| OccursAt(s[1..], q, i);
        OccursInTail(s, q, i);
      } else {
        forall i: nat | OccursAt(s, q, i) ensures false {
          if i > 0 {
            OccursInTail(s, q, i - 1);
          }
        }
      }
    }
  }

  /** The characters `parseInt` skips before the number: the white space and
      line terminators of ECMA-262 (section 7.2 and 7.3 of ECMAScript). */
  predicate IsJsWhitespace(c: char)
  {
    c == '\t' || c == '\n' || c == '\U{B}' || c == '\U{C}' || c == '\r' || c == ' '
    || c == '\U{A0}' || c == '\U{1680}' || ('\U{2000}' <= c <= '\U{200A}')
    || c == '\U{2028}' || c == '\U{2029}' || c == '\U{202F}' || c == '\U{205F}'
    || c == '\U{3000}' || c == '\U{FEFF}'
  }

  /** The text with its leading white space removed. */
  function TrimStart(s: string): (r: string)
    ensures |r| <= |s| && r == s[|s| - |r|..]
    ensures r == [] || !IsJsWhitespace(r[0])
    ensures forall i :: 0 <= i < |s| - |r| ==> IsJsWhitespace(s[i])
  {
    if s != [] && IsJsWhitespace(s[0]) then TrimStart(s[1..]) else s
  }

  /** Value of a digit character in radix 36 ('0'..'9', then 'a'..'z' in
      either case); characters that are no digit have none. */
  function DigitValue(c: char): Option<nat>
  {
    if '0' <= c <= '9' then Some(c as int - '0' as int)
    else if 'a' <= c <= 'z' then Some(c as int - 'a' as int + 10)
    else if 'A' <= c <= 'Z' then Some(c as int - 'A' as int + 10)
    else None
  }

  predicate IsDigitIn(c: char, radix: nat)
  {
    DigitValue(c).Some? && DigitValue(c).value < radix
  }

  /** Reads the longest run of radix digits at the front of `s`, continuing
      the number `acc` already read. */
  function ReadDigits(s: string, radix: nat, acc: nat): nat
  {
    if s != [] && IsDigitIn(s[0], radix)
    then ReadDigits(s[1..], radix, acc * radix + DigitValue(s[0]).value)
    else acc
  }

  /** The global `parseInt(s)` without a radix argument: skip leading white
      space, take one optional sign, read hexadecimal after `0x`/`0X` and
      decimal otherwise; `None` stands for NaN, the result when no digit
      follows. */
  function ParseInt(s: string): Option<int>
  {
    var t := TrimStart(s);
    var negative := t != [] && t[0] == '-';
    var u := if t != [] && (t[0] == '-' || t[0] == '+') then t[1..] else t;
    var hex := |u| >= 2 && u[0] == '0' && (u[1] == 'x' || u[1] == 'X');
    var radix := if hex then 16 else 10;
    var digits := if hex then u[2..] else u;
    if digits == [] || !IsDigitIn(digits[0], radix) then None
    else
      var n: int := ReadDigits(digits, radix, 0);
      Some(if negative then -n else n)
  }

  /** The decimal numeral of `n`, as a number input field renders it. */
  function DecimalText(n: nat): (r: string)
    ensures r != [] && forall i :: 0 <= i < |r| ==> '0' <= r[i] <= '9'
    ensures |r| > 1 ==> r[0] != '0'
  {
    var d := ['0' + (n % 10) as char];
    if n < 10 then d else DecimalText(n / 10) + d
  }

  /** Reading a run of digits followed by more text is reading the run and
      then carrying on with the rest. */
  lemma {:induction false} ReadDigitsAppend(a: string, b: string, radix: nat, acc: nat)
    requires forall i :: 0 <= i < |a| ==> IsDigitIn(a[i], radix)
    ensures ReadDigits(a + b, radix, acc) == ReadDigits(b, radix, ReadDigits(a, radix, acc))
  {
    if a != [] {
      assert (a + b)[1..] == a[1..] + b;
      ReadDigitsAppend(a[1..], b, radix, acc * radix + DigitValue(a[0]).value);
    } else {
      assert a + b == b;
    }
  }

  /** Reading the decimal numeral of `n` gives back `n`. */
  lemma {:induction false} ReadDecimalText(n: nat)
    ensures ReadDigits(DecimalText(n), 10, 0) == n
  {
    var d := ['0' + (n % 10) as char];
    assert DigitValue(d[0]) == Some(n % 10);
    if n >= 10 {
      ReadDecimalText(n / 10);
      ReadDigitsAppend(DecimalText(n / 10), d, 10, 0);
      assert d[1..] == [];
    }
  }

  /** A text that starts with a decimal digit, and not with "0x" or "0X",
      is read as the decimal number at its front. */
  lemma ParseIntOfDigits(s: string)
    requires s != [] && '0' <= s[0] <= '9'
    requires !(|s| >= 2 && s[0] == '0' && (s[1] == 'x' || s[1] == 'X'))
    ensures ParseInt(s) == Some(ReadDigits(s, 10, 0))
  {
    assert !IsJsWhitespace(s[0]);
    assert TrimStart(s) == s;
  }

  /** `parseInt` reads back the numeral of a natural number followed by a
      unit suffix ("100 MB", "100MB"), which is how the settings form stores
      the upload limit. The suffix must not carry on the numeral: it may not
      start with a decimal digit, nor turn a lone "0" into the hexadecimal
      prefix "0x". */
  lemma {:induction false} ParseIntOfNumeral(n: nat, suffix: string)
    requires suffix == [] || !('0' <= suffix[0] <= '9')
    requires !(n == 0 && suffix != [] && (suffix[0] == 'x' || suffix[0] == 'X'))
    ensures ParseInt(DecimalText(n) + suffix) == Some(n)
  {
    var d := DecimalText(n);
    var s := d + suffix;
    assert s[0] == d[0];
    if |s| >= 2 && s[0] == '0' {
      assert |d| == 1;
      assert n < 10 && n % 10 == 0;
      assert s[1] == suffix[0];
    }
    ParseIntOfDigits(s);
    DecimalTextIsDigits(n);
    ReadDigitsAppend(d, suffix, 10, 0);
    ReadDecimalText(n);
    assert suffix == [] || !IsDigitIn(suffix[0], 10);
    assert ReadDigits(suffix, 10, n) == n;
  }

  lemma DecimalTextIsDigits(n: nat)
    ensures forall i :: 0 <= i < |DecimalText(n)| ==> IsDigitIn(DecimalText(n)[i], 10)
  {
    var d := DecimalText(n);
    forall i | 0 <= i < |d| ensures IsDigitIn(d[i], 10) {
      assert '0' <= d[i] <= '9';
    }
  }
}
