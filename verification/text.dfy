/**
 * The string operations the pages rely on: zero padding of day and month
 * numbers, decimal rendering of integers, the two JavaScript number
 * parsers (`Number(text)` and `parseFloat(text)`) restricted to plain
 * decimal notation, ASCII lower-casing and substring search.
 */
module Text {
  import opened Wrappers
  import opened Types

  predicate IsDigit(c: char) {
    '0' <= c <= '9'
  }

  predicate AllDigits(s: string) {
    forall i :: 0 <= i < |s| ==> IsDigit(s[i])
  }

  function DigitChar(d: nat): (c: char)
    requires d < 10
    ensures IsDigit(c) && c as int - '0' as int == d
  {
    "0123456789"[d]
  }

  /** The value of a run of decimal digits, most significant digit first. */
  function DigitsValue(s: string): nat
    requires AllDigits(s)
  {
    if s == [] then 0
    else DigitsValue(s[..|s| - 1]) * 10 + (s[|s| - 1] as int - '0' as int)
  }

  lemma DigitsValueSnoc(s: string, c: char)
    requires AllDigits(s) && IsDigit(c)
    ensures AllDigits(s + [c])
    ensures DigitsValue(s + [c]) == DigitsValue(s) * 10 + (c as int - '0' as int)
  {
    assert (s + [c])[..|s|] == s;
  }

  /** `String(n)` for a natural number: its shortest decimal digits. */
  function NatToString(n: nat): (r: string)
    ensures 1 <= |r| && AllDigits(r)
    ensures DigitsValue(r) == n
    ensures |r| > 1 ==> r[0] != '0'
    ensures n < 10 <==> |r| == 1
    ensures n < 100 <==> |r| <= 2
  {
    if n < 10 then [DigitChar(n)]
    else
      var p := NatToString(n / 10);
      DigitsValueSnoc(p, DigitChar(n % 10));
      p + [DigitChar(n % 10)]
  }

  /** `String(i)` for an integer. */
  function IntToString(i: int): (r: string)
    ensures i >= 0 ==> r == NatToString(i)
    ensures i < 0 ==> r == "-" + NatToString(-i)
  {
    if i < 0 then "-" + NatToString(-i) else NatToString(i)
  }

  /** `String(n).padStart(2, '0')`. */
  function PadStart2(n: nat): (r: string)
    ensures AllDigits(r) && DigitsValue(r) == n
    ensures n < 100 <==> |r| == 2
  {
    if n < 10 then
      DigitsValueSnoc("0", DigitChar(n));
      "0" + [DigitChar(n)]
    else NatToString(n)
  }

  /** Padding is injective, so padded day and month keys never collide. */
  lemma PadStart2Injective(a: nat, b: nat)
    requires PadStart2(a) == PadStart2(b)
    ensures a == b
  {
  }

  predicate IsSpace(c: char) {
    c == ' ' || c == '\t' || c == '\n' || c == '\r'
  }

  function TrimStart(s: string): (r: string)
    ensures |r| <= |s| && r == s[|s| - |r|..]
    ensures |r| > 0 ==> !IsSpace(r[0])
  {
    if |s| > 0 && IsSpace(s[0]) then TrimStart(s[1..]) else s
  }

  function TrimEnd(s: string): (r: string)
    ensures |r| <= |s| && r == s[..|r|]
    ensures |r| > 0 ==> !IsSpace(r[|r| - 1])
  {
    if |s| > 0 && IsSpace(s[|s| - 1]) then TrimEnd(s[..|s| - 1]) else s
  }

  /** The length of the leading run of digits of `s`. */
  function SpanDigits(s: string): (n: nat)
    ensures n <= |s| && AllDigits(s[..n])
    ensures n < |s| ==> !IsDigit(s[n])
  {
    if |s| > 0 && IsDigit(s[0]) then
      var k := SpanDigits(s[1..]);
      assert s[..1 + k] == [s[0]] + s[1..][..k];
      1 + k
    else 0
  }

  function Pow10(k: nat): (r: nat)
    ensures r >= 1
  {
    if k == 0 then 1 else 10 * Pow10(k - 1)
  }

  /** The value written `ip.fp` in decimal notation. */
  function DecimalValue(ip: string, fp: string): (r: real)
    requires AllDigits(ip) && AllDigits(fp)
    ensures r >= 0.0
  {
    DigitsValue(ip) as real + DigitsValue(fp) as real / Pow10(|fp|) as real
  }

  /** Whether a leading '-' makes the number negative, and the text after the sign. */
  function SplitSign(t: string): (string, bool) {
    if |t| > 0 && (t[0] == '-' || t[0] == '+') then (t[1..], t[0] == '-') else (t, false)
  }

  function Signed(neg: bool, x: real): real {
    if neg then -x else x
  }

  /**
   * The unsigned decimal `digits [. digits]` spelled by the whole of `u`
   * (at least one digit), if `u` is one.
   */
  function UnsignedDecimal(u: string): Option<real> {
    var i := SpanDigits(u);
    if i == |u| then
      if i == 0 then None else Some(DigitsValue(u[..i]) as real)
    else if u[i] == '.' && AllDigits(u[i + 1..]) && |u| > 1 then
      Some(DecimalValue(u[..i], u[i + 1..]))
    else None
  }

  /**
   * `parseFloat(s)`: leading white space is skipped, then the longest
   * prefix of the form [sign] digits [. digits] with at least one digit is
   * read and the rest of the text is ignored; without a digit it is NaN.
   */
  function ParseFloat(s: string): Number {
    var (u, neg) := SplitSign(TrimStart(s));
    LeadingDecimal(u, neg)
  }

  /** The longest leading `digits [. digits]` of `u` (at least one digit), signed; else NaN. */
  function LeadingDecimal(u: string, neg: bool): Number {
    var i := SpanDigits(u);
    var fp := FractionDigits(u[i..]);
    if i + |fp| == 0 then NaN else Finite(Signed(neg, DecimalValue(u[..i], fp)))
  }

  /** The digits after a leading '.', if `rest` starts with one. */
  function FractionDigits(rest: string): (fp: string)
    ensures AllDigits(fp)
  {
    if |rest| > 0 && rest[0] == '.' then rest[1..][..SpanDigits(rest[1..])] else ""
  }

  /**
   * `Number(s)`: white space around the text is ignored, the empty text is
   * 0, and otherwise the whole text must be [sign] digits [. digits] with at
   * least one digit, or the result is NaN.
   */
  function ToNumber(s: string): Number {
    var t := TrimEnd(TrimStart(s));
    if t == [] then Finite(0.0) else SignedDecimal(t)
  }

  /** [sign] followed by an unsigned decimal spanning the rest of `t`, or NaN. */
  function SignedDecimal(t: string): Number {
    var (u, neg) := SplitSign(t);
    match UnsignedDecimal(u)
    case Some(x) => Finite(Signed(neg, x))
    case None => NaN
  }

  lemma UnsignedDecimalOfDigits(s: string)
    requires |s| > 0 && AllDigits(s)
    ensures UnsignedDecimal(s) == Some(DigitsValue(s) as real)
  {
    assert s[..SpanDigits(s)] == s;
  }

  lemma TrimOfDigits(s: string)
    requires |s| > 0 && AllDigits(s)
    ensures TrimEnd(TrimStart(s)) == s
  {
    var first, last := s[0], s[|s| - 1];
    assert IsDigit(first) && IsDigit(last);
    assert !IsSpace(first) && !IsSpace(last);
    assert TrimStart(s) == s;
    assert TrimEnd(s) == s;
  }

  lemma SignedDecimalOfDigits(s: string)
    requires |s| > 0 && AllDigits(s)
    ensures SignedDecimal(s) == Finite(DigitsValue(s) as real)
  {
    assert IsDigit(s[0]);
    assert SplitSign(s).0 == s && !SplitSign(s).1;
    UnsignedDecimalOfDigits(s);
  }

  /** `parseFloat` reads a plain digit string back as the value it spells. */
  lemma ParseFloatOfDigits(s: string)
    requires |s| > 0 && AllDigits(s)
    ensures ParseFloat(s) == Finite(DigitsValue(s) as real)
  {
    assert IsDigit(s[0]);
    assert TrimStart(s) == s;
    assert SplitSign(s).0 == s && !SplitSign(s).1;
    LeadingDecimalOfDigits(s);
  }

  lemma LeadingDecimalOfDigits(s: string)
    requires |s| > 0 && AllDigits(s)
    ensures LeadingDecimal(s, false) == Finite(DigitsValue(s) as real)
  {
    assert s[..SpanDigits(s)] == s;
    assert FractionDigits(s[SpanDigits(s)..]) == "";
  }

  /** `parseFloat` reads a one-decimal literal such as "1.5" as its value. */
  lemma ParseFloatOneDecimal(a: nat, b: nat)
    requires a < 10 && b < 10
    ensures ParseFloat([DigitChar(a), '.', DigitChar(b)]) == Finite(a as real + b as real / 10.0)
  {
    var s := [DigitChar(a), '.', DigitChar(b)];
    assert !IsSpace(s[0]) && IsDigit(s[0]);
    assert TrimStart(s) == s;
    assert SplitSign(s) == (s, false);
    SpanOneThenDot(a, b);
    assert s[1..] == ['.', DigitChar(b)] && s[..1] == [DigitChar(a)];
    FractionOne(b);
    DigitsValueOne(a);
    DigitsValueOne(b);
    assert Pow10(1) == 10;
    assert DecimalValue([DigitChar(a)], [DigitChar(b)]) == a as real + b as real / 10.0;
  }

  /** In `d.d` the digit run stops at the point. */
  lemma SpanOneThenDot(a: nat, b: nat)
    requires a < 10 && b < 10
    ensures SpanDigits([DigitChar(a), '.', DigitChar(b)]) == 1
  {
    var s := [DigitChar(a), '.', DigitChar(b)];
    assert s[1..][0] == '.';
  }

  /** The fraction digits of `.d` are the single digit. */
  lemma FractionOne(b: nat)
    requires b < 10
    ensures FractionDigits(['.', DigitChar(b)]) == [DigitChar(b)]
  {
    var r := ['.', DigitChar(b)];
    assert r[1..] == [DigitChar(b)];
    assert [DigitChar(b)][1..] == [];
    assert SpanDigits([DigitChar(b)]) == 1;
  }

  /** A single digit spells its own value. */
  lemma DigitsValueOne(d: nat)
    requires d < 10
    ensures DigitsValue([DigitChar(d)]) == d
  {
    assert [DigitChar(d)][..0] == [];
  }

  /** `Number` reads a plain digit string back as the value it spells. */
  lemma ToNumberOfDigits(s: string)
    requires |s| > 0 && AllDigits(s)
    ensures ToNumber(s) == Finite(DigitsValue(s) as real)
  {
    TrimOfDigits(s);
    SignedDecimalOfDigits(s);
  }

  /** `Number(String(n).padStart(2, '0'))` is `n`. */
  lemma ToNumberPadStart2(n: nat)
    ensures ToNumber(PadStart2(n)) == Finite(n as real)
  {
    ToNumberOfDigits(PadStart2(n));
  }

  /** Position of the first `c` in `s`. */
  function IndexOf(s: string, c: char): (i: nat)
    requires c in s
    ensures i < |s| && s[i] == c && c !in s[..i]
  {
    if s[0] == c then 0 else 1 + IndexOf(s[1..], c)
  }

  /** `s.split(c)` for a one-character separator. */
  function Split(s: string, c: char): (parts: seq<string>)
    ensures |parts| >= 1
    ensures forall i :: 0 <= i < |parts| ==> c !in parts[i]
    decreases |s|
  {
    if c !in s then [s]
    else
      var i := IndexOf(s, c);
      [s[..i]] + Split(s[i + 1..], c)
  }

  /** `parts.join(c)`. */
  function Join(parts: seq<string>, c: char): string
    requires |parts| >= 1
  {
    if |parts| == 1 then parts[0] else parts[0] + [c] + Join(parts[1..], c)
  }

  /** Joining the pieces of a split gives the text back. */
  lemma {:induction false} JoinSplit(s: string, c: char)
    ensures Join(Split(s, c), c) == s
    decreases |s|
  {
    if c in s {
      var i := IndexOf(s, c);
      JoinSplit(s[i + 1..], c);
      assert Split(s, c)[1..] == Split(s[i + 1..], c);
      assert s == s[..i] + [c] + s[i + 1..];
    }
  }

  /** Splitting a join of separator-free pieces gives the pieces back. */
  lemma {:induction false} SplitJoin(parts: seq<string>, c: char)
    requires |parts| >= 1
    requires forall i :: 0 <= i < |parts| ==> c !in parts[i]
    ensures Split(Join(parts, c), c) == parts
  {
    if |parts| > 1 {
      var s := Join(parts, c);
      var rest := Join(parts[1..], c);
      assert s == parts[0] + [c] + rest;
      SplitAfterFirst(parts[0], c, rest);
      SplitJoin(parts[1..], c);
      assert parts == [parts[0]] + parts[1..];
    } else {
      assert Join(parts, c) == parts[0];
    }
  }

  /** Splitting `a + [c] + rest`, with no `c` in `a`, gives `a` and then the pieces of `rest`. */
  lemma SplitAfterFirst(a: string, c: char, rest: string)
    requires c !in a
    ensures Split(a + [c] + rest, c) == [a] + Split(rest, c)
  {
    FirstSeparator(a, c, rest);
  }

  /** In `a + [c] + rest` with no `c` in `a`, the first `c` is the one after `a`. */
  lemma FirstSeparator(a: string, c: char, rest: string)
    requires c !in a
    ensures var s := a + [c] + rest;
            c in s && IndexOf(s, c) == |a| && s[..|a|] == a && s[|a| + 1..] == rest
  {
    var s := a + [c] + rest;
    assert s[|a|] == c;
    assert s[..|a|] == a;
    assert forall k :: 0 <= k < |a| ==> s[k] == a[k];
    assert forall j :: |a| < j <= |s| ==> s[..j][|a|] == c;
    assert s[|a| + 1..] == rest;
  }

  /** Joining three pieces puts the separator between each neighbouring pair. */
  lemma JoinThree(x: string, y: string, z: string, c: char)
    ensures Join([x, y, z], c) == x + [c] + y + [c] + z
  {
    var parts := [x, y, z];
    assert parts[1..] == [y, z] && [y, z][1..] == [z];
    assert Join([y, z], c) == y + [c] + z;
    assert Join(parts, c) == x + [c] + (y + [c] + z);
    assert x + [c] + (y + [c] + z) == x + [c] + y + [c] + z;
  }

  /** A non-digit character does not occur in a digit string. */
  lemma NotInDigits(s: string, c: char)
    requires AllDigits(s) && !IsDigit(c)
    ensures c !in s
  {
  }

  /**
   * The capitals Vietnamese text uses: the ASCII ones, those of Latin-1
   * (U+00C0 to U+00DE but the multiplication sign), Ă Đ Ĩ Ũ Ơ Ư, and the
   * even code points U+1EA0 to U+1EF8 (Ạ to Ỹ).
   */
  predicate IsUpper(c: char) {
    ('A' <= c <= 'Z') || ('\U{00C0}' <= c <= '\U{00DE}' && c != '\U{00D7}') ||
    c in {'\U{0102}', '\U{0110}', '\U{0128}', '\U{0168}', '\U{01A0}', '\U{01AF}'} ||
    ('\U{1EA0}' <= c <= '\U{1EF8}' && c as int % 2 == 0)
  }

  /**
   * `toLowerCase` on one character: a capital of `IsUpper` becomes its
   * small letter (32 code points on for ASCII and Latin-1, the next code
   * point for the others); any other character is kept.
   */
  function LowerChar(c: char): (r: char)
    ensures !IsUpper(c) ==> r == c
    ensures IsUpper(c) ==> r != c && !IsUpper(r)
    ensures IsUpper(c) && c as int < 0x100 ==> r as int == c as int + 32
    ensures IsUpper(c) && c as int >= 0x100 ==> r as int == c as int + 1
  {
    if 'A' <= c <= 'Z' || ('\U{00C0}' <= c <= '\U{00DE}' && c != '\U{00D7}') then (c as int + 32) as char
    else if IsUpper(c) then (c as int + 1) as char
    else c
  }

  /** `s.toLowerCase()` for the capitals of `IsUpper`. */
  function ToLower(s: string): (r: string)
    ensures |r| == |s|
    ensures forall i :: 0 <= i < |s| ==> r[i] == LowerChar(s[i])
  {
    if s == [] then [] else [LowerChar(s[0])] + ToLower(s[1..])
  }

  /** Lower-casing twice is lower-casing once. */
  lemma ToLowerIdempotent(s: string)
    ensures ToLower(ToLower(s)) == ToLower(s)
  {
    var r := ToLower(s);
    forall i | 0 <= i < |r| ensures ToLower(r)[i] == r[i] {
      assert !IsUpper(r[i]);
    }
  }

  /** `needle` occurs in `hay` starting at offset `i`. */
  predicate OccursAt(hay: string, needle: string, i: int) {
    0 <= i <= |hay| - |needle| && hay[i..i + |needle|] == needle
  }

  /** `hay.includes(needle)`: `needle` occurs in `hay` at some offset. */
  predicate Contains(hay: string, needle: string) {
    exists i | 0 <= i <= |hay| :: OccursAt(hay, needle, i)
  }

  /** Code-point order on strings, as text columns are compared. */
  predicate LexLe(a: string, b: string) {
    |a| == 0 || (|b| > 0 && (a[0] < b[0] || (a[0] == b[0] && LexLe(a[1..], b[1..]))))
  }

  /** A common prefix does not change the order. */
  lemma {:induction false} LexLeCommonPrefix(p: string, a: string, b: string)
    ensures LexLe(p + a, p + b) == LexLe(a, b)
  {
    if p != [] {
      assert (p + a)[0] == p[0] == (p + b)[0];
      assert (p + a)[1..] == p[1..] + a;
      assert (p + b)[1..] == p[1..] + b;
      LexLeCommonPrefix(p[1..], a, b);
    } else {
      assert p + a == a && p + b == b;
    }
  }

  /** Two different prefixes of the same length decide the order alone. */
  lemma {:induction false} LexLeDifferentPrefix(a: string, x: string, b: string, y: string)
    requires |a| == |b| && a != b
    ensures LexLe(a + x, b + y) == LexLe(a, b)
  {
    assert a != [];
    if a[0] == b[0] {
      assert a[1..] != b[1..] by {
        assert a == [a[0]] + a[1..] && b == [b[0]] + b[1..];
      }
      assert (a + x)[1..] == a[1..] + x;
      assert (b + y)[1..] == b[1..] + y;
      LexLeDifferentPrefix(a[1..], x, b[1..], y);
    }
  }

  lemma PadStart2Chars(n: nat)
    requires n < 100
    ensures PadStart2(n) == [DigitChar(n / 10), DigitChar(n % 10)]
  {
    if n >= 10 {
      assert NatToString(n / 10) == [DigitChar(n / 10)];
    }
  }

  /** Two-digit numbers compare as their tens digits, then their units digits. */
  lemma TwoDigitOrder(a: nat, b: nat)
    requires a < 100 && b < 100
    ensures a <= b <==> a / 10 < b / 10 || (a / 10 == b / 10 && a % 10 <= b % 10)
  {
    var qa, ra, qb, rb := a / 10, a % 10, b / 10, b % 10;
    assert a == 10 * qa + ra && b == 10 * qb + rb;
    if qa < qb {
      assert 10 * qa + 10 <= 10 * qb;
    } else if qb < qa {
      assert 10 * qb + 10 <= 10 * qa;
    }
  }

  /** Zero-padded numbers below 100 sort as the numbers do. */
  lemma LexLePadStart2(a: nat, b: nat)
    requires a < 100 && b < 100
    ensures LexLe(PadStart2(a), PadStart2(b)) <==> a <= b
  {
    PadStart2Chars(a);
    PadStart2Chars(b);
    TwoDigitOrder(a, b);
    var s, t := PadStart2(a), PadStart2(b);
    assert s[0] < t[0] <==> a / 10 < b / 10;
    assert s[0] == t[0] <==> a / 10 == b / 10;
    assert s[1] <= t[1] <==> a % 10 <= b % 10;
    assert LexLe(s[1..], t[1..]) <==> s[1] <= t[1] by {
      assert s[1..] == [s[1]] && t[1..] == [t[1]];
      assert [s[1]][1..] == [];
    }
  }
}
