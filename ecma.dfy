/**
 * The JavaScript built-ins that the list page, the URL helper and the favourites
 * components call, stated as functions: numbers restricted to the values this
 * program produces, `parseInt`, `Number(...)`, `toString`, `toLowerCase`,
 * `includes`, `Array.prototype.slice`, `Math.ceil` of a division, `Math.min`/`Math.max`
 * and the relational operators (ECMAScript 2024, sections 21.1, 22.1 and 23.1).
 */
module Ecma {

  import opened Wrappers

  /**
   * A JavaScript number as it occurs here: an integer, NaN, or positive Infinity
   * (the page count when the page size is 0). `-0` is `Int(0)`.
   */
  datatype Number = Int(v: int) | NaN | Infinity

  /** `a === b`: NaN equals nothing, not even itself. */
  predicate StrictEquals(a: Number, b: Number) {
    match (a, b)
    case (Int(x), Int(y)) => x == y
    case (Infinity, Infinity) => true
    case _ => false
  }

  /** `a <= b`: false whenever either side is NaN. */
  predicate LessEq(a: Number, b: Number) {
    match (a, b)
    case (Int(x), Int(y)) => x <= y
    case (Int(_), Infinity) => true
    case (Infinity, Infinity) => true
    case _ => false
  }

  /** `a > b`: false whenever either side is NaN. */
  predicate Greater(a: Number, b: Number) {
    match (a, b)
    case (Int(x), Int(y)) => x > y
    case (Infinity, Int(_)) => true
    case _ => false
  }

  /** `Math.min(a, b)` */
  function Min(a: Number, b: Number): Number {
    if a == NaN || b == NaN then NaN else if LessEq(a, b) then a else b
  }

  /** `Math.max(a, b)` */
  function Max(a: Number, b: Number): Number {
    if a == NaN || b == NaN then NaN else if LessEq(a, b) then b else a
  }

  /** `a + k` for an integer `k` */
  function Plus(a: Number, k: int): Number {
    match a
    case Int(x) => Int(x + k)
    case NaN => NaN
    case Infinity => Infinity
  }

  /** `a * b` for two numbers that `parseInt` produced, so neither is Infinity. */
  function Times(a: Number, b: Number): Number
    requires a != Infinity && b != Infinity
  {
    if a.Int? && b.Int? then Int(a.v * b.v) else NaN
  }

  /** `Math.ceil(count / size)` for a non-negative integer `count` */
  function CeilDiv(count: nat, size: Number): Number {
    match size
    case NaN => NaN
    case Infinity => Int(0)
    case Int(k) =>
      if k > 0 then Int((count + k - 1) / k)
      else if k < 0 then Int(-(count / -k))
      else if count == 0 then NaN
      else Infinity
  }

  /** The index `slice` derives from one argument: NaN counts as 0, negatives count from the end. */
  function RelativeIndex(x: Number, len: nat): (r: nat)
    ensures r <= len
  {
    match x
    case NaN => 0
    case Infinity => len
    case Int(v) =>
      if v < 0 then (if len + v < 0 then 0 else len + v)
      else if v < len then v
      else len
  }

  /** `s.slice(start, end)` */
  function Slice<T>(s: seq<T>, start: Number, end: Number): seq<T> {
    var from := RelativeIndex(start, |s|);
    var to := RelativeIndex(end, |s|);
    if from < to then s[from..to] else []
  }

  // ---------------------------------------------------------------------------
  // Strings

  /** ECMAScript WhiteSpace or LineTerminator, the characters `parseInt` and `Number` skip. */
  predicate IsWhiteSpace(c: char) {
    var n := c as int;
    n == 0x09 || n == 0x0A || n == 0x0B || n == 0x0C || n == 0x0D || n == 0x20
    || n == 0xA0 || n == 0x1680 || (0x2000 <= n <= 0x200A) || n == 0x2028 || n == 0x2029
    || n == 0x202F || n == 0x205F || n == 0x3000 || n == 0xFEFF
  }

  function TrimStart(s: string): (r: string)
    ensures r == [] || !IsWhiteSpace(r[0])
    ensures |r| <= |s| && r == s[|s| - |r|..]
  {
    if s != [] && IsWhiteSpace(s[0]) then TrimStart(s[1..]) else s
  }

  function TrimEnd(s: string): (r: string)
    ensures r == [] || !IsWhiteSpace(r[|r| - 1])
    ensures |r| <= |s| && r == s[..|r|]
  {
    if s != [] && IsWhiteSpace(s[|s| - 1]) then TrimEnd(s[..|s| - 1]) else s
  }

  /** The digit value of `c` in bases up to 36, or 36 when `c` is no digit at all. */
  function DigitValue(c: char): (d: nat)
    ensures d <= 36
  {
    if '0' <= c <= '9' then c as int - '0' as int
    else if 'a' <= c <= 'z' then c as int - 'a' as int + 10
    else if 'A' <= c <= 'Z' then c as int - 'A' as int + 10
    else 36
  }

  /** The length of the longest prefix of `s` made of digits of base `radix`. */
  function DigitPrefixLength(s: string, radix: nat): (n: nat)
    ensures n <= |s|
    ensures forall i :: 0 <= i < n ==> DigitValue(s[i]) < radix
    ensures n < |s| ==> DigitValue(s[n]) >= radix
  {
    if s == [] || DigitValue(s[0]) >= radix then 0
    else 1 + DigitPrefixLength(s[1..], radix)
  }

  /** The value of a string of digits of base `radix`, most significant first. */
  function DigitsValue(ds: string, radix: nat): nat {
    if ds == [] then 0
    else DigitsValue(ds[..|ds| - 1], radix) * radix + DigitValue(ds[|ds| - 1])
  }

  /**
   * The unsigned part of `parseInt`: base 16 after a `0x`/`0X` prefix, base 10
   * otherwise, and the longest run of digits of that base; None when the run is empty.
   */
  function ParseUnsigned(u: string): Option<nat> {
    var hex := |u| >= 2 && u[0] == '0' && (u[1] == 'x' || u[1] == 'X');
    var radix := if hex then 16 else 10;
    var digits := if hex then u[2..] else u;
    var n := DigitPrefixLength(digits, radix);
    if n == 0 then None else Some(DigitsValue(digits[..n], radix))
  }

  /**
   * `parseInt(s)` without a radix: skip leading white space, read an optional sign,
   * then the unsigned part; NaN when it has no digits. The digits are read as an
   * unbounded integer, so the model never yields Infinity; JavaScript's rounding of
   * long digit runs to a double, and their overflow to Infinity, are not modelled.
   */
  function ParseInt(s: string): (r: Number)
    ensures r != Infinity
  {
    var t := TrimStart(s);
    var signed := t != [] && (t[0] == '-' || t[0] == '+');
    match ParseUnsigned(if signed then t[1..] else t)
    case None => NaN
    case Some(m) => Int(if signed && t[0] == '-' then 0 - m else m)
  }

  /** All of `ds` is made of digits of base `radix`, and there is at least one. */
  predicate AllDigits(ds: string, radix: nat) {
    ds != [] && DigitPrefixLength(ds, radix) == |ds|
  }

  /**
   * `Number(s)` for a string: white space around the literal is ignored, the empty
   * string is 0, and a signed run of decimal digits, a `0x`/`0o`/`0b` literal or
   * `Infinity` is read; anything else is NaN.
   */
  function StringToNumber(s: string): Number {
    var t := TrimEnd(TrimStart(s));
    if t == "" then Int(0)
    else if t == "Infinity" || t == "+Infinity" then Infinity
    else if |t| >= 2 && t[0] == '0' && t[1] in "xXoObB" then
      var radix := if t[1] in "xX" then 16 else if t[1] in "oO" then 8 else 2;
      if AllDigits(t[2..], radix) then Int(DigitsValue(t[2..], radix)) else NaN
    else
      var ds := if t[0] == '-' || t[0] == '+' then t[1..] else t;
      if !AllDigits(ds, 10) then NaN
      else if t[0] == '-' then Int(0 - DigitsValue(ds, 10))
      else Int(DigitsValue(ds, 10))
  }

  function DigitChar(d: nat): char
    requires d < 10
  {
    ('0' as int + d) as char
  }

  /** The decimal digits of `n`, without leading zeros. */
  function DecimalDigits(n: nat): (r: string)
    ensures |r| >= 1
  {
    if n < 10 then [DigitChar(n)] else DecimalDigits(n / 10) + [DigitChar(n % 10)]
  }

  /** `x.toString()` for a number, always in plain decimal (JavaScript's exponent form from 1e21 on is not modelled). */
  function NumberToText(x: Number): string {
    match x
    case Int(v) => if v < 0 then "-" + DecimalDigits(-v) else DecimalDigits(v)
    case NaN => "NaN"
    case Infinity => "Infinity"
  }

  /** `String.prototype.toLowerCase` on one character (only A-Z are mapped). */
  function LowerChar(c: char): char {
    if 'A' <= c <= 'Z' then (c as int - 'A' as int + 'a' as int) as char else c
  }

  function ToLowerCase(s: string): (r: string)
    ensures |r| == |s|
  {
    seq(|s|, i requires 0 <= i < |s| => LowerChar(s[i]))
  }

  /** `part` occurs in `s` starting at index `i`. */
  predicate OccursAt(s: string, part: string, i: nat) {
    i + |part| <= |s| && s[i..i + |part|] == part
  }

  /** `s.includes(part)` */
  predicate Includes(s: string, part: string) {
    exists i: nat :: i <= |s| && OccursAt(s, part, i)
  }

  // ---------------------------------------------------------------------------
  // Properties

  lemma {:induction false} DecimalDigitsAreDigits(n: nat)
    ensures AllDigits(DecimalDigits(n), 10)
    ensures DigitsValue(DecimalDigits(n), 10) == n
    ensures DecimalDigits(n)[0] == '0' ==> n == 0
  {
    var r := DecimalDigits(n);
    if n >= 10 {
      DecimalDigitsAreDigits(n / 10);
      var p := DecimalDigits(n / 10);
      assert r[..|r| - 1] == p;
      DigitPrefixOfConcat(p, [DigitChar(n % 10)], 10);
    }
  }

  lemma {:induction false} DigitPrefixOfConcat(a: string, b: string, radix: nat)
    requires DigitPrefixLength(a, radix) == |a| && DigitPrefixLength(b, radix) == |b|
    ensures DigitPrefixLength(a + b, radix) == |a + b|
  {
    if a != [] {
      assert (a + b)[1..] == a[1..] + b;
      DigitPrefixOfConcat(a[1..], b, radix);
    }
  }

  /** A run of decimal digits without a leading zero is read whole, in base 10. */
  lemma ParseUnsignedOfDigits(ds: string)
    requires AllDigits(ds, 10) && (ds[0] == '0' ==> |ds| == 1)
    ensures ParseUnsigned(ds) == Some(DigitsValue(ds, 10))
  {
    if |ds| >= 2 {
      assert DigitValue(ds[1]) < 10;
    }
    assert ds[..|ds|] == ds;
  }

  /** A run of decimal digits without a leading zero parses to its value. */
  lemma ParseIntOfDigits(ds: string)
    requires AllDigits(ds, 10) && (ds[0] == '0' ==> |ds| == 1)
    ensures ParseInt(ds) == Int(DigitsValue(ds, 10))
  {
    assert DigitValue(ds[0]) < 10;
    assert !IsWhiteSpace(ds[0]) && ds[0] != '-' && ds[0] != '+';
    assert TrimStart(ds) == ds;
    ParseUnsignedOfDigits(ds);
  }

  /** The same run after a minus sign parses to the negated value. */
  lemma ParseIntOfNegativeDigits(ds: string)
    requires AllDigits(ds, 10) && (ds[0] == '0' ==> |ds| == 1)
    ensures ParseInt("-" + ds) == Int(0 - DigitsValue(ds, 10))
  {
    var neg := "-" + ds;
    assert neg[0] == '-' && !IsWhiteSpace(neg[0]);
    assert TrimStart(neg) == neg;
    assert neg[1..] == ds;
    ParseUnsignedOfDigits(ds);
  }

  /** `parseInt(x.toString())` gives `x` back, for every number of the model that `parseInt` can produce. */
  lemma ParseIntOfText(x: Number)
    requires x != Infinity
    ensures ParseInt(NumberToText(x)) == x
  {
    match x
    case NaN =>
      assert DigitValue('N') >= 10;
      assert TrimStart("NaN") == "NaN";
    case Int(v) =>
      var m: nat := if v < 0 then -v else v;
      DecimalDigitsAreDigits(m);
      if v < 0 {
        ParseIntOfNegativeDigits(DecimalDigits(m));
      } else {
        ParseIntOfDigits(DecimalDigits(m));
      }
  }

  /** An empty `part` is included in every string. */
  lemma IncludesEmpty(s: string)
    ensures Includes(s, "")
  {
    assert OccursAt(s, "", 0);
  }
}
