/**
 * The parts of PHP's value semantics that the reconciliation code relies on:
 * records as associative arrays, `isset`, `empty`, loose comparison with an
 * integer (PHP 5 rules), string conversion, `trim`, `explode`/`implode`,
 * `array_unique` and `strtolower`.
 */
module Php {

  /** A PHP value as it occurs in a directory entry or a database row. */
  datatype Value = Null | Bool(b: bool) | Int(i: int) | Str(s: string) | Arr(items: seq<Value>)

  /** An associative array with string keys. */
  type Record = map<string, Value>

  /** `$r[$k]`: a missing key reads as null. */
  function Get(r: Record, k: string): Value {
    if k in r then r[k] else Null
  }

  /** `isset($r[$k])`: present and not null. */
  predicate IsSet(r: Record, k: string) {
    k in r && r[k] != Null
  }

  /** `empty($v)` */
  predicate IsEmpty(v: Value) {
    match v
    case Null => true
    case Bool(b) => !b
    case Int(i) => i == 0
    case Str(s) => s == "" || s == "0"
    case Arr(items) => items == []
  }

  // ---------------------------------------------------------------------
  // Decimal digits

  predicate IsDigit(c: char) {
    '0' <= c <= '9'
  }

  predicate AllDigits(s: string) {
    forall i :: 0 <= i < |s| ==> IsDigit(s[i])
  }

  function DigitChar(d: nat): (c: char)
    requires d < 10
    ensures IsDigit(c)
  {
    ('0' as int + d) as char
  }

  /** The decimal spelling of a natural number, as PHP prints an int. */
  function DecimalString(n: nat): (s: string)
    ensures |s| > 0 && AllDigits(s)
  {
    if n < 10 then [DigitChar(n)] else DecimalString(n / 10) + [DigitChar(n % 10)]
  }

  /** The number spelled by a string of decimal digits. */
  function DecimalValue(s: string): nat
    requires AllDigits(s)
  {
    if s == [] then 0 else 10 * DecimalValue(s[..|s| - 1]) + (s[|s| - 1] as int - '0' as int)
  }

  /** Reading back a printed number gives the number. */
  lemma {:induction false} DecimalRoundTrip(n: nat)
    ensures DecimalValue(DecimalString(n)) == n
  {
    if n >= 10 {
      var s := DecimalString(n);
      assert s[..|s| - 1] == DecimalString(n / 10);
      DecimalRoundTrip(n / 10);
    }
  }

  // ---------------------------------------------------------------------
  // Loose comparison with an integer

  /** The white space `strtol` skips: space, tab, newline, vertical tab, form feed, carriage return. */
  predicate IsSpace(c: char) {
    c == ' ' || 9 <= c as int <= 13
  }

  function DropSpaces(s: string): (t: string)
    ensures |t| <= |s| && t == s[|s| - |t|..]
    ensures t != [] ==> !IsSpace(t[0])
  {
    if s != [] && IsSpace(s[0]) then DropSpaces(s[1..]) else s
  }

  /** The longest prefix of `s` made of decimal digits. */
  function DigitPrefix(s: string): (d: string)
    ensures d <= s && AllDigits(d)
    ensures |d| < |s| ==> !IsDigit(s[|d|])
  {
    if s != [] && IsDigit(s[0]) then [s[0]] + DigitPrefix(s[1..]) else []
  }

  /**
   * The integer PHP 5 reads from a string when it compares the string with
   * an integer: leading white space, an optional sign, then the leading
   * digits ("12abc" reads as 12, "abc" as 0).
   */
  function LeadingInt(s: string): int {
    var t := DropSpaces(s);
    if t != [] && t[0] == '-' then -(DecimalValue(DigitPrefix(t[1..])) as int)
    else if t != [] && t[0] == '+' then DecimalValue(DigitPrefix(t[1..]))
    else DecimalValue(DigitPrefix(t))
  }

  /** `$v == $n` for an integer `$n`, with PHP 5 loose-comparison rules. */
  predicate LooseEqualsInt(v: Value, n: int) {
    match v
    case Null => n == 0
    case Bool(b) => b == (n != 0)
    case Int(i) => i == n
    case Str(s) => LeadingInt(s) == n
    case Arr(_) => false
  }

  /** `(string)$v` */
  function StringOf(v: Value): string {
    match v
    case Null => ""
    case Bool(b) => if b then "1" else ""
    case Int(i) => if i < 0 then "-" + DecimalString(-i) else DecimalString(i)
    case Str(s) => s
    case Arr(_) => "Array"
  }

  lemma {:induction false} DigitPrefixOfDigits(s: string)
    requires AllDigits(s)
    ensures DigitPrefix(s) == s
  {
    if s != [] {
      DigitPrefixOfDigits(s[1..]);
    }
  }

  lemma LeadingIntOfDigits(digits: string)
    requires digits != [] && AllDigits(digits)
    ensures LeadingInt(digits) == DecimalValue(digits)
  {
    DigitPrefixOfDigits(digits);
    assert !IsSpace(digits[0]);
    assert DropSpaces(digits) == digits;
    assert digits[0] != '-' && digits[0] != '+';
  }

  lemma LeadingIntOfNegative(digits: string)
    requires digits != [] && AllDigits(digits)
    ensures LeadingInt("-" + digits) == -(DecimalValue(digits) as int)
  {
    DigitPrefixOfDigits(digits);
    var neg := "-" + digits;
    assert !IsSpace(neg[0]);
    assert DropSpaces(neg) == neg;
    assert neg[0] == '-' && neg[1..] == digits;
  }

  /**
   * An integer stored as its decimal string (as the database hands it back)
   * still compares loosely equal to the integer.
   */
  lemma IntAsStringComparesEqual(n: int)
    ensures LooseEqualsInt(Str(StringOf(Int(n))), n)
  {
    var m: nat := if n < 0 then -n else n;
    DecimalRoundTrip(m);
    if n < 0 {
      LeadingIntOfNegative(DecimalString(m));
    } else {
      LeadingIntOfDigits(DecimalString(m));
    }
  }

  // ---------------------------------------------------------------------
  // trim, explode, implode

  /** The characters `trim()` strips by default: space, tab, newline, carriage return, NUL, vertical tab. */
  predicate IsTrimChar(c: char) {
    c == ' ' || c == '\t' || c == '\n' || c == '\r' || c as int == 0 || c as int == 11
  }

  function TrimLeft(s: string): (t: string)
    ensures |t| <= |s| && t == s[|s| - |t|..]
    ensures forall i :: 0 <= i < |s| - |t| ==> IsTrimChar(s[i])
    ensures t != [] ==> !IsTrimChar(t[0])
    ensures (s != [] && !IsTrimChar(s[0])) ==> t == s
  {
    if s != [] && IsTrimChar(s[0]) then
      var t := TrimLeft(s[1..]);
      assert s[1..][|s| - 1 - |t|..] == s[|s| - |t|..];
      assert forall i :: 1 <= i < |s| - |t| ==> s[i] == s[1..][i - 1];
      t
    else s
  }

  function TrimRight(s: string): (t: string)
    ensures t <= s
    ensures forall i :: |t| <= i < |s| ==> IsTrimChar(s[i])
    ensures t != [] ==> !IsTrimChar(t[|t| - 1])
    ensures (s != [] && !IsTrimChar(s[|s| - 1])) ==> t == s
  {
    if s != [] && IsTrimChar(s[|s| - 1]) then
      var t := TrimRight(s[..|s| - 1]);
      assert t <= s[..|s| - 1] <= s;
      assert forall i :: |t| <= i < |s| - 1 ==> s[i] == s[..|s| - 1][i];
      t
    else s
  }

  /** `t` is `s[a..b]`, and everything cut off on either side is a trim character. */
  predicate StrippedAt(s: string, t: string, a: int, b: int) {
    && 0 <= a <= b <= |s| && t == s[a..b]
    && (forall i :: 0 <= i < a ==> IsTrimChar(s[i]))
    && (forall i :: b <= i < |s| ==> IsTrimChar(s[i]))
  }

  /**
   * `trim($s)`: the input without its leading and trailing trim
   * characters, which the result neither starts nor ends with.
   */
  function Trim(s: string): (t: string)
    ensures exists a, b :: StrippedAt(s, t, a, b)
    ensures forall c :: c in t ==> c in s
    ensures t != [] ==> !IsTrimChar(t[0]) && !IsTrimChar(t[|t| - 1])
  {
    var l := TrimLeft(s);
    var r := TrimRight(l);
    TrimStrips(s, l, r);
    r
  }

  lemma TrimStrips(s: string, l: string, r: string)
    requires |l| <= |s| && l == s[|s| - |l|..]
    requires forall i :: 0 <= i < |s| - |l| ==> IsTrimChar(s[i])
    requires l != [] ==> !IsTrimChar(l[0])
    requires r <= l && forall i :: |r| <= i < |l| ==> IsTrimChar(l[i])
    requires r != [] ==> !IsTrimChar(r[|r| - 1])
    ensures StrippedAt(s, r, |s| - |l|, |s| - |l| + |r|)
    ensures forall c :: c in r ==> c in s
    ensures r != [] ==> !IsTrimChar(r[0]) && !IsTrimChar(r[|r| - 1])
  {
    if r != [] {
      assert r[0] == l[0];
    }
    var a := |s| - |l|;
    forall k | 0 <= k < |r|
      ensures r[k] == s[a + k]
    {
      assert r[k] == l[k];
    }
    assert r == s[a..a + |r|];
    forall i | a + |r| <= i < |s|
      ensures IsTrimChar(s[i])
    {
      assert s[i] == l[i - a];
    }
    forall c | c in r
      ensures c in s
    {
      var k :| 0 <= k < |r| && r[k] == c;
      assert s[a + k] == c;
    }
  }

  /** A string with no leading or trailing trim characters is its own trim. */
  lemma TrimOfTrimmed(s: string)
    requires s != [] ==> !IsTrimChar(s[0]) && !IsTrimChar(s[|s| - 1])
    ensures Trim(s) == s
  {
  }

  /** `explode($d, $s)` for a one-character delimiter. */
  function Explode(d: char, s: string): (parts: seq<string>)
    ensures |parts| >= 1
    ensures forall p :: p in parts ==> d !in p
  {
    if s == [] then [[]]
    else
      var rest := Explode(d, s[1..]);
      if s[0] == d then [[]] + rest else [[s[0]] + rest[0]] + rest[1..]
  }

  /** `implode($d, $parts)` */
  function Implode(d: char, parts: seq<string>): string {
    if |parts| == 0 then []
    else if |parts| == 1 then parts[0]
    else parts[0] + [d] + Implode(d, parts[1..])
  }

  /** Splitting then joining on the same delimiter gives back the string. */
  lemma {:induction false} ImplodeExplode(d: char, s: string)
    ensures Implode(d, Explode(d, s)) == s
  {
    if s != [] {
      var rest := Explode(d, s[1..]);
      ImplodeExplode(d, s[1..]);
      if s[0] == d {
        assert Explode(d, s) == [[]] + rest;
        assert s == [d] + s[1..];
      } else {
        var parts := Explode(d, s);
        assert parts == [[s[0]] + rest[0]] + rest[1..];
        if |rest| == 1 {
          assert Implode(d, parts) == [s[0]] + rest[0];
        } else {
          assert parts[1..] == rest[1..];
          assert Implode(d, rest) == rest[0] + [d] + Implode(d, rest[1..]);
        }
      }
    }
  }

  lemma {:induction false} ExplodeWithoutDelimiter(d: char, p: string)
    requires d !in p
    ensures Explode(d, p) == [p]
  {
    if p != [] {
      ExplodeWithoutDelimiter(d, p[1..]);
      assert [p[0]] + p[1..] == p;
    }
  }

  lemma {:induction false} ExplodeFirstPart(d: char, p: string, t: string)
    requires d !in p
    ensures Explode(d, p + [d] + t) == [p] + Explode(d, t)
  {
    if p == [] {
      assert p + [d] + t == [d] + t;
      assert ([d] + t)[1..] == t;
    } else {
      var s := p + [d] + t;
      assert s[0] == p[0] && s[1..] == p[1..] + [d] + t;
      ExplodeFirstPart(d, p[1..], t);
      assert [p[0]] + p[1..] == p;
    }
  }

  /** Joining parts that do not contain the delimiter, then splitting, gives back the parts. */
  lemma {:induction false} ExplodeImplode(d: char, parts: seq<string>)
    requires |parts| >= 1
    requires forall p :: p in parts ==> d !in p
    ensures Explode(d, Implode(d, parts)) == parts
  {
    if |parts| == 1 {
      ExplodeWithoutDelimiter(d, parts[0]);
    } else {
      ExplodeImplode(d, parts[1..]);
      ExplodeFirstPart(d, parts[0], Implode(d, parts[1..]));
      assert [parts[0]] + parts[1..] == parts;
    }
  }

  /**
   * `t3lib_div::trimExplode($d, $s)`: one part per exploded part, none
   * holding the delimiter or surrounded by trim characters.
   */
  function TrimExplode(d: char, s: string): (parts: seq<string>)
    ensures |parts| == |Explode(d, s)|
    ensures forall p :: p in parts ==> d !in p && Trim(p) == p
  {
    var raw := Explode(d, s);
    var parts := seq(|raw|, i requires 0 <= i < |raw| => Trim(raw[i]));
    TrimmedParts(d, raw, parts);
    parts
  }

  lemma TrimmedParts(d: char, raw: seq<string>, parts: seq<string>)
    requires forall p :: p in raw ==> d !in p
    requires |parts| == |raw| && forall i :: 0 <= i < |raw| ==> parts[i] == Trim(raw[i])
    ensures forall p :: p in parts ==> d !in p && Trim(p) == p
  {
    forall i | 0 <= i < |parts|
      ensures d !in parts[i] && Trim(parts[i]) == parts[i]
    {
      assert raw[i] in raw;
      TrimOfTrimmed(parts[i]);
    }
  }

  // ---------------------------------------------------------------------
  // array_unique

  predicate NoDuplicates<T(==)>(xs: seq<T>) {
    forall i, j :: 0 <= i < j < |xs| ==> xs[i] != xs[j]
  }

  /**
   * `array_unique($xs)` followed by a walk in array order: the first
   * occurrence of every element, in the order of first occurrence.
   */
  function Unique(xs: seq<string>): (r: seq<string>)
    ensures NoDuplicates(r)
    ensures forall x :: x in r <==> x in xs
    ensures NoDuplicates(xs) ==> r == xs
  {
    if xs == [] then []
    else
      var u := Unique(xs[..|xs| - 1]);
      var x := xs[|xs| - 1];
      assert NoDuplicates(xs) ==> x !in xs[..|xs| - 1];
      assert xs == xs[..|xs| - 1] + [x];
      if x in u then u else u + [x]
  }

  /** Index of the first occurrence of `x` in `xs`. */
  function FirstIndex<T(==)>(xs: seq<T>, x: T): (k: nat)
    requires x in xs
    ensures k < |xs| && xs[k] == x && x !in xs[..k]
  {
    if xs[0] == x then 0 else 1 + FirstIndex(xs[1..], x)
  }

  lemma FirstIndexOfPrefix<T>(xs: seq<T>, n: nat, x: T)
    requires n <= |xs| && x in xs[..n]
    ensures FirstIndex(xs, x) == FirstIndex(xs[..n], x)
  {
    var k := FirstIndex(xs[..n], x);
    assert xs[..n][..k] == xs[..k];
  }

  /** The elements of `r`, all drawn from `xs`, appear in the order of their first occurrence in `xs`. */
  predicate InFirstOccurrenceOrder(xs: seq<string>, r: seq<string>) {
    && (forall y :: y in r ==> y in xs)
    && (forall i, j :: 0 <= i < j < |r| ==> FirstIndex(xs, r[i]) < FirstIndex(xs, r[j]))
  }

  /** The elements `Unique` keeps are in the order of their first occurrence. */
  lemma {:induction false} UniqueKeepsFirstOccurrenceOrder(xs: seq<string>)
    ensures InFirstOccurrenceOrder(xs, Unique(xs))
  {
    if xs != [] {
      var n := |xs| - 1;
      var front := xs[..n];
      var u := Unique(front);
      UniqueKeepsFirstOccurrenceOrder(front);
      forall y | y in u
        ensures FirstIndex(xs, y) == FirstIndex(front, y) < n
      {
        FirstIndexOfPrefix(xs, n, y);
      }
      if xs[n] !in u {
        var r := u + [xs[n]];
        assert Unique(xs) == r;
        assert xs[n] !in front;
        assert FirstIndex(xs, xs[n]) == n;
        forall i, j | 0 <= i < j < |r|
          ensures FirstIndex(xs, r[i]) < FirstIndex(xs, r[j])
        {
          if j == |u| {
            assert r[i] in u;
          } else {
            assert r[i] == u[i] && r[j] == u[j];
          }
        }
      } else {
        assert Unique(xs) == u;
      }
    }
  }

  /** Appending one element to a duplicate-free list and de-duplicating keeps the list. */
  lemma UniqueAppend(u: seq<string>, x: string)
    requires NoDuplicates(u)
    ensures Unique(u + [x]) == if x in u then u else u + [x]
  {
    assert (u + [x])[..|u|] == u;
  }

  // ---------------------------------------------------------------------
  // strtolower, strpos

  function LowerChar(c: char): char {
    if 'A' <= c <= 'Z' then (c as int + 32) as char else c
  }

  predicate IsUpper(c: char) {
    'A' <= c <= 'Z'
  }

  /**
   * `strtolower($s)` on ASCII letters: no capital is left, a capital
   * becomes the same letter in lower case, and every other character is
   * kept.
   */
  function ToLower(s: string): (r: string)
    ensures |r| == |s|
    ensures forall i :: 0 <= i < |s| ==> !IsUpper(r[i])
    ensures forall i :: 0 <= i < |s| && IsUpper(s[i]) ==> 'a' <= r[i] <= 'z' && r[i] as int - 'a' as int == s[i] as int - 'A' as int
    ensures forall i :: 0 <= i < |s| && !IsUpper(s[i]) ==> r[i] == s[i]
  {
    seq(|s|, i requires 0 <= i < |s| => LowerChar(s[i]))
  }

  /** Lower-casing twice is lower-casing once. */
  lemma ToLowerIdempotent(s: string)
    ensures ToLower(ToLower(s)) == ToLower(s)
  {
  }

  /** `strpos($s, $pat) !== FALSE` for a non-empty pattern. */
  predicate Contains(s: string, pat: string) {
    exists i | 0 <= i <= |s| - |pat| :: OccursAt(s, pat, i)
  }

  predicate OccursAt(s: string, pat: string, i: int) {
    0 <= i <= |s| - |pat| && s[i..i + |pat|] == pat
  }
}
