/**
 * The ECMAScript built-ins the URL state store relies on, stated over Dafny strings
 * (sequences of Unicode scalar values): UTF-16 code units and the order and length
 * defined on them, `parseInt` with no radix, `Number.prototype.toString()` on integers,
 * and `Array.prototype.sort` with the comparator `(a, b) => a.length - b.length`.
 */
module Js {
  import opened Wrappers

  // ---------------------------------------------------------------------------
  // UTF-16 code units
  // ---------------------------------------------------------------------------

  /** The UTF-16 code units of one character: itself, or a surrogate pair above U+FFFF. */
  function CodeUnits(c: char): (u: seq<int>)
    ensures |u| == (if c as int < 0x10000 then 1 else 2)
    ensures forall i :: 0 <= i < |u| ==> 0 <= u[i] < 0x10000
    ensures (0xD800 <= u[0] < 0xDC00) <==> |u| == 2
  {
    if c as int < 0x10000 then [c as int]
    else
      var v := c as int - 0x10000;
      [0xD800 + v / 0x400, 0xDC00 + v % 0x400]
  }

  /** The UTF-16 code units of a string, the units JavaScript strings are made of. */
  function Utf16(s: string): (u: seq<int>)
    ensures |s| <= |u| <= 2 * |s|
  {
    if s == [] then [] else CodeUnits(s[0]) + Utf16(s[1..])
  }

  /** `String.prototype.length`: the number of UTF-16 code units. */
  function Length(s: string): nat {
    |Utf16(s)|
  }

  /**
   * A string's `length` is at least its number of characters and at most twice that,
   * and equals it exactly when no character lies above U+FFFF.
   */
  lemma {:induction false} LengthIsCharCount(s: string)
    ensures |s| <= Length(s) <= 2 * |s|
    ensures Length(s) == |s| <==> forall i :: 0 <= i < |s| ==> s[i] as int < 0x10000
  {
    if s != [] {
      LengthIsCharCount(s[1..]);
      assert forall i :: 0 < i < |s| ==> s[i] == s[1..][i - 1];
    }
  }

  // ---------------------------------------------------------------------------
  // Code-unit order (the order of URLSearchParams.prototype.sort)
  // ---------------------------------------------------------------------------

  /** Lexicographic order on code-unit sequences; a proper prefix comes first. */
  predicate UnitsBefore(a: seq<int>, b: seq<int>) {
    if a == [] then b != []
    else if b == [] then false
    else if a[0] != b[0] then a[0] < b[0]
    else UnitsBefore(a[1..], b[1..])
  }

  /**
   * Where a character falls in code-unit order: characters below the surrogate block keep
   * their value, supplementary characters (whose first unit is a surrogate) follow them,
   * and the characters from U+E000 to U+FFFF come after all of those.
   */
  function UnitRank(c: char): (r: int)
    ensures 0 <= r
    ensures r < 0xD800 <==> c as int < 0xD800
    ensures 0xD800 <= r <= 0x10FFFF <==> 0x10000 <= c as int
  {
    if 0xE000 <= c as int < 0x10000 then c as int + 0x110000 else c as int
  }

  /**
   * `a` sorts strictly before `b` in code-unit order, compared character by character;
   * BeforeIsCodeUnitOrder shows this is the order of the UTF-16 encodings.
   */
  predicate Before(a: string, b: string): (r: bool)
    ensures r ==> a != b
    ensures a < b ==> r
  {
    if a == [] then b != []
    else if b == [] then false
    else if a[0] != b[0] then UnitRank(a[0]) < UnitRank(b[0])
    else Before(a[1..], b[1..])
  }

  lemma {:induction false} UnitsBeforeCommonPrefix(u: seq<int>, x: seq<int>, y: seq<int>)
    ensures UnitsBefore(u + x, u + y) == UnitsBefore(x, y)
  {
    if u != [] {
      assert (u + x)[0] == u[0] == (u + y)[0];
      assert (u + x)[1..] == u[1..] + x && (u + y)[1..] == u[1..] + y;
      UnitsBeforeCommonPrefix(u[1..], x, y);
    } else {
      assert u + x == x && u + y == y;
    }
  }

  /** Two different characters are ordered by their first differing code unit. */
  lemma CodeUnitsOrder(c: char, d: char, x: seq<int>, y: seq<int>)
    requires c != d
    ensures UnitsBefore(CodeUnits(c) + x, CodeUnits(d) + y) == (UnitRank(c) < UnitRank(d))
  {
    var u, w := CodeUnits(c), CodeUnits(d);
    var a, b := u + x, w + y;
    assert a[0] == u[0] && b[0] == w[0];
    if |u| == 2 && |w| == 2 {
      var vc, vd := c as int - 0x10000, d as int - 0x10000;
      assert vc == 0x400 * (vc / 0x400) + vc % 0x400;
      assert vd == 0x400 * (vd / 0x400) + vd % 0x400;
      if u[0] == w[0] {
        assert a[1..][0] == u[1] && b[1..][0] == w[1];
        assert u[1] != w[1];
      }
    }
  }

  /** Comparing character by character is comparing the UTF-16 code units. */
  lemma {:induction false} BeforeIsCodeUnitOrder(a: string, b: string)
    ensures Before(a, b) == UnitsBefore(Utf16(a), Utf16(b))
  {
    if a != [] && b != [] {
      if a[0] == b[0] {
        UnitsBeforeCommonPrefix(CodeUnits(a[0]), Utf16(a[1..]), Utf16(b[1..]));
        BeforeIsCodeUnitOrder(a[1..], b[1..]);
      } else {
        CodeUnitsOrder(a[0], b[0], Utf16(a[1..]), Utf16(b[1..]));
      }
    } else if b != [] {
      assert |Utf16(b)| > 0;
    }
  }

  lemma {:induction false} BeforeIrreflexive(a: string)
    ensures !Before(a, a)
  {
    if a != [] {
      BeforeIrreflexive(a[1..]);
    }
  }

  lemma {:induction false} BeforeTransitive(a: string, b: string, c: string)
    requires Before(a, b) && Before(b, c)
    ensures Before(a, c)
  {
    if a != [] && b != [] && c != [] && a[0] == b[0] && b[0] == c[0] {
      BeforeTransitive(a[1..], b[1..], c[1..]);
    }
  }

  lemma {:induction false} BeforeTotal(a: string, b: string)
    requires a != b
    ensures Before(a, b) || Before(b, a)
  {
    if a != [] && b != [] && a[0] == b[0] {
      assert a == [a[0]] + a[1..] && b == [b[0]] + b[1..];
      BeforeTotal(a[1..], b[1..]);
    }
  }

  lemma {:induction false} BeforeAsymmetric(a: string, b: string)
    requires Before(a, b)
    ensures !Before(b, a)
  {
    if a != [] && b != [] && a[0] == b[0] {
      BeforeAsymmetric(a[1..], b[1..]);
    }
  }

  /** Code-unit order is a strict total order on strings. */
  lemma BeforeIsStrictTotalOrder(a: string, b: string, c: string)
    ensures !Before(a, a)
    ensures Before(a, b) ==> !Before(b, a)
    ensures Before(a, b) && Before(b, c) ==> Before(a, c)
    ensures a != b ==> Before(a, b) || Before(b, a)
  {
    BeforeIrreflexive(a);
    if Before(a, b) {
      BeforeAsymmetric(a, b);
      if Before(b, c) {
        BeforeTransitive(a, b, c);
      }
    }
    if a != b {
      BeforeTotal(a, b);
    }
  }

  // ---------------------------------------------------------------------------
  // parseInt(string) with no radix argument
  // ---------------------------------------------------------------------------

  /** StrWhiteSpaceChar: the white space and line terminators `parseInt` skips. */
  predicate IsWhiteSpace(c: char) {
    || c in {'\t', '\n', '\U{000B}', '\U{000C}', '\r', ' ', '\U{00A0}', '\U{1680}'}
    || ('\U{2000}' <= c <= '\U{200A}')
    || c in {'\U{2028}', '\U{2029}', '\U{202F}', '\U{205F}', '\U{3000}', '\U{FEFF}'}
  }

  /** The string with its leading white space removed. */
  function TrimStart(s: string): (t: string)
    ensures |t| <= |s| && t == s[|s| - |t|..]
    ensures t != [] ==> !IsWhiteSpace(t[0])
    ensures forall i :: 0 <= i < |s| - |t| ==> IsWhiteSpace(s[i])
  {
    if s != [] && IsWhiteSpace(s[0]) then TrimStart(s[1..]) else s
  }

  /** The value of `c` as a digit of the given radix (10 or 16), if it is one. */
  function DigitValue(c: char, radix: int): (r: Option<int>)
    ensures r.Some? ==> 0 <= r.value < radix
  {
    if '0' <= c <= '9' && (c as int - '0' as int) < radix then Some(c as int - '0' as int)
    else if radix == 16 && 'a' <= c <= 'f' then Some(c as int - 'a' as int + 10)
    else if radix == 16 && 'A' <= c <= 'F' then Some(c as int - 'A' as int + 10)
    else None
  }

  /** The length of the longest prefix of `s` made of digits of the radix. */
  function DigitPrefix(s: string, radix: int): (n: nat)
    ensures n <= |s|
    ensures forall i :: 0 <= i < n ==> DigitValue(s[i], radix).Some?
    ensures n < |s| ==> DigitValue(s[n], radix).None?
  {
    if s == [] || DigitValue(s[0], radix).None? then 0 else 1 + DigitPrefix(s[1..], radix)
  }

  /** The number a string of digits of the radix denotes. */
  function DigitsValue(s: string, radix: int): (v: nat)
    requires radix > 0
    requires forall i :: 0 <= i < |s| ==> DigitValue(s[i], radix).Some?
  {
    if s == [] then 0
    else DigitsValue(s[..|s| - 1], radix) * radix + DigitValue(s[|s| - 1], radix).value
  }

  /**
   * `parseInt(s)`: skip leading white space, read an optional sign, read a `0x`/`0X`
   * prefix as radix 16 (radix 10 otherwise), and take the longest digit prefix; with no
   * digit the result is NaN (None). The result is the exact integer: -0 is 0, which
   * indexes an array exactly as -0 does, and rounding to a double only starts beyond
   * 2^53, far past any array index.
   */
  function ParseInt(s: string): (r: Option<int>)
    ensures (forall i :: 0 <= i < |s| ==> IsWhiteSpace(s[i])) ==> r.None?
    ensures s != [] && '1' <= s[0] <= '9' ==> r.Some? && r.value >= 0
  {
    ParseTrimmed(TrimStart(s))
  }

  /** A `0x` or `0X` prefix, which makes `parseInt` read radix 16. */
  predicate HexLead(u: string) {
    |u| >= 2 && u[0] == '0' && (u[1] == 'x' || u[1] == 'X')
  }

  /**
   * `parseInt` once the leading white space is gone. Without a sign: NaN unless the
   * string starts with a digit; a `0x` prefix reads the longest hexadecimal prefix after
   * it, and otherwise the longest decimal prefix is read. A sign is `ParseTrimmedSign`.
   */
  function ParseTrimmed(t: string): (r: Option<int>)
    ensures t == [] || (DigitValue(t[0], 10).None? && t[0] != '-' && t[0] != '+') ==> r.None?
    ensures r.Some? && r.value < 0 ==> t[0] == '-'
    ensures !HexLead(t) && DigitPrefix(t, 10) > 0 ==> r == Some(DigitsValue(t[..DigitPrefix(t, 10)], 10))
    ensures HexLead(t) ==>
      var h := DigitPrefix(t[2..], 16);
      r == if h == 0 then None else Some(DigitsValue(t[2..][..h], 16))
  {
    var negative := t != [] && t[0] == '-';
    var u := if t != [] && (t[0] == '-' || t[0] == '+') then t[1..] else t;
    var hex := HexLead(u);
    var radix := if hex then 16 else 10;
    var w := if hex then u[2..] else u;
    var n := DigitPrefix(w, radix);
    if n == 0 then None
    else
      var m: int := DigitsValue(w[..n], radix);
      Some(if negative then -m else m)
  }

  /**
   * A sign applies to the unsigned number after it: `-` negates it, `+` leaves it, and a
   * second sign is NaN.
   */
  lemma ParseTrimmedSign(t: string)
    requires t != [] && (t[0] == '-' || t[0] == '+')
    ensures var u := t[1..];
      ParseTrimmed(t) ==
        if u != [] && (u[0] == '-' || u[0] == '+') then None
        else if t[0] == '-' && ParseTrimmed(u).Some? then Some(-ParseTrimmed(u).value)
        else ParseTrimmed(u)
  {
  }

  // ---------------------------------------------------------------------------
  // Number.prototype.toString() on integers
  // ---------------------------------------------------------------------------

  function DigitChar(d: int): (c: char)
    requires 0 <= d < 10
    ensures DigitValue(c, 10) == Some(d)
  {
    ('0' as int + d) as char
  }

  /** The decimal digits of `n`, with no leading zero. */
  function Digits(n: nat): (s: string)
    ensures s != []
    ensures forall i :: 0 <= i < |s| ==> DigitValue(s[i], 10).Some?
    ensures |s| > 1 ==> s[0] != '0'
    ensures DigitsValue(s, 10) == n
  {
    if n < 10 then [DigitChar(n)]
    else
      var s := Digits(n / 10) + [DigitChar(n % 10)];
      assert s[..|s| - 1] == Digits(n / 10);
      s
  }

  /** `n.toString()` for an integer `n`: its decimal numeral, with `-` when negative. */
  function Decimal(n: int): (s: string)
    ensures s != []
    ensures (s[0] == '-') <==> n < 0
  {
    if n < 0 then "-" + Digits(-n) else Digits(n)
  }

  /** No decimal digit is white space. */
  lemma DigitIsNotWhiteSpace(c: char)
    requires DigitValue(c, 10).Some?
    ensures !IsWhiteSpace(c)
  {
    assert '0' <= c <= '9';
  }

  /** Leading white space is exactly what `TrimStart` removes. */
  lemma {:induction false} TrimStartSkips(ws: string, rest: string)
    requires forall i :: 0 <= i < |ws| ==> IsWhiteSpace(ws[i])
    requires rest == [] || !IsWhiteSpace(rest[0])
    ensures TrimStart(ws + rest) == rest
  {
    if ws != [] {
      assert (ws + rest)[1..] == ws[1..] + rest;
      TrimStartSkips(ws[1..], rest);
    }
  }

  /** The longest digit prefix stops where the digits stop. */
  lemma {:induction false} DigitPrefixOfConcat(a: string, b: string, radix: int)
    requires forall i :: 0 <= i < |a| ==> DigitValue(a[i], radix).Some?
    requires b == [] || DigitValue(b[0], radix).None?
    ensures DigitPrefix(a + b, radix) == |a|
  {
    if a != [] {
      assert (a + b)[1..] == a[1..] + b;
      DigitPrefixOfConcat(a[1..], b, radix);
    }
  }

  /** The numeral of `m` followed by anything that is not a digit reads as `m`. */
  lemma ParseTrimmedOfDigits(m: nat, x: string)
    requires x == [] || DigitValue(x[0], 10).None?
    requires m == 0 ==> x == [] || (x[0] != 'x' && x[0] != 'X')
    ensures ParseTrimmed(Digits(m) + x) == Some(m)
  {
    var d := Digits(m);
    var t := d + x;
    DigitPrefixOfConcat(d, x, 10);
    assert t[..|d|] == d;
  }

  /** A `-` before a digit negates what the digits read as. */
  lemma ParseTrimmedNegated(u: string)
    requires u != [] && DigitValue(u[0], 10).Some?
    ensures ParseTrimmed(['-'] + u) == if ParseTrimmed(u).Some? then Some(-ParseTrimmed(u).value) else None
  {
    assert (['-'] + u)[1..] == u;
    ParseTrimmedSign(['-'] + u);
  }

  /** The same for the numeral of a negative integer, which starts with `-`. */
  lemma ParseTrimmedOfNegative(m: nat, x: string)
    requires m > 0 && (x == [] || DigitValue(x[0], 10).None?)
    ensures ParseTrimmed(Decimal(-(m as int)) + x) == Some(-(m as int))
  {
    var u := Digits(m) + x;
    assert ParseTrimmed(u) == Some(m) && DigitValue(u[0], 10).Some? by {
      ParseTrimmedOfDigits(m, x);
      assert u[0] == Digits(m)[0];
    }
    ParseTrimmedNegated(u);
    assert Decimal(-(m as int)) + x == ['-'] + u by {
      assert Decimal(-(m as int)) == "-" + Digits(m);
      ConcatAssoc("-", Digits(m), x);
    }
  }

  /** The numeral of any integer, followed by a non-digit, reads as that integer. */
  lemma ParseTrimmedOfDecimal(n: int, x: string)
    requires x == [] || DigitValue(x[0], 10).None?
    requires n == 0 ==> x == [] || (x[0] != 'x' && x[0] != 'X')
    ensures ParseTrimmed(Decimal(n) + x) == Some(n)
  {
    if n < 0 {
      ParseTrimmedOfNegative(-n, x);
    } else {
      assert Decimal(n) == Digits(n);
      ParseTrimmedOfDigits(n, x);
    }
  }

  /** `parseInt` is `ParseTrimmed` of what follows the leading white space. */
  lemma ParseIntAfterWhiteSpace(ws: string, t: string)
    requires forall i :: 0 <= i < |ws| ==> IsWhiteSpace(ws[i])
    requires t == [] || !IsWhiteSpace(t[0])
    ensures ParseInt(ws + t) == ParseTrimmed(t)
  {
    TrimStartSkips(ws, t);
  }

  /**
   * `parseInt` reads any integer's numeral back as that integer, after any leading white
   * space and before any trailing text that does not go on with a digit (nor, after a
   * lone `0`, turn it into a `0x` prefix). Integers are exact here; see `ParseInt`.
   */
  lemma ParseIntOfNumeral(ws: string, n: int, x: string)
    requires forall i :: 0 <= i < |ws| ==> IsWhiteSpace(ws[i])
    requires x == [] || DigitValue(x[0], 10).None?
    requires n == 0 ==> x == [] || (x[0] != 'x' && x[0] != 'X')
    ensures ParseInt(ws + Decimal(n) + x) == Some(n)
  {
    var t := Decimal(n) + x;
    ParseTrimmedOfDecimal(n, x);
    DecimalLead(n, x);
    ParseIntAfterWhiteSpace(ws, t);
    ConcatAssoc(ws, Decimal(n), x);
  }

  /** Reading the numeral of an integer back with `parseInt` gives the integer. */
  lemma ParseIntOfDecimal(n: int)
    ensures ParseInt(Decimal(n)) == Some(n)
  {
    ParseTrimmedOfDecimal(n, []);
    DecimalLead(n, []);
    assert Decimal(n) + [] == Decimal(n);
    ParseIntAfterWhiteSpace([], Decimal(n));
    assert [] + Decimal(n) == Decimal(n);
  }

  lemma ConcatAssoc(a: string, b: string, c: string)
    ensures a + b + c == a + (b + c)
  {
  }

  /** A numeral starts with `-` or a digit, so not with white space. */
  lemma DecimalLead(n: int, x: string)
    ensures !IsWhiteSpace((Decimal(n) + x)[0])
  {
    var c := (Decimal(n) + x)[0];
    if n >= 0 {
      assert c == Digits(n)[0] && DigitValue(c, 10).Some?;
      DigitIsNotWhiteSpace(c);
    }
  }

  /** `parseInt` ignores leading white space. */
  lemma ParseIntSkipsWhiteSpace(c: char, s: string)
    requires IsWhiteSpace(c)
    ensures ParseInt([c] + s) == ParseInt(s)
  {
    assert ([c] + s)[1..] == s;
    assert TrimStart([c] + s) == TrimStart(s);
  }

  // ---------------------------------------------------------------------------
  // Array.prototype.sort((a, b) => a.length - b.length)
  // ---------------------------------------------------------------------------

  /** Non-decreasing in code-unit length. */
  predicate LengthSorted(s: seq<string>) {
    forall i, j :: 0 <= i < j < |s| ==> Length(s[i]) <= Length(s[j])
  }

  /** Put `x` before the first element at least as long (so equal lengths keep their order). */
  function InsertByLength(x: string, s: seq<string>): (r: seq<string>)
    ensures multiset(r) == multiset(s) + multiset{x}
  {
    if s == [] || Length(x) <= Length(s[0]) then [x] + s
    else
      var r := [s[0]] + InsertByLength(x, s[1..]);
      assert s == [s[0]] + s[1..];
      r
  }

  /** A string no longer than any element of a sorted sequence can go in front of it. */
  lemma LengthSortedCons(a: string, t: seq<string>)
    requires LengthSorted(t)
    requires forall y :: y in t ==> Length(a) <= Length(y)
    ensures LengthSorted([a] + t)
  {
    forall i, j | 0 <= i < j < |t| + 1
      ensures Length(([a] + t)[i]) <= Length(([a] + t)[j])
    {
      assert ([a] + t)[j] == t[j - 1];
      if i == 0 {
        assert t[j - 1] in t;
      } else {
        assert ([a] + t)[i] == t[i - 1];
      }
    }
  }

  lemma {:induction false} InsertByLengthSorted(x: string, s: seq<string>)
    requires LengthSorted(s)
    ensures LengthSorted(InsertByLength(x, s))
  {
    if s == [] || Length(x) <= Length(s[0]) {
      forall y | y in s
        ensures Length(x) <= Length(y)
      {
        var k :| 0 <= k < |s| && s[k] == y;
        assert Length(s[0]) <= Length(s[k]) || k == 0;
      }
      LengthSortedCons(x, s);
    } else {
      var tail := s[1..];
      var t := InsertByLength(x, tail);
      assert LengthSorted(tail);
      InsertByLengthSorted(x, tail);
      forall y | y in t
        ensures Length(s[0]) <= Length(y)
      {
        assert y in multiset(t);
        if y != x {
          assert y in multiset(tail);
          var k :| 0 <= k < |tail| && tail[k] == y;
          assert s[k + 1] == y;
        }
      }
      LengthSortedCons(s[0], t);
      assert InsertByLength(x, s) == [s[0]] + t;
    }
  }

  lemma MultisetOfCons(s: seq<string>)
    requires s != []
    ensures multiset(s) == multiset{s[0]} + multiset(s[1..])
  {
    assert s == [s[0]] + s[1..];
  }

  /** The stable sort of `s` by code-unit length (the sort is stable since ECMAScript 2019). */
  function SortByLength(s: seq<string>): (r: seq<string>)
    ensures multiset(r) == multiset(s)
    ensures LengthSorted(r)
  {
    if s == [] then []
    else
      var t := SortByLength(s[1..]);
      InsertByLengthSorted(s[0], t);
      MultisetOfCons(s);
      InsertByLength(s[0], t)
  }

  /** The index of the first element of least code-unit length. */
  function FirstShortest(s: seq<string>): (i: nat)
    requires s != []
    ensures i < |s|
    ensures forall j :: 0 <= j < |s| ==> Length(s[i]) <= Length(s[j])
    ensures forall j :: 0 <= j < i ==> Length(s[i]) < Length(s[j])
  {
    if |s| == 1 then 0
    else
      var i := FirstShortest(s[1..]);
      if Length(s[0]) <= Length(s[i + 1]) then 0 else i + 1
  }

  /** The sorted array starts with the first of the shortest strings. */
  lemma {:induction false} SortByLengthHead(s: seq<string>)
    requires s != []
    ensures SortByLength(s) != [] && SortByLength(s)[0] == s[FirstShortest(s)]
  {
    var rest := SortByLength(s[1..]);
    assert multiset(SortByLength(s)) == multiset(s);
    if |s| > 1 {
      SortByLengthHead(s[1..]);
      assert rest[0] == s[1..][FirstShortest(s[1..])];
    }
  }

  /** The elements of length `n`, in order. */
  function OfLength(s: seq<string>, n: nat): (r: seq<string>)
    ensures |r| <= |s|
  {
    if s == [] then []
    else if Length(s[0]) == n then [s[0]] + OfLength(s[1..], n)
    else OfLength(s[1..], n)
  }

  lemma {:induction false} OfLengthInsert(x: string, s: seq<string>, n: nat)
    requires LengthSorted(s)
    ensures OfLength(InsertByLength(x, s), n)
         == if Length(x) == n then [x] + OfLength(s, n) else OfLength(s, n)
  {
    if s == [] || Length(x) <= Length(s[0]) {
      assert ([x] + s)[1..] == s;
    } else {
      assert LengthSorted(s[1..]);
      OfLengthInsert(x, s[1..], n);
      assert ([s[0]] + InsertByLength(x, s[1..]))[1..] == InsertByLength(x, s[1..]);
      if Length(x) == n {
        // every element of s[1..] ahead of x's place is shorter than x, so it is not kept
        OfLengthShorterPrefix(s, n);
      }
    }
  }

  /** In a sorted sequence whose head is shorter than `n`, dropping the head keeps the same elements of length `n`. */
  lemma OfLengthShorterPrefix(s: seq<string>, n: nat)
    requires s != [] && Length(s[0]) < n
    ensures OfLength(s, n) == OfLength(s[1..], n)
  {
  }

  /** The sort is stable: the strings of each length keep their relative order. */
  lemma {:induction false} SortByLengthStable(s: seq<string>, n: nat)
    ensures OfLength(SortByLength(s), n) == OfLength(s, n)
  {
    if s != [] {
      SortByLengthStable(s[1..], n);
      OfLengthInsert(s[0], SortByLength(s[1..]), n);
    }
  }

  /** Sorting an already sorted array leaves it as it is, so sorting twice is sorting once. */
  lemma {:induction false} SortByLengthIdempotent(s: seq<string>)
    requires LengthSorted(s)
    ensures SortByLength(s) == s
  {
    if s != [] {
      assert LengthSorted(s[1..]);
      SortByLengthIdempotent(s[1..]);
      assert s == [s[0]] + s[1..];
    }
  }
}
