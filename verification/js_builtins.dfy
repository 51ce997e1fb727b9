/**
 * The JavaScript built-ins that the quotation code leans on, modelled on
 * exact values: `String(n)` for integers, `parseInt`, `Number(string)`,
 * `String.prototype.trim`, `split` on one character, `join`, `padStart`,
 * `toLowerCase` and `includes`. Numbers are exact reals (no IEEE-754
 * rounding); NaN is kept as a value of its own because the code relies on
 * it being falsy.
 */
module JsBuiltins {

  datatype Option<T> = None | Some(value: T)

  /** A JavaScript number as this model sees it: an exact real, or NaN. */
  datatype Num = Finite(value: real) | NaN

  /** `x || 0` on a number: NaN and 0 are the falsy numbers, and both give 0. */
  function OrZero(n: Num): real
  {
    if n.Finite? then n.value else 0.0
  }

  // ---------------------------------------------------------------------
  // Whitespace and trim
  // ---------------------------------------------------------------------

  /** The characters `trim` removes: ECMAScript WhiteSpace and LineTerminator. */
  predicate IsWhitespace(c: char)
  {
    c == '\t' || c == '\n' || c == '\U{000B}' || c == '\U{000C}' || c == '\r' || c == ' '
    || c == '\U{00A0}' || c == '\U{1680}' || ('\U{2000}' <= c <= '\U{200A}')
    || c == '\U{2028}' || c == '\U{2029}' || c == '\U{202F}' || c == '\U{205F}'
    || c == '\U{3000}' || c == '\U{FEFF}'
  }

  /** Drops leading whitespace: the result is the suffix of `s` after it. */
  function TrimStart(s: string): (r: string)
    ensures |r| <= |s|
    ensures r == [] || !IsWhitespace(r[0])
    ensures forall i :: 0 <= i < |s| - |r| ==> IsWhitespace(s[i])
  {
    if s != [] && IsWhitespace(s[0]) then TrimStart(s[1..]) else s
  }

  /** What `TrimStart` keeps is a suffix of `s`. */
  lemma {:induction false} TrimStartSuffix(s: string)
    ensures TrimStart(s) == s[|s| - |TrimStart(s)|..]
  {
    if s != [] && IsWhitespace(s[0]) {
      TrimStartSuffix(s[1..]);
    }
  }

  /** Drops trailing whitespace: the result is the prefix of `s` before it. */
  function TrimEnd(s: string): (r: string)
    ensures |r| <= |s|
    ensures r == [] || !IsWhitespace(r[|r| - 1])
    ensures forall i :: |r| <= i < |s| ==> IsWhitespace(s[i])
  {
    if s != [] && IsWhitespace(s[|s| - 1]) then TrimEnd(s[..|s| - 1]) else s
  }

  /** What `TrimEnd` keeps is a prefix of `s`. */
  lemma {:induction false} TrimEndPrefix(s: string)
    ensures TrimEnd(s) == s[..|TrimEnd(s)|]
  {
    if s != [] && IsWhitespace(s[|s| - 1]) {
      TrimEndPrefix(s[..|s| - 1]);
    }
  }

  /** `s.trim()`: a contiguous piece of `s` with no whitespace at either end. */
  function Trim(s: string): (r: string)
    ensures |r| <= |s|
    ensures r == [] || (!IsWhitespace(r[0]) && !IsWhitespace(r[|r| - 1]))
  {
    TrimEndPrefix(TrimStart(s));
    TrimEnd(TrimStart(s))
  }

  /** `trim` only removes characters, so a character s lacks, its trim lacks. */
  lemma TrimKeepsOut(s: string, c: char)
    requires c !in s
    ensures c !in Trim(s)
  {
    var t := TrimStart(s);
    TrimStartSuffix(s);
    SliceKeepsOut(s, |s| - |t|, |s|, c);
    TrimEndPrefix(t);
    SliceKeepsOut(t, 0, |TrimEnd(t)|, c);
  }

  /** `trim` cuts `s` into whitespace, the result, and whitespace. */
  lemma TrimIsSlice(s: string)
    ensures exists i, j ::
              && 0 <= i <= j <= |s| && Trim(s) == s[i..j]
              && (forall k :: 0 <= k < i ==> IsWhitespace(s[k]))
              && (forall k :: j <= k < |s| ==> IsWhitespace(s[k]))
  {
    var t := TrimStart(s);
    var r := TrimEnd(t);
    TrimStartSuffix(s);
    TrimEndPrefix(t);
    var i, j := |s| - |t|, |s| - |t| + |r|;
    assert t == s[i..];
    assert r == t[..|r|] == s[i..j];
    assert forall k :: j <= k < |s| ==> s[k] == t[k - i] && |r| <= k - i < |t|;
    assert Trim(s) == s[i..j]
      && (forall k :: 0 <= k < i ==> IsWhitespace(s[k]))
      && (forall k :: j <= k < |s| ==> IsWhitespace(s[k]));
  }

  /** A character a text lacks, every slice of it lacks. */
  lemma SliceKeepsOut(s: string, i: nat, j: nat, c: char)
    requires i <= j <= |s| && c !in s
    ensures c !in s[i..j]
  {
    assert forall k :: 0 <= k < j - i ==> s[i..j][k] == s[i + k];
  }

  /** Trimming twice is trimming once. */
  lemma TrimTwice(s: string)
    ensures Trim(Trim(s)) == Trim(s)
  {
    TrimOfTrimmed(Trim(s));
  }

  /** A string that has no whitespace at either end is its own trim. */
  lemma TrimOfTrimmed(s: string)
    requires s == [] || (!IsWhitespace(s[0]) && !IsWhitespace(s[|s| - 1]))
    ensures Trim(s) == s
  {
  }

  /** Trimming never leaves a non-whitespace character behind, so the
      result is empty exactly when `s` is all whitespace. */
  lemma {:induction false} TrimEmptyIff(s: string)
    ensures Trim(s) == [] <==> forall i :: 0 <= i < |s| ==> IsWhitespace(s[i])
  {
    var t := TrimStart(s);
    TrimStartSuffix(s);
    TrimEndPrefix(t);
    if Trim(s) == [] {
      assert t == [];
    } else {
      assert Trim(s)[0] == t[0];
      assert t[0] == s[|s| - |t|];
    }
  }

  /** Leading spaces before a trimmed string are removed by `trim`. */
  lemma {:induction false} TrimLeadingSpace(p: string)
    requires p != [] && !IsWhitespace(p[0]) && !IsWhitespace(p[|p| - 1])
    ensures Trim(" " + p) == p
  {
    assert (" " + p)[1..] == p;
    assert TrimStart(" " + p) == TrimStart(p);
  }

  // ---------------------------------------------------------------------
  // split and join
  // ---------------------------------------------------------------------

  /** `s.split(sep)` for a one-character separator: the pieces between the
      separators, always at least one (`"".split(",")` is `[""]`). */
  function Split(s: string, sep: char): (parts: seq<string>)
    ensures |parts| >= 1
    decreases |s|
  {
    if s == [] then [""]
    else
      var rest := Split(s[1..], sep);
      if s[0] == sep then [""] + rest else [[s[0]] + rest[0]] + rest[1..]
  }

  /** No piece of a split holds the separator. */
  lemma {:induction false} SplitPiecesFree(s: string, sep: char)
    ensures forall i :: 0 <= i < |Split(s, sep)| ==> sep !in Split(s, sep)[i]
    decreases |s|
  {
    if s != [] {
      SplitPiecesFree(s[1..], sep);
      var rest := Split(s[1..], sep);
      if s[0] != sep {
        assert sep !in [s[0]] + rest[0];
      }
    }
  }

  /** `parts.join(sep)`. */
  function Join(parts: seq<string>, sep: string): string
  {
    if |parts| == 0 then ""
    else if |parts| == 1 then parts[0]
    else parts[0] + sep + Join(parts[1..], sep)
  }

  /** Splitting on a character and joining back with it gives the string back. */
  lemma {:induction false} JoinSplit(s: string, sep: char)
    ensures Join(Split(s, sep), [sep]) == s
  {
    if s != [] {
      var rest := Split(s[1..], sep);
      JoinSplit(s[1..], sep);
      if s[0] == sep {
        assert Split(s, sep) == [""] + rest;
        assert s == [sep] + s[1..];
      } else {
        var parts := Split(s, sep);
        assert parts == [[s[0]] + rest[0]] + rest[1..];
        if |rest| == 1 {
          assert s == [s[0]] + rest[0];
        } else {
          assert rest == [rest[0]] + rest[1..];
          assert Join(rest, [sep]) == rest[0] + [sep] + Join(rest[1..], [sep]);
          assert parts[1..] == rest[1..];
          assert s == [s[0]] + s[1..];
        }
      }
    }
  }

  /** One separator-free piece in front of a separator splits off as the first part. */
  lemma {:induction false} SplitCons(x: string, sep: char, y: string)
    requires sep !in x
    ensures Split(x + [sep] + y, sep) == [x] + Split(y, sep)
    decreases |x|
  {
    if x == [] {
      assert x + [sep] + y == [sep] + y;
      assert ([sep] + y)[1..] == y;
    } else {
      var s := x + [sep] + y;
      assert s[1..] == x[1..] + [sep] + y;
      SplitCons(x[1..], sep, y);
      assert [x[0]] + x[1..] == x;
    }
  }

  /** A piece without the separator splits to itself. */
  lemma {:induction false} SplitNoSep(x: string, sep: char)
    requires sep !in x
    ensures Split(x, sep) == [x]
    decreases |x|
  {
    if x != [] {
      SplitNoSep(x[1..], sep);
      assert [x[0]] + x[1..] == x;
    }
  }

  /** Joining separator-free pieces and splitting again gives the pieces back. */
  lemma {:induction false} SplitJoin(parts: seq<string>, sep: char)
    requires |parts| >= 1
    requires forall i :: 0 <= i < |parts| ==> sep !in parts[i]
    ensures Split(Join(parts, [sep]), sep) == parts
  {
    if |parts| == 1 {
      SplitNoSep(parts[0], sep);
    } else {
      SplitJoin(parts[1..], sep);
      SplitCons(parts[0], sep, Join(parts[1..], [sep]));
      assert [parts[0]] + parts[1..] == parts;
    }
  }

  /** Joining two non-empty lists of pieces puts one separator between them. */
  lemma {:induction false} JoinAppend(a: seq<string>, b: seq<string>, sep: string)
    requires |a| >= 1 && |b| >= 1
    ensures Join(a + b, sep) == Join(a, sep) + sep + Join(b, sep)
    decreases |a|
  {
    assert (a + b)[0] == a[0] && (a + b)[1..] == a[1..] + b;
    if |a| > 1 {
      JoinAppend(a[1..], b, sep);
    }
  }

  /** Splitting at a separator splits the two sides independently. */
  lemma SplitAppend(x: string, sep: char, y: string)
    ensures Split(x + [sep] + y, sep) == Split(x, sep) + Split(y, sep)
  {
    var xs, ys := Split(x, sep), Split(y, sep);
    JoinSplit(x, sep);
    JoinSplit(y, sep);
    JoinAppend(xs, ys, [sep]);
    SplitPiecesFree(x, sep);
    SplitPiecesFree(y, sep);
    assert forall i :: 0 <= i < |xs + ys| ==> sep !in (xs + ys)[i] by {
      forall i | 0 <= i < |xs + ys|
        ensures sep !in (xs + ys)[i]
      {
        if i >= |xs| {
          assert (xs + ys)[i] == ys[i - |xs|];
        }
      }
    }
    SplitJoin(xs + ys, sep);
  }

  // ---------------------------------------------------------------------
  // Decimal digits and String(n)
  // ---------------------------------------------------------------------

  predicate IsDigit(c: char)
  {
    '0' <= c <= '9'
  }

  predicate AllDigits(s: string)
  {
    forall i :: 0 <= i < |s| ==> IsDigit(s[i])
  }

  function DigitChar(d: nat): (c: char)
    requires d < 10
    ensures IsDigit(c)
  {
    ('0' as int + d) as char
  }

  function DigitValue(c: char): (d: nat)
    requires IsDigit(c)
    ensures d < 10 && DigitChar(d) == c
  {
    c as int - '0' as int
  }

  function Pow10(k: nat): (p: nat)
    ensures p >= 1
  {
    if k == 0 then 1 else 10 * Pow10(k - 1)
  }

  /** The number a string of decimal digits denotes. */
  function DigitsValue(s: string): (v: nat)
    requires AllDigits(s)
    ensures v < Pow10(|s|)
  {
    if s == [] then 0 else 10 * DigitsValue(s[..|s| - 1]) + DigitValue(s[|s| - 1])
  }

  /** `String(n)` for a non-negative integer: its decimal digits, with no
      leading zero except for 0 itself. */
  function NatText(n: nat): (s: string)
    ensures |s| >= 1 && AllDigits(s)
    ensures |s| > 1 ==> s[0] != '0'
  {
    if n < 10 then [DigitChar(n)] else NatText(n / 10) + [DigitChar(n % 10)]
  }

  /** `String(n)` for an integer below 10^21 in magnitude (larger ones are
      printed in exponent notation, which callers treat separately). */
  function IntText(n: int): string
  {
    if n < 0 then "-" + NatText(-n) else NatText(n)
  }

  /** Reading back the digits `String(n)` prints gives n. */
  lemma {:induction false} NatTextValue(n: nat)
    ensures DigitsValue(NatText(n)) == n
  {
    if n >= 10 {
      NatTextValue(n / 10);
      var s := NatText(n);
      assert s[..|s| - 1] == NatText(n / 10);
    }
  }

  /** `String(n)` has at most k digits when n < 10^k, and more otherwise. */
  lemma {:induction false} NatTextLength(n: nat, k: nat)
    requires k >= 1
    ensures |NatText(n)| <= k <==> n < Pow10(k)
  {
    if n >= 10 && k > 1 {
      NatTextLength(n / 10, k - 1);
    } else if n >= 10 {
      assert |NatText(n / 10)| >= 1;
    }
  }

  /** A string of k zeros. */
  function Zeros(k: nat): (z: string)
    ensures |z| == k && AllDigits(z)
  {
    seq(k, _ => '0')
  }

  /** The last k characters of s. */
  function Last(s: string, k: nat): (r: string)
    requires k <= |s|
    ensures |r| == k
  {
    s[|s| - k..]
  }

  /** What is put in front does not reach the last k characters of a text
      that has at least k of its own. */
  lemma LastOfAppend(a: string, t: string, k: nat)
    requires k <= |t|
    ensures Last(a + t, k) == Last(t, k)
  {
    var s := a + t;
    assert forall j :: |a| <= j < |s| ==> s[j] == t[j - |a|];
  }

  /** The k lowest decimal digits of n, zero-padded on the left. */
  function DigitsOf(n: nat, k: nat): (s: string)
    ensures |s| == k && AllDigits(s)
  {
    if k == 0 then [] else DigitsOf(n / 10, k - 1) + [DigitChar(n % 10)]
  }

  /** Euclidean division is determined by quotient and remainder. */
  lemma DivModUnique(m: int, d: int, q: int, r: int)
    requires d > 0 && 0 <= r < d && m == d * q + r
    ensures m / d == q && m % d == r
  {
    var q', r' := m / d, m % d;
    assert d * (q - q') == r' - r by {
      assert m == d * q' + r';
    }
    if q - q' >= 1 {
      MulAtLeast(d, q - q');
    } else if q' - q >= 1 {
      MulAtLeast(d, q' - q);
    }
  }

  lemma {:induction false} MulAtLeast(d: int, x: int)
    requires d > 0 && x >= 1
    ensures d * x >= d
    decreases x
  {
    if x > 1 {
      MulAtLeast(d, x - 1);
      assert d * x == d * (x - 1) + d;
    }
  }

  lemma DivDiv10(n: nat, p: nat)
    requires p >= 1
    ensures (n / 10) / p == n / (10 * p)
    ensures ((n / 10) % p) * 10 + n % 10 == n % (10 * p)
  {
    var q := n / 10;
    var a, b := q / p, q % p;
    assert n == 10 * q + n % 10;
    assert q == p * a + b;
    assert n == (10 * p) * a + (10 * b + n % 10);
    DivModUnique(n, 10 * p, a, 10 * b + n % 10);
  }

  /** The k-digit padding of n denotes n mod 10^k. */
  lemma {:induction false} DigitsOfValue(n: nat, k: nat)
    ensures DigitsValue(DigitsOf(n, k)) == n % Pow10(k)
  {
    if k > 0 {
      DigitsOfValue(n / 10, k - 1);
      var s := DigitsOf(n, k);
      assert s[..|s| - 1] == DigitsOf(n / 10, k - 1);
      DivDiv10(n, Pow10(k - 1));
    }
  }

  /** The padding only sees n mod 10^k. */
  lemma {:induction false} DigitsOfMod(n: nat, k: nat)
    ensures DigitsOf(n, k) == DigitsOf(n % Pow10(k), k)
  {
    if k > 0 {
      var p := Pow10(k - 1);
      var m := n % Pow10(k);
      var b, c := (n / 10) % p, n % 10;
      assert m == 10 * b + c by {
        DivDiv10(n, p);
      }
      assert m / 10 == b && m % 10 == c by {
        DivModUnique(m, 10, b, c);
      }
      assert DigitsOf(n / 10, k - 1) == DigitsOf(b, k - 1) by {
        DigitsOfMod(n / 10, k - 1);
      }
      assert DigitsOf(m / 10, k - 1) == DigitsOf(b, k - 1);
      assert DigitsOf(m, k) == DigitsOf(m / 10, k - 1) + [DigitChar(c)];
    }
  }

  /** n with its b lowest digits dropped. */
  function Shifted(n: nat, b: nat): nat
  {
    if b == 0 then n else Shifted(n / 10, b - 1)
  }

  /** Dropping b digits is dividing by 10^b. */
  lemma {:induction false} ShiftedIsDiv(n: nat, b: nat)
    ensures Shifted(n, b) == n / Pow10(b)
  {
    if b > 0 {
      ShiftedIsDiv(n / 10, b - 1);
      DivDiv10(n, Pow10(b - 1));
    }
  }

  /** Padding to a+b digits is padding the high part to a digits followed
      by the low b digits. */
  lemma {:induction false} DigitsOfSplit(n: nat, a: nat, b: nat)
    ensures DigitsOf(n, a + b) == DigitsOf(Shifted(n, b), a) + DigitsOf(n, b)
  {
    if b > 0 {
      DigitsOfSplit(n / 10, a, b - 1);
      assert DigitsOf(n, a + b) == DigitsOf(n / 10, a + b - 1) + [DigitChar(n % 10)];
    }
  }

  /** The last k characters after one more character is appended. */
  lemma LastSnoc(s: string, d: char, k: nat)
    requires 1 <= k <= |s| + 1
    ensures Last(s + [d], k) == Last(s, k - 1) + [d]
  {
    assert (s + [d])[|s| + 1 - k..] == s[|s| - (k - 1)..] + [d];
  }

  /** `String(n)` is `String(n / 10)`, when n has more than one digit,
      followed by the last digit. */
  lemma NatTextSnoc(n: nat)
    ensures NatText(n) == (if n >= 10 then NatText(n / 10) else []) + [DigitChar(n % 10)]
  {
    if n < 10 {
      assert n % 10 == n;
    }
  }

  /** The last k characters of k zeros, a text and one more character are
      the last k - 1 of k - 1 zeros and the text, then that character. */
  lemma LastPadded(k: nat, u: string, d: char)
    requires k >= 1
    ensures Last(Zeros(k) + (u + [d]), k) == Last(Zeros(k - 1) + u, k - 1) + [d]
  {
    var z := Zeros(k) + u;
    assert Zeros(k) + (u + [d]) == z + [d];
    LastSnoc(z, d, k);
    assert z == ['0'] + (Zeros(k - 1) + u);
    LastOfAppend(['0'], Zeros(k - 1) + u, k - 1);
  }

  /** The last k characters of k zeros followed by `String(n)` are the
      k-digit padding of n: what `("0".repeat(k) + n).substr(-k)` yields. */
  lemma {:induction false} PaddedSuffix(n: nat, k: nat)
    ensures Last(Zeros(k) + NatText(n), k) == DigitsOf(n, k)
  {
    if k > 0 {
      var d := DigitChar(n % 10);
      var u := if n >= 10 then NatText(n / 10) else [];
      NatTextSnoc(n);
      LastPadded(k, u, d);
      assert DigitsOf(n, k) == DigitsOf(n / 10, k - 1) + [d];
      if n >= 10 {
        PaddedSuffix(n / 10, k - 1);
      } else {
        DigitsOfZero(k - 1);
        assert Zeros(k - 1) + u == Zeros(k - 1);
      }
    }
  }

  lemma {:induction false} DigitsOfZero(k: nat)
    ensures DigitsOf(0, k) == Zeros(k)
  {
    if k > 0 {
      DigitsOfZero(k - 1);
      assert Zeros(k) == Zeros(k - 1) + ['0'];
    }
  }

  // ---------------------------------------------------------------------
  // parseInt and Number
  // ---------------------------------------------------------------------

  /** The longest prefix of s made of decimal digits. */
  function DigitPrefix(s: string): (d: string)
    ensures |d| <= |s| && AllDigits(d) && d == s[..|d|]
    ensures |d| == |s| || !IsDigit(s[|d|])
  {
    if s != [] && IsDigit(s[0]) then [s[0]] + DigitPrefix(s[1..]) else []
  }

  predicate IsHexDigit(c: char)
  {
    IsDigit(c) || 'a' <= c <= 'f' || 'A' <= c <= 'F'
  }

  function HexDigitValue(c: char): nat
    requires IsHexDigit(c)
  {
    if IsDigit(c) then DigitValue(c)
    else if 'a' <= c <= 'f' then c as int - 'a' as int + 10
    else c as int - 'A' as int + 10
  }

  /** The longest prefix of s made of hexadecimal digits. */
  function HexPrefix(s: string): (d: string)
    ensures |d| <= |s| && d == s[..|d|]
    ensures forall i :: 0 <= i < |d| ==> IsHexDigit(d[i])
  {
    if s != [] && IsHexDigit(s[0]) then [s[0]] + HexPrefix(s[1..]) else []
  }

  function HexValue(s: string): nat
    requires forall i :: 0 <= i < |s| ==> IsHexDigit(s[i])
  {
    if s == [] then 0 else 16 * HexValue(s[..|s| - 1]) + HexDigitValue(s[|s| - 1])
  }

  /** `parseInt(s)` without a radix; `None` stands for NaN. Leading
      whitespace and one sign are skipped, a `0x`/`0X` prefix selects
      hexadecimal, and the longest run of digits that follows is read;
      parsing stops at the first other character. */
  function ParseInt(s: string): Option<int>
  {
    var t := TrimStart(s);
    var negative := t != [] && t[0] == '-';
    var u := if t != [] && (t[0] == '+' || t[0] == '-') then t[1..] else t;
    match UnsignedPrefix(u)
    case None => None
    case Some(m) => Some(if negative then -(m as int) else m as int)
  }

  /** The unsigned part of `parseInt`: `0x`/`0X` followed by hexadecimal
      digits, or else decimal digits, read as far as they go. */
  function UnsignedPrefix(u: string): Option<nat>
  {
    if |u| >= 2 && u[0] == '0' && (u[1] == 'x' || u[1] == 'X') then
      var h := HexPrefix(u[2..]);
      if h == [] then None else Some(HexValue(h))
    else
      var d := DigitPrefix(u);
      if d == [] then None else Some(DigitsValue(d))
  }

  /** A non-empty run of decimal digits followed by anything that does not
      start with a digit (nor, after a lone 0, with an `x` that would select
      hexadecimal) parses to the value of the run. */
  lemma ParseIntDigits(d: string, rest: string)
    requires d != [] && AllDigits(d)
    requires rest == [] || (!IsDigit(rest[0]) && (d == "0" ==> rest[0] != 'x' && rest[0] != 'X'))
    ensures ParseInt(d + rest) == Some(DigitsValue(d))
  {
    var s := d + rest;
    assert s[0] == d[0];
    DigitNotWhitespace(s[0]);
    TrimStartOfNonSpace(s);
    UnsignedDigits(d, rest);
  }

  /** A text that does not start with whitespace is its own `trimStart`. */
  lemma TrimStartOfNonSpace(s: string)
    requires s != [] && !IsWhitespace(s[0])
    ensures TrimStart(s) == s
  {
  }

  /** Digits not followed by more digits are read in decimal, unless they
      are a lone 0 followed by an 'x'. */
  lemma UnsignedDigits(d: string, rest: string)
    requires d != [] && AllDigits(d)
    requires rest == [] || (!IsDigit(rest[0]) && (d == "0" ==> rest[0] != 'x' && rest[0] != 'X'))
    ensures UnsignedPrefix(d + rest) == Some(DigitsValue(d))
  {
    var s := d + rest;
    DigitPrefixOf(d, rest);
    if |s| >= 2 && s[0] == '0' {
      if |d| == 1 {
        assert d == "0" && s[1] == rest[0];
      } else {
        assert s[1] == d[1];
      }
    }
  }

  lemma {:induction false} DigitPrefixOf(d: string, rest: string)
    requires AllDigits(d)
    requires rest == [] || !IsDigit(rest[0])
    ensures DigitPrefix(d + rest) == d
  {
    if d != [] {
      assert (d + rest)[1..] == d[1..] + rest;
      DigitPrefixOf(d[1..], rest);
    } else {
      assert d + rest == rest;
    }
  }

  /** The integer and fraction parts of an unsigned decimal literal
      `digits[.digits]` with at least one digit; `None` if u is not one. */
  function DecimalLiteral(u: string): Option<real>
  {
    var i := DigitPrefix(u);
    var rest := u[|i|..];
    if rest == [] then
      if i == [] then None else Some(DigitsValue(i) as real)
    else if rest[0] == '.' && AllDigits(rest[1..]) && |i| + |rest| >= 2 then
      var f := rest[1..];
      Some(DigitsValue(i) as real + DigitsValue(f) as real / Pow10(|f|) as real)
    else None
  }

  /** `Number(s)` for a string: the trimmed text read as a signed decimal
      literal, 0 for a blank string, NaN otherwise. */
  function ToNumber(s: string): Num
  {
    var t := Trim(s);
    if t == [] then Finite(0.0) else SignedDecimal(t)
  }

  /** An optional sign followed by an unsigned decimal literal. */
  function SignedDecimal(t: string): Num
    requires t != []
  {
    var negative := t[0] == '-';
    var u := if t[0] == '+' || t[0] == '-' then t[1..] else t;
    match DecimalLiteral(u)
    case None => NaN
    case Some(v) => Finite(if negative then -v else v)
  }

  /** A digit is not whitespace. */
  lemma DigitNotWhitespace(c: char)
    requires IsDigit(c)
    ensures !IsWhitespace(c)
  {
  }

  /** An unsigned run of digits is read as its value. */
  lemma DecimalLiteralOfDigits(d: string)
    requires d != [] && AllDigits(d)
    ensures DecimalLiteral(d) == Some(DigitsValue(d) as real)
  {
    DigitPrefixOf(d, []);
    assert d + [] == d;
    assert d[|d|..] == [];
  }

  // ---------------------------------------------------------------------
  // padStart, toLowerCase, includes
  // ---------------------------------------------------------------------

  /** `s.padStart(n, c)`: fill on the left up to length n, never truncate. */
  function PadStart(s: string, n: nat, c: char): (r: string)
  {
    if |s| >= n then s else seq(n - |s|, _ => c) + s
  }

  /** Padding with '0' puts zeros in front. */
  lemma PadStartZeros(s: string, n: nat)
    ensures PadStart(s, n, '0') == if |s| >= n then s else Zeros(n - |s|) + s
  {
    if |s| < n {
      assert seq(n - |s|, _ => '0') == Zeros(n - |s|);
    }
  }

  /** Padding digits with '0' keeps them digits, ending in the original
      text, with the same value. */
  lemma PadStartDigits(s: string, n: nat)
    requires AllDigits(s)
    ensures var p := PadStart(s, n, '0');
      && |p| == (if |s| >= n then |s| else n) && AllDigits(p)
      && p[|p| - |s|..] == s && DigitsValue(p) == DigitsValue(s)
  {
    PadStartZeros(s, n);
    if |s| < n {
      LeadingZerosValue(n - |s|, s);
      assert (Zeros(n - |s|) + s)[n - |s|..] == s;
    }
  }

  /** A string of zeros denotes 0. */
  lemma {:induction false} ZerosValue(k: nat)
    ensures DigitsValue(Zeros(k)) == 0
  {
    if k > 0 {
      assert Zeros(k)[..k - 1] == Zeros(k - 1);
      ZerosValue(k - 1);
    }
  }

  /** Leading zeros do not change the value of a digit string. */
  lemma {:induction false} LeadingZerosValue(k: nat, s: string)
    requires AllDigits(s)
    ensures AllDigits(Zeros(k) + s) && DigitsValue(Zeros(k) + s) == DigitsValue(s)
  {
    var t := Zeros(k) + s;
    assert AllDigits(t) by {
      forall i | 0 <= i < |t|
        ensures IsDigit(t[i])
      {
        if i >= k {
          assert t[i] == s[i - k];
        }
      }
    }
    if s == [] {
      assert t == Zeros(k);
      ZerosValue(k);
    } else {
      assert t[..|t| - 1] == Zeros(k) + s[..|s| - 1];
      LeadingZerosValue(k, s[..|s| - 1]);
    }
  }

  /** `toLowerCase` on one character; only A-Z are mapped. */
  function LowerChar(c: char): char
  {
    if 'A' <= c <= 'Z' then (c as int + 32) as char else c
  }

  function ToLower(s: string): (r: string)
    ensures |r| == |s|
    ensures forall i :: 0 <= i < |s| ==> r[i] == LowerChar(s[i])
  {
    seq(|s|, i requires 0 <= i < |s| => LowerChar(s[i]))
  }

  predicate StartsWith(s: string, p: string)
  {
    |p| <= |s| && s[..|p|] == p
  }

  /** `s.includes(p)`. */
  predicate Contains(s: string, p: string)
    decreases |s|
  {
    StartsWith(s, p) || (s != [] && Contains(s[1..], p))
  }

  /** p occurs in s starting at position i. */
  predicate OccursAt(s: string, p: string, i: int)
  {
    0 <= i <= |s| - |p| && s[i..i + |p|] == p
  }

  /** `includes` holds exactly when p occurs at some position of s. */
  lemma {:induction false} ContainsAt(s: string, p: string)
    ensures Contains(s, p) <==> exists i :: OccursAt(s, p, i)
  {
    if StartsWith(s, p) {
      assert OccursAt(s, p, 0);
    } else if s == [] {
    } else {
      ContainsAt(s[1..], p);
      if Contains(s[1..], p) {
        var i :| OccursAt(s[1..], p, i);
        assert s[1..][i..i + |p|] == s[i + 1..i + 1 + |p|];
        assert OccursAt(s, p, i + 1);
      }
      if exists i :: OccursAt(s, p, i) {
        var i :| OccursAt(s, p, i);
        assert i != 0;
        assert s[1..][i - 1..i - 1 + |p|] == s[i..i + |p|];
        assert OccursAt(s[1..], p, i - 1);
      }
    }
  }
}
