/**
 * Indian-numbering number-to-words (lib/utils.ts). The amount is floored,
 * written in decimal, padded on the left to nine digits, and the nine
 * digits are cut into the crore, lakh, thousand, hundred and final groups
 * (widths 2, 2, 2, 1, 2), each of which is named from two fixed tables.
 */
module Utils {
  import opened JsBuiltins

  /** Table `a`: the names of 0 to 19 (0 has the empty name). */
  const Ones: seq<string> := [
    "", "One", "Two", "Three", "Four", "Five", "Six", "Seven", "Eight", "Nine",
    "Ten", "Eleven", "Twelve", "Thirteen", "Fourteen", "Fifteen", "Sixteen",
    "Seventeen", "Eighteen", "Nineteen"
  ]

  /** Table `b`: the names of the tens, indexed by the tens digit. */
  const Tens: seq<string> := [
    "", "", "Twenty", "Thirty", "Forty", "Fifty", "Sixty", "Seventy", "Eighty", "Ninety"
  ]

  /** 10^9 and 10^21: the padding width and the point where `String(n)`
      switches to exponent notation. */
  const Billion: nat := 1_000_000_000
  const ExponentFrom: nat := 1_000_000_000_000_000_000_000

  /** The name of a group of value 1 to 99: `a[v]` when that is non-empty,
      otherwise the tens name, a space, and the ones name (empty for a
      ones digit 0, which leaves a trailing space). */
  function GroupName(v: nat): string
    requires 1 <= v < 100
  {
    if v < 20 then Ones[v] else Tens[v / 10] + " " + Ones[v % 10]
  }

  /** One non-final group: nothing when it is zero, else its name and suffix. */
  function Section(v: nat, suffix: string): string
    requires v < 100
  {
    if v == 0 then "" else GroupName(v) + suffix
  }

  /** The text accumulated from the crore, lakh, thousand and hundred groups. */
  function Head(crore: nat, lakh: nat, thousand: nat, hundred: nat): string
    requires crore < 100 && lakh < 100 && thousand < 100 && hundred < 10
  {
    Section(crore, " Crore ") + Section(lakh, " Lakh ")
    + Section(thousand, " Thousand ") + Section(hundred, " Hundred ")
  }

  /** The whole untrimmed text: the head, then the final group, with "and "
      in front of it when the head is non-empty. */
  function Assemble(head: string, rest: nat): string
    requires rest < 100
  {
    head + (if rest == 0 then "" else (if head != "" then "and " else "") + GroupName(rest))
  }

  /** `("000000000" + n).substr(-9)`; `None` when `String(n)` is in exponent
      notation (|n| >= 10^21), whose last nine characters always hold the
      letter `e` and so never match the all-digit pattern. */
  function PaddedTail(n: int): (r: Option<string>)
    ensures r.Some? ==> |r.value| == 9
  {
    if n <= -(ExponentFrom as int) || n >= ExponentFrom then None
    else Some(Last(Zeros(9) + IntText(n), 9))
  }

  /** `numberToWords(num)`: the amount is floored first. */
  function NumberToWords(num: real): string
  {
    IntWords(num.Floor)
  }

  /** The words of a whole amount. */
  function IntWords(n: int): string
  {
    if n == 0 then "Zero"
    else
      match PaddedTail(n)
      case None => ""
      case Some(d) => WordsOfDigits(d)
  }

  /** The regular-expression step: nine digits are cut into the five groups
      and named; anything else (a minus sign inside) gives "". */
  function WordsOfDigits(d: string): string
    requires |d| == 9
  {
    if !AllDigits(d) then ""
    else
      assert Pow10(2) == 100 && Pow10(1) == 10;
      Trim(Assemble(Head(DigitsValue(d[0..2]), DigitsValue(d[2..4]), DigitsValue(d[4..6]),
                         DigitsValue(d[6..7])), DigitsValue(d[7..9])))
  }

  // ---------------------------------------------------------------------
  // The arithmetic reading of the grouping
  // ---------------------------------------------------------------------

  /** Reference definition: the words for m < 10^9 computed from its digits
      by arithmetic rather than by padding text. */
  function WordsOfGroups(m: nat): string
  {
    Trim(Assemble(Head((m / 10_000_000) % 100, (m / 100_000) % 100, (m / 1000) % 100,
                       (m / 100) % 10), m % 100))
  }

  /** The nine padded digits of n split into the five groups. */
  lemma {:induction false} NineDigitGroups(n: nat)
    ensures var d := DigitsOf(n, 9);
      && DigitsValue(d[0..2]) == (n / 10_000_000) % 100
      && DigitsValue(d[2..4]) == (n / 100_000) % 100
      && DigitsValue(d[4..6]) == (n / 1000) % 100
      && DigitsValue(d[6..7]) == (n / 100) % 10
      && DigitsValue(d[7..9]) == n % 100
  {
    var d := DigitsOf(n, 9);
    DigitsOfSplit(n, 2, 7);
    DigitsOfSplit(n, 2, 5);
    DigitsOfSplit(n, 2, 3);
    DigitsOfSplit(n, 1, 2);
    ShiftedIsDiv(n, 7);
    ShiftedIsDiv(n, 5);
    ShiftedIsDiv(n, 3);
    ShiftedIsDiv(n, 2);
    assert Pow10(7) == 10_000_000 && Pow10(5) == 100_000 && Pow10(3) == 1000;
    assert Pow10(2) == 100 && Pow10(1) == 10;
    var c, l, t, h, r := DigitsOf(n / 10_000_000, 2), DigitsOf(n / 100_000, 2),
      DigitsOf(n / 1000, 2), DigitsOf(n / 100, 1), DigitsOf(n, 2);
    assert d == c + l + t + h + r;
    assert d[0..2] == c && d[2..4] == l && d[4..6] == t && d[6..7] == h && d[7..9] == r;
    DigitsOfValue(n / 10_000_000, 2);
    DigitsOfValue(n / 100_000, 2);
    DigitsOfValue(n / 1000, 2);
    DigitsOfValue(n / 100, 1);
    DigitsOfValue(n, 2);
  }

  /** For 0 <= n < 10^21 the padded text is the nine low digits of n. */
  lemma PaddedTailOfNat(n: nat)
    requires n < ExponentFrom
    ensures PaddedTail(n) == Some(DigitsOf(n, 9))
  {
    PaddedSuffix(n, 9);
  }

  /** The padded nine digits of m are named as the arithmetic groups of m. */
  lemma DigitsWords(m: nat)
    ensures WordsOfDigits(DigitsOf(m, 9)) == WordsOfGroups(m)
  {
    NineDigitGroups(m);
  }

  /** For a positive whole amount below 10^21, the words are those of its
      last nine digits, cut arithmetically into groups of widths 2,2,2,1,2. */
  lemma {:induction false} WordsOfNat(n: nat)
    requires 1 <= n < ExponentFrom
    ensures NumberToWords(n as real) == WordsOfGroups(n % Billion)
  {
    PaddedTailOfNat(n);
    assert NumberToWords(n as real) == WordsOfDigits(DigitsOf(n, 9));
    assert Pow10(9) == Billion;
    DigitsOfMod(n, 9);
    DigitsWords(n % Billion);
  }

  /** Below 10^9 the words are exactly the grouped words of n. */
  lemma WordsBelowBillion(n: nat)
    requires 1 <= n < Billion
    ensures NumberToWords(n as real) == WordsOfGroups(n)
  {
    PaddedTailOfNat(n);
    assert NumberToWords(n as real) == WordsOfDigits(DigitsOf(n, 9));
    DigitsWords(n);
  }

  /** The five groups of m < 10^9, read back as place values, give m. */
  lemma GroupsRecompose(m: nat)
    requires m < Billion
    ensures m == (m / 10_000_000) % 100 * 10_000_000 + (m / 100_000) % 100 * 100_000
                 + (m / 1000) % 100 * 1000 + (m / 100) % 10 * 100 + m % 100
  {
    var q2, r := m / 100, m % 100;
    var q3, h := q2 / 10, q2 % 10;
    var q5, t := q3 / 100, q3 % 100;
    var q7, l := q5 / 100, q5 % 100;
    DivModUnique(m, 1000, q3, 100 * h + r);
    DivModUnique(m, 100_000, q5, 1000 * t + 100 * h + r);
    DivModUnique(m, 10_000_000, q7, 100_000 * l + 1000 * t + 100 * h + r);
    DivModUnique(q7, 100, 0, q7);
  }

  /** Conversely, five groups within their widths are the groups of the
      number they denote. */
  lemma GroupDigits(m: nat, c: nat, l: nat, t: nat, h: nat, r: nat)
    requires c < 100 && l < 100 && t < 100 && h < 10 && r < 100
    requires m == c * 10_000_000 + l * 100_000 + t * 1000 + h * 100 + r
    ensures (m / 10_000_000) % 100 == c && (m / 100_000) % 100 == l && (m / 1000) % 100 == t
    ensures (m / 100) % 10 == h && m % 100 == r
  {
    DivModUnique(m, 10_000_000, c, l * 100_000 + t * 1000 + h * 100 + r);
    DivModUnique(m, 100_000, c * 100 + l, t * 1000 + h * 100 + r);
    DivModUnique(c * 100 + l, 100, c, l);
    DivModUnique(m, 1000, c * 10_000 + l * 100 + t, h * 100 + r);
    DivModUnique(c * 10_000 + l * 100 + t, 100, c * 100 + l, t);
    DivModUnique(m, 100, c * 100_000 + l * 1000 + t * 10 + h, r);
    DivModUnique(c * 100_000 + l * 1000 + t * 10 + h, 10, c * 10_000 + l * 100 + t, h);
    DivModUnique(c, 100, 0, c);
  }

  /** The grouped words of a number given by its groups. */
  lemma GroupsOf(m: nat, c: nat, l: nat, t: nat, h: nat, r: nat)
    requires c < 100 && l < 100 && t < 100 && h < 10 && r < 100
    requires m == c * 10_000_000 + l * 100_000 + t * 1000 + h * 100 + r
    ensures WordsOfGroups(m) == Trim(Assemble(Head(c, l, t, h), r))
  {
    GroupDigits(m, c, l, t, h, r);
  }

  /** The four leading groups of m < 10^9 are all zero exactly when m < 100. */
  lemma HeadGroupsZero(m: nat)
    requires m < Billion
    ensures ((m / 10_000_000) % 100 == 0 && (m / 100_000) % 100 == 0 && (m / 1000) % 100 == 0
             && (m / 100) % 10 == 0) <==> m < 100
  {
    GroupsRecompose(m);
    if m < 100 {
      GroupDigits(m, 0, 0, 0, 0, m);
    }
  }

  /** Only the last nine digits are used: from 10^9 on, the words are those
      of n mod 10^9, and nothing at all for an exact multiple of 10^9. */
  lemma WordsAboveBillion(n: nat)
    requires Billion <= n < ExponentFrom
    ensures n % Billion != 0 ==> NumberToWords(n as real) == NumberToWords((n % Billion) as real)
    ensures n % Billion == 0 ==> NumberToWords(n as real) == ""
  {
    WordsOfNat(n);
    var k := n % Billion;
    if k != 0 {
      WordsBelowBillion(k);
    } else {
      GroupsOf(0, 0, 0, 0, 0, 0);
      assert Head(0, 0, 0, 0) == "";
    }
  }

  /** A negative amount of at most eight digits leaves its minus sign inside
      the last nine characters, so the pattern fails and the result is empty. */
  lemma {:induction false} WordsOfSmallNegative(n: int)
    requires -100_000_000 < n < 0
    ensures NumberToWords(n as real) == ""
  {
    var t := NatText(-n);
    NatTextLength(-n, 8);
    assert Pow10(8) == 100_000_000;
    var s := Zeros(9) + IntText(n);
    assert s == Zeros(9) + "-" + t;
    var tail := Last(s, 9);
    assert tail[8 - |t|] == '-';
  }

  /** From nine digits on, the minus sign of a negative amount falls
      outside the last nine characters of the padded text. */
  lemma PaddedTailOfNegative(n: int)
    requires -(ExponentFrom as int) < n <= -100_000_000
    ensures PaddedTail(n) == PaddedTail(-n)
  {
    var t := NatText(-n);
    NatTextLength(-n, 8);
    assert Pow10(8) == 100_000_000;
    assert Zeros(9) + IntText(n) == (Zeros(9) + "-") + t;
    LastOfAppend(Zeros(9) + "-", t, 9);
    LastOfAppend(Zeros(9), t, 9);
  }

  /** A negative amount of nine digits or more is read without its sign. */
  lemma WordsOfLargeNegative(n: int)
    requires -(ExponentFrom as int) < n <= -100_000_000
    ensures IntWords(n) == IntWords(-n)
  {
    PaddedTailOfNegative(n);
  }

  /** Amounts whose `String` is in exponent notation give the empty string. */
  lemma WordsOfHuge(num: real)
    requires num.Floor >= ExponentFrom || num.Floor <= -(ExponentFrom as int)
    ensures NumberToWords(num) == ""
  {
  }

  /** The floor is taken first: any amount in [0, 1) is "Zero". */
  lemma WordsOfFraction(num: real)
    requires 0.0 <= num < 1.0
    ensures NumberToWords(num) == "Zero"
  {
  }

  // ---------------------------------------------------------------------
  // Shape of the result
  // ---------------------------------------------------------------------

  /** The name of a group with the trailing space of a round tens name
      removed. */
  function GroupWords(v: nat): string
    requires 1 <= v < 100
  {
    if v < 20 then Ones[v] else if v % 10 == 0 then Tens[v / 10] else Tens[v / 10] + " " + Ones[v % 10]
  }

  /** A word sequence: a capital first and a lower-case letter last. */
  predicate Name(s: string)
  {
    s != [] && 'A' <= s[0] <= 'Z' && 'a' <= s[|s| - 1] <= 'z'
  }

  /** Every entry of the ones table from 1 on is a name. */
  lemma OnesShape(i: nat)
    requires 1 <= i < 20
    ensures Name(Ones[i])
  {
  }

  /** Every entry of the tens table from 2 on is a name. */
  lemma TensShape(i: nat)
    requires 2 <= i < 10
    ensures Name(Tens[i])
  {
  }

  /** A group name is its words followed by one space exactly when it is a
      round tens value from 20 on. */
  lemma GroupNameShape(v: nat)
    requires 1 <= v < 100
    ensures Name(GroupWords(v))
    ensures GroupName(v) == Spaced(GroupWords(v), v >= 20 && v % 10 == 0)
  {
    if v < 20 {
      OnesShape(v);
    } else {
      var q, r := v / 10, v % 10;
      TensShape(q);
      if r != 0 {
        OnesShape(r);
        var w := Tens[q] + " " + Ones[r];
        assert w[0] == Tens[q][0] && w[|w| - 1] == Ones[r][|Ones[r]| - 1];
      } else {
        assert Ones[0] == "";
      }
    }
  }

  /** TrimEnd turns a group name into its words. */
  lemma GroupWordsShape(v: nat)
    requires 1 <= v < 100
    ensures TrimEnd(GroupName(v)) == GroupWords(v)
    ensures Name(GroupWords(v))
  {
    GroupNameShape(v);
    var w := GroupWords(v);
    if v >= 20 && v % 10 == 0 {
      assert (w + " ")[..|w|] == w;
    }
  }

  /** A non-empty run of section text: a capital first, a lower-case letter
      and a space last. */
  ghost predicate Worded(s: string)
  {
    |s| >= 2 && 'A' <= s[0] <= 'Z' && 'a' <= s[|s| - 2] <= 'z' && s[|s| - 1] == ' '
  }

  /** A section is empty exactly when its group is zero, and worded otherwise. */
  lemma SectionShape(v: nat, suffix: string)
    requires v < 100 && |suffix| >= 2 && 'a' <= suffix[|suffix| - 2] <= 'z' && suffix[|suffix| - 1] == ' '
    ensures Section(v, suffix) == "" <==> v == 0
    ensures v != 0 ==> Worded(Section(v, suffix))
  {
    if v != 0 {
      GroupNameShape(v);
      var s := GroupName(v) + suffix;
      assert s[0] == GroupWords(v)[0];
      assert s[|s| - 2] == suffix[|suffix| - 2];
    }
  }

  /** Worded text joined to worded or empty text stays worded. */
  lemma WordedJoin(a: string, b: string)
    requires a == "" || Worded(a)
    requires b == "" || Worded(b)
    ensures a + b == "" <==> a == "" && b == ""
    ensures a + b == "" || Worded(a + b)
  {
    if a != "" && b != "" {
      var s := a + b;
      assert s[0] == a[0] && s[|s| - 1] == b[|b| - 1] && s[|s| - 2] == b[|b| - 2];
    }
  }

  /** The head is empty exactly when the four leading groups are zero, and
      worded otherwise. */
  lemma HeadShape(c: nat, l: nat, t: nat, h: nat)
    requires c < 100 && l < 100 && t < 100 && h < 10
    ensures var hd := Head(c, l, t, h);
      && (hd == "" <==> c == 0 && l == 0 && t == 0 && h == 0)
      && (hd != "" ==> Worded(hd))
  {
    var s1, s2, s3, s4 := Section(c, " Crore "), Section(l, " Lakh "),
      Section(t, " Thousand "), Section(h, " Hundred ");
    SectionShape(c, " Crore ");
    SectionShape(l, " Lakh ");
    SectionShape(t, " Thousand ");
    SectionShape(h, " Hundred ");
    WordedJoin(s1, s2);
    WordedJoin(s1 + s2, s3);
    WordedJoin(s1 + s2 + s3, s4);
  }

  /** With no final group the trimmed text is the head without its
      trailing space. */
  lemma AssembleNoRest(hd: string)
    requires hd == "" || Worded(hd)
    ensures Trim(Assemble(hd, 0)) == if hd == "" then "" else hd[..|hd| - 1]
  {
    assert Assemble(hd, 0) == hd;
    if hd != "" {
      assert TrimStart(hd) == hd;
      TrimEndOneSpace(hd);
    }
  }

  /** A name, followed by one space when `spaced`. */
  function Spaced(w: string, spaced: bool): string
  {
    if spaced then w + " " else w
  }

  /** A name followed by at most one space trims to the name. */
  lemma TrimNameSpace(w: string, spaced: bool)
    requires Name(w)
    ensures TrimStart(Spaced(w, spaced)) == Spaced(w, spaced)
    ensures TrimEnd(Spaced(w, spaced)) == w
  {
    LetterNotWhitespace(w[0]);
    LetterNotWhitespace(w[|w| - 1]);
    if spaced {
      TrimEndSpace(w);
      assert (w + " ")[0] == w[0];
    }
  }

  /** No letter is whitespace. */
  lemma LetterNotWhitespace(c: char)
    requires 'A' <= c <= 'Z' || 'a' <= c <= 'z'
    ensures !IsWhitespace(c)
  {
  }

  /** One trailing space comes off a name. */
  lemma TrimEndSpace(w: string)
    requires Name(w)
    ensures TrimEnd(w + " ") == w
  {
    assert (w + " ")[..|w|] == w;
  }

  /** A worded head shields everything after it from TrimStart. */
  lemma TrimStartOfHead(hd: string, rest: string)
    requires Worded(hd)
    ensures TrimStart(hd + rest) == hd + rest
  {
    assert (hd + rest)[0] == hd[0];
  }

  /** A name with at most one space after it shields what is in front of
      it from TrimEnd. */
  lemma TrimEndOfName(front: string, w: string, spaced: bool)
    requires Name(w)
    ensures TrimEnd(front + Spaced(w, spaced)) == front + w
  {
    var g := Spaced(w, spaced);
    TrimNameSpace(w, spaced);
    assert g[0] == w[0];
    TrimEndAppend(front, g);
  }

  /** Trimming a non-empty head, "and ", and a name with at most one
      space after it. */
  lemma TrimAfterHead(hd: string, w: string, spaced: bool)
    requires Worded(hd) && Name(w)
    ensures Trim(hd + ("and " + Spaced(w, spaced))) == hd + "and " + w
  {
    var s := hd + ("and " + Spaced(w, spaced));
    TrimStartOfHead(hd, "and " + Spaced(w, spaced));
    assert s == (hd + "and ") + Spaced(w, spaced);
    TrimEndOfName(hd + "and ", w, spaced);
  }

  /** Trimming a head, the optional "and ", and a name with at most one
      space after it. */
  lemma TrimJoined(hd: string, w: string, spaced: bool)
    requires (hd == "" || Worded(hd)) && Name(w)
    ensures Trim(hd + ((if hd != "" then "and " else "") + Spaced(w, spaced)))
         == if hd == "" then w else hd + "and " + w
  {
    if hd == "" {
      TrimNameSpace(w, spaced);
      assert hd + ("" + Spaced(w, spaced)) == Spaced(w, spaced);
    } else {
      TrimAfterHead(hd, w, spaced);
    }
  }

  /** With a final group, "and " goes in front of it exactly when the head
      is non-empty, and trimming removes only the space a round tens name
      leaves. */
  lemma AssembleWithRest(hd: string, r: nat)
    requires 1 <= r < 100 && (hd == "" || Worded(hd))
    ensures Trim(Assemble(hd, r)) == if hd == "" then GroupWords(r) else hd + "and " + GroupWords(r)
  {
    GroupNameShape(r);
    TrimJoined(hd, GroupWords(r), r >= 20 && r % 10 == 0);
  }

  /** The words of 1 <= m < 10^9 in terms of its groups: with no final
      group they are the head without its trailing space, below 100 the
      final group alone, and otherwise the head, "and ", and the final group. */
  lemma WordsShape(m: nat)
    requires 1 <= m < Billion
    ensures var hd := Head((m / 10_000_000) % 100, (m / 100_000) % 100, (m / 1000) % 100, (m / 100) % 10);
      && (m % 100 == 0 ==> hd != "" && NumberToWords(m as real) == hd[..|hd| - 1])
      && (m < 100 ==> NumberToWords(m as real) == GroupWords(m))
      && (m % 100 != 0 && m >= 100 ==>
            hd != "" && NumberToWords(m as real) == hd + "and " + GroupWords(m % 100))
  {
    WordsBelowBillion(m);
    HeadGroupsZero(m);
    HeadShape((m / 10_000_000) % 100, (m / 100_000) % 100, (m / 1000) % 100, (m / 100) % 10);
    var hd := Head((m / 10_000_000) % 100, (m / 100_000) % 100, (m / 1000) % 100, (m / 100) % 10);
    if m % 100 == 0 {
      AssembleNoRest(hd);
    } else {
      AssembleWithRest(hd, m % 100);
    }
    if m < 100 {
      DivModUnique(m, 100, 0, m);
    }
  }

  /** A text with one trailing whitespace character at most loses it to TrimEnd. */
  lemma TrimEndOneSpace(g: string)
    requires g != [] && !IsWhitespace(g[0])
    requires |g| >= 2 ==> !IsWhitespace(g[|g| - 2])
    ensures TrimEnd(g) == if IsWhitespace(g[|g| - 1]) then g[..|g| - 1] else g
  {
    if IsWhitespace(g[|g| - 1]) {
      assert TrimEnd(g) == TrimEnd(g[..|g| - 1]);
    }
  }

  /** TrimEnd only looks at the end: a non-blank last part shields the front. */
  lemma {:induction false} TrimEndAppend(a: string, b: string)
    requires exists i :: 0 <= i < |b| && !IsWhitespace(b[i])
    ensures TrimEnd(a + b) == a + TrimEnd(b)
    decreases |b|
  {
    var s := a + b;
    if IsWhitespace(b[|b| - 1]) {
      assert s[..|s| - 1] == a + b[..|b| - 1];
      var i :| 0 <= i < |b| && !IsWhitespace(b[i]);
      assert i < |b| - 1 && b[..|b| - 1][i] == b[i];
      TrimEndAppend(a, b[..|b| - 1]);
    }
  }

  /** For 1 <= n < 10^9 the words are non-empty, start with a capital and
      end with a letter. */
  lemma WordsNonEmpty(m: nat)
    requires 1 <= m < Billion
    ensures Name(NumberToWords(m as real))
  {
    WordsShape(m);
    var c, l, t, h := (m / 10_000_000) % 100, (m / 100_000) % 100, (m / 1000) % 100, (m / 100) % 10;
    var hd := Head(c, l, t, h);
    HeadShape(c, l, t, h);
    if m < 100 {
      GroupWordsShape(m);
    } else if m % 100 == 0 {
      NameOfHead(hd);
    } else {
      GroupWordsShape(m % 100);
      NameOfHeadAnd(hd, GroupWords(m % 100));
    }
  }

  /** A worded head without its trailing space is a name. */
  lemma NameOfHead(hd: string)
    requires Worded(hd)
    ensures Name(hd[..|hd| - 1])
  {
  }

  /** A worded head, "and " and a name make a name. */
  lemma NameOfHeadAnd(hd: string, g: string)
    requires Worded(hd) && Name(g)
    ensures Name(hd + "and " + g)
  {
    var w := hd + "and " + g;
    assert w[0] == hd[0] && w[|w| - 1] == g[|g| - 1];
  }

  /** Below a hundred the words are the group's own words. */
  lemma WordsBelowHundred(m: nat)
    requires 1 <= m < 100
    ensures NumberToWords(m as real) == GroupWords(m)
  {
    WordsShape(m);
  }

  /** The trimmed text of five groups, from the shape of the head. */
  function GroupedText(hd: string, r: nat): string
    requires r < 100 && (hd == "" || Worded(hd))
  {
    if r == 0 then (if hd == "" then "" else hd[..|hd| - 1])
    else if hd == "" then GroupWords(r)
    else hd + "and " + GroupWords(r)
  }

  /** Trimming the assembled text of five groups gives GroupedText. */
  lemma TrimAssembled(c: nat, l: nat, t: nat, h: nat, r: nat)
    requires c < 100 && l < 100 && t < 100 && h < 10 && r < 100
    ensures Head(c, l, t, h) == "" || Worded(Head(c, l, t, h))
    ensures Trim(Assemble(Head(c, l, t, h), r)) == GroupedText(Head(c, l, t, h), r)
  {
    var hd := Head(c, l, t, h);
    HeadShape(c, l, t, h);
    if r == 0 {
      AssembleNoRest(hd);
    } else {
      AssembleWithRest(hd, r);
    }
  }

  /** The words of a number given by its five groups. */
  lemma WordsByGroups(m: nat, c: nat, l: nat, t: nat, h: nat, r: nat)
    requires c < 100 && l < 100 && t < 100 && h < 10 && r < 100
    requires m == c * 10_000_000 + l * 100_000 + t * 1000 + h * 100 + r && m >= 1
    ensures Head(c, l, t, h) == "" || Worded(Head(c, l, t, h))
    ensures NumberToWords(m as real) == GroupedText(Head(c, l, t, h), r)
  {
    WordsBelowBillion(m);
    GroupsOf(m, c, l, t, h, r);
    TrimAssembled(c, l, t, h, r);
  }

  // ---------------------------------------------------------------------
  // Worked values
  // ---------------------------------------------------------------------

  lemma WordsOfZero()
    ensures NumberToWords(0.0) == "Zero"
  {
  }

  /** The names the worked values below are made of. */
  lemma NamesOfExamples(a: nat, b: nat, c: nat, r: nat)
    requires a == 19 && b == 20 && c == 21 && r == 73
    ensures GroupWords(a) == "Nineteen" && GroupWords(b) == "Twenty" && GroupWords(c) == "Twenty One"
    ensures GroupWords(r) == "Seventy Three"
  {
  }

  /** The tens/ones boundary. */
  lemma WordsAroundTwenty(x: real, y: real, z: real)
    requires x == 19.0 && y == 20.0 && z == 21.0
    ensures NumberToWords(x) == "Nineteen"
    ensures NumberToWords(y) == "Twenty"
    ensures NumberToWords(z) == "Twenty One"
  {
    WordsBelowHundred(19);
    WordsBelowHundred(20);
    WordsBelowHundred(21);
    NamesOfExamples(19, 20, 21, 73);
  }

  lemma HeadsOfExamples(h5: nat, h3: nat, l1: nat)
    requires h5 == 5 && h3 == 3 && l1 == 1
    ensures Head(0, 0, 0, h5) == "Five Hundred "
    ensures Head(0, 0, 0, h3) == "Three Hundred "
    ensures Head(0, l1, 0, 0) == "One Lakh "
  {
  }

  lemma WordsOfFiveHundred(x: real)
    requires x == 500.0
    ensures NumberToWords(x) == "Five Hundred"
  {
    WordsByGroups(500, 0, 0, 0, 5, 0);
    HeadsOfExamples(5, 3, 1);
  }

  lemma WordsOfLakh(x: real)
    requires x == 100000.0
    ensures NumberToWords(x) == "One Lakh"
  {
    WordsByGroups(100000, 0, 1, 0, 0, 0);
    HeadsOfExamples(5, 3, 1);
  }

  /** The head and the final group of 373 joined by "and ". */
  lemma TextOf373(hd: string, g: string)
    requires hd == "Three Hundred " && g == "Seventy Three"
    ensures hd + "and " + g == "Three Hundred and Seventy Three"
  {
  }

  lemma WordsOf373(x: real)
    requires x == 373.0
    ensures NumberToWords(x) == "Three Hundred and Seventy Three"
  {
    WordsByGroups(373, 0, 0, 0, 3, 73);
    HeadsOfExamples(5, 3, 1);
    NamesOfExamples(19, 20, 21, 73);
    TextOf373(Head(0, 0, 0, 3), GroupWords(73));
  }

  /** The four sections and the final group of 123456789. */
  lemma NamesOfAllGroups(c: nat, l: nat, t: nat, h: nat, r: nat)
    requires c == 12 && l == 34 && t == 56 && h == 7 && r == 89
    ensures Section(c, " Crore ") == "Twelve Crore "
    ensures Section(l, " Lakh ") == "Thirty Four Lakh "
    ensures Section(t, " Thousand ") == "Fifty Six Thousand "
    ensures Section(h, " Hundred ") == "Seven Hundred "
    ensures GroupWords(r) == "Eighty Nine"
  {
  }

  /** The five-group example, written group by group: the
      sections of 123456789, with "and " before the last group. */
  lemma WordsOfAllGroups(x: real)
    requires x == 123456789.0
    ensures NumberToWords(x)
         == "Twelve Crore " + "Thirty Four Lakh " + "Fifty Six Thousand " + "Seven Hundred " + "and " + "Eighty Nine"
  {
    WordsByGroups(123456789, 12, 34, 56, 7, 89);
    NamesOfAllGroups(12, 34, 56, 7, 89);
  }

  /** A round tens name in a non-final group keeps its trailing space, so
      two spaces separate it from the suffix. */
  lemma HeadOfTwentyLakh(l: nat)
    requires l == 20
    ensures Head(0, l, 0, 0) == "Twenty  Lakh "
  {
  }

  lemma TextOfTwentyLakh(hd: string)
    requires hd == "Twenty  Lakh "
    ensures hd[..|hd| - 1] == "Twenty  Lakh"
  {
  }

  lemma WordsOfTwentyLakh(x: real)
    requires x == 2000000.0
    ensures NumberToWords(x) == "Twenty  Lakh"
  {
    WordsByGroups(2000000, 0, 20, 0, 0, 0);
    HeadOfTwentyLakh(20);
    TextOfTwentyLakh(Head(0, 20, 0, 0));
  }
}
