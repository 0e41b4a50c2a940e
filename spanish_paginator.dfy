/**
 * The range label of the Spanish paginator
 * (src/app/material/spanish-paginator-intl.ts): "<first> - <last> de <length>",
 * with the numbers printed in decimal. Page numbers, page sizes and lengths
 * are whole numbers, so they are modelled as `nat`.
 */
module SpanishPaginator {
  import opened Wrappers

  predicate IsDigit(c: char)
  {
    '0' <= c <= '9'
  }

  predicate AllDigits(s: string)
  {
    forall i :: 0 <= i < |s| ==> IsDigit(s[i])
  }

  function DigitChar(d: nat): char
    requires d < 10
  {
    ['0', '1', '2', '3', '4', '5', '6', '7', '8', '9'][d]
  }

  function DigitValue(c: char): nat
    requires IsDigit(c)
  {
    (c as int - '0' as int) as nat
  }

  /** The decimal numeral of `n`, without leading zeros. */
  function Digits(n: nat): (s: string)
    ensures |s| >= 1 && AllDigits(s)
    ensures |s| > 1 ==> s[0] != '0'
  {
    if n < 10 then [DigitChar(n)] else Digits(n / 10) + [DigitChar(n % 10)]
  }

  /** The number a string of decimal digits denotes. */
  function ValueOf(s: string): nat
    requires AllDigits(s)
  {
    if s == [] then 0 else ValueOf(s[..|s| - 1]) * 10 + DigitValue(s[|s| - 1])
  }

  lemma DigitValueOfChar(d: nat)
    requires d < 10
    ensures IsDigit(DigitChar(d)) && DigitValue(DigitChar(d)) == d
  {
  }

  /** Reading back a printed number gives the number. */
  lemma {:induction false} ValueOfDigits(n: nat)
    ensures ValueOf(Digits(n)) == n
  {
    var s := Digits(n);
    if n < 10 {
      DigitValueOfChar(n);
      assert s[..0] == [];
    } else {
      assert s == Digits(n / 10) + [DigitChar(n % 10)];
      assert s[..|s| - 1] == Digits(n / 10);
      DigitValueOfChar(n % 10);
      ValueOfDigits(n / 10);
    }
  }

  /** The number of leading decimal digits of `s`. */
  function DigitRun(s: string): (k: nat)
    ensures k <= |s|
    ensures k < |s| ==> !IsDigit(s[k])
  {
    if s == [] || !IsDigit(s[0]) then 0 else 1 + DigitRun(s[1..])
  }

  /** The leading run of `s` is made of digits only. */
  lemma {:induction false} DigitRunIsDigits(s: string)
    ensures AllDigits(s[..DigitRun(s)])
  {
    if s != [] && IsDigit(s[0]) {
      DigitRunIsDigits(s[1..]);
      assert s[..DigitRun(s)] == [s[0]] + s[1..][..DigitRun(s[1..])];
    }
  }

  /** A numeral followed by anything that does not start with a digit is read up to its end. */
  lemma {:induction false} DigitRunOfNumeral(d: string, rest: string)
    requires AllDigits(d)
    requires rest == [] || !IsDigit(rest[0])
    ensures DigitRun(d + rest) == |d|
  {
    if d != [] {
      assert (d + rest)[1..] == d[1..] + rest;
      DigitRunOfNumeral(d[1..], rest);
    }
  }

  /**
   * The two numbers the label shows for a page: the first is at least 1,
   * the range spans exactly `pageSize` positions, and page 0 starts at 1.
   */
  function Bounds(page: nat, pageSize: nat): (r: (nat, nat))
    ensures r.0 >= 1
    ensures r.1 - r.0 + 1 == pageSize
    ensures page == 0 ==> r.0 == 1
  {
    (page * pageSize + 1, page * pageSize + pageSize)
  }

  /** Consecutive pages adjoin: each page starts right after the previous one ends. */
  lemma ConsecutivePagesAdjoin(page: nat, pageSize: nat)
    ensures Bounds(page + 1, pageSize).0 == Bounds(page, pageSize).1 + 1
  {
    assert (page + 1) * pageSize == page * pageSize + pageSize;
  }

  /**
   * spanishRangeLabel: "<first> - <last> de <length>" with `length` printed
   * as given. Reading the label back yields the page's first and last
   * positions and the length.
   */
  function RangeLabel(page: nat, pageSize: nat, length: nat): (r: string)
    ensures ParseRangeLabel(r) == Some((page * pageSize + 1, page * pageSize + pageSize, length))
  {
    var b := Bounds(page, pageSize);
    ParseJoinedNumerals(Digits(b.0), Digits(b.1), Digits(length));
    ValueOfDigits(b.0);
    ValueOfDigits(b.1);
    ValueOfDigits(length);
    Digits(b.0) + (" - " + (Digits(b.1) + (" de " + Digits(length))))
  }

  /** Reads a numeral at the start of `s`: its value and what follows it. */
  function ReadNumeral(s: string): Option<(nat, string)>
  {
    var k := DigitRun(s);
    if k == 0 then None
    else
      DigitRunIsDigits(s);
      Some((ValueOf(s[..k]), s[k..]))
  }

  lemma ReadNumeralOf(d: string, rest: string)
    requires |d| >= 1 && AllDigits(d)
    requires rest == [] || !IsDigit(rest[0])
    ensures ReadNumeral(d + rest) == Some((ValueOf(d), rest))
  {
    DigitRunOfNumeral(d, rest);
    assert (d + rest)[..|d|] == d && (d + rest)[|d|..] == rest;
  }

  /** Reads the literal `lit` at the start of `s`, giving what follows it. */
  function ReadLiteral(lit: string, s: string): Option<string>
  {
    if lit <= s then Some(s[|lit|..]) else None
  }

  lemma ReadLiteralOf(lit: string, rest: string)
    ensures ReadLiteral(lit, lit + rest) == Some(rest)
  {
    assert lit <= lit + rest;
    assert (lit + rest)[|lit|..] == rest;
  }

  /** Reads a label of the form "<a> - <b> de <c>" back into its three numbers. */
  function ParseRangeLabel(s: string): Option<(nat, nat, nat)>
  {
    match ReadNumeral(s)
    case None => None
    case Some((a, rest)) => ParseAfterFirst(a, rest)
  }

  /** What follows the first number: " - <b> de <c>". */
  function ParseAfterFirst(a: nat, s: string): Option<(nat, nat, nat)>
  {
    match ReadLiteral(" - ", s)
    case None => None
    case Some(s2) =>
      match ReadNumeral(s2)
      case None => None
      case Some((b, rest)) => ParseAfterSecond(a, b, rest)
  }

  /** What follows the second number: " de <c>" and nothing more. */
  function ParseAfterSecond(a: nat, b: nat, s: string): Option<(nat, nat, nat)>
  {
    match ReadLiteral(" de ", s)
    case None => None
    case Some(s2) =>
      match ReadNumeral(s2)
      case None => None
      case Some((c, rest)) => if rest == [] then Some((a, b, c)) else None
  }

  lemma ParseAfterSecondOf(a: nat, b: nat, d: string)
    requires |d| >= 1 && AllDigits(d)
    ensures ParseAfterSecond(a, b, " de " + d) == Some((a, b, ValueOf(d)))
  {
    ReadLiteralOf(" de ", d);
    assert d + [] == d;
    ReadNumeralOf(d, []);
  }

  lemma ParseAfterFirstOf(a: nat, d2: string, d3: string)
    requires |d2| >= 1 && AllDigits(d2)
    requires |d3| >= 1 && AllDigits(d3)
    ensures ParseAfterFirst(a, " - " + (d2 + (" de " + d3))) == Some((a, ValueOf(d2), ValueOf(d3)))
  {
    ReadLiteralOf(" - ", d2 + (" de " + d3));
    ReadNumeralOf(d2, " de " + d3);
    ParseAfterSecondOf(a, ValueOf(d2), d3);
  }

  /** Any three numerals joined as a label are read back as their values. */
  lemma ParseJoinedNumerals(d1: string, d2: string, d3: string)
    requires |d1| >= 1 && AllDigits(d1)
    requires |d2| >= 1 && AllDigits(d2)
    requires |d3| >= 1 && AllDigits(d3)
    ensures ParseRangeLabel(d1 + (" - " + (d2 + (" de " + d3)))) == Some((ValueOf(d1), ValueOf(d2), ValueOf(d3)))
  {
    ReadNumeralOf(d1, " - " + (d2 + (" de " + d3)));
    ParseAfterFirstOf(ValueOf(d1), d2, d3);
  }

  /** The text of the label of the last page of 23 items, 10 per page. */
  lemma LastPageText()
    ensures Digits(21) + (" - " + (Digits(30) + (" de " + Digits(23)))) == "21 - 30 de 23"
  {
    assert Digits(21) == "21" && Digits(30) == "30" && Digits(23) == "23";
  }

  /**
   * The upper bound is not clamped to the length: on the last, partly filled
   * page of 23 items shown 10 at a time the label reads "21 - 30 de 23".
   */
  lemma LastPageOverrunsLength()
    ensures Bounds(2, 10) == (21, 30)
    ensures RangeLabel(2, 10, 23) == "21 - 30 de 23"
    ensures Bounds(2, 10).1 > 23
  {
    assert Bounds(2, 10) == (21, 30);
    assert RangeLabel(2, 10, 23) == Digits(21) + (" - " + (Digits(30) + (" de " + Digits(23))));
    LastPageText();
  }

  /**
   * The bounds the label evidently means: the first and last positions of
   * the items actually on the page. With no items (or no page size) there
   * is no range; a page past the end keeps the unclamped upper bound.
   */
  function ClampedBounds(page: nat, pageSize: nat, length: nat): Option<(nat, nat)>
  {
    if length == 0 || pageSize == 0 then None
    else
      var start := page * pageSize;
      var last := if start < length then (if start + pageSize < length then start + pageSize else length)
                  else start + pageSize;
      Some((start + 1, last))
  }

  /**
   * On a page that holds items, the corrected bounds stay within the
   * length and span exactly the items on the page: a full page of
   * `pageSize`, or the rest of the items on the last page.
   */
  lemma ClampedBoundsWithinLength(page: nat, pageSize: nat, length: nat)
    requires pageSize > 0 && page * pageSize < length
    ensures ClampedBounds(page, pageSize, length).Some?
    ensures var (first, last) := ClampedBounds(page, pageSize, length).value;
      && first == page * pageSize + 1
      && first <= last <= length
      && last - first + 1 == (if length - page * pageSize < pageSize then length - page * pageSize else pageSize)
  {
  }

  /** On every page but a partly filled last one, the corrected bounds agree with the source's. */
  lemma ClampedBoundsAgreeOnFullPages(page: nat, pageSize: nat, length: nat)
    requires pageSize > 0 && page * pageSize + pageSize <= length
    ensures ClampedBounds(page, pageSize, length) == Some(Bounds(page, pageSize))
  {
  }
}
