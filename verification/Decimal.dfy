// Unsigned decimal numerals as C's printf and the daemons' digit loops read and write them.

module Decimal {
  import opened Options

  predicate IsDigit(c: char) {
    '0' <= c <= '9'
  }

  predicate AllDigits(s: string) {
    forall i :: 0 <= i < |s| ==> IsDigit(s[i])
  }

  function DigitChar(d: nat): (c: char)
    requires d < 10
    ensures IsDigit(c) && DigitValue(c) == d
  {
    ('0' as int + d) as char
  }

  function DigitValue(c: char): nat
    requires IsDigit(c)
  {
    c as int - '0' as int
  }

  /** `%u`: no sign, no leading zero. */
  function Print(n: nat): (s: string)
    ensures |s| > 0 && AllDigits(s)
  {
    if n < 10 then [DigitChar(n)] else Print(n / 10) + [DigitChar(n % 10)]
  }

  /** The number a run of digits denotes, leading zeros allowed. */
  function Value(s: string): nat
    requires AllDigits(s)
    decreases |s|
  {
    if s == [] then 0 else Value(s[..|s| - 1]) * 10 + DigitValue(s[|s| - 1])
  }

  lemma {:induction false} ValueOfPrint(n: nat)
    ensures Value(Print(n)) == n
  {
    if n >= 10 {
      ValueOfPrint(n / 10);
      assert Print(n)[..|Print(n)| - 1] == Print(n / 10);
    }
  }

  /** A longer numeral is never smaller: the reason a loop may stop at the first excess. */
  lemma {:induction false} ValueOfPrefix(s: string, k: nat)
    requires AllDigits(s) && k <= |s|
    ensures AllDigits(s[..k]) && Value(s[..k]) <= Value(s)
    decreases |s|
  {
    if k == |s| {
      assert s[..k] == s;
    } else {
      ValueOfPrefix(s[..|s| - 1], k);
      assert s[..|s| - 1][..k] == s[..k];
    }
  }

  /** The only numeral without a leading zero that denotes n is the printed one. */
  lemma {:induction false} PrintOfValue(s: string)
    requires |s| > 0 && AllDigits(s) && (s[0] == '0' ==> |s| == 1)
    ensures Print(Value(s)) == s
    decreases |s|
  {
    var front := s[..|s| - 1];
    if front == [] {
      assert s == [s[0]] && Value(s) == DigitValue(s[0]);
      assert DigitChar(DigitValue(s[0])) == s[0];
    } else {
      PrintOfValue(front);
      FrontPositive(front);
      assert Value(s) / 10 == Value(front) && Value(s) % 10 == DigitValue(s[|s| - 1]);
      assert s == front + [s[|s| - 1]];
      assert DigitChar(DigitValue(s[|s| - 1])) == s[|s| - 1];
    }
  }

  lemma {:induction false} FrontPositive(s: string)
    requires |s| > 0 && AllDigits(s) && s[0] != '0'
    ensures Value(s) > 0
    decreases |s|
  {
    if |s| > 1 {
      FrontPositive(s[..|s| - 1]);
    }
  }

  /** How many digits a bounded number takes. */
  lemma {:induction false} PrintLength(n: nat, digits: nat, bound: nat)
    requires digits > 0 && bound == Pow10(digits) && n < bound
    ensures |Print(n)| <= digits
    decreases digits
  {
    if n >= 10 {
      PrintLength(n / 10, digits - 1, Pow10(digits - 1));
    }
  }

  function Pow10(k: nat): nat {
    if k == 0 then 1 else 10 * Pow10(k - 1)
  }

  // ----- strtol and its relatives -----

  predicate IsSpace(c: char) {
    c == ' ' || '\t' <= c <= '\r'
  }

  function SkipSpace(s: string): string
    decreases |s|
  {
    if s != [] && IsSpace(s[0]) then SkipSpace(s[1..]) else s
  }

  /** How many digits lead `s`. */
  function DigitRun(s: string): (n: nat)
    ensures n <= |s| && AllDigits(s[..n]) && (n < |s| ==> !IsDigit(s[n]))
    decreases |s|
  {
    if s == [] || !IsDigit(s[0]) then 0
    else
      var n := 1 + DigitRun(s[1..]);
      assert s[..n] == [s[0]] + s[1..][..n - 1];
      n
  }

  datatype Numeral = Numeral(negative: bool, magnitude: nat, rest: string)

  /** White space, an optional sign, digits: what strtol reads, or None without digits. */
  function ReadNumeral(s: string): Option<Numeral> {
    var t := SkipSpace(s);
    var signed := t != [] && (t[0] == '-' || t[0] == '+');
    var u := if signed then t[1..] else t;
    var n := DigitRun(u);
    if n == 0 then None else Some(Numeral(signed && t[0] == '-', Value(u[..n]), u[n..]))
  }

  /** strtol over a whole string. */
  function ReadInt(s: string): Option<int> {
    match ReadNumeral(s)
    case Some(Numeral(negative, magnitude, "")) => Some(if negative then 0 - magnitude else magnitude)
    case _ => None
  }

  function PrintInt(i: int): string {
    if i < 0 then "-" + Print(-i) else Print(i)
  }

  lemma {:induction false} DigitRunOf(d: string, s: string)
    requires AllDigits(d) && (s == [] || !IsDigit(s[0]))
    ensures DigitRun(d + s) == |d|
    decreases |d|
  {
    if d == [] {
      assert d + s == s;
    } else {
      DigitRunOf(d[1..], s);
      assert (d + s)[1..] == d[1..] + s;
    }
  }

  lemma DigitRunAll(u: string)
    ensures DigitRun(u) == |u| <==> AllDigits(u)
  {
    assert u[..|u|] == u;
    if AllDigits(u) {
      DigitRunOf(u, []);
      assert u + [] == u;
    }
  }

  predicate AllSpace(s: string) {
    forall i :: 0 <= i < |s| ==> IsSpace(s[i])
  }

  lemma {:induction false} SkipSpaces(w: string, t: string)
    requires AllSpace(w) && (t == [] || !IsSpace(t[0]))
    ensures SkipSpace(w + t) == t
    decreases |w|
  {
    if w == [] {
      assert w + t == t;
    } else {
      assert (w + t)[0] == w[0] && (w + t)[1..] == w[1..] + t;
      SkipSpaces(w[1..], t);
    }
  }

  /** What SkipSpace leaves out is white space, and what it leaves does not start with any. */
  lemma {:induction false} Skipped(s: string) returns (w: string)
    ensures s == w + SkipSpace(s) && AllSpace(w)
    ensures SkipSpace(s) == [] || !IsSpace(SkipSpace(s)[0])
    decreases |s|
  {
    w := [];
    if s != [] && IsSpace(s[0]) {
      var rest := Skipped(s[1..]);
      w := [s[0]] + rest;
      assert s == [s[0]] + s[1..];
    }
  }

  lemma ReadPrinted(n: nat, s: string)
    requires s == [] || !IsDigit(s[0])
    ensures ReadNumeral(Print(n) + s) == Some(Numeral(false, n, s))
  {
    var u := Print(n) + s;
    assert u[0] == Print(n)[0];
    assert SkipSpace(u) == u;
    DigitRunOf(Print(n), s);
    assert u[..|Print(n)|] == Print(n) && u[|Print(n)|..] == s;
    ValueOfPrint(n);
  }

  lemma ReadMinus(u: string, k: nat)
    requires DigitRun(u) == k > 0
    ensures ReadNumeral(['-'] + u) == Some(Numeral(true, Value(u[..k]), u[k..]))
  {
    var t := ['-'] + u;
    assert SkipSpace(t) == t;
    assert t[1..] == u;
  }

  lemma ReadPrintedNegative(n: nat)
    ensures ReadNumeral(['-'] + Print(n)) == Some(Numeral(true, n, []))
  {
    var u := Print(n);
    DigitRunOf(u, []);
    assert u + [] == u && u[..|u|] == u;
    ReadMinus(u, |u|);
    ValueOfPrint(n);
  }

  /** strtol undoes `%d`. */
  lemma ReadIntOfPrintInt(i: int)
    ensures ReadInt(PrintInt(i)) == Some(i)
  {
    if i < 0 {
      ReadPrintedNegative(-i);
    } else {
      ReadPrinted(i, []);
      assert Print(i) + [] == PrintInt(i);
    }
  }

  /** Printed numbers are made of digits and a sign. */
  lemma PrintIntChars(i: int)
    ensures |PrintInt(i)| > 0
    ensures forall c :: c in PrintInt(i) ==> IsDigit(c) || c == '-'
  {
  }
}
