// Texts, flags and numbers inside netstream records.

module NetstreamText {
  import opened Options
  import opened Decimal
  import opened Utf8
  import opened Percent
  import opened Fields

  /** Text as C sees it. */
  predicate CText(s: string) {
    Octets(s) && '\0' !in s
  }

  /** A name that is clean UTF-8 and does not start or end with a space. */
  predicate ValidName(s: string, bytes: nat) {
    1 <= |s| <= bytes && Clean(s) && s[0] != ' ' && s[|s| - 1] != ' '
  }

  function BoolText(b: bool): string {
    if b then "1" else "0"
  }

  /** ns_parse_bool */
  function ParseBool(s: string): Option<bool> {
    if s == "true" || s == "1" then Some(true) else if s == "false" || s == "0" then Some(false) else None
  }

  /** percent_decode into a buffer that holds `bytes` bytes */
  function DecodeText(s: string, bytes: nat): Option<string> {
    match StrictDecode(s)
    case Some(t) => if |t| <= bytes then Some(t) else None
    case None => None
  }

  lemma DecodeEncoded(s: string, bytes: nat)
    requires CText(s) && |s| <= bytes
    ensures DecodeText(Encode(s), bytes) == Some(s)
  {
    StrictRoundTrip(s);
  }

  const ULONG := 0x1_0000_0000_0000_0000

  /** parse_u32 and parse_u64.  A sign in front is refused, but one behind white space
      reaches strtoul, which negates modulo 2^64. */
  function ParseUnsigned(s: string, most: nat): Option<nat> {
    if s == [] || s[0] == '+' || s[0] == '-' then None
    else match ReadNumeral(s)
      case Some(Numeral(negative, magnitude, "")) =>
        if magnitude >= ULONG then None
        else
          var v := if negative && magnitude > 0 then ULONG - magnitude else magnitude;
          if v <= most then Some(v) else None
      case _ => None
  }

  lemma UnsignedRoundTrip(n: nat, most: nat)
    requires n <= most < ULONG
    ensures ParseUnsigned(Print(n), most) == Some(n)
  {
    ReadPrinted(n, []);
    assert Print(n) + [] == Print(n);
  }

  // ----- exactly which number fields are accepted -----

  predicate IsSign(sign: string) {
    sign == "" || sign == "+" || sign == "-"
  }

  /** The number strtoul makes of a sign and a magnitude that fits. */
  function Signed(sign: string, magnitude: nat): int {
    if sign == "-" && magnitude > 0 then ULONG - magnitude else magnitude
  }

  lemma ReadsSigned(sign: string, m: string)
    requires IsSign(sign) && AllDigits(m) && m != []
    ensures var t := sign + m;
            && t != [] && !IsSpace(t[0]) && SignOf(t) == sign && t[|sign|..] == m
  {
    assert (sign + m)[0] == if sign == "" then m[0] else sign[0];
  }

  function SignOf(t: string): (sign: string)
    ensures IsSign(sign)
  {
    if t != [] && t[0] == '-' then "-" else if t != [] && t[0] == '+' then "+" else ""
  }

  /** strtoul on what is left after the white space. */
  lemma ReadAfterSpace(s: string, t: string)
    requires SkipSpace(s) == t
    ensures var m := t[|SignOf(t)|..];
            ReadNumeral(s) == if DigitRun(m) == 0 then None else Some(Numeral(SignOf(t) == "-", Value(m[..DigitRun(m)]), m[DigitRun(m)..]))
  {
  }

  lemma ReadsNumeral(w: string, sign: string, m: string)
    requires AllSpace(w) && IsSign(sign) && AllDigits(m) && m != []
    ensures ReadNumeral(w + sign + m) == Some(Numeral(sign == "-", Value(m), ""))
  {
    var t := sign + m;
    assert w + sign + m == w + t;
    ReadsSigned(sign, m);
    SkipSpaces(w, t);
    ReadAfterSpace(w + t, t);
    DigitRunAll(m);
    assert m[..|m|] == m && m[|m|..] == "";
  }

  /** White space, a sign and digits: a sign is refused in front of everything and taken
      behind white space. */
  lemma NumeralAccepted(w: string, sign: string, m: string, most: nat, v: nat)
    requires AllSpace(w) && IsSign(sign) && AllDigits(m) && m != [] && most < ULONG
    ensures ParseUnsigned(w + sign + m, most) == Some(v)
       <==> (sign != "" ==> w != []) && Value(m) < ULONG && v == Signed(sign, Value(m)) && v <= most
  {
    ReadsNumeral(w, sign, m);
    var s := w + sign + m;
    assert s[0] == if w != [] then w[0] else if sign != "" then sign[0] else m[0];
  }

  /** Nothing else is accepted. */
  lemma AcceptedIsNumeral(s: string, most: nat) returns (w: string, sign: string, m: string)
    requires ParseUnsigned(s, most).Some?
    ensures s == w + sign + m && AllSpace(w) && IsSign(sign) && AllDigits(m) && m != []
  {
    w := Skipped(s);
    var t := SkipSpace(s);
    sign, m := SignOf(t), t[|SignOf(t)|..];
    ReadAfterSpace(s, t);
    assert |m[DigitRun(m)..]| == 0;
    DigitRunAll(m);
    assert t == sign + m;
  }

  lemma NoSpaceInFront(w: string, t: string)
    requires AllSpace(w) && (w + t == [] || !IsSpace((w + t)[0]))
    ensures w == []
  {
  }

  /** A field that does not start with white space is accepted exactly if it is digits
      within the bound. */
  lemma UnsignedExactly(s: string, most: nat, v: nat)
    requires (s == [] || !IsSpace(s[0])) && most < ULONG
    ensures ParseUnsigned(s, most) == Some(v) <==> s != [] && AllDigits(s) && Value(s) == v && v <= most
  {
    if ParseUnsigned(s, most) == Some(v) {
      var w, sign, m := AcceptedIsNumeral(s, most);
      NoSpaceInFront(w, sign + m);
      NumeralAccepted(w, sign, m, most, v);
      assert s == m;
    } else if s != [] && AllDigits(s) {
      NumeralAccepted("", "", s, most, v);
      assert "" + "" + s == s;
    }
  }

  /** Behind white space a minus is taken modulo 2^64: accepted exactly for 0 and for the
      magnitudes within `most` of 2^64. */
  lemma MinusBehindSpace(w: string, m: string, most: nat)
    requires w != [] && AllSpace(w) && AllDigits(m) && m != [] && most < ULONG
    ensures ParseUnsigned(w + "-" + m, most).Some? <==> Value(m) == 0 || ULONG - most <= Value(m) < ULONG
  {
    NumeralAccepted(w, "-", m, most, if Value(m) < ULONG then Signed("-", Value(m)) else 0);
    if ParseUnsigned(w + "-" + m, most).Some? {
      NumeralAccepted(w, "-", m, most, ParseUnsigned(w + "-" + m, most).value);
    }
  }

  /** So a field can carry a sign after all: 2^64 - 1 behind " -" is the number 1. */
  lemma MinusReadAsOne(most: nat)
    requires 1 <= most < ULONG
    ensures ParseUnsigned(" " + "-" + Print(18446744073709551615), most) == Some(1)
    ensures ParseUnsigned("-" + Print(18446744073709551615), most) == None
  {
    var m := Print(18446744073709551615);
    ValueOfPrint(18446744073709551615);
    NumeralAccepted(" ", "-", m, most, 1);
  }

  lemma PrintIsVisible(n: nat)
    ensures Visible(Print(n))
  {
  }
}
