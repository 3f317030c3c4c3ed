// Percent-encoding as in sections 2.1 and 2.3 of RFC 3986: one encoder, used by both the
// Bluetooth helper and netstream, and the two decoders that must undo it.

module Percent {
  import opened Options
  import opened Utf8
  import opened Fields

  /** The unreserved characters, the only ones left as they are. */
  predicate Unreserved(c: char) {
    'A' <= c <= 'Z' || 'a' <= c <= 'z' || '0' <= c <= '9' || c == '-' || c == '.' || c == '_' || c == '~'
  }

  function HexDigit(v: nat): (c: char)
    requires v < 16
    ensures UpperHexValue(c) == Some(v)
  {
    if v < 10 then ('0' as int + v) as char else ('A' as int + v - 10) as char
  }

  function EncodeByte(c: char): (e: string)
    requires c as int < 256
    ensures 1 <= |e| <= 3
  {
    if Unreserved(c) then [c] else ['%', HexDigit(c as int / 16), HexDigit(c as int % 16)]
  }

  function Encode(s: string): (e: string)
    requires Octets(s)
    ensures |s| <= |e| <= 3 * |s|
    decreases |s|
  {
    if s == [] then [] else EncodeByte(s[0]) + Encode(s[1..])
  }

  /** Encoded text is made of unreserved characters and percent signs only. */
  lemma {:induction false} EncodeIsPlain(s: string)
    requires Octets(s)
    ensures forall c :: c in Encode(s) ==> Unreserved(c) || c == '%'
    decreases |s|
  {
    if s != [] {
      EncodeIsPlain(s[1..]);
    }
  }

  lemma EncodeIsVisible(s: string)
    requires Octets(s)
    ensures Visible(Encode(s))
  {
    EncodeIsPlain(s);
    forall i | 0 <= i < |Encode(s)| ensures Encode(s)[i] > ' ' {
      assert Encode(s)[i] in Encode(s);
    }
  }

  lemma {:induction false} EncodeOfAppend(s: string, c: char)
    requires Octets(s) && c as int < 256
    ensures Octets(s + [c]) && Encode(s + [c]) == Encode(s) + EncodeByte(c)
    decreases |s|
  {
    if s == [] {
      assert s + [c] == [c] && [c][1..] == [];
    } else {
      EncodeOfAppend(s[1..], c);
      assert (s + [c])[1..] == s[1..] + [c];
    }
  }

  function UpperHexValue(c: char): Option<nat> {
    if '0' <= c <= '9' then Some(c as int - '0' as int)
    else if 'A' <= c <= 'F' then Some(c as int - 'A' as int + 10)
    else None
  }

  function AnyHexValue(c: char): Option<nat> {
    if 'a' <= c <= 'f' then Some(c as int - 'a' as int + 10) else UpperHexValue(c)
  }

  /** The byte `%HH` stands for. */
  function Escaped(s: string, hex: char -> Option<nat>): Option<char>
    requires |s| >= 3
    requires forall c :: hex(c).Some? ==> hex(c).value < 16
  {
    match (hex(s[1]), hex(s[2]))
    case (Some(high), Some(low)) => Some((high * 16 + low) as char)
    case _ => None
  }

  function Prepend(c: char, rest: Option<string>): Option<string> {
    match rest case None => None case Some(s) => Some([c] + s)
  }

  /** decode_name of the shell: any byte stands for itself except '%'. */
  function LenientDecode(s: string): Option<string>
    decreases |s|
  {
    if s == [] then Some([])
    else if s[0] != '%' then Prepend(s[0], LenientDecode(s[1..]))
    else if |s| < 3 then None
    else match Escaped(s, AnyHexValue)
      case None => None
      case Some(c) => Prepend(c, LenientDecode(s[3..]))
  }

  /** percent_decode of netstream: unreserved characters and upper-case escapes, never NUL. */
  function StrictDecode(s: string): Option<string>
    decreases |s|
  {
    if s == [] then Some([])
    else if Unreserved(s[0]) then Prepend(s[0], StrictDecode(s[1..]))
    else if s[0] != '%' || |s| < 3 then None
    else match Escaped(s, UpperHexValue)
      case None => None
      case Some(c) => if c == '\0' then None else Prepend(c, StrictDecode(s[3..]))
  }

  lemma LenientStep(c: char, rest: string)
    requires c as int < 256
    ensures LenientDecode(EncodeByte(c) + rest) == Prepend(c, LenientDecode(rest))
  {
    var e := EncodeByte(c) + rest;
    if Unreserved(c) {
      assert e[1..] == rest;
    } else {
      assert e[3..] == rest;
      assert Escaped(e, AnyHexValue) == Some(c);
    }
  }

  lemma StrictStep(c: char, rest: string)
    requires c as int < 256 && c != '\0'
    ensures StrictDecode(EncodeByte(c) + rest) == Prepend(c, StrictDecode(rest))
  {
    var e := EncodeByte(c) + rest;
    if Unreserved(c) {
      assert e[1..] == rest;
    } else {
      assert e[3..] == rest;
      assert Escaped(e, UpperHexValue) == Some(c);
    }
  }

  /** The shell's decoder undoes the helper's encoder on every byte string. */
  lemma {:induction false} LenientRoundTrip(s: string)
    requires Octets(s)
    ensures LenientDecode(Encode(s)) == Some(s)
    decreases |s|
  {
    if s != [] {
      LenientRoundTrip(s[1..]);
      LenientStep(s[0], Encode(s[1..]));
      assert s == [s[0]] + s[1..];
    }
  }

  /** netstream's decoder undoes its encoder on every byte string without NUL. */
  lemma {:induction false} StrictRoundTrip(s: string)
    requires Octets(s) && '\0' !in s
    ensures StrictDecode(Encode(s)) == Some(s)
    decreases |s|
  {
    if s != [] {
      StrictRoundTrip(s[1..]);
      StrictStep(s[0], Encode(s[1..]));
      assert s == [s[0]] + s[1..];
    }
  }

  lemma {:induction false} LenientDecodesOctets(s: string)
    requires Octets(s)
    ensures LenientDecode(s).Some? ==> Octets(LenientDecode(s).value)
    decreases |s|
  {
    if s == [] {
    } else if s[0] != '%' {
      LenientDecodesOctets(s[1..]);
    } else if |s| >= 3 {
      LenientDecodesOctets(s[3..]);
    }
  }
}
