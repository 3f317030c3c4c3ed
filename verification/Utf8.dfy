// The three UTF-8 validators of the repository against the grammar in section 4 of RFC 3629.
// A byte string is a string whose characters are below 256.

module Utf8 {
  import opened Options

  predicate Octets(s: string) {
    forall i :: 0 <= i < |s| ==> s[i] as int < 256
  }

  // ----- the grammar -----

  predicate Tail(c: char) {
    0x80 <= c as int <= 0xBF
  }

  predicate Between(lo: int, c: char, hi: int) {
    lo <= c as int <= hi
  }

  predicate IsUtf8_2(s: string) {
    |s| >= 2 && Between(0xC2, s[0], 0xDF) && Tail(s[1])
  }

  predicate IsUtf8_3(s: string) {
    && |s| >= 3 && Tail(s[2])
    && ( || (s[0] as int == 0xE0 && Between(0xA0, s[1], 0xBF))
         || (Between(0xE1, s[0], 0xEC) && Tail(s[1]))
         || (s[0] as int == 0xED && Between(0x80, s[1], 0x9F))
         || (Between(0xEE, s[0], 0xEF) && Tail(s[1])))
  }

  predicate IsUtf8_4(s: string) {
    && |s| >= 4 && Tail(s[2]) && Tail(s[3])
    && ( || (s[0] as int == 0xF0 && Between(0x90, s[1], 0xBF))
         || (Between(0xF1, s[0], 0xF3) && Tail(s[1]))
         || (s[0] as int == 0xF4 && Between(0x80, s[1], 0x8F)))
  }

  /** Bytes taken by the multi-byte character that starts `s`; 0 if none does. */
  function Sequence(s: string): (n: nat)
    ensures n <= |s|
  {
    if IsUtf8_2(s) then 2 else if IsUtf8_3(s) then 3 else if IsUtf8_4(s) then 4 else 0
  }

  /** The code point of a sequence, by the bit layout of section 3 of RFC 3629. */
  function Codepoint(s: string): int
    requires Sequence(s) > 0
  {
    if IsUtf8_2(s) then (s[0] as int - 0xC0) * 64 + (s[1] as int - 0x80)
    else if IsUtf8_3(s) then (s[0] as int - 0xE0) * 4096 + (s[1] as int - 0x80) * 64 + (s[2] as int - 0x80)
    else (s[0] as int - 0xF0) * 262144 + (s[1] as int - 0x80) * 4096 + (s[2] as int - 0x80) * 64 + (s[3] as int - 0x80)
  }

  /** Printable single bytes and the multi-byte characters that `len` finds. */
  predicate TextBy(len: string -> nat, s: string)
    decreases |s|
  {
    if s == [] then true
    else if s[0] as int < 0x80 then s[0] as int >= 0x20 && s[0] as int != 0x7F && TextBy(len, s[1..])
    else 0 < len(s) <= |s| && TextBy(len, s[len(s)..])
  }

  /** UTF-8 whose single-byte characters are printable. */
  predicate Text(s: string) {
    TextBy(Sequence, s)
  }

  // ----- bluetooth_model.c: by the first continuation byte -----

  predicate Stray(c: char) {
    !(0x80 <= c as int < 0xC0)
  }

  /** valid_utf8_sequence on a string without NUL; reading past its end finds the NUL. */
  function HelperSequence(s: string): nat {
    if s == [] then 0 else
    var first := s[0] as int;
    var length := if 0xC2 <= first <= 0xDF then 2 else if 0xE0 <= first <= 0xEF then 3 else if 0xF0 <= first <= 0xF4 then 4 else 0;
    if length == 0 || |s| < length || Stray(s[1]) || (length > 2 && Stray(s[2])) || (length > 3 && Stray(s[3])) then 0
    else if || (first == 0xE0 && s[1] as int < 0xA0) || (first == 0xED && s[1] as int >= 0xA0)
            || (first == 0xF0 && s[1] as int < 0x90) || (first == 0xF4 && s[1] as int >= 0x90) then 0
    else length
  }

  /** The helper accepts exactly the sequences of the grammar. */
  lemma HelperFollowsGrammar(s: string)
    requires Octets(s)
    ensures HelperSequence(s) == Sequence(s)
  {
  }

  // ----- netstream.c: decode with per-lead-byte checks -----

  /** utf8_next: code point and bytes taken, or None. */
  function NetstreamNext(s: string): Option<(int, nat)>
    requires s != []
  {
    var b := (i: int) requires 0 <= i < |s| => s[i] as int;
    if b(0) < 0x80 then Some((b(0), 1))
    else if 0xC2 <= b(0) <= 0xDF then
      if |s| < 2 || b(1) / 64 != 2 then None
      else Some((b(0) % 32 * 64 + b(1) % 64, 2))
    else if 0xE0 <= b(0) <= 0xEF then
      if |s| < 3 || b(1) / 64 != 2 || b(2) / 64 != 2 then None
      else if (b(0) == 0xE0 && b(1) < 0xA0) || (b(0) == 0xED && b(1) >= 0xA0) then None
      else Some(((b(0) % 16 * 64 + b(1) % 64) * 64 + b(2) % 64, 3))
    else if 0xF0 <= b(0) <= 0xF4 then
      if |s| < 4 || b(1) / 64 != 2 || b(2) / 64 != 2 || b(3) / 64 != 2 then None
      else if (b(0) == 0xF0 && b(1) < 0x90) || (b(0) == 0xF4 && b(1) >= 0x90) then None
      else Some((((b(0) % 8 * 64 + b(1) % 64) * 64 + b(2) % 64) * 64 + b(3) % 64, 4))
    else None
  }

  /** utf8_next accepts exactly the grammar and computes the standard's code point. */
  lemma NetstreamFollowsGrammar(s: string)
    requires s != [] && Octets(s)
    ensures NetstreamNext(s)
         == if s[0] as int < 0x80 then Some((s[0] as int, 1))
            else if Sequence(s) > 0 then Some((Codepoint(s), Sequence(s))) else None
  {
  }

  /** Sequences stand for exactly the code points that need them, surrogates excluded. */
  lemma CodepointRange(s: string)
    requires Sequence(s) > 0
    ensures Sequence(s) == 2 ==> 0x80 <= Codepoint(s) <= 0x7FF
    ensures Sequence(s) == 3 ==> 0x800 <= Codepoint(s) <= 0xFFFF && !(0xD800 <= Codepoint(s) <= 0xDFFF)
    ensures Sequence(s) == 4 ==> 0x10000 <= Codepoint(s) <= 0x10FFFF
  {
  }

  /** Code points that ns_validate_utf8_text refuses. */
  predicate Forbidden(cp: int) {
    || cp <= 0x1F || 0x7F <= cp <= 0x9F || cp == 0x2028 || cp == 0x2029 || 0x202A <= cp <= 0x202E
    || 0x2066 <= cp <= 0x2069 || 0xFDD0 <= cp <= 0xFDEF || cp % 0x10000 == 0xFFFE || cp % 0x10000 == 0xFFFF
  }

  /** Well-formed by the grammar, with no forbidden code point. */
  predicate Clean(s: string)
    decreases |s|
  {
    if s == [] then true
    else if s[0] as int < 0x80 then !Forbidden(s[0] as int) && Clean(s[1..])
    else Sequence(s) > 0 && !Forbidden(Codepoint(s)) && Clean(s[Sequence(s)..])
  }

  /** ns_validate_utf8_text */
  method ValidateUtf8Text(text: string, minBytes: nat, maxBytes: nat) returns (ok: bool)
    requires Octets(text)
    ensures ok <==> minBytes <= |text| <= maxBytes && Clean(text)
  {
    if |text| < minBytes || |text| > maxBytes { return false; }
    var p := 0;
    while p < |text|
      invariant p <= |text|
      invariant Clean(text) <==> Clean(text[p..])
    {
      NetstreamFollowsGrammar(text[p..]);
      var next := NetstreamNext(text[p..]);
      if next.None? { return false; }
      var (cp, n) := next.value;
      if Forbidden(cp) { return false; }
      assert text[p..][n..] == text[p + n..];
      p := p + n;
    }
    assert text[p..] == [];
    ok := true;
  }

  // ----- bluetooth_backend.c: decode, then range checks on the code point -----

  /** The code point that `extra` continuation bytes give, as the loop accumulates it. */
  function Accumulated(first: int, s: string, extra: nat): int
    requires extra <= |s|
    decreases extra
  {
    if extra == 0 then first else Accumulated(first, s, extra - 1) * 64 + s[extra - 1] as int % 64
  }

  predicate Continues(s: string, extra: nat)
    requires extra <= |s|
  {
    forall i :: 0 <= i < extra ==> s[i] as int / 64 == 2
  }

  /** Lead byte: payload and number of continuation bytes. */
  function Lead(first: int): Option<(int, nat)> {
    if 0xC2 <= first <= 0xDF then Some((first % 32, 1))
    else if 0xE0 <= first <= 0xEF then Some((first % 16, 2))
    else if 0xF0 <= first <= 0xF4 then Some((first % 8, 3))
    else None
  }

  predicate BadCodepoint(cp: int, extra: nat) {
    || (extra == 2 && cp < 0x800) || (extra == 3 && cp < 0x10000)
    || 0xD800 <= cp <= 0xDFFF || cp > 0x10FFFF
  }

  /** Checking the code point afterwards comes to the same as checking the bytes. */
  lemma ShellFollowsGrammar(s: string)
    requires s != [] && Octets(s) && s[0] as int >= 0x80
    ensures Sequence(s)
         == match Lead(s[0] as int)
            case None => 0
            case Some((payload, extra)) =>
              if 1 + extra > |s| || !Continues(s[1..], extra)
                 || BadCodepoint(Accumulated(payload, s[1..], extra), extra) then 0
              else 1 + extra
  {
    match Lead(s[0] as int) {
      case None =>
      case Some((payload, extra)) =>
        if 1 + extra <= |s| {
          var t := s[1..];
          assert extra >= 1 ==> t[0] == s[1];
          assert extra >= 2 ==> t[1] == s[2];
          assert extra >= 3 ==> t[2] == s[3];
          if Continues(t, extra) {
            Unrolled(payload, t, extra);
            if extra == 2 { BadThree(s[0] as int, s[1] as int, s[2] as int); }
            if extra == 3 { BadFour(s[0] as int, s[1] as int, s[2] as int, s[3] as int); }
          }
        }
    }
  }

  /** Overlong forms and surrogates of three bytes show in the second byte. */
  lemma BadThree(a: int, b: int, c: int)
    requires 0xE0 <= a <= 0xEF && 0x80 <= b <= 0xBF && 0x80 <= c <= 0xBF
    ensures BadCodepoint(a % 16 * 4096 + b % 64 * 64 + c % 64, 2) <==> (a == 0xE0 && b < 0xA0) || (a == 0xED && b >= 0xA0)
  {
    assert a % 16 == a - 0xE0 && b % 64 == b - 0x80 && c % 64 == c - 0x80;
  }

  lemma BadFour(a: int, b: int, c: int, d: int)
    requires 0xF0 <= a <= 0xF4 && 0x80 <= b <= 0xBF && 0x80 <= c <= 0xBF && 0x80 <= d <= 0xBF
    ensures BadCodepoint(a % 8 * 262144 + b % 64 * 4096 + c % 64 * 64 + d % 64, 3) <==> (a == 0xF0 && b < 0x90) || (a == 0xF4 && b >= 0x90)
  {
    assert a % 8 == a - 0xF0 && b % 64 == b - 0x80 && c % 64 == c - 0x80 && d % 64 == d - 0x80;
  }

  lemma Unrolled(p: int, t: string, extra: nat)
    requires 1 <= extra <= 3 && extra <= |t|
    ensures Accumulated(p, t, extra)
         == if extra == 1 then p * 64 + t[0] as int % 64
            else if extra == 2 then p * 4096 + t[0] as int % 64 * 64 + t[1] as int % 64
            else p * 262144 + t[0] as int % 64 * 4096 + t[1] as int % 64 * 64 + t[2] as int % 64
  {
    assert Accumulated(p, t, 1) == p * 64 + t[0] as int % 64;
  }

  /** utf8_text_valid */
  method Utf8TextValid(text: string) returns (ok: bool)
    requires Octets(text)
    ensures ok <==> Text(text)
  {
    var offset := 0;
    while offset < |text|
      invariant offset <= |text|
      invariant Text(text) <==> Text(text[offset..])
    {
      ghost var rest := text[offset..];
      var first := text[offset] as int;
      if first < 0x80 {
        if first < 0x20 || first == 0x7F { return false; }
        assert rest[1..] == text[offset + 1..];
        offset := offset + 1;
      } else {
        ShellFollowsGrammar(rest);
        var lead := Lead(first);
        if lead.None? { return false; }
        var (payload, extra) := lead.value;
        if offset + 1 + extra > |text| { return false; }
        var codepoint := payload;
        for i := 0 to extra
          invariant Continues(rest[1..], i)
          invariant codepoint == Accumulated(payload, rest[1..], i)
        {
          var continuation := text[offset + 1 + i];
          assert rest[1..][i] == continuation;
          if continuation as int / 64 != 2 { return false; }
          codepoint := codepoint * 64 + continuation as int % 64;
        }
        if BadCodepoint(codepoint, extra) { return false; }
        assert rest[1 + extra..] == text[offset + 1 + extra..];
        offset := offset + 1 + extra;
      }
    }
    assert text[offset..] == [];
    ok := true;
  }
}
