// volume.v1, the file in which the volume daemon keeps its setting, and the scanf-based
// parser that reads it back at start-up.

module VolumeFormat {
  import opened Options
  import opened Decimal

  /** The three numbers the daemon keeps: level, mute flag, level to unmute to. */
  datatype Setting = Setting(volume: int, muted: bool, last: int)

  predicate Good(t: Setting) {
    && 0 <= t.volume <= 100 && 1 <= t.last <= 100
    && (t.volume == 0 ==> t.muted) && (t.volume > 0 ==> t.last == t.volume)
  }

  const CONTENTS_SIZE := 128

  function Flag(b: bool): nat {
    if b then 1 else 0
  }

  /** The fixed words of the file. */
  datatype Words = Words(header: string, volume: string, muted: string, last: string) {
    predicate Fit() {
      && |header| + |volume| + |muted| + |last| < 100
      && |volume| > 0 && !IsSpace(volume[0]) && |muted| > 0 && !IsSpace(muted[0]) && |last| > 0 && !IsSpace(last[0])
    }

    function Text(t: Setting): string
      requires Good(t)
    {
      header + ("\n" + (volume + (Print(t.volume) + ("\n" +
      (muted + (Print(Flag(t.muted)) + ("\n" + (last + (Print(t.last) + "\n")))))))))
    }

    function Format(): seq<Directive> {
      Literals(header) + ([Space] + (Literals(volume) + ([Int] + ([Space] +
      (Literals(muted) + ([Int] + ([Space] + (Literals(last) + ([Int] + [Space])))))))))
    }
  }

  const WORDS: Words := Words("RG40XXV_VOLUME_V1", "volume_percent=", "muted=", "last_nonzero=")

  /** What persist_state writes. */
  function Text(t: Setting): string
    requires Good(t)
  {
    WORDS.Text(t)
  }

  // ----- sscanf -----

  /** A character of the format: white space stands for any amount of it. */
  datatype Directive = Literal(c: char) | Space | Int

  datatype Scanned = Scanned(values: seq<int>, rest: string)

  /** What `%d` makes of a numeral: exact within int, anything at all beyond it. */
  type Conversion = f: int -> int | forall x :: -0x8000_0000 <= x < 0x8000_0000 ==> f(x) == x
    witness (x: int) => x

  function ScanInt(convert: Conversion, s: string): Option<(int, string)> {
    match ReadNumeral(s)
    case None => None
    case Some(Numeral(negative, magnitude, rest)) =>
      Some((convert(if negative then 0 - magnitude else magnitude), rest))
  }

  /** sscanf run to the end of its format, or None where it stops short. */
  function Scan(convert: Conversion, format: seq<Directive>, s: string): Option<Scanned>
    decreases |format|
  {
    if format == [] then Some(Scanned([], s))
    else match format[0]
      case Literal(c) => if s != [] && s[0] == c then Scan(convert, format[1..], s[1..]) else None
      case Space => Scan(convert, format[1..], SkipSpace(s))
      case Int =>
        match ScanInt(convert, s)
        case None => None
        case Some((v, rest)) =>
          match Scan(convert, format[1..], rest)
          case None => None
          case Some(tail) => Some(Scanned([v] + tail.values, tail.rest))
  }

  function Literals(s: string): (f: seq<Directive>)
    ensures |f| == |s|
  {
    seq(|s|, i requires 0 <= i < |s| => Literal(s[i]))
  }

  /** parse_persistent_state: scan, check ranges, and compare with the canonical printing. */
  function Parse(convert: Conversion, contents: string): (r: Option<Setting>)
    ensures r.Some? ==> Good(r.value)
  {
    ParseWith(WORDS, convert, contents)
  }

  function ParseWith(words: Words, convert: Conversion, contents: string): (r: Option<Setting>)
    ensures r.Some? ==> Good(r.value)
  {
    if |contents| == 0 || |contents| >= CONTENTS_SIZE then None
    else match Scan(convert, words.Format(), contents)
      case None => None
      case Some(scanned) =>
        if |scanned.values| != 3 || scanned.rest != [] then None
        else
          var volume, mute, last := scanned.values[0], scanned.values[1], scanned.values[2];
          if volume < 0 || volume > 100 || (mute != 0 && mute != 1) || last < 1 || last > 100
             || (volume == 0 && mute != 1) || (volume > 0 && last != volume) then None
          else
            var t := Setting(volume, mute == 1, last);
            if words.Text(t) == contents then Some(t) else None
  }

  // ----- proofs -----

  lemma ScanLiteral(convert: Conversion, c: char, format: seq<Directive>, s: string)
    ensures Scan(convert, [Literal(c)] + format, [c] + s) == Scan(convert, format, s)
  {
    assert ([Literal(c)] + format)[1..] == format && ([c] + s)[1..] == s;
  }

  lemma {:induction false} ScanLiterals(convert: Conversion, p: string, format: seq<Directive>, s: string)
    ensures Scan(convert, Literals(p) + format, p + s) == Scan(convert, format, s)
    decreases |p|
  {
    if p == [] {
      assert Literals(p) + format == format && p + s == s;
    } else {
      ScanLiterals(convert, p[1..], format, s);
      ScanLiteral(convert, p[0], Literals(p[1..]) + format, p[1..] + s);
      assert Literals(p) + format == [Literal(p[0])] + (Literals(p[1..]) + format);
      assert p + s == [p[0]] + (p[1..] + s);
    }
  }

  lemma ScanNewline(convert: Conversion, format: seq<Directive>, s: string)
    requires s == [] || !IsSpace(s[0])
    ensures Scan(convert, [Space] + format, "\n" + s) == Scan(convert, format, s)
  {
    assert ([Space] + format)[1..] == format;
    assert ("\n" + s)[1..] == s;
    assert SkipSpace("\n" + s) == SkipSpace(s) == s;
  }

  lemma ScanPrinted(convert: Conversion, n: nat, format: seq<Directive>, s: string)
    requires n <= 100 && s != [] && !IsDigit(s[0])
    ensures Scan(convert, [Int] + format, Print(n) + s)
         == match Scan(convert, format, s)
            case None => None
            case Some(tail) => Some(Scanned([n] + tail.values, tail.rest))
  {
    ReadPrinted(n, s);
    assert ([Int] + format)[1..] == format;
  }

  lemma ScanField(convert: Conversion, key: string, n: nat, format: seq<Directive>, s: string)
    requires n <= 100 && (s == [] || !IsSpace(s[0]))
    ensures Scan(convert, Literals(key) + ([Int] + ([Space] + format)), key + (Print(n) + ("\n" + s)))
         == match Scan(convert, format, s)
            case None => None
            case Some(tail) => Some(Scanned([n] + tail.values, tail.rest))
  {
    ScanLiterals(convert, key, [Int] + ([Space] + format), Print(n) + ("\n" + s));
    ScanPrinted(convert, n, [Space] + format, "\n" + s);
    ScanNewline(convert, format, s);
  }

  lemma ScanText(w: Words, convert: Conversion, t: Setting)
    requires Good(t) && w.Fit()
    ensures Scan(convert, w.Format(), w.Text(t)) == Some(Scanned([t.volume, Flag(t.muted), t.last], []))
  {
    var last, lastFormat := w.last + (Print(t.last) + "\n"), Literals(w.last) + ([Int] + [Space]);
    var muted := w.muted + (Print(Flag(t.muted)) + ("\n" + last));
    var mutedFormat := Literals(w.muted) + ([Int] + ([Space] + lastFormat));
    var volume := w.volume + (Print(t.volume) + ("\n" + muted));
    var volumeFormat := Literals(w.volume) + ([Int] + ([Space] + mutedFormat));
    assert "\n" + [] == "\n" && [Space] + [] == [Space];
    assert Scan(convert, [], []) == Some(Scanned([], []));
    ScanField(convert, w.last, t.last, [], []);
    ScanField(convert, w.muted, Flag(t.muted), lastFormat, last);
    ScanField(convert, w.volume, t.volume, mutedFormat, muted);
    ScanNewline(convert, volumeFormat, volume);
    ScanLiterals(convert, w.header, [Space] + volumeFormat, "\n" + volume);
    assert [t.volume] + ([Flag(t.muted)] + ([t.last] + [])) == [t.volume, Flag(t.muted), t.last];
  }

  lemma TextFits(w: Words, t: Setting)
    requires Good(t) && w.Fit()
    ensures 0 < |w.Text(t)| < CONTENTS_SIZE
  {
    PrintLength(t.volume, 3, 1000);
    PrintLength(Flag(t.muted), 1, 10);
    PrintLength(t.last, 3, 1000);
  }

  lemma ParseExactly(w: Words, convert: Conversion, contents: string, t: Setting)
    requires w.Fit()
    ensures ParseWith(w, convert, contents) == Some(t) <==> Good(t) && contents == w.Text(t)
  {
    if Good(t) && contents == w.Text(t) {
      ScanText(w, convert, t);
      TextFits(w, t);
    }
  }

  lemma WordsFit()
    ensures WORDS.Fit()
  {
  }

  /** parse_persistent_state accepts exactly the printings of good settings, however
      `%d` treats numerals that do not fit an int. */
  lemma ParseExactlyCanonical(convert: Conversion, contents: string, t: Setting)
    ensures Parse(convert, contents) == Some(t) <==> Good(t) && contents == Text(t)
  {
    WordsFit();
    ParseExactly(WORDS, convert, contents, t);
  }

  lemma TextInjective(a: Setting, b: Setting)
    requires Good(a) && Good(b) && Text(a) == Text(b)
    ensures a == b
  {
    ParseExactlyCanonical(x => x, Text(a), a);
    ParseExactlyCanonical(x => x, Text(a), b);
  }
}
