// Exactly which files and which fields netstream.c accepts.

module NetstreamAccepts {
  import opened Options
  import opened Decimal
  import opened Utf8
  import opened Percent
  import opened Fields
  import opened NetstreamText
  import opened NetstreamTable
  import opened NetstreamFile
  import opened NetstreamWifi
  import Hosts = NetstreamHosts

  // ----- files -----

  /** A line of exactly the fields of one record. */
  predicate RecordLine<T(==)>(f: Format<T>, line: string, x: T) {
    |Split(line)| == f.width && Split(line)[0] == f.tag && f.parse(Split(line)) == Some(x)
  }

  /** A line that names the default. */
  predicate DefaultLine(line: string, selected: string) {
    |Split(line)| == 2 && Split(line)[0] == "D" && StrictDecode(Split(line)[1]) == Some(selected)
  }

  lemma TagInFront(line: string, tag: string)
    requires |Split(line)| >= 2 && Split(line)[0] == tag && |tag| == 1
    ensures |line| >= 2 && line[..2] == tag + "\t"
  {
    var i := IndexOf(line, '\t');
    FirstPart(line, '\t', i);
    assert Split(line)[0] == line[..i];
    assert line[..2] == line[..1] + [line[1]];
  }

  lemma {:induction false} RecordsLoaded<T>(f: Format<T>, lines: seq<string>, earlier: seq<T>, all: seq<T>)
    requires LoadRecords(f, lines, earlier) == Some(all)
    ensures |all| == |earlier| + |lines| && earlier <= all
    ensures forall i :: 0 <= i < |lines| ==> RecordLine(f, CString(lines[i]), all[|earlier| + i])
    decreases |lines|
  {
    if lines != [] {
      var x := LoadRecord(f, CString(lines[0]), earlier).value;
      RecordsLoaded(f, lines[1..], earlier + [x], all);
      assert all[|earlier|] == (earlier + [x])[|earlier|];
      forall i | 0 <= i < |lines| ensures RecordLine(f, CString(lines[i]), all[|earlier| + i]) {
        if i > 0 {
          assert lines[1..][i - 1] == lines[i];
        }
      }
    }
  }

  lemma NextRecordLoads<T>(f: Format<T>, line: string, all: seq<T>, n: nat)
    requires 2 <= f.width && |f.tag| == 1 && n < |all| <= f.limit && DistinctKeys(f, all) && f.valid(all[n])
    requires RecordLine(f, line, all[n])
    ensures LoadRecord(f, line, all[..n]) == Some(all[n])
  {
    TagInFront(line, f.tag);
    FindSpec(f, all[..n], f.key(all[n]));
  }

  lemma {:induction false} RecordsLoad<T>(f: Format<T>, lines: seq<string>, all: seq<T>, n: nat)
    requires 2 <= f.width && |f.tag| == 1 && n <= |all| <= f.limit && |lines| == |all| - n && DistinctKeys(f, all)
    requires forall i :: 0 <= i < |all| ==> f.valid(all[i])
    requires forall i :: 0 <= i < |lines| ==> RecordLine(f, CString(lines[i]), all[n + i])
    ensures LoadRecords(f, lines, all[..n]) == Some(all)
    decreases |lines|
  {
    if lines == [] {
      assert all[..n] == all;
    } else {
      NextRecordLoads(f, CString(lines[0]), all, n);
      assert all[..n] + [all[n]] == all[..n + 1];
      forall i | 0 <= i < |lines| - 1 ensures RecordLine(f, CString(lines[1..][i]), all[n + 1 + i]) {
        assert RecordLine(f, CString(lines[i + 1]), all[n + (i + 1)]);
      }
      RecordsLoad(f, lines[1..], all, n + 1);
    }
  }

  /** The lines of a file, up to their first NUL, spell out the table. */
  predicate SpellsOut<T(==)>(f: Format<T>, lines: seq<string>, t: Table<T>) {
    && |lines| == |t.items| + 2 && CString(lines[0]) == f.header && DefaultLine(CString(lines[1]), t.selected)
    && forall i :: 0 <= i < |t.items| ==> RecordLine(f, CString(lines[i + 2]), t.items[i])
  }

  lemma LinesLoadExactly<T(!new)>(f: Format<T>, lines: seq<string>, t: Table<T>)
    requires FormatOk(f)
    ensures LoadLines(f, lines) == Some(t) <==> SpellsOut(f, lines, t) && ValidTable(f, t)
  {
    if LoadLines(f, lines) == Some(t) {
      RecordsLoaded(f, lines[2..], [], t.items);
      forall i | 0 <= i < |t.items| ensures RecordLine(f, CString(lines[i + 2]), t.items[i]) {
        assert RecordLine(f, CString(lines[2..][i]), t.items[0 + i]);
      }
    }
    if SpellsOut(f, lines, t) && ValidTable(f, t) {
      DefaultLoads(f, CString(lines[1]), t);
      forall i | 0 <= i < |t.items| ensures RecordLine(f, CString(lines[2..][i]), t.items[0 + i]) {
        assert RecordLine(f, CString(lines[i + 2]), t.items[i]);
      }
      assert t.items[..0] == [];
      RecordsLoad(f, lines[2..], t.items, 0);
    }
  }

  lemma DefaultLoads<T(!new)>(f: Format<T>, line: string, t: Table<T>)
    requires FormatOk(f) && ValidTable(f, t) && DefaultLine(line, t.selected)
    ensures LoadDefault(f, line) == Some(t.selected)
  {
    TagInFront(line, "D");
    SelectedIsText(f, t);
  }

  /** A file loads as a table if and only if it is of permitted size, ends in a newline, its
      lines spell the table out, nothing missing and nothing more, and the table is valid. */
  lemma LoadsExactly<T(!new)>(f: Format<T>, text: string, t: Table<T>)
    requires FormatOk(f)
    ensures Load(f, text) == Some(t) <==>
            0 < |text| <= 262144 && text[|text| - 1] == '\n' && SpellsOut(f, Lines(text), t) && ValidTable(f, t)
  {
    if 0 < |text| <= 262144 && text[|text| - 1] == '\n' {
      LinesLoadExactly(f, Lines(text), t);
    }
  }

  // ----- Wi-Fi fields -----

  /** White space, a sign and digits, of a value from -999 to 999, not led by a plus. */
  ghost predicate PriorityText(s: string, v: int) {
    exists w: string, sign: string, m: string {:trigger AllSpace(w), IsSign(sign), AllDigits(m)} ::
      && AllSpace(w) && IsSign(sign) && AllDigits(m) && m != [] && s == w + sign + m
      && s[0] != '+' && v == (if sign == "-" then 0 - Value(m) else Value(m)) && -999 <= v <= 999
  }

  lemma IntegerText(s: string) returns (w: string, sign: string, m: string)
    requires ReadInt(s).Some?
    ensures AllSpace(w) && IsSign(sign) && AllDigits(m) && m != [] && s == w + sign + m
  {
    w := Skipped(s);
    var t := SkipSpace(s);
    sign, m := SignOf(t), t[|SignOf(t)|..];
    ReadAfterSpace(s, t);
    assert |m[DigitRun(m)..]| == 0;
    DigitRunAll(m);
    assert t == sign + m;
  }

  lemma IntegerReads(w: string, sign: string, m: string)
    requires AllSpace(w) && IsSign(sign) && AllDigits(m) && m != []
    ensures ReadInt(w + sign + m) == Some(if sign == "-" then 0 - Value(m) else Value(m))
  {
    ReadsNumeral(w, sign, m);
  }

  lemma PriorityExactly(s: string, v: int)
    ensures ParsePriority(s) == Some(v) <==> PriorityText(s, v)
  {
    if ParsePriority(s) == Some(v) {
      var w, sign, m := IntegerText(s);
      IntegerReads(w, sign, m);
      assert AllSpace(w) && IsSign(sign) && AllDigits(m);
    }
    if PriorityText(s, v) {
      var w: string, sign: string, m: string :| && AllSpace(w) && IsSign(sign) && AllDigits(m) && m != [] && s == w + sign + m
        && s[0] != '+' && v == (if sign == "-" then 0 - Value(m) else Value(m)) && -999 <= v <= 999;
      IntegerReads(w, sign, m);
    }
  }

  /** Six fields are a profile if and only if the first and last text are its name and
      secret, percent-encoded and within 32 and 64 bytes, and between them stand its mode,
      0, 1, false or true, and its priority. */
  lemma ProfileParsesExactly(fields: seq<string>, p: Profile)
    ensures ParseProfile(fields) == Some(p) <==>
            && |fields| == 6 && StrictDecode(fields[1]) == Some(p.ssid) && |p.ssid| <= 32
            && fields[2] == (match p.security case Open => "open" case Wpa2Psk => "wpa2-psk" case Wpa3Sae => "wpa3-sae")
            && (if p.hidden then fields[3] == "1" || fields[3] == "true" else fields[3] == "0" || fields[3] == "false")
            && PriorityText(fields[4], p.priority)
            && StrictDecode(fields[5]) == Some(p.secret) && |p.secret| <= 64
  {
    if |fields| == 6 {
      PriorityExactly(fields[4], p.priority);
      SecurityExactly(fields[2], p.security);
      BoolExactly(fields[3], p.hidden);
    }
  }

  lemma SecurityExactly(s: string, v: Security)
    ensures ParseSecurity(s) == Some(v) <==> s == match v case Open => "open" case Wpa2Psk => "wpa2-psk" case Wpa3Sae => "wpa3-sae"
  {
  }

  lemma BoolExactly(s: string, b: bool)
    ensures ParseBool(s) == Some(b) <==> if b then s == "1" || s == "true" else s == "0" || s == "false"
  {
  }

  // ----- host fields -----

  /** The eight fields of a stream. */
  predicate StreamText(fields: seq<string>, s: Hosts.Stream) {
    && |fields| == 8
    && ParseUnsigned(fields[0], 4294967295) == Some(s.resolution.width) && ParseUnsigned(fields[1], 4294967295) == Some(s.resolution.height)
    && (if s.resolution.custom then fields[2] == "1" || fields[2] == "true" else fields[2] == "0" || fields[2] == "false")
    && ParseUnsigned(fields[3], 4294967295) == Some(s.fps) && ParseUnsigned(fields[4], 4294967295) == Some(s.bitrate)
    && ParseUnsigned(fields[5], 4294967295) == Some(s.packet)
    && fields[6] == (match s.codec case H264 => "H264" case H265 => "H265" case Av1 => "AV1")
    && fields[7] == (match s.aspect case Fit => "fit" case Fill => "fill" case Stretch => "stretch")
  }

  lemma StreamParsesExactly(fields: seq<string>, s: Hosts.Stream)
    ensures Hosts.ParseStream(fields) == Some(s) <==> StreamText(fields, s)
  {
    if |fields| == 8 {
      BoolExactly(fields[2], s.resolution.custom);
      NamesExactly(fields[6], fields[7], s.codec, s.aspect);
    }
  }

  lemma NamesExactly(codec: string, aspect: string, c: Hosts.Codec, a: Hosts.Aspect)
    ensures Hosts.ParseCodec(codec) == Some(c) <==> codec == match c case H264 => "H264" case H265 => "H265" case Av1 => "AV1"
    ensures Hosts.ParseAspect(aspect) == Some(a) <==> aspect == match a case Fit => "fit" case Fill => "fill" case Stretch => "stretch"
  {
  }

  /** Thirteen fields are a host if and only if they are its tag, name and address,
      percent-encoded and within 96 and 253 bytes, whether it is paired, when it was used,
      and its stream. */
  lemma HostParsesExactly(fields: seq<string>, h: Hosts.Host)
    ensures Hosts.ParseHost(fields) == Some(h) <==>
            && |fields| == 13 && StrictDecode(fields[1]) == Some(h.name) && |h.name| <= 96
            && StrictDecode(fields[2]) == Some(h.address) && |h.address| <= 253
            && (if h.paired then fields[3] == "1" || fields[3] == "true" else fields[3] == "0" || fields[3] == "false")
            && ParseUnsigned(fields[4], 4102444800) == Some(h.lastUsed) && StreamText(fields[5..], h.video)
  {
    if |fields| == 13 {
      BoolExactly(fields[3], h.paired);
      StreamParsesExactly(fields[5..], h.video);
    }
  }

  /** A stream is valid if and only if each number is between those of a least and a largest
      one, and its resolution is a preset unless it is marked as custom. */
  lemma StreamLimits(s: Hosts.Stream)
    ensures Hosts.ValidStream(s) <==>
            && (160 <= s.resolution.width && s.resolution.width <= 7680) && (120 <= s.resolution.height && s.resolution.height <= 4320)
            && !(s.fps < 1 || s.fps > 240) && !(s.bitrate < 500 || s.bitrate > 200000) && !(s.packet < 256 || s.packet > 1500)
            && (!s.resolution.custom ==>
                  || (s.resolution.width == 640 && s.resolution.height == 480) || (s.resolution.width == 1280 && s.resolution.height == 720)
                  || (s.resolution.width == 1920 && s.resolution.height == 1080) || (s.resolution.width == 2560 && s.resolution.height == 1440)
                  || (s.resolution.width == 3840 && s.resolution.height == 2160))
  {
  }

  // ----- clean text -----

  /** ASCII text is clean if and only if it is printable. */
  lemma {:induction false} CleanAscii(s: string)
    requires forall i :: 0 <= i < |s| ==> s[i] as int < 128
    ensures Clean(s) <==> forall i :: 0 <= i < |s| ==> 32 <= s[i] as int <= 126
    decreases |s|
  {
    if s != [] {
      CleanAscii(s[1..]);
      assert forall i :: 0 <= i < |s| - 1 ==> s[1..][i] == s[i + 1];
    }
  }

  function Bytes3(a: int, b: int, c: int): string
    requires 0 <= a < 256 && 0 <= b < 256 && 0 <= c < 256
  {
    [a as char, b as char, c as char]
  }

  /** Line and paragraph separators and what turns the direction of text are refused; their
      neighbours are not. */
  lemma DirectionMarksRefused(c: int)
    requires 0x80 <= c <= 0xBF
    ensures Clean(Bytes3(0xE2, 0x80, c)) <==> !(0xA8 <= c <= 0xAE)
    ensures Clean(Bytes3(0xE2, 0x81, c)) <==> !(0xA6 <= c <= 0xA9)
  {
    var s, t := Bytes3(0xE2, 0x80, c), Bytes3(0xE2, 0x81, c);
    assert s[3..] == [] && t[3..] == [];
    assert Codepoint(s) == 0x2000 + (c - 0x80) && Codepoint(t) == 0x2040 + (c - 0x80);
  }
}
