// The streaming hosts of netstream.c: hosts.v1.

module NetstreamHosts {
  import opened Options
  import opened Decimal
  import opened Utf8
  import opened Percent
  import opened Fields
  import opened NetstreamText
  import opened NetstreamTable
  import opened NetstreamFile

  const NAME_BYTES := 96
  const ADDRESS_BYTES := 253
  const MAX_HOSTS := 128
  const LAST_USED_MAX := 4102444800
  const UINT32_MAX := 0xFFFF_FFFF

  datatype Codec = H264 | H265 | Av1

  datatype Aspect = Fit | Fill | Stretch

  datatype Resolution = Resolution(width: nat, height: nat, custom: bool)

  datatype Stream = Stream(resolution: Resolution, fps: nat, bitrate: nat, packet: nat, codec: Codec, aspect: Aspect)

  datatype Host = Host(name: string, address: string, paired: bool, lastUsed: nat, video: Stream)

  // ----- addresses -----

  predicate LabelChar(c: char) {
    'a' <= c <= 'z' || 'A' <= c <= 'Z' || '0' <= c <= '9' || c == '-'
  }

  /** A DNS label: 1 to 63 letters, digits and inner hyphens. */
  predicate LabelOk(l: string) {
    1 <= |l| <= 63 && l[0] != '-' && l[|l| - 1] != '-' && forall i :: 0 <= i < |l| ==> LabelChar(l[i])
  }

  predicate AllLabelsOk(labels: seq<string>) {
    forall i :: 0 <= i < |labels| ==> LabelOk(labels[i])
  }

  /** Good labels separated by dots. */
  predicate DnsName(a: string) {
    |a| <= ADDRESS_BYTES && AllLabelsOk(Parts(a, '.'))
  }

  /** The labels before `start` are good, and the one begun there is good up to `i`. */
  ghost predicate Scanned(whole: seq<string>, labels: seq<string>, s: string, start: nat, i: nat) {
    && start <= i <= |s| && CutSoFar(whole, labels, s, '.', start) && AllLabelsOk(labels)
    && (forall k :: start <= k < i ==> LabelChar(s[k]))
    && (start < i ==> s[start] != '-')
  }

  predicate LabelEndOk(s: string, start: nat, i: nat)
    requires start <= i <= |s|
  {
    start < i && i - start <= 63 && s[i - 1] != '-'
  }

  /** The next dot is not before the characters already seen. */
  lemma NoDotYet(s: string, start: nat, i: nat)
    requires start <= i <= |s| && forall k :: start <= k < i ==> LabelChar(s[k])
    ensures i - start <= IndexOf(s[start..], '.') <= |s| - start
    ensures i < |s| && s[i] == '.' ==> IndexOf(s[start..], '.') == i - start
  {
    var t := s[start..];
    var k := IndexOf(t, '.');
    assert forall j :: 0 <= j < i - start ==> t[j] == s[start + j];
    assert k < |t| ==> !LabelChar(t[k]);
    if i < |s| && s[i] == '.' {
      assert t == s[start..i] + ['.'] + s[i + 1..];
      IndexOfUnique(s[start..i], '.', s[i + 1..]);
    }
  }

  lemma ScanDot(whole: seq<string>, labels: seq<string>, s: string, start: nat, i: nat)
    requires Scanned(whole, labels, s, start, i) && i < |s| && s[i] == '.'
    ensures if LabelEndOk(s, start, i) then Scanned(whole, labels + [s[start..i]], s, i + 1, i + 1) else !AllLabelsOk(whole)
  {
    NoDotYet(s, start, i);
    CutAdvances(whole, labels, s, '.', start, i);
    assert LabelOk(s[start..i]) <==> LabelEndOk(s, start, i);
  }

  lemma ScanCharacter(whole: seq<string>, labels: seq<string>, s: string, start: nat, i: nat)
    requires Scanned(whole, labels, s, start, i) && i < |s| && s[i] != '.'
    ensures if LabelChar(s[i]) && (i > start || s[i] != '-') then Scanned(whole, labels, s, start, i + 1) else !AllLabelsOk(whole)
  {
    if !LabelChar(s[i]) || (i == start && s[i] == '-') {
      NoDotYet(s, start, i);
      var k := start + IndexOf(s[start..], '.');
      CutAdvances(whole, labels, s, '.', start, k);
      DotAfter(s, start, i);
      assert s[start..k][i - start] == s[i];
    }
  }

  lemma DotAfter(s: string, start: nat, i: nat)
    requires start <= i < |s| && s[i] != '.' && i - start <= IndexOf(s[start..], '.')
    ensures i - start < IndexOf(s[start..], '.')
  {
    assert s[start..][i - start] == s[i];
  }

  lemma ScanEnd(whole: seq<string>, labels: seq<string>, s: string, start: nat)
    requires Scanned(whole, labels, s, start, |s|)
    ensures AllLabelsOk(whole) <==> LabelEndOk(s, start, |s|)
  {
    NoDotYet(s, start, |s|);
    CutAdvances(whole, labels, s, '.', start, |s|);
    assert LabelOk(s[start..|s|]) <==> LabelEndOk(s, start, |s|);
  }

  /** valid_dns_name */
  method ValidDnsName(address: string) returns (ok: bool)
    ensures ok <==> DnsName(address)
  {
    if |address| > ADDRESS_BYTES { return false; }
    assert address[0..] == address && [] + Parts(address, '.') == Parts(address, '.');
    ok := ScanLabels(address, Parts(address, '.'));
  }

  method ScanLabels(address: string, ghost whole: seq<string>) returns (ok: bool)
    requires CutSoFar(whole, [], address, '.', 0)
    ensures ok <==> AllLabelsOk(whole)
  {
    var start := 0;
    ghost var labels: seq<string> := [];
    for i := 0 to |address|
      invariant Scanned(whole, labels, address, start, i)
    {
      if address[i] == '.' {
        ScanDot(whole, labels, address, start, i);
        if !LabelEndOk(address, start, i) { return false; }
        labels := labels + [address[start..i]];
        start := i + 1;
      } else {
        ScanCharacter(whole, labels, address, start, i);
        if !LabelChar(address[i]) || (i == start && address[i] == '-') { return false; }
      }
    }
    ScanEnd(whole, labels, address, start);
    ok := LabelEndOk(address, start, |address|);
  }

  predicate NumericDotted(a: string) {
    forall i :: 0 <= i < |a| ==> IsDigit(a[i]) || a[i] == '.'
  }

  /** valid_address; `numeric` is what inet_pton accepts. */
  predicate ValidAddress(numeric: string -> bool, a: string) {
    |a| <= ADDRESS_BYTES && (numeric(a) || (!NumericDotted(a) && DnsName(a)))
  }

  // ----- records -----

  predicate StandardResolution(w: nat, h: nat) {
    (w, h) in {(640, 480), (1280, 720), (1920, 1080), (2560, 1440), (3840, 2160)}
  }

  predicate ValidStream(s: Stream) {
    && 160 <= s.resolution.width <= 7680 && 120 <= s.resolution.height <= 4320
    && (s.resolution.custom || StandardResolution(s.resolution.width, s.resolution.height))
    && 1 <= s.fps <= 240 && 500 <= s.bitrate <= 200000 && 256 <= s.packet <= 1500
  }

  /** ns_validate_host, on C text */
  predicate ValidHost(numeric: string -> bool, h: Host) {
    && CText(h.name) && CText(h.address) && ValidName(h.name, NAME_BYTES) && ValidAddress(numeric, h.address)
    && h.lastUsed <= LAST_USED_MAX && ValidStream(h.video)
  }

  /** ns_host_defaults: what a new host streams. */
  function Defaults(): Stream {
    Stream(Resolution(640, 480, false), 60, 5000, 1392, H264, Fit)
  }

  /** The defaults are valid, so a new host needs a good name and address only. */
  lemma DefaultsAreValid(numeric: string -> bool, name: string, address: string)
    requires CText(name) && CText(address) && ValidName(name, 96) && ValidAddress(numeric, address)
    ensures ValidHost(numeric, Host(name, address, false, 0, Defaults()))
  {
  }

  /** Digits and dots are an address only if inet_pton takes them, though many would do as a
      name. */
  lemma DottedNumbers(numeric: string -> bool, a: string)
    requires |a| <= 253 && NumericDotted(a)
    ensures ValidAddress(numeric, a) <==> numeric(a)
  {
  }

  function CodecName(c: Codec): string {
    match c case H264 => "H264" case H265 => "H265" case Av1 => "AV1"
  }

  function ParseCodec(s: string): Option<Codec> {
    if s == "H264" then Some(H264) else if s == "H265" then Some(H265) else if s == "AV1" then Some(Av1) else None
  }

  function AspectName(a: Aspect): string {
    match a case Fit => "fit" case Fill => "fill" case Stretch => "stretch"
  }

  function ParseAspect(s: string): Option<Aspect> {
    if s == "fit" then Some(Fit) else if s == "fill" then Some(Fill) else if s == "stretch" then Some(Stretch) else None
  }

  function StreamFields(s: Stream): seq<string> {
    [Print(s.resolution.width), Print(s.resolution.height), BoolText(s.resolution.custom), Print(s.fps), Print(s.bitrate),
     Print(s.packet), CodecName(s.codec), AspectName(s.aspect)]
  }

  function HostFields(h: Host): seq<string> {
    if !Octets(h.name) || !Octets(h.address) then []
    else ["H", Encode(h.name), Encode(h.address), BoolText(h.paired), Print(h.lastUsed)] + StreamFields(h.video)
  }

  function ParseResolution(fields: seq<string>): Option<Resolution>
    requires |fields| == 8
  {
    match (ParseUnsigned(fields[0], UINT32_MAX), ParseUnsigned(fields[1], UINT32_MAX), ParseBool(fields[2]))
    case (Some(w), Some(h), Some(custom)) => Some(Resolution(w, h, custom))
    case _ => None
  }

  function ParseStream(fields: seq<string>): Option<Stream> {
    if |fields| != 8 then None
    else match (ParseResolution(fields), ParseCodec(fields[6]), ParseAspect(fields[7]))
      case (Some(resolution), Some(codec), Some(aspect)) =>
        (match (ParseUnsigned(fields[3], UINT32_MAX), ParseUnsigned(fields[4], UINT32_MAX), ParseUnsigned(fields[5], UINT32_MAX))
         case (Some(fps), Some(bitrate), Some(packet)) => Some(Stream(resolution, fps, bitrate, packet, codec, aspect))
         case _ => None)
      case _ => None
  }

  function ParseHost(fields: seq<string>): Option<Host> {
    if |fields| != 13 then None
    else match (DecodeText(fields[1], NAME_BYTES), DecodeText(fields[2], ADDRESS_BYTES), ParseStream(fields[5..]))
      case (Some(name), Some(address), Some(video)) =>
        (match (ParseBool(fields[3]), ParseUnsigned(fields[4], LAST_USED_MAX))
         case (Some(paired), Some(lastUsed)) => Some(Host(name, address, paired, lastUsed, video))
         case _ => None)
      case _ => None
  }

  function HostFormat(numeric: string -> bool): Format<Host> {
    Format("RG40XXV_NETSTREAM_HOSTS\t1", "H", 13, MAX_HOSTS, NAME_BYTES, (h: Host) => h.name, (h: Host) => ValidHost(numeric, h), HostFields, ParseHost)
  }

  // ----- proofs -----

  lemma NamesRoundTrip(c: Codec, a: Aspect)
    ensures ParseCodec(CodecName(c)) == Some(c) && Visible(CodecName(c)) && |CodecName(c)| <= 4
    ensures ParseAspect(AspectName(a)) == Some(a) && Visible(AspectName(a)) && |AspectName(a)| <= 7
  {
  }

  lemma NumbersRoundTrip(s: Stream)
    requires ValidStream(s)
    ensures ParseUnsigned(Print(s.resolution.width), UINT32_MAX) == Some(s.resolution.width)
    ensures ParseUnsigned(Print(s.resolution.height), UINT32_MAX) == Some(s.resolution.height)
    ensures ParseUnsigned(Print(s.fps), UINT32_MAX) == Some(s.fps)
    ensures ParseUnsigned(Print(s.bitrate), UINT32_MAX) == Some(s.bitrate)
    ensures ParseUnsigned(Print(s.packet), UINT32_MAX) == Some(s.packet)
  {
    UnsignedRoundTrip(s.resolution.width, UINT32_MAX);
    UnsignedRoundTrip(s.resolution.height, UINT32_MAX);
    UnsignedRoundTrip(s.fps, UINT32_MAX);
    UnsignedRoundTrip(s.bitrate, UINT32_MAX);
    UnsignedRoundTrip(s.packet, UINT32_MAX);
  }

  lemma StreamAssembled(s: Stream, f: seq<string>)
    requires |f| == 8
    requires ParseUnsigned(f[0], UINT32_MAX) == Some(s.resolution.width) && ParseUnsigned(f[1], UINT32_MAX) == Some(s.resolution.height)
    requires ParseBool(f[2]) == Some(s.resolution.custom) && ParseUnsigned(f[3], UINT32_MAX) == Some(s.fps)
    requires ParseUnsigned(f[4], UINT32_MAX) == Some(s.bitrate) && ParseUnsigned(f[5], UINT32_MAX) == Some(s.packet)
    requires ParseCodec(f[6]) == Some(s.codec) && ParseAspect(f[7]) == Some(s.aspect)
    ensures ParseStream(f) == Some(s)
  {
  }

  lemma StreamParses(s: Stream)
    requires ValidStream(s)
    ensures ParseStream(StreamFields(s)) == Some(s)
  {
    NamesRoundTrip(s.codec, s.aspect);
    NumbersRoundTrip(s);
    StreamAssembled(s, StreamFields(s));
  }

  lemma StreamVisible(s: Stream)
    ensures AllVisible(StreamFields(s))
  {
    NamesRoundTrip(s.codec, s.aspect);
    PrintIsVisible(s.resolution.width);
    PrintIsVisible(s.resolution.height);
    PrintIsVisible(s.fps);
    PrintIsVisible(s.bitrate);
    PrintIsVisible(s.packet);
  }

  lemma HostAssembled(h: Host, name: string, address: string, paired: string, lastUsed: string, video: seq<string>)
    requires |video| == 8 && ParseStream(video) == Some(h.video)
    requires DecodeText(name, NAME_BYTES) == Some(h.name) && DecodeText(address, ADDRESS_BYTES) == Some(h.address)
    requires ParseBool(paired) == Some(h.paired) && ParseUnsigned(lastUsed, LAST_USED_MAX) == Some(h.lastUsed)
    ensures ParseHost(["H", name, address, paired, lastUsed] + video) == Some(h)
  {
    assert (["H", name, address, paired, lastUsed] + video)[5..] == video;
  }

  lemma FieldsReadBack(h: Host)
    requires CText(h.name) && |h.name| <= NAME_BYTES && CText(h.address) && |h.address| <= ADDRESS_BYTES && h.lastUsed <= LAST_USED_MAX
    ensures DecodeText(Encode(h.name), NAME_BYTES) == Some(h.name) && DecodeText(Encode(h.address), ADDRESS_BYTES) == Some(h.address)
    ensures ParseBool(BoolText(h.paired)) == Some(h.paired) && ParseUnsigned(Print(h.lastUsed), LAST_USED_MAX) == Some(h.lastUsed)
  {
    DecodeEncoded(h.name, NAME_BYTES);
    DecodeEncoded(h.address, ADDRESS_BYTES);
    UnsignedRoundTrip(h.lastUsed, LAST_USED_MAX);
  }

  lemma HostParses(h: Host)
    requires CText(h.name) && |h.name| <= NAME_BYTES && CText(h.address) && |h.address| <= ADDRESS_BYTES
    requires h.lastUsed <= LAST_USED_MAX && ValidStream(h.video)
    ensures ParseHost(HostFields(h)) == Some(h)
  {
    FieldsReadBack(h);
    StreamParses(h.video);
    HostAssembled(h, Encode(h.name), Encode(h.address), BoolText(h.paired), Print(h.lastUsed), StreamFields(h.video));
  }

  lemma HostVisible(h: Host)
    requires CText(h.name) && CText(h.address)
    ensures AllVisible(HostFields(h))
  {
    EncodeIsVisible(h.name);
    EncodeIsVisible(h.address);
    PrintIsVisible(h.lastUsed);
    StreamVisible(h.video);
  }

  lemma NumbersShort(h: Host)
    requires h.lastUsed <= LAST_USED_MAX && ValidStream(h.video)
    ensures |Print(h.lastUsed)| <= 10 && |Print(h.video.resolution.width)| <= 10 && |Print(h.video.resolution.height)| <= 10
    ensures |Print(h.video.fps)| <= 10 && |Print(h.video.bitrate)| <= 10 && |Print(h.video.packet)| <= 10
  {
    assert Pow10(10) == 10000000000;
    PrintLength(h.lastUsed, 10, 10000000000);
    PrintLength(h.video.resolution.width, 10, 10000000000);
    PrintLength(h.video.resolution.height, 10, 10000000000);
    PrintLength(h.video.fps, 10, 10000000000);
    PrintLength(h.video.bitrate, 10, 10000000000);
    PrintLength(h.video.packet, 10, 10000000000);
  }

  lemma HostShort(h: Host)
    requires CText(h.name) && |h.name| <= NAME_BYTES && CText(h.address) && |h.address| <= ADDRESS_BYTES
    requires h.lastUsed <= LAST_USED_MAX && ValidStream(h.video)
    ensures HostFields(h) != [] && |Join(HostFields(h))| <= LINE_MAX
  {
    var bounds: seq<nat> := [1, 288, 759, 1, 10, 10, 10, 1, 10, 10, 10, 4, 7];
    SumOfBounds(bounds);
    FieldsBounded(h, bounds);
    JoinBound(HostFields(h), bounds, LINE_MAX);
  }

  lemma SumOfBounds(bounds: seq<nat>)
    requires bounds == [1, 288, 759, 1, 10, 10, 10, 1, 10, 10, 10, 4, 7]
    ensures Sum(bounds) == 1121
  {
    assert Sum([1, 288, 759, 1, 10, 10, 10, 1, 10, 10, 10, 4, 7]) == 1121;
  }

  lemma FieldsBounded(h: Host, bounds: seq<nat>)
    requires CText(h.name) && |h.name| <= NAME_BYTES && CText(h.address) && |h.address| <= ADDRESS_BYTES
    requires h.lastUsed <= LAST_USED_MAX && ValidStream(h.video)
    requires bounds == [1, 288, 759, 1, 10, 10, 10, 1, 10, 10, 10, 4, 7]
    ensures |HostFields(h)| == |bounds| && forall i :: 0 <= i < |bounds| ==> |HostFields(h)[i]| <= bounds[i]
  {
    NamesRoundTrip(h.video.codec, h.video.aspect);
    NumbersShort(h);
  }

  lemma HostRecordOk(numeric: string -> bool, f: Format<Host>, h: Host)
    requires f == HostFormat(numeric) && ValidHost(numeric, h)
    ensures RecordOk(f, h)
  {
    HostParses(h);
    HostVisible(h);
    HostShort(h);
  }

  lemma HeaderOk(header: string)
    requires header == "RG40XXV_NETSTREAM_HOSTS\t1"
    ensures CText(header) && '\n' !in header && |header| <= LINE_MAX
  {
  }

  lemma HostFormatOk(numeric: string -> bool, f: Format<Host>)
    requires f == HostFormat(numeric)
    ensures FormatOk(f)
  {
    HeaderOk(f.header);
    forall h: Host | f.valid(h) ensures RecordOk(f, h) {
      HostRecordOk(numeric, f, h);
    }
  }

  /** Every valid host database is written within the limit and read back as it was, and
      nothing invalid is written. */
  lemma HostsSaveLoad(numeric: string -> bool, f: Format<Host>, t: Table<Host>)
    requires f == HostFormat(numeric)
    ensures FormatOk(f)
    ensures Save(f, t).Some? <==> ValidTable(f, t)
    ensures ValidTable(f, t) ==> Load(f, Save(f, t).value) == Some(t)
  {
    HostFormatOk(numeric, f);
    SaveSucceeds(f, t);
    if ValidTable(f, t) {
      SaveLoad(f, t);
    }
  }
}
