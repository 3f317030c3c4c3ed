// The Wi-Fi profiles of netstream.c: wifi.v1.

module NetstreamWifi {
  import opened Options
  import opened Decimal
  import opened Utf8
  import opened Percent
  import opened Fields
  import opened NetstreamText
  import opened NetstreamTable
  import opened NetstreamFile

  const SSID_BYTES := 32
  const SECRET_BYTES := 64
  const MAX_PROFILES := 64

  datatype Security = Open | Wpa2Psk | Wpa3Sae

  datatype Profile = Profile(ssid: string, security: Security, hidden: bool, priority: int, secret: string)

  predicate IsHexText(s: string) {
    forall i :: 0 <= i < |s| ==> '0' <= s[i] <= '9' || 'a' <= s[i] <= 'f' || 'A' <= s[i] <= 'F'
  }

  predicate ValidSecret(security: Security, secret: string) {
    match security
    case Open => secret == []
    case _ => (security.Wpa2Psk? && |secret| == 64 && IsHexText(secret)) || (8 <= |secret| <= 63 && Clean(secret))
  }

  /** ns_validate_wifi, on C text */
  predicate ValidProfile(p: Profile) {
    && CText(p.ssid) && CText(p.secret) && ValidName(p.ssid, SSID_BYTES)
    && -999 <= p.priority <= 999 && |p.secret| <= SECRET_BYTES && ValidSecret(p.security, p.secret)
  }

  /** An open network has no secret; WPA3 takes exactly the clean texts of 8 to 63 bytes, and
      WPA2 those and 64 hex digits. */
  lemma SecretsExactly(secret: string)
    ensures ValidSecret(Open, secret) <==> |secret| == 0
    ensures ValidSecret(Wpa3Sae, secret) <==> Clean(secret) && 8 <= |secret| <= 63
    ensures ValidSecret(Wpa2Psk, secret) <==> ValidSecret(Wpa3Sae, secret) || (|secret| == 64 && IsHexText(secret))
    ensures |secret| > 0 ==> !(ValidSecret(Open, secret) && ValidSecret(Wpa2Psk, secret))
  {
  }

  function SecurityName(s: Security): string {
    match s case Open => "open" case Wpa2Psk => "wpa2-psk" case Wpa3Sae => "wpa3-sae"
  }

  function ParseSecurity(s: string): Option<Security> {
    if s == "open" then Some(Open) else if s == "wpa2-psk" then Some(Wpa2Psk) else if s == "wpa3-sae" then Some(Wpa3Sae) else None
  }

  /** parse_priority */
  function ParsePriority(s: string): Option<int> {
    if s == [] || s[0] == '+' then None
    else match ReadInt(s)
      case Some(v) => if -999 <= v <= 999 then Some(v) else None
      case None => None
  }

  function WifiFields(p: Profile): seq<string> {
    if !Octets(p.ssid) || !Octets(p.secret) then []
    else ["W", Encode(p.ssid), SecurityName(p.security), BoolText(p.hidden), PrintInt(p.priority), Encode(p.secret)]
  }

  function ParseProfile(fields: seq<string>): Option<Profile> {
    if |fields| != 6 then None
    else match (DecodeText(fields[1], SSID_BYTES), ParseSecurity(fields[2]), DecodeText(fields[5], SECRET_BYTES))
      case (Some(ssid), Some(security), Some(secret)) =>
        (match (ParseBool(fields[3]), ParsePriority(fields[4]))
         case (Some(hidden), Some(priority)) => Some(Profile(ssid, security, hidden, priority, secret))
         case _ => None)
      case _ => None
  }

  function WifiFormat(): Format<Profile> {
    Format("RG40XXV_NETSTREAM_WIFI\t1", "W", 6, MAX_PROFILES, SSID_BYTES, (p: Profile) => p.ssid, ValidProfile, WifiFields, ParseProfile)
  }

  lemma PriorityRoundTrip(v: int)
    requires -999 <= v <= 999
    ensures ParsePriority(PrintInt(v)) == Some(v) && |PrintInt(v)| <= 4
  {
    ReadIntOfPrintInt(v);
    PrintIntChars(v);
    assert PrintInt(v)[0] in PrintInt(v);
    PrintLength(if v < 0 then -v else v, 3, 1000);
  }

  lemma SecurityRoundTrip(s: Security)
    ensures ParseSecurity(SecurityName(s)) == Some(s) && Visible(SecurityName(s)) && |SecurityName(s)| <= 8
  {
  }

  lemma Assembled(p: Profile, ssid: string, security: string, hidden: string, priority: string, secret: string)
    requires DecodeText(ssid, SSID_BYTES) == Some(p.ssid) && ParseSecurity(security) == Some(p.security)
    requires ParseBool(hidden) == Some(p.hidden) && ParsePriority(priority) == Some(p.priority)
    requires DecodeText(secret, SECRET_BYTES) == Some(p.secret)
    ensures ParseProfile(["W", ssid, security, hidden, priority, secret]) == Some(p)
  {
  }

  lemma ProfileParses(p: Profile)
    requires CText(p.ssid) && |p.ssid| <= SSID_BYTES && CText(p.secret) && |p.secret| <= SECRET_BYTES && -999 <= p.priority <= 999
    ensures ParseProfile(WifiFields(p)) == Some(p)
  {
    DecodeEncoded(p.ssid, SSID_BYTES);
    DecodeEncoded(p.secret, SECRET_BYTES);
    SecurityRoundTrip(p.security);
    PriorityRoundTrip(p.priority);
    Assembled(p, Encode(p.ssid), SecurityName(p.security), BoolText(p.hidden), PrintInt(p.priority), Encode(p.secret));
  }

  lemma ProfileVisible(p: Profile)
    requires ValidProfile(p)
    ensures AllVisible(WifiFields(p))
  {
    EncodeIsVisible(p.ssid);
    EncodeIsVisible(p.secret);
    SecurityRoundTrip(p.security);
    PrintIntIsVisible(p.priority);
  }

  lemma ProfileShort(p: Profile)
    requires ValidProfile(p)
    ensures WifiFields(p) != [] && |Join(WifiFields(p))| <= LINE_MAX
  {
    SecurityRoundTrip(p.security);
    PriorityRoundTrip(p.priority);
    JoinBound(WifiFields(p), [1, 96, 8, 1, 4, 192], LINE_MAX);
  }

  lemma ProfileRecordOk(f: Format<Profile>, p: Profile)
    requires f == WifiFormat() && ValidProfile(p)
    ensures RecordOk(f, p)
  {
    ProfileParses(p);
    ProfileVisible(p);
    ProfileShort(p);
  }

  lemma HeaderOk(header: string)
    requires header == "RG40XXV_NETSTREAM_WIFI\t1"
    ensures CText(header) && '\n' !in header && |header| <= LINE_MAX
  {
  }

  lemma WifiFormatOk(f: Format<Profile>)
    requires f == WifiFormat()
    ensures FormatOk(f)
  {
    HeaderOk(f.header);
    forall p: Profile | f.valid(p) ensures RecordOk(f, p) {
      ProfileRecordOk(f, p);
    }
  }

  /** Every valid Wi-Fi database is written within the limit and read back as it was, and
      nothing invalid is written. */
  lemma WifiSaveLoad(f: Format<Profile>, t: Table<Profile>)
    requires f == WifiFormat()
    ensures FormatOk(f)
    ensures Save(f, t).Some? <==> ValidTable(f, t)
    ensures ValidTable(f, t) ==> Load(f, Save(f, t).value) == Some(t)
  {
    WifiFormatOk(f);
    SaveSucceeds(f, t);
    if ValidTable(f, t) {
      SaveLoad(f, t);
    }
  }
}
