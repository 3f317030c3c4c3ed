// The GPT header of section 5.3.2 of the UEFI Specification, as
// tools/rg40xxv-gpt-label-swap.py packs and validates it.  CRC-32 is a
// parameter: every statement holds for any checksum function.

module GptLayout {

  type Byte = b: int | 0 <= b < 256
  type Bytes = seq<Byte>
  type Word = w: int | 0 <= w < 0x1_0000_0000
  type Crc = Bytes -> Word

  const SECTOR_SIZE := 512
  const TABLE_BYTES := 1024
  const HEADER_BYTES := 92
  const PRIMARY_HEADER_LBA := 1
  const PRIMARY_TABLE_LBA := 2
  const BACKUP_TABLE_LBA := 122_101_757
  const BACKUP_HEADER_LBA := 122_101_759
  const FIRST_USABLE_LBA := 4
  const LAST_USABLE_LBA := 122_101_756
  const ENTRY_COUNT := 8
  const ENTRY_SIZE := 128

  /** b"EFI PART" */
  const SIGNATURE: Bytes := [0x45, 0x46, 0x49, 0x20, 0x50, 0x41, 0x52, 0x54]
  /** uuid ab6f3888-569a-4926-9668-80941dcb40bc in its bytes_le form */
  const DISK_GUID: Bytes :=
    [0x88, 0x38, 0x6f, 0xab, 0x9a, 0x56, 0x26, 0x49, 0x96, 0x68, 0x80, 0x94, 0x1d, 0xcb, 0x40, 0xbc]

  // ----- struct.pack / struct.unpack -----

  function Le(x: nat, n: nat): (r: Bytes)
    ensures |r| == n
  {
    if n == 0 then [] else [x % 256] + Le(x / 256, n - 1)
  }

  function FromLe(b: Bytes): nat {
    if b == [] then 0 else b[0] + 256 * FromLe(b[1..])
  }

  function Pow256(n: nat): nat {
    if n == 0 then 1 else 256 * Pow256(n - 1)
  }

  lemma {:induction false} LeRoundTrip(x: nat, n: nat)
    requires x < Pow256(n)
    ensures FromLe(Le(x, n)) == x
  {
    if n != 0 {
      LeRoundTrip(x / 256, n - 1);
      assert Le(x, n)[1..] == Le(x / 256, n - 1);
    }
  }

  lemma {:induction false} LeUnique(b: Bytes)
    ensures FromLe(b) < Pow256(|b|)
    ensures Le(FromLe(b), |b|) == b
  {
    if b != [] {
      LeUnique(b[1..]);
      assert b == [b[0]] + b[1..];
    }
  }

  /** The four-byte and eight-byte little-endian words, both ways. */
  lemma LeWord(x: nat, n: nat, b: Bytes)
    requires n == 4 || n == 8
    requires x < 0x1_0000_0000
    requires |b| == n
    ensures FromLe(b) == x <==> b == Le(x, n)
  {
    assert Pow256(4) == 0x1_0000_0000;
    assert Pow256(5) == 256 * Pow256(4);
    assert Pow256(6) == 256 * Pow256(5);
    assert Pow256(7) == 256 * Pow256(6);
    assert Pow256(8) == 256 * Pow256(7);
    LeRoundTrip(x, n);
    LeUnique(b);
  }

  /** struct.pack_into of `patch` at `offset`. */
  function Splice(data: Bytes, offset: nat, patch: Bytes): Bytes
    requires offset + |patch| <= |data|
  {
    data[..offset] + patch + data[offset + |patch|..]
  }

  // ----- header_for_table -----

  function CurrentLba(backup: bool): nat { if backup then BACKUP_HEADER_LBA else PRIMARY_HEADER_LBA }
  function OtherLba(backup: bool): nat { if backup then PRIMARY_HEADER_LBA else BACKUP_HEADER_LBA }
  function TableLba(backup: bool): nat { if backup then BACKUP_TABLE_LBA else PRIMARY_TABLE_LBA }

  /** Bytes 0-23: "<8sIIII" */
  function PackHead(headerCrc: Word): (r: Bytes)
    ensures |r| == 24
  {
    SIGNATURE + Le(0x0001_0000, 4) + Le(HEADER_BYTES, 4) + Le(headerCrc, 4) + Le(0, 4)
  }

  /** Bytes 24-55: "<QQQQ" */
  function PackGeometry(backup: bool): (r: Bytes)
    ensures |r| == 32
  {
    Le(CurrentLba(backup), 8) + Le(OtherLba(backup), 8) + Le(FIRST_USABLE_LBA, 8) + Le(LAST_USABLE_LBA, 8)
  }

  /** Bytes 56-91: "<16sQIII" */
  function PackTail(tableCrc: Word, backup: bool): (r: Bytes)
    ensures |r| == 36
  {
    DISK_GUID + Le(TableLba(backup), 8) + Le(ENTRY_COUNT, 4) + Le(ENTRY_SIZE, 4) + Le(tableCrc, 4)
  }

  /** Bytes 92-511. */
  function Padding(): (r: Bytes)
    ensures |r| == 420 && forall i :: 0 <= i < 420 ==> r[i] == 0
  {
    seq(420, _ => 0)
  }

  function PackHeader(headerCrc: Word, tableCrc: Word, backup: bool): (r: Bytes)
    ensures |r| == SECTOR_SIZE
  {
    PackHead(headerCrc) + PackGeometry(backup) + PackTail(tableCrc, backup) + Padding()
  }

  function HeaderForTable(crc: Crc, table: Bytes, backup: bool): (header: Bytes)
    requires |table| == TABLE_BYTES
    ensures |header| == SECTOR_SIZE
  {
    var header := PackHeader(0, crc(table), backup);
    Splice(header, 16, Le(crc(header[..HEADER_BYTES]), 4))
  }

  // ----- validate_gpt_copy -----

  /** Raises nothing exactly when this holds. */
  predicate ValidateGptCopy(crc: Crc, header: Bytes, table: Bytes, backup: bool) {
    && |header| == SECTOR_SIZE && |table| == TABLE_BYTES
    && ValidHead(header[..24])
    && (forall i :: HEADER_BYTES <= i < SECTOR_SIZE ==> header[i] == 0)
    && crc(Splice(header[..HEADER_BYTES], 16, Le(0, 4))) == FromLe(header[16..20])
    && ValidGeometry(header[24..56], backup)
    && ValidTail(header[56..92], crc(table), backup)
  }

  predicate ValidHead(b: Bytes)
    requires |b| == 24
  {
    && b[..8] == SIGNATURE
    && FromLe(b[8..12]) == 0x0001_0000
    && FromLe(b[12..16]) == HEADER_BYTES
    && FromLe(b[20..24]) == 0
  }

  predicate ValidGeometry(b: Bytes, backup: bool)
    requires |b| == 32
  {
    && FromLe(b[..8]) == CurrentLba(backup)
    && FromLe(b[8..16]) == OtherLba(backup)
    && FromLe(b[16..24]) == FIRST_USABLE_LBA
    && FromLe(b[24..32]) == LAST_USABLE_LBA
  }

  predicate ValidTail(b: Bytes, tableCrc: Word, backup: bool)
    requires |b| == 36
  {
    && b[..16] == DISK_GUID
    && FromLe(b[16..24]) == TableLba(backup)
    && FromLe(b[24..28]) == ENTRY_COUNT
    && FromLe(b[28..32]) == ENTRY_SIZE
    && FromLe(b[32..36]) == tableCrc
  }

  /** Comparing a record field by field is comparing it whole. */
  lemma Fieldwise(b: Bytes, p0: Bytes, p1: Bytes, p2: Bytes, p3: Bytes, p4: Bytes)
    requires |b| == |p0| + |p1| + |p2| + |p3| + |p4|
    ensures b == p0 + p1 + p2 + p3 + p4
       <==> var n1 := |p0| + |p1|; var n2 := n1 + |p2|; var n3 := n2 + |p3|;
            b[..|p0|] == p0 && b[|p0|..n1] == p1 && b[n1..n2] == p2 && b[n2..n3] == p3 && b[n3..] == p4
  {
    var n1 := |p0| + |p1|;
    var n2 := n1 + |p2|;
    var n3 := n2 + |p3|;
    var p := p0 + p1 + p2 + p3 + p4;
    assert p[..|p0|] == p0 && p[|p0|..n1] == p1 && p[n1..n2] == p2 && p[n2..n3] == p3 && p[n3..] == p4;
    assert b == b[..|p0|] + b[|p0|..n1] + b[n1..n2] + b[n2..n3] + b[n3..];
  }

  lemma HeadUnique(b: Bytes, headerCrc: Word)
    requires |b| == 24
    ensures ValidHead(b) && FromLe(b[16..20]) == headerCrc <==> b == PackHead(headerCrc)
  {
    LeWord(0x0001_0000, 4, b[8..12]);
    LeWord(HEADER_BYTES, 4, b[12..16]);
    LeWord(headerCrc, 4, b[16..20]);
    LeWord(0, 4, b[20..24]);
    assert b[20..] == b[20..24];
    Fieldwise(b, SIGNATURE, Le(0x0001_0000, 4), Le(HEADER_BYTES, 4), Le(headerCrc, 4), Le(0, 4));
  }

  lemma GeometryUnique(b: Bytes, backup: bool)
    requires |b| == 32
    ensures ValidGeometry(b, backup) <==> b == PackGeometry(backup)
  {
    LeWord(CurrentLba(backup), 8, b[..8]);
    LeWord(OtherLba(backup), 8, b[8..16]);
    LeWord(FIRST_USABLE_LBA, 8, b[16..24]);
    LeWord(LAST_USABLE_LBA, 8, b[24..32]);
    Fieldwise(b, Le(CurrentLba(backup), 8), Le(OtherLba(backup), 8), Le(FIRST_USABLE_LBA, 8), Le(LAST_USABLE_LBA, 8), []);
    assert PackGeometry(backup) == PackGeometry(backup) + [];
  }

  lemma TailUnique(b: Bytes, tableCrc: Word, backup: bool)
    requires |b| == 36
    ensures ValidTail(b, tableCrc, backup) <==> b == PackTail(tableCrc, backup)
  {
    LeWord(TableLba(backup), 8, b[16..24]);
    LeWord(ENTRY_COUNT, 4, b[24..28]);
    LeWord(ENTRY_SIZE, 4, b[28..32]);
    LeWord(tableCrc, 4, b[32..36]);
    assert b[32..] == b[32..36];
    Fieldwise(b, DISK_GUID, Le(TableLba(backup), 8), Le(ENTRY_COUNT, 4), Le(ENTRY_SIZE, 4), Le(tableCrc, 4));
  }

  lemma SpliceMiddle(a: Bytes, x: Bytes, y: Bytes, c: Bytes, d: Bytes)
    requires |x| == |y|
    ensures Splice(a + x + (c + d), |a|, y) == a + y + (c + d)
    ensures (a + x + (c + d))[..|a| + |x| + |c|] == a + x + c
    ensures Splice(a + x + c, |a|, y) == a + y + c
  {
    assert (a + x + (c + d))[..|a|] == a && (a + x + c)[..|a|] == a;
    assert (a + x + (c + d))[|a| + |x|..] == c + d && (a + x + c)[|a| + |x|..] == c;
  }

  lemma Regroup(a: Bytes, k: Bytes, o: Bytes, g: Bytes, t: Bytes, p: Bytes)
    ensures (a + k + o) + g + t + p == a + k + ((o + g + t) + p)
  {
  }

  /** Patching the CRC field of a packed header packs the header with that CRC. */
  lemma SpliceCrc(stale: Word, current: Word, tableCrc: Word, backup: bool)
    ensures Splice(PackHeader(stale, tableCrc, backup), 16, Le(current, 4)) == PackHeader(current, tableCrc, backup)
    ensures Splice(PackHeader(stale, tableCrc, backup)[..HEADER_BYTES], 16, Le(current, 4))
         == PackHeader(current, tableCrc, backup)[..HEADER_BYTES]
  {
    var a := SIGNATURE + Le(0x0001_0000, 4) + Le(HEADER_BYTES, 4);
    var c, d := Le(0, 4) + PackGeometry(backup) + PackTail(tableCrc, backup), Padding();
    Regroup(a, Le(stale, 4), Le(0, 4), PackGeometry(backup), PackTail(tableCrc, backup), d);
    Regroup(a, Le(current, 4), Le(0, 4), PackGeometry(backup), PackTail(tableCrc, backup), d);
    SpliceMiddle(a, Le(stale, 4), Le(current, 4), c, d);
    SpliceMiddle(a, Le(current, 4), Le(current, 4), c, d);
  }

  /** The checksum a valid header stores: the CRC of its own 92 bytes with the CRC field zeroed. */
  function OwnCrc(crc: Crc, tableCrc: Word, backup: bool): Word {
    crc(PackHeader(0, tableCrc, backup)[..HEADER_BYTES])
  }

  lemma HeaderIsPacked(crc: Crc, table: Bytes, backup: bool)
    requires |table| == TABLE_BYTES
    ensures HeaderForTable(crc, table, backup)
         == PackHeader(OwnCrc(crc, crc(table), backup), crc(table), backup)
  {
    SpliceCrc(0, OwnCrc(crc, crc(table), backup), crc(table), backup);
  }

  /** The field checks of validate_gpt_copy pin every byte but the stored CRC. */
  lemma ChecksPinHeader(header: Bytes, stored: Word, tableCrc: Word, backup: bool)
    requires |header| == SECTOR_SIZE
    ensures ( && ValidHead(header[..24]) && FromLe(header[16..20]) == stored
              && (forall i :: HEADER_BYTES <= i < SECTOR_SIZE ==> header[i] == 0)
              && ValidGeometry(header[24..56], backup)
              && ValidTail(header[56..92], tableCrc, backup))
       <==> header == PackHeader(stored, tableCrc, backup)
  {
    Subslice(header);
    HeadUnique(header[..24], stored);
    GeometryUnique(header[24..56], backup);
    TailUnique(header[56..92], tableCrc, backup);
    ZeroTail(header);
    Fieldwise(header, PackHead(stored), PackGeometry(backup), PackTail(tableCrc, backup), Padding(), []);
    assert header[92..512] == header[92..];
    assert PackHeader(stored, tableCrc, backup) == PackHeader(stored, tableCrc, backup) + [];
  }

  lemma Subslice(header: Bytes)
    requires |header| == SECTOR_SIZE
    ensures header[..24][16..20] == header[16..20]
  {
  }

  lemma ZeroTail(header: Bytes)
    requires |header| == SECTOR_SIZE
    ensures (forall i :: HEADER_BYTES <= i < SECTOR_SIZE ==> header[i] == 0) <==> header[92..] == Padding()
  {
    if header[92..] == Padding() {
      forall i | HEADER_BYTES <= i < SECTOR_SIZE ensures header[i] == 0 {
        assert header[i] == header[92..][i - 92];
      }
    }
  }

  // ----- main results -----

  /** validate_gpt_copy accepts a header for a table exactly when it is the one
      header_for_table builds for that table and that copy. */
  lemma ValidateExactlyBuiltHeader(crc: Crc, header: Bytes, table: Bytes, backup: bool)
    ensures ValidateGptCopy(crc, header, table, backup)
       <==> |table| == TABLE_BYTES && header == HeaderForTable(crc, table, backup)
  {
    if |header| == SECTOR_SIZE && |table| == TABLE_BYTES {
      var own := OwnCrc(crc, crc(table), backup);
      HeaderIsPacked(crc, table, backup);
      LeUnique(header[16..20]);
      assert Pow256(4) == 0x1_0000_0000;
      var stored: Word := FromLe(header[16..20]);
      ChecksPinHeader(header, stored, crc(table), backup);
      ChecksPinHeader(header, own, crc(table), backup);
      SpliceCrc(stored, 0, crc(table), backup);
    }
  }

  /** Headers of two tables differ in nothing but the two CRC fields. */
  lemma HeadersDifferOnlyInCrcs(crc: Crc, s: Bytes, t: Bytes, backup: bool, i: nat)
    requires |s| == |t| == TABLE_BYTES
    requires i < SECTOR_SIZE && !(16 <= i < 20) && !(88 <= i < 92)
    ensures HeaderForTable(crc, s, backup)[i] == HeaderForTable(crc, t, backup)[i]
  {
    HeaderIsPacked(crc, s, backup);
    HeaderIsPacked(crc, t, backup);
  }
}
