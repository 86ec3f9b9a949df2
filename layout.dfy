/**
 * The on-disk records of DFS: the superblock (`struct dfs_header`) and the
 * directory record (`struct dfs_node_entry`), laid out packed, in declaration
 * order, every multi-byte field little-endian:
 *
 *   header      identifier 0..3, version 4, first_journaling_block 5..12,
 *               root_block 13..20, mirror_partition 21..22,
 *               bmp_granularity 23..24, size_of_part 25..26, alloc_bmp 27..
 *   node entry  next_entry 0, child_entry 8, fragment 16, symlink 24,
 *               file_size 32, utc_creation_time 40, utc_edition_time 48,
 *               utc_access_time 56, group_perms 64, user_perms 66, gid 68,
 *               uid 70, os_id 72, os_specific 73..80, name 81.. (NUL-terminated)
 */
module Layout {
  import opened Bytes

  // Header field offsets.
  const IdentifierAt: nat := 0
  const VersionAt: nat := 4
  const JournalAt: nat := 5
  const RootBlockAt: nat := 13
  const MirrorAt: nat := 21
  const GranularityAt: nat := 23
  const SizeOfPartAt: nat := 25
  const BitmapAt: nat := 27
  /** Size of the fixed header fields; the allocation bitmap starts here. */
  const HeaderSize: nat := 27

  // Node entry field offsets, relative to the start of the entry.
  const NextEntryAt: nat := 0
  const ChildEntryAt: nat := 8
  const FragmentAt: nat := 16
  const SymlinkAt: nat := 24
  const FileSizeAt: nat := 32
  const CreationAt: nat := 40
  const EditionAt: nat := 48
  const AccessAt: nat := 56
  const GroupPermsAt: nat := 64
  const UserPermsAt: nat := 66
  const GidAt: nat := 68
  const UidAt: nat := 70
  const OsIdAt: nat := 72
  const OsSpecificAt: nat := 73
  /** Size of the fixed entry fields; the inline name starts here. */
  const NameAt: nat := 81

  /** The magic "4DFS". */
  const Signature: seq<bv8> := [0x34, 0x44, 0x46, 0x53]

  datatype Header = Header(
    identifier: seq<bv8>,
    version: bv8,
    firstJournalingBlock: nat,
    rootBlock: nat,
    mirrorPartition: nat,
    bmpGranularity: nat,
    sizeOfPart: nat)

  /** Every field fits its on-disk width. */
  predicate HeaderFits(h: Header) {
    && |h.identifier| == 4
    && h.firstJournalingBlock < Pow256(8)
    && h.rootBlock < Pow256(8)
    && h.mirrorPartition < Pow256(2)
    && h.bmpGranularity < Pow256(2)
    && h.sizeOfPart < Pow256(2)
  }

  function EncodeHeader(h: Header): (bs: seq<bv8>)
    requires HeaderFits(h)
    ensures |bs| == HeaderSize
  {
    h.identifier + [h.version]
    + EncodeLE(h.firstJournalingBlock, 8)
    + EncodeLE(h.rootBlock, 8)
    + EncodeLE(h.mirrorPartition, 2)
    + EncodeLE(h.bmpGranularity, 2)
    + EncodeLE(h.sizeOfPart, 2)
  }

  /** The header image, grouped from the right (the order in which dfs_format assembles it). */
  lemma EncodeHeaderParts(h: Header)
    requires HeaderFits(h)
    ensures EncodeHeader(h) == (h.identifier + [h.version])
      + (EncodeLE(h.firstJournalingBlock, 8) + (EncodeLE(h.rootBlock, 8)
      + (EncodeLE(h.mirrorPartition, 2) + (EncodeLE(h.bmpGranularity, 2) + EncodeLE(h.sizeOfPart, 2)))))
  {
  }

  function DecodeHeader(bs: seq<bv8>): (h: Header)
    requires |bs| == HeaderSize
    ensures HeaderFits(h)
  {
    Header(
      bs[IdentifierAt..VersionAt],
      bs[VersionAt],
      DecodeLE(bs[JournalAt..RootBlockAt]),
      DecodeLE(bs[RootBlockAt..MirrorAt]),
      DecodeLE(bs[MirrorAt..GranularityAt]),
      DecodeLE(bs[GranularityAt..SizeOfPartAt]),
      DecodeLE(bs[SizeOfPartAt..HeaderSize]))
  }

  lemma HeaderDecodeEncode(h: Header)
    requires HeaderFits(h)
    ensures DecodeHeader(EncodeHeader(h)) == h
  {
    var bs := EncodeHeader(h);
    assert bs[JournalAt..RootBlockAt] == EncodeLE(h.firstJournalingBlock, 8);
    assert bs[RootBlockAt..MirrorAt] == EncodeLE(h.rootBlock, 8);
    assert bs[MirrorAt..GranularityAt] == EncodeLE(h.mirrorPartition, 2);
    assert bs[GranularityAt..SizeOfPartAt] == EncodeLE(h.bmpGranularity, 2);
    assert bs[SizeOfPartAt..] == EncodeLE(h.sizeOfPart, 2);
    assert bs[SizeOfPartAt..HeaderSize] == EncodeLE(h.sizeOfPart, 2);
    DecodeEncode(h.firstJournalingBlock, 8);
    DecodeEncode(h.rootBlock, 8);
    DecodeEncode(h.mirrorPartition, 2);
    DecodeEncode(h.bmpGranularity, 2);
    DecodeEncode(h.sizeOfPart, 2);
  }

  lemma HeaderEncodeDecode(bs: seq<bv8>)
    requires |bs| == HeaderSize
    ensures EncodeHeader(DecodeHeader(bs)) == bs
  {
    EncodeDecode(bs[JournalAt..RootBlockAt]);
    EncodeDecode(bs[RootBlockAt..MirrorAt]);
    EncodeDecode(bs[MirrorAt..GranularityAt]);
    EncodeDecode(bs[GranularityAt..SizeOfPartAt]);
    EncodeDecode(bs[SizeOfPartAt..HeaderSize]);
    assert bs == bs[IdentifierAt..VersionAt] + [bs[VersionAt]] + bs[JournalAt..RootBlockAt]
      + bs[RootBlockAt..MirrorAt] + bs[MirrorAt..GranularityAt]
      + bs[GranularityAt..SizeOfPartAt] + bs[SizeOfPartAt..HeaderSize];
  }

  /** The header whose fixed fields start at byte `base` of the disk. */
  function ReadHeader(d: seq<bv8>, base: nat): (h: Header)
    requires base + HeaderSize <= |d|
    ensures HeaderFits(h)
  {
    DecodeHeader(d[base..base + HeaderSize])
  }

  datatype NodeEntry = NodeEntry(
    nextEntry: nat,
    childEntry: nat,
    fragment: nat,
    symlink: nat,
    fileSize: nat,
    creationTime: nat,
    editionTime: nat,
    accessTime: nat,
    groupPerms: nat,
    userPerms: nat,
    gid: nat,
    uid: nat,
    osId: bv8,
    osSpecific: nat)

  predicate EntryFits(e: NodeEntry) {
    && e.nextEntry < Pow256(8)
    && e.childEntry < Pow256(8)
    && e.fragment < Pow256(8)
    && e.symlink < Pow256(8)
    && e.fileSize < Pow256(8)
    && e.creationTime < Pow256(8)
    && e.editionTime < Pow256(8)
    && e.accessTime < Pow256(8)
    && e.groupPerms < Pow256(2)
    && e.userPerms < Pow256(2)
    && e.gid < Pow256(2)
    && e.uid < Pow256(2)
    && e.osSpecific < Pow256(8)
  }

  /** The fixed fields of an entry (everything before the name). */
  function EncodeEntry(e: NodeEntry): (bs: seq<bv8>)
    requires EntryFits(e)
    ensures |bs| == NameAt
  {
    EncodeLinks(e) + EncodeTimes(e) + EncodeOwner(e) + [e.osId] + EncodeLE(e.osSpecific, 8)
  }

  /** next_entry, child_entry, fragment, symlink and file_size: bytes 0 .. 40. */
  function EncodeLinks(e: NodeEntry): (bs: seq<bv8>)
    requires EntryFits(e)
    ensures |bs| == CreationAt
  {
    EncodeLE(e.nextEntry, 8) + EncodeLE(e.childEntry, 8) + EncodeLE(e.fragment, 8)
    + EncodeLE(e.symlink, 8) + EncodeLE(e.fileSize, 8)
  }

  /** The three timestamps: bytes 40 .. 64. */
  function EncodeTimes(e: NodeEntry): (bs: seq<bv8>)
    requires EntryFits(e)
    ensures |bs| == GroupPermsAt - CreationAt
  {
    EncodeLE(e.creationTime, 8) + EncodeLE(e.editionTime, 8) + EncodeLE(e.accessTime, 8)
  }

  /** group_perms, user_perms, gid and uid: bytes 64 .. 72. */
  function EncodeOwner(e: NodeEntry): (bs: seq<bv8>)
    requires EntryFits(e)
    ensures |bs| == OsIdAt - GroupPermsAt
  {
    EncodeLE(e.groupPerms, 2) + EncodeLE(e.userPerms, 2) + (EncodeLE(e.gid, 2) + EncodeLE(e.uid, 2))
  }

  function DecodeEntry(bs: seq<bv8>): (e: NodeEntry)
    requires |bs| == NameAt
    ensures EntryFits(e)
  {
    var links := bs[..CreationAt];
    var times := bs[CreationAt..GroupPermsAt];
    var owner := bs[GroupPermsAt..OsIdAt];
    NodeEntry(
      DecodeLE(links[0..8]),
      DecodeLE(links[8..16]),
      DecodeLE(links[16..24]),
      DecodeLE(links[24..32]),
      DecodeLE(links[32..40]),
      DecodeLE(times[0..8]),
      DecodeLE(times[8..16]),
      DecodeLE(times[16..24]),
      DecodeLE(owner[0..2]),
      DecodeLE(owner[2..4]),
      DecodeLE(owner[4..6]),
      DecodeLE(owner[6..8]),
      bs[OsIdAt],
      DecodeLE(bs[OsSpecificAt..NameAt]))
  }

  lemma EntryDecodeEncode(e: NodeEntry)
    requires EntryFits(e)
    ensures DecodeEntry(EncodeEntry(e)) == e
  {
    var bs := EncodeEntry(e);
    assert bs[..CreationAt] == EncodeLinks(e);
    assert bs[CreationAt..GroupPermsAt] == EncodeTimes(e);
    assert bs[GroupPermsAt..OsIdAt] == EncodeOwner(e);
    assert bs[OsSpecificAt..NameAt] == EncodeLE(e.osSpecific, 8);
    LinksDecodeEncode(e);
    TimesDecodeEncode(e);
    OwnerDecodeEncode(e);
    DecodeEncode(e.osSpecific, 8);
  }

  lemma LinksDecodeEncode(e: NodeEntry)
    requires EntryFits(e)
    ensures var bs := EncodeLinks(e);
      && DecodeLE(bs[0..8]) == e.nextEntry && DecodeLE(bs[8..16]) == e.childEntry
      && DecodeLE(bs[16..24]) == e.fragment && DecodeLE(bs[24..32]) == e.symlink
      && DecodeLE(bs[32..40]) == e.fileSize
  {
    var bs := EncodeLinks(e);
    assert bs[0..8] == EncodeLE(e.nextEntry, 8);
    assert bs[8..16] == EncodeLE(e.childEntry, 8);
    assert bs[16..24] == EncodeLE(e.fragment, 8);
    assert bs[24..32] == EncodeLE(e.symlink, 8);
    assert bs[32..40] == EncodeLE(e.fileSize, 8);
    DecodeEncode(e.nextEntry, 8);
    DecodeEncode(e.childEntry, 8);
    DecodeEncode(e.fragment, 8);
    DecodeEncode(e.symlink, 8);
    DecodeEncode(e.fileSize, 8);
  }

  lemma TimesDecodeEncode(e: NodeEntry)
    requires EntryFits(e)
    ensures var bs := EncodeTimes(e);
      && DecodeLE(bs[0..8]) == e.creationTime && DecodeLE(bs[8..16]) == e.editionTime
      && DecodeLE(bs[16..24]) == e.accessTime
  {
    var bs := EncodeTimes(e);
    assert bs[0..8] == EncodeLE(e.creationTime, 8);
    assert bs[8..16] == EncodeLE(e.editionTime, 8);
    assert bs[16..24] == EncodeLE(e.accessTime, 8);
    DecodeEncode(e.creationTime, 8);
    DecodeEncode(e.editionTime, 8);
    DecodeEncode(e.accessTime, 8);
  }

  lemma OwnerDecodeEncode(e: NodeEntry)
    requires EntryFits(e)
    ensures var bs := EncodeOwner(e);
      && DecodeLE(bs[0..2]) == e.groupPerms && DecodeLE(bs[2..4]) == e.userPerms
      && DecodeLE(bs[4..6]) == e.gid && DecodeLE(bs[6..8]) == e.uid
  {
    var bs := EncodeOwner(e);
    assert bs[0..2] == EncodeLE(e.groupPerms, 2);
    assert bs[2..4] == EncodeLE(e.userPerms, 2);
    assert bs[4..6] == EncodeLE(e.gid, 2);
    assert bs[6..8] == EncodeLE(e.uid, 2);
    DecodeEncode(e.groupPerms, 2);
    DecodeEncode(e.userPerms, 2);
    DecodeEncode(e.gid, 2);
    DecodeEncode(e.uid, 2);
  }

  lemma EntryEncodeDecode(bs: seq<bv8>)
    requires |bs| == NameAt
    ensures EncodeEntry(DecodeEntry(bs)) == bs
  {
    var e := DecodeEntry(bs);
    LinksEncodeDecode(bs);
    TimesEncodeDecode(bs);
    OwnerEncodeDecode(bs);
    EncodeDecode(bs[OsSpecificAt..NameAt]);
    SplitEntryBytes(bs);
  }

  /** The fixed part of an entry is its five groups of bytes, end to end. */
  lemma SplitEntryBytes(bs: seq<bv8>)
    requires |bs| == NameAt
    ensures bs == bs[..CreationAt] + bs[CreationAt..GroupPermsAt] + bs[GroupPermsAt..OsIdAt]
      + [bs[OsIdAt]] + bs[OsSpecificAt..NameAt]
  {
    assert bs[..GroupPermsAt] == bs[..CreationAt] + bs[CreationAt..GroupPermsAt];
    assert bs[..OsIdAt] == bs[..GroupPermsAt] + bs[GroupPermsAt..OsIdAt];
    assert bs[..OsSpecificAt] == bs[..OsIdAt] + [bs[OsIdAt]];
    assert bs == bs[..OsSpecificAt] + bs[OsSpecificAt..NameAt];
  }

  lemma LinksEncodeDecode(bs: seq<bv8>)
    requires |bs| == NameAt
    ensures EncodeLinks(DecodeEntry(bs)) == bs[..CreationAt]
  {
    SplitEncodeDecode5(bs[..CreationAt]);
  }

  lemma TimesEncodeDecode(bs: seq<bv8>)
    requires |bs| == NameAt
    ensures EncodeTimes(DecodeEntry(bs)) == bs[CreationAt..GroupPermsAt]
  {
    SplitEncodeDecode3(bs[CreationAt..GroupPermsAt]);
  }

  lemma OwnerEncodeDecode(bs: seq<bv8>)
    requires |bs| == NameAt
    ensures EncodeOwner(DecodeEntry(bs)) == bs[GroupPermsAt..OsIdAt]
  {
    SplitEncodeDecode4(bs[GroupPermsAt..OsIdAt]);
  }

  lemma SplitEncodeDecode5(bs: seq<bv8>)
    requires |bs| == 40
    ensures bs == EncodeLE(DecodeLE(bs[0..8]), 8) + EncodeLE(DecodeLE(bs[8..16]), 8)
      + EncodeLE(DecodeLE(bs[16..24]), 8) + EncodeLE(DecodeLE(bs[24..32]), 8)
      + EncodeLE(DecodeLE(bs[32..40]), 8)
  {
    EncodeDecode(bs[0..8]);
    EncodeDecode(bs[8..16]);
    EncodeDecode(bs[16..24]);
    EncodeDecode(bs[24..32]);
    EncodeDecode(bs[32..40]);
    assert bs == bs[0..8] + bs[8..16] + bs[16..24] + bs[24..32] + bs[32..40];
  }

  lemma SplitEncodeDecode3(bs: seq<bv8>)
    requires |bs| == 24
    ensures bs == EncodeLE(DecodeLE(bs[0..8]), 8) + EncodeLE(DecodeLE(bs[8..16]), 8)
      + EncodeLE(DecodeLE(bs[16..24]), 8)
  {
    EncodeDecode(bs[0..8]);
    EncodeDecode(bs[8..16]);
    EncodeDecode(bs[16..24]);
    assert bs == bs[0..8] + bs[8..16] + bs[16..24];
  }

  lemma SplitEncodeDecode4(bs: seq<bv8>)
    requires |bs| == 8
    ensures bs == EncodeLE(DecodeLE(bs[0..2]), 2) + EncodeLE(DecodeLE(bs[2..4]), 2)
      + (EncodeLE(DecodeLE(bs[4..6]), 2) + EncodeLE(DecodeLE(bs[6..8]), 2))
  {
    EncodeDecode(bs[0..2]);
    EncodeDecode(bs[2..4]);
    EncodeDecode(bs[4..6]);
    EncodeDecode(bs[6..8]);
    assert bs == bs[0..2] + bs[2..4] + (bs[4..6] + bs[6..8]);
  }

  /** The fixed fields of the entry that starts at byte p of the disk. */
  function ReadEntry(d: seq<bv8>, p: nat): (e: NodeEntry)
    requires p + NameAt <= |d|
    ensures EntryFits(e)
  {
    DecodeEntry(d[p..p + NameAt])
  }

  /** Each header field read through ReadHeader is the field read in place. */
  lemma ReadHeaderFields(d: seq<bv8>, base: nat)
    requires base + HeaderSize <= |d|
    ensures var h := ReadHeader(d, base);
      && h.identifier == d[base + IdentifierAt..base + VersionAt]
      && h.version == d[base + VersionAt]
      && h.firstJournalingBlock == ReadLE(d, base + JournalAt, 8)
      && h.rootBlock == ReadLE(d, base + RootBlockAt, 8)
      && h.mirrorPartition == ReadLE(d, base + MirrorAt, 2)
      && h.bmpGranularity == ReadLE(d, base + GranularityAt, 2)
      && h.sizeOfPart == ReadLE(d, base + SizeOfPartAt, 2)
  {
    var top := base + HeaderSize;
    SliceOfSlice(d, base, top, IdentifierAt, VersionAt);
    SliceOfSlice(d, base, top, JournalAt, RootBlockAt);
    SliceOfSlice(d, base, top, RootBlockAt, MirrorAt);
    SliceOfSlice(d, base, top, MirrorAt, GranularityAt);
    SliceOfSlice(d, base, top, GranularityAt, SizeOfPartAt);
    SliceOfSlice(d, base, top, SizeOfPartAt, HeaderSize);
  }

  /** The entry fields dfs_list reads, read through ReadEntry, are the fields read in place. */
  lemma ReadEntryFields(d: seq<bv8>, p: nat)
    requires p + NameAt <= |d|
    ensures var e := ReadEntry(d, p);
      && e.nextEntry == ReadLE(d, p + NextEntryAt, 8)
      && e.creationTime == ReadLE(d, p + CreationAt, 8)
      && e.editionTime == ReadLE(d, p + EditionAt, 8)
      && e.accessTime == ReadLE(d, p + AccessAt, 8)
      && e.groupPerms == ReadLE(d, p + GroupPermsAt, 2)
      && e.userPerms == ReadLE(d, p + UserPermsAt, 2)
  {
    var top := p + NameAt;
    var bs := d[p..top];
    SliceOfSlice(d, p, top, 0, CreationAt);
    SliceOfSlice(d, p, p + CreationAt, NextEntryAt, NextEntryAt + 8);
    SliceOfSlice(d, p, top, CreationAt, GroupPermsAt);
    SliceOfSlice(d, p + CreationAt, p + GroupPermsAt, 0, 8);
    SliceOfSlice(d, p + CreationAt, p + GroupPermsAt, 8, 16);
    SliceOfSlice(d, p + CreationAt, p + GroupPermsAt, 16, 24);
    SliceOfSlice(d, p, top, GroupPermsAt, OsIdAt);
    SliceOfSlice(d, p + GroupPermsAt, p + OsIdAt, 0, 2);
    SliceOfSlice(d, p + GroupPermsAt, p + OsIdAt, 2, 4);
  }

  /**
   * Index of the first NUL byte at or after i, or |d| when the rest of the
   * disk holds none: where a C string starting at i ends.
   */
  function NulIndex(d: seq<bv8>, i: nat): (j: nat)
    requires i <= |d|
    ensures i <= j <= |d|
    ensures j < |d| ==> d[j] == 0
    decreases |d| - i
  {
    if i == |d| || d[i] == 0 then i else NulIndex(d, i + 1)
  }

  /** No byte between i and NulIndex(d, i) is NUL: it is the first one. */
  lemma {:induction false} NulIndexFirst(d: seq<bv8>, i: nat)
    requires i <= |d|
    ensures forall k :: i <= k < NulIndex(d, i) ==> d[k] != 0
    decreases |d| - i
  {
    if i < |d| && d[i] != 0 {
      NulIndexFirst(d, i + 1);
    }
  }

  /** The C string at byte i is terminated inside the disk: some byte at or after i is NUL. */
  predicate Terminated(d: seq<bv8>, i: nat)
    requires i <= |d|
  {
    exists k :: i <= k < |d| && d[k] == 0
  }

  /** A string is terminated exactly when the search for its NUL stops inside the disk. */
  lemma TerminatedAtNul(d: seq<bv8>, i: nat)
    requires i <= |d|
    ensures Terminated(d, i) <==> NulIndex(d, i) < |d|
  {
    NulIndexFirst(d, i);
    if NulIndex(d, i) < |d| {
      assert d[NulIndex(d, i)] == 0;
    }
  }

  /** The C string that starts at byte i (its bytes, without the NUL). */
  function CString(d: seq<bv8>, i: nat): (s: seq<bv8>)
    requires i <= |d|
    ensures 0 !in s
    ensures i + |s| < |d| ==> d[i + |s|] == 0
  {
    NulIndexFirst(d, i);
    d[i..NulIndex(d, i)]
  }

  /** A C string written with its terminator is read back unchanged. */
  lemma {:induction false} CStringWritten(d: seq<bv8>, i: nat, s: seq<bv8>)
    requires i + |s| + 1 <= |d|
    requires 0 !in s
    requires d[i..i + |s| + 1] == s + [0]
    ensures Terminated(d, i) && CString(d, i) == s
  {
    var j := NulIndex(d, i);
    NulIndexFirst(d, i);
    assert d[i + |s|] == 0;
    assert forall k :: i <= k < i + |s| ==> d[k] == s[k - i] && d[k] != 0;
    assert j == i + |s|;
    assert d[i..j] == d[i..i + |s| + 1][..|s|] == (s + [0])[..|s|] == s;
  }
}
