/**
 * The formatter `dfs_format`: it writes the superblock of a default
 * 32768000-byte partition, runs the two bitmap-clearing loops and writes the
 * root node entry 48 sectors into the disk.
 *
 * The first loop ("reset bitmap") runs `bmp_granularity / 32768000` = 0
 * times. The second ("cover") clears bitmap bytes 0 .. 5 to 0x00, which marks
 * the first 48 granules FREE, not allocated: the allocator's first answer on
 * a freshly formatted disk is granule 0, the header's own granule.
 */
module Format {
  import opened Bytes
  import opened Layout
  import opened Allocator

  const DefaultDiskSize: nat := 32768000
  const SectorSize: nat := 512
  /** Where the root entry goes: 48 sectors into the disk. */
  const RootOffset: nat := SectorSize * 48
  const DefaultGranularity: nat := 512
  const FormatVersion: bv8 := 0x03
  /** The permission value written for the root entry (decimal 777). */
  const DefaultPerms: nat := 777
  /** Iterations of the "reset bitmap" loop: bmp_granularity / DEFAULT_DISK_SIZE. */
  const ResetBytes: nat := DefaultGranularity / DefaultDiskSize
  /** Iterations of the "cover" loop: 48 / bitsof(sizeof(alloc_bmp[0])). */
  const CoverBytes: nat := 48 / BitsPerByte
  /** "root". */
  const RootName: seq<bv8> := [0x72, 0x6F, 0x6F, 0x74]
  /** The buffer must hold the root entry and its name's terminator. */
  const FormattedMinSize: nat := RootOffset + NameAt + |RootName| + 1

  function FormattedHeader(): (h: Header)
    ensures HeaderFits(h)
  {
    Header(Signature, FormatVersion, 0, RootOffset, 0, DefaultGranularity, DefaultDiskSize / PartitionUnit)
  }

  function RootEntry(): (e: NodeEntry)
    ensures EntryFits(e)
  {
    NodeEntry(0, 0, 0, 0, 0, 0, 0, 0, DefaultPerms, DefaultPerms, 0, 0, 0, 0)
  }

  /** The bytes written at RootOffset: the fixed fields, then the name and its NUL. */
  function RootRecord(): (bs: seq<bv8>)
    ensures |bs| == NameAt + |RootName| + 1
  {
    EncodeEntry(RootEntry()) + (RootName + [0])
  }

  /** The image dfs_format leaves behind on the image d. */
  function FormatImage(d: seq<bv8>): (r: seq<bv8>)
    requires FormattedMinSize <= |d|
    ensures |r| == |d|
  {
    var withHeader := WriteBytes(d, IdentifierAt, EncodeHeader(FormattedHeader()));
    var reset := WriteBytes(withHeader, BitmapAt, Zeros(ResetBytes));
    var covered := WriteBytes(reset, BitmapAt, Zeros(CoverBytes));
    WriteBytes(covered, RootOffset, RootRecord())
  }

  /**
   * After formatting, the superblock reads: signature "4DFS", version 3, root
   * block 24576 (512 * 48), granularity 512, partition size 8000 units of
   * 4 KiB (32768000 / 4096), and no mirror partition and no journal.
   */
  lemma FormatHeaderFields(d: seq<bv8>)
    requires FormattedMinSize <= |d|
    ensures var h := ReadHeader(FormatImage(d), 0);
      && h == FormattedHeader()
      && h.identifier == [0x34, 0x44, 0x46, 0x53]
      && h.version == 0x03
      && h.rootBlock == 24576
      && h.bmpGranularity == 512
      && h.sizeOfPart == 8000
      && h.mirrorPartition == 0
      && h.firstJournalingBlock == 0
  {
    var r := FormatImage(d);
    assert r[0..HeaderSize] == EncodeHeader(FormattedHeader());
    HeaderDecodeEncode(FormattedHeader());
  }

  /**
   * Formatting writes bitmap bytes 0 .. 5 as 0x00 (the reset loop writes
   * none) and writes no other byte between the header fields and the root
   * entry, nor any byte after the root entry's name.
   */
  lemma FormatBitmap(d: seq<bv8>)
    requires FormattedMinSize <= |d|
    ensures ResetBytes == 0 && CoverBytes == 6
    ensures var r := FormatImage(d);
      && (forall k :: BitmapAt <= k < BitmapAt + 6 ==> r[k] == 0)
      && (forall k :: BitmapAt + 6 <= k < RootOffset ==> r[k] == d[k])
      && (forall k :: FormattedMinSize <= k < |d| ==> r[k] == d[k])
  {
  }

  /**
   * Formatting writes a terminal root entry at byte 24576: no next entry, no
   * child, no fragment, no symlink, size 0, all three times 0, group and user
   * permissions 777, uid, gid, os_id and os_specific 0, and the name "root".
   */
  lemma FormatRootEntry(d: seq<bv8>)
    requires FormattedMinSize <= |d|
    ensures var r := FormatImage(d);
      && ReadEntry(r, RootOffset) == RootEntry()
      && RootEntry().nextEntry == 0 && RootEntry().childEntry == 0
      && RootEntry().fragment == 0 && RootEntry().symlink == 0 && RootEntry().fileSize == 0
      && RootEntry().creationTime == 0 && RootEntry().editionTime == 0 && RootEntry().accessTime == 0
      && RootEntry().groupPerms == 777 && RootEntry().userPerms == 777
      && RootEntry().uid == 0 && RootEntry().gid == 0
      && RootEntry().osId == 0 && RootEntry().osSpecific == 0
      && Terminated(r, RootOffset + NameAt)
      && CString(r, RootOffset + NameAt) == [0x72, 0x6F, 0x6F, 0x74]
  {
    var r := FormatImage(d);
    var rec := r[RootOffset..FormattedMinSize];
    assert rec == RootRecord();
    assert r[RootOffset..RootOffset + NameAt] == rec[..NameAt] == EncodeEntry(RootEntry());
    EntryDecodeEncode(RootEntry());
    assert r[RootOffset + NameAt..RootOffset + NameAt + |RootName| + 1] == RootName + [0];
    CStringWritten(r, RootOffset + NameAt, RootName);
  }

  /** The superblock and the root entry of the formatted image, as the listing reads them. */
  lemma FormatImageRoot(d: seq<bv8>)
    requires FormattedMinSize <= |d|
    ensures ReadHeader(FormatImage(d), 0) == FormattedHeader()
    ensures ReadEntry(FormatImage(d), RootOffset) == RootEntry()
    ensures Terminated(FormatImage(d), RootOffset + NameAt)
    ensures CString(FormatImage(d), RootOffset + NameAt) == RootName
  {
    FormatHeaderFields(d);
    FormatRootEntry(d);
  }

  /**
   * The quirk of the cover loop: on a freshly formatted disk the allocator
   * examines 8000 granules (an eighth of the 64000 the partition has) and its
   * first answer is granule 0, which holds the superblock itself.
   */
  lemma FormatThenAlloc(d: seq<bv8>)
    requires FormattedMinSize <= |d|
    ensures var r := FormatImage(d);
      && Allocatable(r) && ScanLimit(r) == 8000
      && Alloc(r).0 == 0 && !BitSet(r, 0)
  {
    var r := FormatImage(d);
    FormatHeaderFields(d);
    ReadHeaderFields(r, 0);
    assert r[BitmapAt] == 0;
  }

  /** dfs_format on the disk buffer, in place, field by field in the order the source stores them. */
  method DfsFormat(disk: array<bv8>)
    requires FormattedMinSize <= disk.Length
    modifies disk
    ensures disk[..] == FormatImage(old(disk[..]))
  {
    StoreHeader(disk);
    assert disk[..][GranularityAt..GranularityAt + 2] == EncodeLE(DefaultGranularity, 2) by {
      EncodeHeaderParts(FormattedHeader());
    }
    ClearBitmap(disk);
    StoreRoot(disk);
  }

  /**
   * The two bitmap loops of dfs_format: "reset bitmap", bounded by the
   * granularity read back from the header just written, then "cover".
   */
  method ClearBitmap(disk: array<bv8>)
    requires BitmapAt + CoverBytes <= disk.Length
    requires disk[..][GranularityAt..GranularityAt + 2] == EncodeLE(DefaultGranularity, 2)
    modifies disk
    ensures disk[..] == WriteBytes(WriteBytes(old(disk[..]), BitmapAt, Zeros(ResetBytes)), BitmapAt, Zeros(CoverBytes))
  {
    var gran := Load(disk, GranularityAt, 2);
    DecodeEncode(DefaultGranularity, 2);
    ZeroBytes(disk, BitmapAt, gran / DefaultDiskSize);
    ZeroBytes(disk, BitmapAt, CoverBytes);
  }

  /** The root entry, field by field, then strcpy of its name with the terminator. */
  method StoreRoot(disk: array<bv8>)
    requires FormattedMinSize <= disk.Length
    modifies disk
    ensures disk[..] == WriteBytes(old(disk[..]), RootOffset, RootRecord())
  {
    ghost var before := disk[..];
    StoreEntry(disk, RootOffset, RootEntry());
    Store(disk, RootOffset + NameAt, RootName + [0]);
    WriteAdjacent(before, RootOffset, EncodeEntry(RootEntry()), RootName + [0]);
  }

  /**
   * The superblock stores of dfs_format, in the order the source makes them:
   * the signature and version, root_block, bmp_granularity, size_of_part,
   * mirror_partition, then first_journaling_block.
   */
  method StoreHeader(disk: array<bv8>)
    requires HeaderSize <= disk.Length
    modifies disk
    ensures disk[..] == WriteBytes(old(disk[..]), IdentifierAt, EncodeHeader(FormattedHeader()))
  {
    ghost var d := disk[..];
    StoreSignature(disk);
    ghost var s1 := disk[..];
    StoreGeometry(disk);
    ghost var geometry := EncodeLE(RootOffset, 8) + (EncodeLE(0, 2)
      + (EncodeLE(DefaultGranularity, 2) + EncodeLE(DefaultDiskSize / PartitionUnit, 2)));
    var journalBytes := EncodeLE(0, 8);
    Store(disk, JournalAt, journalBytes);
    WriteAdjacentBefore(s1, JournalAt, journalBytes, geometry);
    WriteAdjacent(d, IdentifierAt, Signature + [FormatVersion], journalBytes + geometry);
    EncodeHeaderParts(FormattedHeader());
  }

  /** The four signature bytes "4DFS", then the version byte. */
  method StoreSignature(disk: array<bv8>)
    requires HeaderSize <= disk.Length
    modifies disk
    ensures disk[..] == WriteBytes(old(disk[..]), IdentifierAt, Signature + [FormatVersion])
  {
    disk[IdentifierAt] := 0x34;
    disk[IdentifierAt + 1] := 0x44;
    disk[IdentifierAt + 2] := 0x46;
    disk[IdentifierAt + 3] := 0x53;
    disk[VersionAt] := FormatVersion;
  }

  /** root_block, bmp_granularity and size_of_part, then mirror_partition, which lies just before those two. */
  method StoreGeometry(disk: array<bv8>)
    requires HeaderSize <= disk.Length
    modifies disk
    ensures disk[..] == WriteBytes(old(disk[..]), RootBlockAt, EncodeLE(RootOffset, 8) + (EncodeLE(0, 2)
      + (EncodeLE(DefaultGranularity, 2) + EncodeLE(DefaultDiskSize / PartitionUnit, 2))))
  {
    ghost var s1 := disk[..];
    var rootBytes := EncodeLE(RootOffset, 8);
    Store(disk, RootBlockAt, rootBytes);
    ghost var s2 := disk[..];
    var granBytes := EncodeLE(DefaultGranularity, 2);
    Store(disk, GranularityAt, granBytes);
    var sizeBytes := EncodeLE(DefaultDiskSize / PartitionUnit, 2);
    Store(disk, SizeOfPartAt, sizeBytes);
    WriteAdjacent(s2, GranularityAt, granBytes, sizeBytes);
    var mirrorBytes := EncodeLE(0, 2);
    Store(disk, MirrorAt, mirrorBytes);
    WriteAdjacentBefore(s2, MirrorAt, mirrorBytes, granBytes + sizeBytes);
    WriteAdjacent(s1, RootBlockAt, rootBytes, mirrorBytes + (granBytes + sizeBytes));
  }

  /**
   * The stores of dfs_format that fill in a node entry at `p`, in the order
   * the source makes them: next_entry through file_size, the three times,
   * the permissions and owner, then os_id and os_specific.
   */
  method StoreEntry(disk: array<bv8>, p: nat, e: NodeEntry)
    requires EntryFits(e) && p + NameAt <= disk.Length
    modifies disk
    ensures disk[..] == WriteBytes(old(disk[..]), p, EncodeEntry(e))
  {
    ghost var base := disk[..];
    StoreLinks(disk, p, e);
    ghost var afterLinks := disk[..];
    StoreTimes(disk, p + CreationAt, e);
    WriteAdjacent(base, p, EncodeLinks(e), EncodeTimes(e));
    StoreOwner(disk, p + GroupPermsAt, e);
    WriteAdjacent(base, p, EncodeLinks(e) + EncodeTimes(e), EncodeOwner(e));
    ghost var written := EncodeLinks(e) + EncodeTimes(e) + EncodeOwner(e);
    StoreNext(disk, base, p, written, p + OsIdAt, [e.osId]);
    written := written + [e.osId];
    StoreNext(disk, base, p, written, p + OsSpecificAt, EncodeLE(e.osSpecific, 8));
  }

  /** next_entry, child_entry, fragment, symlink and file_size, one store each. */
  method StoreLinks(disk: array<bv8>, p: nat, e: NodeEntry)
    requires EntryFits(e) && p + CreationAt <= disk.Length
    modifies disk
    ensures disk[..] == WriteBytes(old(disk[..]), p, EncodeLinks(e))
  {
    ghost var base := disk[..];
    Store(disk, p + NextEntryAt, EncodeLE(e.nextEntry, 8));
    ghost var written := EncodeLE(e.nextEntry, 8);
    StoreNext(disk, base, p, written, p + ChildEntryAt, EncodeLE(e.childEntry, 8));
    written := written + EncodeLE(e.childEntry, 8);
    StoreNext(disk, base, p, written, p + FragmentAt, EncodeLE(e.fragment, 8));
    written := written + EncodeLE(e.fragment, 8);
    StoreNext(disk, base, p, written, p + SymlinkAt, EncodeLE(e.symlink, 8));
    written := written + EncodeLE(e.symlink, 8);
    StoreNext(disk, base, p, written, p + FileSizeAt, EncodeLE(e.fileSize, 8));
  }

  /** creation_time, edition_time and access_time, stored at `p`. */
  method StoreTimes(disk: array<bv8>, p: nat, e: NodeEntry)
    requires EntryFits(e) && p + (GroupPermsAt - CreationAt) <= disk.Length
    modifies disk
    ensures disk[..] == WriteBytes(old(disk[..]), p, EncodeTimes(e))
  {
    ghost var base := disk[..];
    Store(disk, p, EncodeLE(e.creationTime, 8));
    ghost var written := EncodeLE(e.creationTime, 8);
    StoreNext(disk, base, p, written, p + 8, EncodeLE(e.editionTime, 8));
    written := written + EncodeLE(e.editionTime, 8);
    StoreNext(disk, base, p, written, p + 16, EncodeLE(e.accessTime, 8));
  }

  /** group_perms and user_perms, then uid before gid, stored at `p`. */
  method StoreOwner(disk: array<bv8>, p: nat, e: NodeEntry)
    requires EntryFits(e) && p + (OsIdAt - GroupPermsAt) <= disk.Length
    modifies disk
    ensures disk[..] == WriteBytes(old(disk[..]), p, EncodeOwner(e))
  {
    ghost var base := disk[..];
    Store(disk, p, EncodeLE(e.groupPerms, 2));
    ghost var written := EncodeLE(e.groupPerms, 2);
    StoreNext(disk, base, p, written, p + 2, EncodeLE(e.userPerms, 2));
    written := written + EncodeLE(e.userPerms, 2);
    ghost var beforeIds := disk[..];
    Store(disk, p + 6, EncodeLE(e.uid, 2));
    Store(disk, p + 4, EncodeLE(e.gid, 2));
    WriteAdjacentBefore(beforeIds, p + 4, EncodeLE(e.gid, 2), EncodeLE(e.uid, 2));
    WriteAdjacent(base, p, written, EncodeLE(e.gid, 2) + EncodeLE(e.uid, 2));
  }

  /**
   * Stores the field at `at` of a record that starts at `start` and whose
   * bytes before `at` are already in place.
   */
  method StoreNext(disk: array<bv8>, ghost base: seq<bv8>, ghost start: nat, ghost written: seq<bv8>,
                   at: nat, bs: seq<bv8>)
    requires at == start + |written| && at + |bs| <= |base| == disk.Length
    requires disk[..] == WriteBytes(base, start, written)
    modifies disk
    ensures disk[..] == WriteBytes(base, start, written + bs)
  {
    Store(disk, at, bs);
    WriteAdjacent(base, start, written, bs);
  }
}
