/**
 * The lister `dfs_list`: it finds the superblock (at byte 0, or after a
 * 512-byte boot sector), reports its fields, then walks the chain of node
 * entries that starts `root_block` bytes after the superblock. Each entry's
 * `next_entry` is the distance, in bytes, from that entry to the next one;
 * 0 ends the chain.
 *
 * The report is modelled as a value: the superblock summary and, for every
 * entry visited, its offset, name, permissions and times, in visiting order.
 * A buffer whose two candidate superblocks both lack the signature gives
 * the error the source reports before it exits.
 */
module Listing {
  import opened Bytes
  import opened Layout
  import opened Wrappers
  import opened Allocator
  import opened Format

  /** The second place a superblock is looked for: after the boot sector. */
  const BootSectorSize: nat := 512

  /** "invalid signature after boot": neither candidate superblock is signed. */
  datatype ListError = InvalidSignature

  /** The superblock lines of the report. */
  datatype Summary = Summary(
    versionMajor: nat,
    versionMinor: nat,
    rootBlock: nat,
    granularity: nat,
    /** size_of_part * 4096: bytes, although the report labels it MB. */
    partitionSize: nat,
    mirrored: bool,
    journaled: bool)

  /** The lines reported for one node entry, with the offset it was found at. */
  datatype NodeInfo = NodeInfo(
    offset: nat,
    name: seq<bv8>,
    userPerms: nat,
    groupPerms: nat,
    accessTime: nat,
    editionTime: nat,
    creationTime: nat)

  /** A whole report: where the superblock was, its summary, the entries visited. */
  datatype Report = Report(base: nat, summary: Summary, nodes: seq<NodeInfo>)

  /**
   * The identifier bytes at `base` read "4DFS". A buffer too short to hold
   * them has no signature there.
   */
  predicate SignatureAt(d: seq<bv8>, base: nat) {
    base + |Signature| <= |d| && d[base..base + |Signature|] == Signature
  }

  /** Where the superblock is: byte 0 when signed there, else byte 512 when signed there. */
  function HeaderBase(d: seq<bv8>): (r: Option<nat>)
    ensures r.Some? <==> SignatureAt(d, 0) || SignatureAt(d, BootSectorSize)
    ensures r.Some? ==> SignatureAt(d, r.value)
    ensures r == Some(0) <==> SignatureAt(d, 0)
    ensures r.Some? ==> r.value == 0 || r.value == BootSectorSize
  {
    if SignatureAt(d, 0) then Some(0)
    else if SignatureAt(d, BootSectorSize) then Some(BootSectorSize)
    else None
  }

  /** The version as reported: the high nibble, then the low nibble. */
  function VersionMajor(v: bv8): nat {
    ((v & 0xF0) >> 4) as nat
  }

  function VersionMinor(v: bv8): nat {
    (v & 0x0F) as nat
  }

  /** The two reported nibbles are digits below 16 that together give back the version byte. */
  lemma VersionSplit(v: bv8)
    ensures VersionMajor(v) < 16 && VersionMinor(v) < 16
    ensures VersionMajor(v) * 16 + VersionMinor(v) == v as nat
  {
    assert (v & 0xF0) >> 4 == v / 16 && v & 0x0F == v % 16;
  }

  /**
   * The superblock lines: the version as two nibbles that give back the
   * version byte, and a partition size that fits the 32-bit unsigned value
   * printed for it.
   */
  function Summarize(h: Header): (s: Summary)
    requires HeaderFits(h)
    ensures s.versionMajor < 16 && s.versionMinor < 16
    ensures s.versionMajor * 16 + s.versionMinor == h.version as nat
    ensures s.partitionSize < 0x1_0000_0000
  {
    VersionSplit(h.version);
    Summary(
      VersionMajor(h.version),
      VersionMinor(h.version),
      h.rootBlock,
      h.bmpGranularity,
      h.sizeOfPart * PartitionUnit,
      h.mirrorPartition != 0,
      h.firstJournalingBlock != 0)
  }

  /** The fixed fields of the entry at p lie inside the buffer. */
  predicate EntryReadable(d: seq<bv8>, p: nat) {
    p + NameAt <= |d|
  }

  /** The name of every entry at the offsets c ends with a NUL inside the buffer. */
  predicate NamesTerminated(d: seq<bv8>, c: seq<nat>) {
    forall i :: 0 <= i < |c| ==> c[i] + NameAt <= |d| && Terminated(d, c[i] + NameAt)
  }

  /** next_entry of the entry at p: the distance to the entry after it, 0 for none. */
  function NextEntry(d: seq<bv8>, p: nat): nat
    requires p + NameAt <= |d|
  {
    ReadLE(d, p + NextEntryAt, 8)
  }

  /** The lines dfs_list reports for the entry at p. */
  function Info(d: seq<bv8>, p: nat): (r: NodeInfo)
    requires EntryReadable(d, p)
    ensures r.offset == p && 0 !in r.name
    ensures p + NameAt + |r.name| < |d| ==> d[p + NameAt + |r.name|] == 0
    ensures r.userPerms < 0x1_0000 && r.groupPerms < 0x1_0000
    ensures r.accessTime < Pow256(8) && r.editionTime < Pow256(8) && r.creationTime < Pow256(8)
  {
    NodeInfo(p, CString(d, p + NameAt),
      ReadLE(d, p + UserPermsAt, 2), ReadLE(d, p + GroupPermsAt, 2),
      ReadLE(d, p + AccessAt, 8), ReadLE(d, p + EditionAt, 8), ReadLE(d, p + CreationAt, 8))
  }

  /**
   * The chain from p ends within `fuel` hops, every entry on it readable.
   * A hop goes from entry q to q + next_entry(q).
   */
  predicate ChainWithin(d: seq<bv8>, p: nat, fuel: nat)
    decreases fuel
  {
    && EntryReadable(d, p)
    && var next := NextEntry(d, p);
       next == 0 || (fuel > 0 && ChainWithin(d, p + next, fuel - 1))
  }

  /** The offsets of the entries visited from p, in visiting order. */
  function Chain(d: seq<bv8>, p: nat, fuel: nat): (c: seq<nat>)
    requires ChainWithin(d, p, fuel)
    ensures 1 <= |c| <= fuel + 1 && c[0] == p
    ensures forall i :: 0 <= i < |c| ==> EntryReadable(d, c[i])
    decreases fuel
  {
    var next := NextEntry(d, p);
    if next == 0 then [p]
    else [p] + Chain(d, p + next, fuel - 1)
  }

  /**
   * c is the walk from p: it starts at p, every entry on it is readable, each
   * next entry lies next_entry bytes after its predecessor, whose next_entry
   * is nonzero, and it stops at the first entry whose next_entry is 0.
   */
  predicate Path(d: seq<bv8>, p: nat, c: seq<nat>) {
    && |c| >= 1 && c[0] == p
    && (forall i :: 0 <= i < |c| ==> EntryReadable(d, c[i]))
    && (forall i :: 0 <= i < |c| - 1 ==> NextEntry(d, c[i]) != 0 && c[i + 1] == c[i] + NextEntry(d, c[i]))
    && NextEntry(d, c[|c| - 1]) == 0
  }

  /** The offsets Chain lists are the walk from p. */
  lemma ChainShape(d: seq<bv8>, p: nat, fuel: nat)
    requires ChainWithin(d, p, fuel)
    ensures Path(d, p, Chain(d, p, fuel))
  {
    var c := Chain(d, p, fuel);
    forall i | 0 <= i < |c| - 1
      ensures NextEntry(d, c[i]) != 0 && c[i + 1] == c[i] + NextEntry(d, c[i])
    {
      ChainLink(d, p, fuel, i);
    }
    ChainEnd(d, p, fuel);
  }

  /** The i-th hop of the walk goes next_entry bytes forward from a nonzero next_entry. */
  lemma {:induction false} ChainLink(d: seq<bv8>, p: nat, fuel: nat, i: nat)
    requires ChainWithin(d, p, fuel) && i < |Chain(d, p, fuel)| - 1
    ensures var c := Chain(d, p, fuel);
      NextEntry(d, c[i]) != 0 && c[i + 1] == c[i] + NextEntry(d, c[i])
    decreases fuel
  {
    var next := NextEntry(d, p);
    var tail := Chain(d, p + next, fuel - 1);
    assert Chain(d, p, fuel) == [p] + tail;
    if i > 0 {
      ChainLink(d, p + next, fuel - 1, i - 1);
    }
  }

  /** The walk stops at an entry whose next_entry is 0. */
  lemma {:induction false} ChainEnd(d: seq<bv8>, p: nat, fuel: nat)
    requires ChainWithin(d, p, fuel)
    ensures var c := Chain(d, p, fuel); NextEntry(d, c[|c| - 1]) == 0
    decreases fuel
  {
    var next := NextEntry(d, p);
    if next != 0 {
      var tail := Chain(d, p + next, fuel - 1);
      ChainEnd(d, p + next, fuel - 1);
      assert Chain(d, p, fuel)[|Chain(d, p, fuel)| - 1] == tail[|tail| - 1];
    }
  }

  /**
   * r is what dfs_list reports walking from the entry at p: the first line is
   * for the entry at p, each next line for the entry that the nonzero
   * next_entry of the previous one leads to, and the last for an entry whose
   * next_entry is 0; every line carries its own entry's fields.
   */
  predicate WalkFrom(d: seq<bv8>, p: nat, r: seq<NodeInfo>) {
    && |r| >= 1 && r[0].offset == p
    && (forall i :: 0 <= i < |r| ==> EntryReadable(d, r[i].offset) && r[i] == Info(d, r[i].offset))
    && (forall i, j :: 0 <= i && j == i + 1 < |r| ==> Hop(d, r[i].offset, r[j].offset))
    && EntryReadable(d, r[|r| - 1].offset) && NextEntry(d, r[|r| - 1].offset) == 0
  }

  /** The lines dfs_list reports walking the chain from p, within fuel hops. */
  function Walk(d: seq<bv8>, p: nat, fuel: nat): (r: seq<NodeInfo>)
    requires ChainWithin(d, p, fuel)
    ensures WalkFrom(d, p, r)
    decreases fuel
  {
    var next := NextEntry(d, p);
    if next == 0 then [Info(d, p)]
    else
      var rest := Walk(d, p + next, fuel - 1);
      HopFirst(d, Info(d, p), rest);
      [Info(d, p)] + rest
  }

  /** The entry at b is the one the nonzero next_entry of the entry at a leads to. */
  predicate Hop(d: seq<bv8>, a: nat, b: nat) {
    EntryReadable(d, a) && NextEntry(d, a) != 0 && b == a + NextEntry(d, a)
  }

  /** A line followed by the walk from the entry its next_entry leads to keeps every hop. */
  lemma HopFirst(d: seq<bv8>, x: NodeInfo, rest: seq<NodeInfo>)
    requires |rest| >= 1 && Hop(d, x.offset, rest[0].offset)
    requires forall i, j :: 0 <= i && j == i + 1 < |rest| ==> Hop(d, rest[i].offset, rest[j].offset)
    ensures var r := [x] + rest; forall i, j :: 0 <= i && j == i + 1 < |r| ==> Hop(d, r[i].offset, r[j].offset)
  {
    var r := [x] + rest;
    forall i, j | 0 <= i && j == i + 1 < |r|
      ensures Hop(d, r[i].offset, r[j].offset)
    {
      if i > 0 {
        assert r[i] == rest[i - 1] && r[j] == rest[i];
      }
    }
  }

  /**
   * What dfs_list needs of its buffer once a superblock is found: the
   * superblock's fixed fields inside it, and a chain from the root entry that
   * ends, every entry on it inside the buffer with its name NUL-terminated
   * there (printf reads the name up to its NUL). Offsets here are unbounded
   * naturals, so hops only go forward and a chain that ends at all ends
   * within |d| hops (ChainFuel).
   */
  predicate Listable(d: seq<bv8>) {
    match HeaderBase(d)
    case None => true
    case Some(base) =>
      && base + HeaderSize <= |d|
      && ChainWithin(d, RootAt(d, base), |d|)
      && NamesTerminated(d, Chain(d, RootAt(d, base), |d|))
  }

  /** Where the root entry lies: root_block bytes after the superblock at base. */
  function RootAt(d: seq<bv8>, base: nat): nat
    requires base + HeaderSize <= |d|
  {
    base + ReadHeader(d, base).rootBlock
  }

  /** The report of dfs_list on the buffer d. */
  function List(d: seq<bv8>): (r: Result<Report, ListError>)
    requires Listable(d)
    ensures r.Err? <==> HeaderBase(d).None?
    ensures r.Ok? ==> r.value.base == HeaderBase(d).value && |r.value.nodes| >= 1
  {
    match HeaderBase(d)
    case None => Err(InvalidSignature)
    case Some(base) =>
      Ok(Report(base, Summarize(ReadHeader(d, base)), Walk(d, RootAt(d, base), |d|)))
  }

  /**
   * The listing fails exactly when neither byte 0 nor byte 512 starts a
   * signed superblock. Otherwise it reports the superblock at 0 when that one
   * is signed and the one at 512 only when the first is not; its root entry
   * lies root_block bytes after that superblock.
   */
  lemma ListSignature(d: seq<bv8>)
    requires Listable(d)
    ensures List(d).Err? <==> !SignatureAt(d, 0) && !SignatureAt(d, BootSectorSize)
    ensures List(d).Ok? ==>
      var l := List(d).value;
      && SignatureAt(d, l.base)
      && (l.base == 0 || (l.base == BootSectorSize && !SignatureAt(d, 0)))
      && l.base + HeaderSize <= |d|
      && l.summary == Summarize(ReadHeader(d, l.base))
      && l.nodes[0].offset == RootAt(d, l.base)
  {
  }

  /** The listing once the superblock is found at `base`. */
  lemma ListFound(d: seq<bv8>, base: nat)
    requires Listable(d) && HeaderBase(d) == Some(base)
    ensures base + HeaderSize <= |d|
    ensures ChainWithin(d, RootAt(d, base), |d|)
    ensures List(d) == Ok(Report(base, Summarize(ReadHeader(d, base)), Walk(d, RootAt(d, base), |d|)))
  {
    assert ChainWithin(d, RootAt(d, base), |d|);
  }

  /** A chain that ends within n hops ends within any larger number, visiting the same entries. */
  lemma {:induction false} ChainMono(d: seq<bv8>, p: nat, n: nat, m: nat)
    requires ChainWithin(d, p, n) && n <= m
    ensures ChainWithin(d, p, m) && Chain(d, p, n) == Chain(d, p, m)
    decreases n
  {
    var next := NextEntry(d, p);
    if next != 0 {
      ChainMono(d, p + next, n - 1, m - 1);
    }
  }

  /**
   * In the model, where an offset plus next_entry never wraps, hops go
   * forward: a chain from p that ends at all ends within |d| - p hops.
   */
  lemma {:induction false} ChainTight(d: seq<bv8>, p: nat, n: nat)
    requires ChainWithin(d, p, n)
    ensures p < |d| && ChainWithin(d, p, |d| - p)
    decreases n
  {
    var next := NextEntry(d, p);
    if next != 0 {
      var q := p + next;
      ChainTight(d, q, n - 1);
      ChainMono(d, q, |d| - q, |d| - p - 1);
    }
  }

  /**
   * The fuel |d| that List uses loses nothing: a chain that ends within any
   * number of hops ends within |d| hops, and is listed the same way.
   */
  lemma ChainFuel(d: seq<bv8>, p: nat, n: nat)
    requires ChainWithin(d, p, n)
    ensures ChainWithin(d, p, |d|) && Chain(d, p, n) == Chain(d, p, |d|)
  {
    ChainTight(d, p, n);
    ChainMono(d, p, |d| - p, |d|);
    if n <= |d| {
      ChainMono(d, p, n, |d|);
    } else {
      ChainMono(d, p, |d|, n);
    }
  }

  /**
   * The entries visited lie at strictly increasing offsets, so none is
   * visited twice: in the model next_entry is added without wrapping, so
   * the chain cannot loop back.
   */
  lemma {:induction false} ChainIncreasing(d: seq<bv8>, p: nat, n: nat)
    requires ChainWithin(d, p, n)
    ensures forall i, j :: 0 <= i < j < |Chain(d, p, n)| ==> Chain(d, p, n)[i] < Chain(d, p, n)[j]
    decreases n
  {
    var c := Chain(d, p, n);
    var next := NextEntry(d, p);
    if next != 0 {
      var tail := Chain(d, p + next, n - 1);
      ChainIncreasing(d, p + next, n - 1);
      assert c == [p] + tail;
      forall i, j | 0 <= i < j < |c|
        ensures c[i] < c[j]
      {
        assert c[j] == tail[j - 1];
        if i == 0 {
          assert c[i] == p < tail[0];
          if j > 1 {
            assert tail[0] < tail[j - 1];
          }
        } else {
          assert c[i] == tail[i - 1];
        }
      }
    }
  }

  /** The four comparisons of the identifier bytes at `base` with '4', 'D', 'F', 'S'. */
  method HasSignature(disk: seq<bv8>, base: nat) returns (signed: bool)
    ensures signed == SignatureAt(disk, base)
  {
    if base + |Signature| > |disk| {
      return false;
    }
    signed := disk[base] == 0x34 && disk[base + 1] == 0x44
      && disk[base + 2] == 0x46 && disk[base + 3] == 0x53;
    assert signed ==> disk[base..base + |Signature|] == Signature;
  }

  /** The superblock lines of dfs_list: each field read in place and converted from little-endian. */
  method ReadSummary(disk: seq<bv8>, base: nat) returns (summary: Summary)
    requires base + HeaderSize <= |disk|
    ensures summary == Summarize(ReadHeader(disk, base))
  {
    ReadHeaderFields(disk, base);
    var version := disk[base + VersionAt];
    var root := ReadLE(disk, base + RootBlockAt, 8);
    var gran := ReadLE(disk, base + GranularityAt, 2);
    var size := ReadLE(disk, base + SizeOfPartAt, 2);
    var mirror := ReadLE(disk, base + MirrorAt, 2);
    var journal := ReadLE(disk, base + JournalAt, 8);
    summary := Summary(((version & 0xF0) >> 4) as nat, (version & 0x0F) as nat,
      root, gran, size * PartitionUnit, mirror != 0, journal != 0);
  }

  /** The two signature checks of dfs_list: first at byte 0, then past the boot sector. */
  method FindHeader(disk: seq<bv8>) returns (found: Option<nat>)
    ensures found == HeaderBase(disk)
  {
    var signed := HasSignature(disk, 0);
    if signed {
      return Some(0);
    }
    signed := HasSignature(disk, BootSectorSize);
    if signed {
      return Some(BootSectorSize);
    }
    return None;
  }

  /** dfs_list on the disk buffer: find the superblock, then follow the chain from the root entry. */
  method DfsList(disk: seq<bv8>) returns (r: Result<Report, ListError>)
    requires Listable(disk)
    ensures r == List(disk)
  {
    var found := FindHeader(disk);
    if found.None? {
      return Err(InvalidSignature);
    }
    var base := found.value;
    ListFound(disk, base);
    var listing := ListAt(disk, base);
    return Ok(listing);
  }

  /** What dfs_list reports once the superblock at base is found: the summary, then the walk from the root entry. */
  method ListAt(disk: seq<bv8>, base: nat) returns (l: Report)
    requires base + HeaderSize <= |disk|
    requires ChainWithin(disk, RootAt(disk, base), |disk|)
    ensures l == Report(base, Summarize(ReadHeader(disk, base)), Walk(disk, RootAt(disk, base), |disk|))
  {
    var summary := ReadSummary(disk, base);
    var nodes := ReadChain(disk, base);
    l := Report(base, summary, nodes);
  }

  /** The root_block field of the superblock at base, read in place. */
  method ReadRoot(disk: seq<bv8>, base: nat) returns (root: nat)
    requires base + HeaderSize <= |disk|
    ensures base + root == RootAt(disk, base)
  {
    root := ReadLE(disk, base + RootBlockAt, 8);
    ReadHeaderFields(disk, base);
  }

  /** The chain walk of dfs_list from the root entry of the superblock at base. */
  method ReadChain(disk: seq<bv8>, base: nat) returns (nodes: seq<NodeInfo>)
    requires base + HeaderSize <= |disk|
    requires ChainWithin(disk, RootAt(disk, base), |disk|)
    ensures nodes == Walk(disk, RootAt(disk, base), |disk|)
  {
    var root := ReadRoot(disk, base);
    nodes := FollowChain(disk, base + root, Walk(disk, base + root, |disk|));
  }

  /**
   * The k-th line of a walk reports its entry; the walk goes on after it
   * exactly when that entry's next_entry is nonzero, to the entry it leads to.
   */
  lemma WalkLine(d: seq<bv8>, p: nat, w: seq<NodeInfo>, k: nat)
    requires WalkFrom(d, p, w) && k < |w|
    ensures EntryReadable(d, w[k].offset) && w[k] == Info(d, w[k].offset)
    ensures k + 1 < |w| <==> NextEntry(d, w[k].offset) != 0
    ensures k + 1 < |w| ==> w[k + 1].offset == w[k].offset + NextEntry(d, w[k].offset)
  {
    if k + 1 < |w| {
      assert Hop(d, w[k].offset, w[k + 1].offset);
    }
  }

  /** A walk reports one line per offset Chain visits, in visiting order. */
  lemma WalkVisitsChain(d: seq<bv8>, p: nat, fuel: nat)
    requires ChainWithin(d, p, fuel)
    ensures var c, w := Chain(d, p, fuel), Walk(d, p, fuel);
      |w| == |c| && forall i :: 0 <= i < |c| ==> w[i] == Info(d, c[i])
  {
    var c, w := Chain(d, p, fuel), Walk(d, p, fuel);
    ChainShape(d, p, fuel);
    SameWalk(d, p, c, w);
    forall i | 0 <= i < |c|
      ensures w[i] == Info(d, c[i])
    {
      WalkLine(d, p, w, i);
    }
  }

  /** There is one walk from p: its offsets and the lines of any report of it agree. */
  lemma SameWalk(d: seq<bv8>, p: nat, c: seq<nat>, w: seq<NodeInfo>)
    requires Path(d, p, c) && WalkFrom(d, p, w)
    ensures |w| == |c| && forall i :: 0 <= i < |c| ==> w[i].offset == c[i]
  {
    var k := 0;
    while k + 1 < |c| && k + 1 < |w|
      invariant 0 <= k < |c| && k < |w|
      invariant forall i :: 0 <= i <= k ==> w[i].offset == c[i]
    {
      WalkLine(d, p, w, k);
      k := k + 1;
    }
    WalkLine(d, p, w, k);
    assert k + 1 < |c| <==> NextEntry(d, c[k]) != 0;
  }

  /**
   * The `while (1)` loop of dfs_list: report the entry at `node`, then hop by
   * its next_entry until it is 0. Given a walk w from start, it reports
   * exactly w, line by line: after k steps it has reported the first k lines
   * and stands at the entry of line k.
   */
  method FollowChain(disk: seq<bv8>, start: nat, ghost w: seq<NodeInfo>) returns (nodes: seq<NodeInfo>)
    requires WalkFrom(disk, start, w)
    ensures nodes == w
  {
    var node := start;
    ghost var k := 0;
    nodes := [];
    while true
      invariant 0 <= k < |w| && node == w[k].offset
      invariant nodes == w[..k]
      decreases |w| - k
    {
      var next := NextEntry(disk, node);
      WalkLine(disk, start, w, k);
      nodes := nodes + [Info(disk, node)];
      assert nodes == w[..k + 1];
      if next == 0 {
        return;
      }
      node := node + next;
      k := k + 1;
    }
  }

  /**
   * Listing a freshly formatted disk reports version 0.3, root block 24576,
   * granularity 512, a 32768000-byte partition with neither mirror nor
   * journal, and exactly one entry: "root" at byte 24576, permissions 777 and
   * 777, all times 0.
   */
  lemma FormatThenList(d: seq<bv8>)
    requires FormattedMinSize <= |d|
    ensures Listable(FormatImage(d))
    ensures List(FormatImage(d)) == Ok(Report(0,
      Summary(0, 3, 24576, 512, 32768000, false, false),
      [NodeInfo(24576, [0x72, 0x6F, 0x6F, 0x74], 777, 777, 0, 0, 0)]))
  {
    FormatImageRoot(d);
    ListFormatted(FormatImage(d));
  }

  /** The listing of any buffer whose superblock and root entry are the ones dfs_format writes. */
  lemma ListFormatted(r: seq<bv8>)
    requires FormattedMinSize <= |r|
    requires ReadHeader(r, 0) == FormattedHeader()
    requires ReadEntry(r, RootOffset) == RootEntry()
    requires Terminated(r, RootOffset + NameAt)
    requires CString(r, RootOffset + NameAt) == RootName
    ensures Listable(r)
    ensures List(r) == Ok(Report(0,
      Summary(0, 3, 24576, 512, 32768000, false, false),
      [NodeInfo(24576, [0x72, 0x6F, 0x6F, 0x74], 777, 777, 0, 0, 0)]))
  {
    ListSingleEntry(r, FormattedHeader(), RootEntry(), RootName);
    VersionSplit(FormatVersion);
  }

  /**
   * A buffer signed at byte 0 whose root entry has no successor lists just
   * that entry.
   */
  lemma ListSingleEntry(r: seq<bv8>, h: Header, e: NodeEntry, name: seq<bv8>)
    requires HeaderSize <= |r| && ReadHeader(r, 0) == h && h.identifier == Signature
    requires h.rootBlock + NameAt <= |r| && ReadEntry(r, h.rootBlock) == e && e.nextEntry == 0
    requires Terminated(r, h.rootBlock + NameAt) && CString(r, h.rootBlock + NameAt) == name
    ensures Listable(r)
    ensures List(r) == Ok(Report(0, Summarize(h),
      [NodeInfo(h.rootBlock, name, e.userPerms, e.groupPerms, e.accessTime, e.editionTime, e.creationTime)]))
  {
    var p := h.rootBlock;
    SignedAtZero(r);
    EntryInfo(r, p);
    LoneEntry(r, p);
    ListFound(r, 0);
  }

  /** A superblock at byte 0 whose identifier field reads "4DFS" is the one found. */
  lemma SignedAtZero(r: seq<bv8>)
    requires HeaderSize <= |r| && ReadHeader(r, 0).identifier == Signature
    ensures HeaderBase(r) == Some(0)
  {
    ReadHeaderFields(r, 0);
  }

  /** The report of an entry is its decoded fields and name. */
  lemma EntryInfo(r: seq<bv8>, p: nat)
    requires p + NameAt <= |r|
    ensures var e := ReadEntry(r, p);
      && NextEntry(r, p) == e.nextEntry
      && Info(r, p) == NodeInfo(p, CString(r, p + NameAt),
           e.userPerms, e.groupPerms, e.accessTime, e.editionTime, e.creationTime)
  {
    ReadEntryFields(r, p);
  }

  /** An entry whose next_entry is 0 is a chain of its own, listed as one line. */
  lemma LoneEntry(r: seq<bv8>, p: nat)
    requires p + NameAt <= |r| && NextEntry(r, p) == 0
    ensures ChainWithin(r, p, |r|) && Chain(r, p, |r|) == [p] && Walk(r, p, |r|) == [Info(r, p)]
  {
  }
}
