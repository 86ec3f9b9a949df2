# DFS (`rdonly.c`) in Dafny

A model of the byte-level core of the DFS tool, a tiny on-disk filesystem
held in one in-memory disk image. It covers three operations:

- **`block_alloc`**: a first-fit scan over the allocation bitmap that follows
  the superblock. It sets the first clear bit and returns that granule's
  index.
- **`dfs_format`**: writes the superblock, runs the two bitmap-clearing loops
  and writes the root node entry "root" 48 sectors into the disk.
- **`dfs_list`**: finds the superblock at byte 0, or else at byte 512 (after
  a boot sector). It reports the superblock's fields, then walks the chain of
  node entries from `root_block` by `next_entry` until `next_entry` is 0.

The records `struct dfs_header` and `struct dfs_node_entry` have one fixed
layout here: packed, fields in declaration order, and every multi-byte field
little-endian. The header occupies bytes 0..26 and the bitmap starts at 27.
The fixed part of a node entry takes 81 bytes, followed by its NUL-terminated
name. The C structs are not declared packed, so the real offsets depend on
the compiler.

Modules:

| file | module | contents |
|---|---|---|
| `wrappers.dfy` | `Wrappers` | `Option` and `Result` |
| `bytes.dfy` | `Bytes` | little-endian encoding, byte-run writes, field loads and stores on the disk array |
| `layout.dfy` | `Layout` | header and entry records, their encodings and round trips, C strings |
| `allocator.dfy` | `Allocator` | `block_alloc`: specification functions, lemmas, and the in-place method |
| `format.dfy` | `Format` | `dfs_format`: the image it produces, its properties, and the in-place method |
| `listing.dfy` | `Listing` | `dfs_list`: the chain, the report, its properties, and the loop |

Each operation that works in place is a method on `array<bv8>`:
`Allocator.BlockAlloc` and `Format.DfsFormat`. Each is proved equal to a
function of the old image (`Alloc`, `FormatImage`), and the source's promises
are lemmas about those functions. `dfs_list` only reads, so
`Listing.DfsList` takes the image as a `seq<bv8>`. Its `while (1)` loop
(`FollowChain`) is proved to produce `Walk`, the report of the walk along
`next_entry`, which visits the offsets `Chain` lists.

These quirks of the source are reproduced:

- `block_alloc` examines only `(size_of_part * 4096 / bmp_granularity) / 8`
  granules, which is an eighth of the partition.
- When no examined granule is free, `block_alloc` returns 0 and changes
  nothing.
- The "reset bitmap" loop runs `512 / 32768000 = 0` times.
- The "cover" loop sets bitmap bytes 0..5 to 0x00. This marks granules
  0..47, the superblock's own granule included, free rather than allocated.
- `next_entry` is a distance from the current entry, not an offset from the
  start of the disk.
- Neither signature matching is an error result (`InvalidSignature`), where
  the source calls `exit(1)`.

## Model

| member | source | states |
|---|---|---|
| Bytes.DecodeEncode | rdonly.c:133-141 | reading back a field stored with `htole16`/`htole64` gives the stored value, for every value that fits the width |
| Bytes.EncodeDecode | rdonly.c:203-205 | every byte string is the little-endian image of the value `le16toh`/`le64toh` reads from it |
| Bytes.Load | rdonly.c:108-109 | a multi-byte little-endian load (`le16toh` of an in-memory field), modelled as a loop over the field's bytes, yields the little-endian value of those bytes |
| Bytes.Store | rdonly.c:133 | one field assignment writes exactly the field's bytes; every other byte of the disk keeps its value |
| Bytes.ZeroBytes | rdonly.c:153-155 | the zeroing loop leaves bytes `off .. off+count-1` at 0x00 and every other byte as it was |
| Layout.EncodeHeader | rdonly.c:12-21 | the superblock image of a header whose fields fit their widths is exactly 27 bytes |
| Layout.DecodeHeader | rdonly.c:12-21 | every 27-byte string decodes to a superblock whose fields fit their widths |
| Layout.HeaderDecodeEncode | rdonly.c:12-21 | decoding the 27-byte image of a superblock gives back every field |
| Layout.HeaderEncodeDecode | rdonly.c:12-21 | every 27-byte string is the image of the superblock decoded from it, so the layout loses nothing |
| Layout.EncodeEntry | rdonly.c:23-39 | the fixed part of a node entry whose fields fit their widths is exactly 81 bytes |
| Layout.DecodeEntry | rdonly.c:23-39 | every 81-byte string decodes to a node entry whose fields fit their widths |
| Layout.EntryDecodeEncode | rdonly.c:23-39 | decoding the 81-byte image of a node entry gives back every field |
| Layout.EntryEncodeDecode | rdonly.c:23-39 | every 81-byte string is the image of the entry decoded from it |
| Layout.ReadHeaderFields | rdonly.c:12-21 | each superblock field, decoded as a record, equals the same field read in place at its offset |
| Layout.ReadEntryFields | rdonly.c:23-39 | each entry field `dfs_list` reads, decoded as a record, equals the field read in place |
| Layout.CString | rdonly.c:215 | the name `printf("%s")` reads at byte i holds no NUL, and the byte after it, when inside the buffer, is the NUL |
| Layout.NulIndexFirst | rdonly.c:215 | the end of a C string is its first NUL: no byte before it is NUL |
| Layout.TerminatedAtNul | rdonly.c:215 | a string is terminated inside the disk exactly when the search for its NUL stops inside the disk |
| Layout.CStringWritten | rdonly.c:173 | a name copied with its terminator, as `strcpy` does, is read back as exactly that name |
| Allocator.ScanLimitEighth | rdonly.c:107-111 | the scan limit is the granule count `size_of_part * 4096 / bmp_granularity` divided by 8, rounded down |
| Allocator.MaskValue | rdonly.c:112-113 | the mask `1 << (i % 8)` is the single bit of weight 1, 2, 4, … 128 selected by i % 8 |
| Allocator.BitSetIsBit | rdonly.c:112-113 | granule i is allocated exactly when bit i % 8 of bitmap byte i / 8, counted from the least significant, is 1 |
| Allocator.MaskSame | rdonly.c:113 | after or-ing a granule's mask into its byte, that granule's bit is set |
| Allocator.MaskOther | rdonly.c:113 | or-ing a granule's mask into a byte leaves the bit of every granule at a different position in that byte as it was |
| Allocator.FirstClear | rdonly.c:111-112 | the scan finds no granule only when every examined granule is allocated; a granule it finds is examined, free, and every earlier granule is allocated |
| Allocator.SetBit | rdonly.c:114 | setting a bit keeps every header byte, so the scan range stays the same |
| Allocator.SetBitEffect | rdonly.c:113-114 | or-ing bit i%8 into bitmap byte i/8 allocates granule i, keeps every other granule's state, and changes no byte other than bitmap byte i/8 |
| Allocator.Alloc | rdonly.c:106-119 | one call keeps the image allocatable, at the same length and with the same scan range |
| Allocator.AllocFirstFit | rdonly.c:106-119 | with a free examined granule: returns the lowest one, allocates exactly it (its bitmap byte becomes the old byte or-ed with its mask), and changes no other granule or byte; with none: returns 0 and leaves the image unchanged |
| Allocator.AllocReturnsZero | rdonly.c:111-118 | the result is 0 exactly when granule 0 is examined and free, or when no examined granule is free |
| Allocator.FreeFromPositive | rdonly.c:111-116 | when the scan finds a free granule, the count of free examined granules is positive |
| Allocator.FreeFromAfterSet | rdonly.c:114 | allocating a free granule lowers the count of free examined granules by exactly one |
| Allocator.NoneMeansFull | rdonly.c:111-118 | when the scan finds nothing, no examined granule is free |
| Allocator.AllocRunDistinct | rdonly.c:106-119 | with at least n free examined granules, n calls return strictly increasing indices of formerly free granules; they are all allocated afterwards, no other granule changes, and n fewer are free |
| Allocator.BlockAlloc | rdonly.c:106-119 | the in-place loop returns the index and leaves the image that `Alloc` gives for the old image |
| Format.FormattedHeader | rdonly.c:122-141 | the superblock `dfs_format` writes fits its field widths |
| Format.RootEntry | rdonly.c:158-172 | the root entry `dfs_format` writes fits its field widths |
| Format.FormatImage | rdonly.c:121-177 | formatting keeps the length of the disk |
| Format.FormatHeaderFields | rdonly.c:122-141 | after formatting, the superblock reads "4DFS", version 0x03, root block 24576, granularity 512, size 8000 units, mirror 0 and journal 0 |
| Format.FormatBitmap | rdonly.c:143-155 | the reset loop writes no byte, the cover loop zeroes bitmap bytes 0..5, and no byte between them and the root entry, or after the root entry's name, changes |
| Format.FormatRootEntry | rdonly.c:157-173 | the entry at 24576 has every link, size and time 0, permissions 777 and 777, owner and OS fields 0, and reads as the terminated name "root" |
| Format.FormatImageRoot | rdonly.c:121-177 | the superblock and root entry of a formatted image, as `dfs_list` reads them |
| Format.FormatThenAlloc | rdonly.c:106-155 | on a freshly formatted disk the allocator examines 8000 granules, granule 0 is free, and its first answer is granule 0, which holds the superblock |
| Format.DfsFormat | rdonly.c:121-177 | the in-place stores and loops leave exactly `FormatImage` of the old disk |
| Format.StoreHeader | rdonly.c:122-141 | the superblock stores, in source order, write exactly the encoded formatted superblock |
| Format.StoreSignature | rdonly.c:123-128 | the four identifier stores and the version store write "4DFS" then 0x03 |
| Format.StoreGeometry | rdonly.c:133-138 | the root_block, bmp_granularity, size_of_part and mirror_partition stores write those four fields as one run of bytes |
| Format.ClearBitmap | rdonly.c:143-155 | with the granularity 512 in place, the two loops write `ResetBytes` then `CoverBytes` zero bytes at the start of the bitmap, and nothing else |
| Format.StoreRoot | rdonly.c:157-173 | the root-entry stores and the `strcpy` write exactly the encoded root entry followed by "root" and its NUL |
| Format.StoreEntry | rdonly.c:159-172 | the fourteen field stores of an entry write exactly its 81-byte image |
| Format.StoreLinks | rdonly.c:159-163 | the next_entry, child_entry, fragment, symlink and file_size stores write those fields' bytes |
| Format.StoreTimes | rdonly.c:164-166 | the three time stores write those fields' bytes |
| Format.StoreOwner | rdonly.c:167-170 | the permission stores, then uid before gid, write those fields' bytes |
| Format.StoreNext | rdonly.c:159-172 | storing the next field of a record extends the run of bytes already written |
| Listing.HeaderBase | rdonly.c:182-199 | a superblock is found exactly when byte 0 or byte 512 starts "4DFS"; it is found only at byte 0 or byte 512, and byte 0 wins when both do |
| Listing.Summarize | rdonly.c:202-207 | the reported version nibbles are below 16 and give back the version byte, and the partition size fits the 32-bit value printed for it |
| Listing.Info | rdonly.c:215-219 | an entry's report carries its offset, a name with no NUL that is followed by the NUL when inside the buffer, 16-bit permissions and 64-bit times |
| Listing.VersionSplit | rdonly.c:202 | the two reported nibbles are below 16 and give back the version byte |
| Listing.Chain | rdonly.c:210-226 | the visited offsets start at the root entry, number at most fuel + 1, and all lie at readable entries |
| Listing.ChainShape | rdonly.c:213-226 | the visited offsets are the walk: each next offset is the current one plus its nonzero `next_entry`, and the last has `next_entry` 0 |
| Listing.ChainLink | rdonly.c:221-225 | every hop but the last follows a nonzero `next_entry`, relative to the current entry |
| Listing.ChainEnd | rdonly.c:221-223 | the walk stops at an entry whose `next_entry` is 0 |
| Listing.Walk | rdonly.c:213-226 | the report starts with the line for the root entry; each next line is for the entry that the previous entry's nonzero `next_entry` leads to, relative to that entry; the last line's entry has `next_entry` 0; every line carries its own entry's name, permissions and times |
| Listing.WalkLine | rdonly.c:213-225 | line k of a walk reports its entry, and the walk goes on after it exactly when that entry's `next_entry` is nonzero, to the entry it leads to |
| Listing.SameWalk | rdonly.c:213-226 | the walk from an entry is unique: any report of it has one line per visited offset, at that offset |
| Listing.WalkVisitsChain | rdonly.c:213-226 | the report has one line per offset `Chain` visits, in visiting order, each that entry's report |
| Listing.ChainMono | rdonly.c:213-226 | a chain that ends within n hops also ends within any larger number, visiting the same entries |
| Listing.ChainTight | rdonly.c:225 | in the model, where an offset plus `next_entry` never wraps, hops only go forward, so a chain that ends at all ends within as many hops as there are bytes after p |
| Listing.ChainFuel | rdonly.c:213-226 | bounding the walk by the buffer length loses nothing: any chain that ends is walked completely and in the same way |
| Listing.ChainIncreasing | rdonly.c:225 | in the model, where an offset plus `next_entry` never wraps, visited offsets strictly increase inside the buffer, so no entry is visited twice |
| Listing.ListSignature | rdonly.c:182-210 | the listing fails exactly when neither byte 0 nor byte 512 is signed; otherwise it uses byte 0 if signed there, byte 512 otherwise, and its first entry is `root_block` bytes after that superblock |
| Listing.List | rdonly.c:179-229 | the report is an error exactly when no superblock is found; otherwise it names the superblock found and lists at least the root entry |
| Listing.HasSignature | rdonly.c:182-185 | the four byte comparisons hold exactly when the identifier at base reads "4DFS" |
| Listing.FindHeader | rdonly.c:182-199 | the two signature checks find the superblock `HeaderBase` names |
| Listing.ReadSummary | rdonly.c:201-207 | the fields read in place give the superblock summary |
| Listing.ReadRoot | rdonly.c:210 | the root entry lies `root_block` bytes after the superblock |
| Listing.ReadChain | rdonly.c:210-226 | the walk from the root entry yields `Walk` |
| Listing.FollowChain | rdonly.c:213-226 | the `while (1)` loop reports exactly the walk from its start entry: after k steps it has reported the first k lines, and it stops after the entry whose `next_entry` is 0 |
| Listing.ListAt | rdonly.c:201-226 | once the superblock is found, the report is its summary followed by the walk |
| Listing.DfsList | rdonly.c:179-229 | the listing method returns exactly `List` of the disk, the error result included |
| Listing.SignedAtZero | rdonly.c:182-185 | a superblock at byte 0 whose identifier reads "4DFS" is the one found |
| Listing.EntryInfo | rdonly.c:215-221 | the reported lines and `next_entry` of an entry are its decoded fields and its name |
| Listing.ListSingleEntry | rdonly.c:179-229 | a disk signed at 0 whose root entry has no successor lists exactly that entry |
| Listing.ListFormatted | rdonly.c:179-229 | any disk holding the superblock and root entry `dfs_format` writes lists as version 0.3, root block 24576, granularity 512, 32768000 bytes, no mirror or journal, and the single entry "root" |
| Listing.FormatThenList | rdonly.c:121-229 | listing a freshly formatted disk gives exactly that report |

## Left out

- Host file I/O (`file2mem`, `mem2file`), `main` with its argument handling, and the text `printf` produces. The report is modelled as values: the superblock summary and, per entry, its offset, name, permissions and times.
- `struct dfs_fragment`, `struct dfs_journal_event` and the `JOURNAL_*` constants. No modelled function reads or writes them.
- Compiler padding and big-endian hosts. The layout is fixed as packed little-endian (see above).
- Allocator.BlockAlloc: requires a nonzero `bmp_granularity`, because the source divides by it. It also requires every bitmap byte the scan may examine to lie inside the buffer, because the source does not check this.
- Listing.DfsList: requires `Listable`, whose three conditions are below. The source has no bound check, so on other disks it reads outside the buffer, which is undefined behaviour in C.
  - The superblock's fixed fields lie inside the buffer.
  - The chain from the root entry ends, with every entry's fixed fields inside the buffer.
  - Every visited name has its NUL inside the buffer.
- Listing.DfsList: offsets are unbounded naturals, so the 64-bit wrap of `node + le64toh(next_entry)` (rdonly.c:225) and of `head + root_block` (rdonly.c:210) is not modelled. That pointer overflow is undefined in C; in practice a `next_entry` of 2^64 - k steps k bytes back and can make the chain cycle forever. Such disks are not `Listable`, and `ChainTight` and `ChainIncreasing` hold only in the model.
- Format.DfsFormat: requires the disk to hold the root entry and its name, 24662 bytes. The source checks no size: `main` formats whatever file it loaded (rdonly.c:239-242), and on a shorter buffer the stores at rdonly.c:158-173 write past its end, which is undefined behaviour in C.
- Listing.HasSignature: an identifier that would extend past the end of the buffer counts as unsigned, where C would read out of bounds.
- Listing.Walk: follows at most `|d|` hops. `ChainFuel` proves this loses no chain that ends at all.
- Allocator exhaustion: `block_alloc` returns 0, the same answer as allocating granule 0 (`AllocReturnsZero`). The model follows this code rather than turning it into an error result.
- `le64toh` applied to the 16-bit `bmp_granularity` in the reset loop's bound, and `htole64` assigned to the 16-bit `mirror_partition`. On a little-endian host these are the plain values, so the model uses them as such. The stored 0 fits either way.
- The "A bitmap of size … was made" message and the "MB" label on the partition size, which is really in bytes. `Summary.partitionSize` holds `size_of_part * 4096` as the code computes it.
- `dfs_list` reads a disk that does not change, so it is modelled on an immutable `seq<bv8>` rather than the shared buffer.
