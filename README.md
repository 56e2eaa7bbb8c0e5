# Phat FAT engine, modelled in Dafny

Phat is a small FAT12/16/32 file-system engine for embedded devices. It sits on
a sector driver (read and write whole 512-byte sectors) and offers mounting
from a partition table or a bare DBR, directories with long file names, files
read and written through a one-sector buffer, and formatting. This project
models its core, Phat/phat.c with the types of Phat/phat.h, module by module:

- `Common`, `StateNames`, `DateTime`: little-endian fields, the status names,
  and the FAT date and time bit fields.
- `LongNames`, `ShortNames`, `Paths`: long-name entries (checksum, packing,
  gathering), 8.3 names (fit test, display, alias generation) and path
  strings (upper-directory cut, normalisation, last component).
- `Boot`, `FatCodec`, `FatImage`, `Format`: CHS and MBR entries, the DBR
  geometry, FAT entries of each width packed in sectors, the FAT copies on
  disk, and the choices MakeFS makes.
- `SectorCache` (classes `Device` and `Cache`): the driver as a disk of
  sectors, and the engine's LRU sector cache with its write-back rules.
- `FatVolume` (class `Volume`): reading and writing FAT entries through the
  cache, free-cluster search and count, cluster allocation and freeing, the
  dirty flag, FSInfo, mount and unmount.
- `Directory`, `DirEntries`, `DirItems`, `DirWrites`, `Lookup`, `Creation`:
  directory cursors along cluster chains, entry fields, reading and writing
  items, the enumeration with long names, the search back to the first
  long-name entry, deletion, path lookup, and the planning of a new item.
- `FileIo` (class `FileHandle`): the file pointer mapped to sectors, and
  reading, writing, seeking and closing through the sector buffer.

The driver is a deterministic `Device`: a sequence of sectors and a set of
faulty sector numbers on which every read or write fails. The current date
and time are parameters. Where the engine's documentation and its code
disagree, the model follows the code. Where the code is evidently wrong, the
model has both the code as written and the corrected behaviour; see
"## Findings".

## Model

| member | source | states |
|---|---|---|
| Common.StateValue | Phat/phat.h:148-186 | every status maps to its enumeration value, which is below PhatState_LastState (35) |
| Common.PutLE16 | Phat/phat.c:104-118 | storing a 16-bit field little-endian reads back as the stored word and leaves every other byte of the record unchanged |
| Common.PutLE32 | Phat/phat.c:104-118 | storing a 32-bit field little-endian reads back as the stored double word and leaves every other byte unchanged |
| Common.PutLE16Same | Phat/phat.c:104-118 | writing back a field's own value leaves the record unchanged |
| StateNames.AsWrittenName | Phat/phat.c:170-210 | as written, values at or above PhatState_LastState give "InvalidStateNumber", and a value below it has a text exactly when it falls inside the 33-entry table |
| StateNames.AsWrittenTableTooShort | Phat/phat.c:170-210 | the table has 33 entries, so PartitionIndexOutOfBound and NeedBigLBA index past its end |
| StateNames.StateNameTotal | Phat/phat.c:170-210 | with the table completed, every status has its own in-bounds text other than the fallback, and that text agrees with the source's table wherever that table reaches |
| DateTime.ParseTime | Phat/phat.c:1153-1163 | decoded hours, minutes, seconds and milliseconds stay within their bit-field ranges; seconds are even and milliseconds a multiple of 10 |
| DateTime.ParseDate | Phat/phat.c:1165-1174 | the decoded year lies in 1980..2107, the month is at most 15 and the day at most 31 |
| DateTime.EncodeTime | Phat/phat.c:1176-1186 | hours, minutes and seconds are clamped to 23, 59 and 59, in-range fields are kept, and the clamped time is what the argument holds afterwards |
| DateTime.EncodeDate | Phat/phat.c:1188-1201 | the year is clamped to 1980..2107, the month to 1..12 and the day to 1..31, in-range fields are kept |
| DateTime.DateRoundTrip | Phat/phat.c:1165-1201 | decoding an encoded date gives exactly the clamped date |
| DateTime.TimeRoundTrip | Phat/phat.c:1153-1186 | decoding an encoded time gives the clamped hours and minutes and the clamped seconds rounded down to even |
| DateTime.TimeWordRoundTrip | Phat/phat.c:1153-1186 | a raw time with in-range fields survives decode then encode unchanged |
| DateTime.DateWordRoundTrip | Phat/phat.c:1165-1201 | a raw date survives decode then encode if and only if its month is 1..12 and its day is not 0 |
| DateTime.EncodeTimeIdempotent | Phat/phat.c:1176-1186 | encoding an already clamped time gives the same result |
| DateTime.EncodeDateIdempotent | Phat/phat.c:1188-1201 | encoding an already clamped date gives the same result |
| LongNames.LfnChecksum | Phat/phat.c:1203-1208 | the source's checksum loop over the 11 name bytes computes the rotate-right-and-add checksum |
| LongNames.MakeLfnEntryFields | Phat/phat.c:2031-2051 | a long-name entry built from an ordinal, a checksum and 13 code units reads those fields back, and is valid unless its ordinal is 0xE5 |
| LongNames.MakeLfnEntryChars | Phat/phat.c:2038-2048 | the 13 code units of a built entry read back in order across name1, name2 and name3 |
| LongNames.EncodeLongNameShape | Phat/phat.c:2026-2054 | the encoder writes ceil(L/13) entries (at most 20), the first flagged as last, ordinals descending to 1, each valid and carrying the checksum |
| LongNames.NulIndex | Phat/phat.c:1343-1364 | the position of the first terminator among an entry's code units, or 13 when there is none |
| LongNames.SuckSpec | Phat/phat.c:1337-1367 | an ordinal of 0 or one whose position is past MAX_LFN gives FSError and changes nothing; otherwise the units are copied from (order-1)*13 |
| LongNames.CopyUnits | Phat/phat.c:1343-1364 | the copy loop copies up to and including the terminator without passing the buffer, returning the new write position |
| LongNames.SuckLfnIntoBuffer | Phat/phat.c:1337-1367 | the in-place copy leaves the buffer and length exactly as SuckSpec describes, under the source's or the corrected length rule |
| LongNames.LfnStep | Phat/phat.c:1410-1428 | one long-name entry keeps the enumeration state well formed: the first fixes the checksum, a different checksum restarts the name |
| LongNames.Accumulate | Phat/phat.c:1405-1428 | a run of long-name entries processed in order keeps the state well formed and stops at the first error |
| LongNames.EntryCountBounds | Phat/phat.c:1943 | a name of 1..255 code units needs between 1 and 20 long-name entries, which cover it exactly |
| LongNames.BlockPlace | Phat/phat.c:2031-2034 | every block before the last is a full 13 code units and the last block ends the name |
| LongNames.SlotsDecode | Phat/phat.c:2038-2048 | entry i holds its block of the name, plus a terminator when the name ends inside it |
| LongNames.SuckEncoded | Phat/phat.c:1337-1367 | decoding the entry the encoder writes for ordinal i copies block i of the name into place |
| LongNames.LongNameRoundTrip | Phat/phat.c:1337-1367 | accumulating the entries the encoder writes for a name recovers every code unit of the name, a terminator after it unless it fills its last entry, and the checksum; the length is DecodedLength: the name's own under the corrected rule, one more under the source's when L % 13 == 12 |
| LongNames.AsWrittenLengthCounterexample | Phat/phat.c:1366 | under the source's length rule, a name of 12 code units decodes with length 13 |
| ShortNames.Cp437ToUnicode | Phat/phat.c:162-168 | an ASCII byte maps to itself; the upper half goes through the code page 437 table |
| ShortNames.CaseInfo | Phat/phat.c:1746-1748 | the base (extension) lower-case bit is set exactly when the part before (from) the split holds a lower-case letter |
| ShortNames.ScanFit | Phat/phat.c:1722-1745 | the checking loop accepts exactly the names with no space, nothing at or above 128, every dot at index 8 or below with at most three units after it and no case mix in either part, and then reports the last dot and the two lower-case flags |
| ShortNames.FillSfn | Phat/phat.c:1745-1760 | the filling loops produce the space-padded, upper-cased 8.3 bytes of the name split at its last dot |
| ShortNames.IsFit83 | Phat/phat.c:1712-1761 | the result is true exactly for the names that fit 8.3 (with the source's or the corrected case split), and then the 8.3 bytes and case bits are those of Sfn83 and CaseInfo |
| ShortNames.DisplayName | Phat/phat.c:1448-1487 | the name shown for a short entry has 1 to 12 code units |
| ShortNames.RenderShortName | Phat/phat.c:1448-1490 | the rendering loops write DisplayName into the cursor's buffer followed by a terminator and touch nothing after it |
| ShortNames.DisplayRoundTrip | Phat/phat.c:1448-1490 | with the corrected case bits, a name accepted by the 8.3 test whose dot is neither first nor last is displayed as itself |
| ShortNames.DotEdgeNamesFit | Phat/phat.c:1712-1761 | ".abc" and "abc." both fit 8.3, in both variants of the case test |
| ShortNames.DisplayLeadingDot | Phat/phat.c:1448-1490 | a name whose only dot is its first unit (".abc") is displayed starting with a space, so not as itself |
| ShortNames.DisplayTrailingDot | Phat/phat.c:1448-1490 | a name ending in its dot ("abc.") is displayed without the dot, so not as itself |
| ShortNames.Fits83ListedExactly | Phat/phat.c:1712-1761 | the corrected 8.3 test, which also refuses a leading or trailing only dot, accepts exactly the names Phat_IsFit83 accepts that the display path shows as themselves |
| ShortNames.AsWrittenDisplayUppercasesExtension | Phat/phat.c:1725-1733 | as written, a name of at most 8 units with a lower-case extension letter never gets the extension bit and is displayed differently from itself |
| ShortNames.AliasBase | Phat/phat.c:1794-1832 | the alias is 11 bytes and its first byte is not a space (NONAME replaces an empty base) |
| ShortNames.Candidate | Phat/phat.c:1834-1899 | the k-th alias tried is 11 bytes: the bare alias, then the numeric tails ~1 to ~999999 |
| ShortNames.TailOverTail | Phat/phat.c:1839-1897 | writing tail k+1 over the name carrying tail k gives the candidate k+1, so tails need no clearing |
| ShortNames.FirstFreeIsFirst | Phat/phat.c:1834-1899 | the search returns the least candidate from k on that is not taken, and none only when every candidate up to ~999999 is taken |
| ShortNames.Gen83 | Phat/phat.c:1788-1899 | the generator returns the first free candidate, or FSError when all 1000000 are taken |
| Paths.CStr | Phat/phat.c:212-221 | the C string a buffer holds is everything before its first terminator, which it does not contain |
| Paths.WideBytesInjective | Phat/phat.c:236-243 | equal memcmp byte images come from equal wide strings |
| Paths.Wcscmp | Phat/phat.c:236-243 | the comparison gives 0 if and only if the strings are equal; the longer string compares greater |
| Paths.UpperDirectoryShape | Phat/phat.c:245-266 | going to the parent only clears a suffix: the last component with the separators after it; what stays is empty or ends in a separator followed, in the input, by a component |
| Paths.UpperDirectoryExamples | Phat/phat.c:245-266 | "/a/b" becomes "/a/" and "/" becomes the empty string |
| Paths.DocumentedParent | Phat/phat.h:230-244 | the parent path the header documents is a prefix of the path |
| Paths.DocumentedParentExamples | Phat/phat.h:235-238 | the header's examples: "/a/b" and "/a/b/" give "/a", "/a" and "/" give "/" |
| Paths.UpperSkipsSeps | Phat/phat.c:254-264 | trailing separators are cleared while the scan is still trimming, whatever precedes them |
| Paths.DocumentedParentAgainstCode | Phat/phat.c:245-266 | for a path with a component the code leaves the documented parent followed only by separators; for a path of separators only it leaves "" where the header keeps "/" |
| Paths.ToUpperDirectoryPath | Phat/phat.c:245-266 | the in-place scan leaves the parent directory of the buffer's string as its C string and nothing after the old terminator changes |
| Paths.NormalizeShorter | Phat/phat.c:268-322 | the corrected normalisation never lengthens the path |
| Paths.NormalizeClean | Phat/phat.c:268-322 | the normalised path has no '\', no leading or trailing separator, and no empty, "." or ".." component |
| Paths.NormalizeWithoutParent | Phat/phat.c:268-322 | without a ".." component, normalisation is the join of the components other than empty and "." |
| Paths.NormalizeIdempotent | Phat/phat.c:268-322 | normalising a normalised path leaves it unchanged |
| Paths.NormalizeParentExample | Phat/phat.c:268-322 | corrected, "a/./b/../c" normalises to "a/c" |
| Paths.AsWrittenParentKeepsStaleSegment | Phat/phat.c:294-300 | as written, "a/./b/../c" gives "a/b/c": ".." clears back over a stale copy of "b" |
| Paths.AsWrittenReadsPastTerminator | Phat/phat.c:301-308 | as written, "a" is copied onto itself, its '/' overwrites the terminator and the loop reads past the buffer; corrected it normalises to "a" |
| Paths.NormalizeAsWrittenShorter | Phat/phat.c:268-322 | whatever the as-written loop finishes with is no longer than its input |
| Paths.AsWrittenOverrunsNormalPaths | Phat/phat.c:268-322 | as written, every non-empty path made of proper components overruns its terminator, while the corrected normalisation leaves it unchanged |
| Paths.PathToName | Phat/phat.c:324-365 | the corrected name is 1 to MAX_LFN+1 units ending in its terminator, and holds no separator and no terminator before it |
| Paths.PathToNameOfJoin | Phat/phat.c:324-365 | the last component of a path comes back, whatever precedes it and however many separators follow it |
| Paths.PathToNameOfName | Phat/phat.c:324-365 | a path of one component followed by separators names that component |
| Paths.AsWrittenTrailingSeparator | Phat/phat.c:331-339 | as written, "a/b/" gives the empty name; corrected it gives "b" |
| Paths.AsWrittenLongNameUnterminated | Phat/phat.c:359-364 | as written, a name longer than MAX_LFN is copied as MAX_LFN+1 units with no terminator; corrected the last unit is the terminator |
| Paths.IsValidFilename | Phat/phat.c:1689-1710 | a name is valid exactly when it has 1..255 units, none of " * / : < > ? \ \| or below 0x20, and is not "." or ".." |
| Boot.LbaToChs | Phat/phat.c:562-586 | an address below 1024*255*63 encodes with a head below 255 and a sector 1..63; any other gives false and the saturated FE FF FF |
| Boot.ChsRoundTrip | Phat/phat.c:554-586 | the corrected decoder (six-bit sector mask) gives back every address the encoder can write |
| Boot.AsWrittenChsLosesSectorBit | Phat/phat.c:556 | as written (mask 0x1F), every encodable address whose sector number is 32 or more decodes to a different address |
| Boot.MbrEntryInfo | Phat/phat.c:588-605 | both LBA fields non-zero are taken as they are; otherwise, corrected, the entry covers its starting to ending CHS address with both included, and it is refused exactly when the end lies before the start |
| Boot.MbrEntryInfoAsWritten | Phat/phat.c:588-605 | as written, the same result except that a size taken from CHS is one sector less than the corrected one |
| Boot.MbrEntryFromChs | Phat/phat.c:588-605 | corrected: an entry with a zero LBA field whose CHS fields hold the encoded addresses of `first` and `last` starts at first and has last - first + 1 sectors, and is refused when last lies before first (the partner of Phat_LBA_to_CHS) |
| Boot.AsWrittenChsSizeShort | Phat/phat.c:590-602 | as written, such an entry gets last - first sectors, so its last sector lies outside it and a one-sector partition gets size 0 |
| Boot.DbrFatBits | Phat/phat.c:774-781 | the width is 12, 16 or 32 exactly when the matching type string is at offset 54 (FAT12/16) or 82 (FAT32), and 0 when none is |
| Boot.MountGeometryAsWritten | Phat/phat.c:782-835 | as written, max_valid_cluster is num_FAT_entries + 1, and for FAT32 the data area starts at the root directory's first sector |
| Boot.MaxValidCluster | Phat/phat.c:815 | the corrected highest cluster has a FAT entry (below the entry count) and a data cluster (at most data clusters + 1) |
| Boot.MountGeometry | Phat/phat.c:782-835 | corrected, the entry count comes from the FAT size, max_valid is MaxValidCluster, the FAT32 data area starts right after the FATs with the root at its root cluster, and the FAT12/16 data area follows the fixed root |
| Boot.ValidClustersInRange | Phat/phat.c:688-692 | in the corrected geometry every cluster from 2 to max_valid has its FAT entry inside the FAT and its sectors inside the partition |
| Boot.AsWrittenMaxValidOutsideFat | Phat/phat.c:815 | as written, on FAT16 and FAT32 the highest valid cluster has no entry inside the FAT |
| Boot.AsWrittenFat32RootMisplaced | Phat/phat.c:825-827 | as written, on FAT32 with a root cluster above 2, cluster 2 is read from the root directory's sectors and the root cluster from elsewhere |
| Boot.GeometriesAgreeOnFixedRoot | Phat/phat.c:796-816 | for FAT12/16 the corrected and as-written geometries differ only in the highest valid cluster |
| Boot.LocateDbr | Phat/phat.c:762-776 | with an MBR the DBR is at the start of entry 0..3 (PartitionTableError when the entry is refused); without one, index 0 reads sector 0 and any other index is InvalidParameter |
| Boot.DbrGeometry | Phat/phat.c:777-835 | a geometry is taken exactly when the sector passes Phat_IsSectorDBR and names FAT12, FAT16 or FAT32, with the end-of-chain value of that width |
| Boot.PutFsInfo | Phat/phat.c:864-878 | updating FSInfo writes the next-free hint and the free count, keeps every other byte and keeps the signatures valid |
| FatCodec.Decode | Phat/phat.c:987-1000 | a FAT12 entry decodes to at most 12 bits and a FAT16 entry to at most 16 |
| FatCodec.GetEntry | Phat/phat.c:952-1001 | the entry read from a FAT image is within the width's range |
| FatCodec.Stored | Phat/phat.c:1034-1056 | what an entry reads back as after a write: FAT32 keeps the value, 0x0FFFFFFF becomes all ones of the width, 0 stays 0, and FAT12/16 keep 12/16 bits |
| FatCodec.PutEntry | Phat/phat.c:1029-1057 | writing an entry changes only the bytes of that entry's window |
| FatCodec.DecodeEncode | Phat/phat.c:1029-1057 | decoding the bytes just encoded gives the stored form of the value |
| FatCodec.GetPutSame | Phat/phat.c:952-1057 | an entry just written reads back as the stored form of the value |
| FatCodec.GetPutOther | Phat/phat.c:952-1057 | writing entry c leaves every other entry as it was, the FAT12 neighbour sharing a byte included |
| FatCodec.EntriesBelowCountFit | Phat/phat.c:814 | every entry numbered below num_FAT_entries lies wholly inside the FAT |
| FatCodec.EntryAtCountDoesNotFit | Phat/phat.c:814-815 | the entry numbered num_FAT_entries does not fit inside a FAT holding a whole number of entries |
| FatCodec.AsWrittenStraddleRead | Phat/phat.c:985-988 | as written, FAT12 entry 341 (starting on byte 511) is read with the low byte of the cache slot's LBA field instead of the next sector's first byte |
| FatCodec.AsWrittenStraddleWriteMovesSlot | Phat/phat.c:1035-1049 | as written, marking entry 341 end-of-chain overwrites the slot's LBA field, so the sector is written back to LBA 0xFF |
| FatCodec.StraddleWriteCorrected | Phat/phat.c:1035-1049 | corrected, writing entry 341 touches only bytes 511 and 512 of the FAT and the entry reads back in full |
| FatCodec.MarkThenCheck | Phat/phat.c:699-744 | marking entry 0 dirty or clean and checking it again gives the flag that was marked |
| FatCodec.FreshEntryZeroFlags | Phat/phat.c:723-744 | a fresh FAT32 entry 0 of 0x0FFFFFF8 lacks bit 31 and reads as dirty; the fresh FAT12/16 values read as clean |
| FatImage.Fat | Phat/phat.c:952-1001 | the table holds one entry per FAT entry, read from the first copy |
| FatImage.CountFreeZero | Phat/phat.c:673-686 | the free count is zero exactly when no entry is zero |
| FatImage.CountFreeUpdate | Phat/phat.c:673-686 | replacing one entry changes the free count by exactly what that entry changes |
| FatImage.FatAt | Phat/phat.c:975-1000 | entry c of the table is entry c of the first copy's byte image |
| FatImage.PutCopyImage | Phat/phat.c:1027-1057 | storing into copy k of the disk stores into copy k's byte image |
| FatImage.PutCopyOtherImage | Phat/phat.c:1027-1057 | storing into copy k leaves every other copy's image unchanged |
| FatImage.FatAfterWrite | Phat/phat.c:1003-1065 | after a completed write, entry c reads back as the stored value and no other entry changes |
| FatImage.WriteKeepsMirror | Phat/phat.c:1027-1062 | writing an entry into every mirrored copy keeps the copies identical |
| Format.AutoBits | Phat/phat.c:2862-2881 | with FAT_bits 0 the width is the narrowest whose cluster limit, at eight sectors a cluster, exceeds the partition, and FAT32 when none does |
| Format.ChooseWidth | Phat/phat.c:2842-2884 | 12, 16 and 32 are taken as given and 0 picks AutoBits; FAT12/16 default a zero root entry count to 224/512; InvalidParameter exactly for another width or a non-zero count on FAT32 |
| Format.ClusterSize | Phat/phat.c:2897-2906 | the cluster size is a power of two up to 128 that brings the cluster count within the width's limit, and half of it would not |
| Format.ClusterSizeSmallest | Phat/phat.c:2896-2906 | no smaller power of two up to 128 covers the partition within the limit |
| Format.FatSizeFor | Phat/phat.c:2911-2918 | the corrected FAT size is at least one sector and holds an entry for every cluster plus the two reserved entries |
| Format.LayoutFor | Phat/phat.c:2896-2921 | the layout uses ClusterSize, cuts the partition to whole clusters (losing less than one), keeps the cluster count within the limit, and takes the as-written or corrected FAT size and the free estimate |
| Format.Plan | Phat/phat.c:2836-2921 | CannotMakeFS exactly for a partition of 0xFFFFFFFF/512 sectors or more or one too large for the chosen width, InvalidParameter exactly for the index and width errors, and otherwise LayoutFor, with FSIsSubOptimal exactly when clusters exceed 8 sectors |
| Format.ClustersWithinLimit | Phat/phat.c:2908-2909 | cutting the partition to whole clusters gives at most the limit of clusters and loses less than one cluster |
| Format.MountSeesFormat | Phat/phat.c:2818-3195 | mounting what the corrected MakeFS writes gives back its cluster size, FAT size and sector count, and a FAT with an entry for every data cluster |
| Format.AsWrittenFloppyFatTooSmall | Phat/phat.c:2911-2918 | as written, a 2880-sector FAT12 floppy gets an 8-sector FAT of 2730 entries while its data area has 2818 clusters |
| Format.FloppyFatCovers | Phat/phat.c:2911-2918 | corrected, the same floppy gets 9 FAT sectors and an entry for each of its 2816 data clusters |
| Format.AsWrittenStaleWidth | Phat/phat.c:2935 | as written, num_FAT_entries divides by the mounted width: by zero straight after Phat_Init, and by 16 when a FAT16 volume was mounted before a FAT12 format |
| Format.FatHead | Phat/phat.c:3169-3181 | the reinitialised first FAT sector is zero past its first double word (two on FAT32) |
| Format.AsWrittenRootClusterFree | Phat/phat.c:3156-3182 | as written, the FAT32 root cluster's end-of-chain mark is wiped by the FAT initialisation, leaving cluster 2 free |
| Format.FreshFirstFatSector | Phat/phat.c:3156-3182 | corrected, entry 0 holds the media value, entry 1 all ones, FAT32 entry 2 ends the root chain and every other entry of the sector is free |
| SectorCache.Overlay | Phat/phat.c:444-496 | the engine's view of the disk: each sector is the last valid slot holding it, or the device's own sector |
| SectorCache.OverlayStore | Phat/phat.c:504-513 | giving a valid slot new bytes changes exactly that slot's sector of the view |
| SectorCache.MovedToHead | Phat/phat.c:372-389 | moving list entry k to the head keeps every slot exactly once, puts entry k first and keeps the order of the rest |
| SectorCache.AsWrittenReloadDiscardsDirtySlot | Phat/phat.c:515-533 | a device read over a range holding a modified slot overwrites that slot with the device's stale bytes, changing the view |
| SectorCache.Device.Read | Phat/BSP_phat.h:23 | a read succeeds exactly when every sector lies on the disk and none is faulty, and then returns those sectors |
| SectorCache.Device.Write | Phat/BSP_phat.h:24 | a write succeeds exactly when every sector lies on the disk and none is faulty, and then replaces exactly those sectors |
| SectorCache.Cache.constructor | Phat/phat.c:630-652 | a fresh cache has no valid slot and no list yet, so the view is the disk |
| SectorCache.Cache.SetWriteEnable | Phat/phat.c:772 | only the write-enable flag changes; the view is kept |
| SectorCache.Cache.MoveToHead | Phat/phat.c:372-389 | the list becomes MovedToHead of the old list; slots and view are kept |
| SectorCache.Cache.WriteBack | Phat/phat.c:416-428 | a slot not in SYNC is written to its sector and marked SYNC; WriteFail exactly when that write fails, leaving everything; the view never changes |
| SectorCache.Cache.Invalidate | Phat/phat.c:430-442 | a valid unsynchronised slot is written back first (InternalError when not writable, WriteFail on a failed write); then the slot is invalid; the view never changes |
| SectorCache.Cache.Find | Phat/phat.c:465-474 | the list search finds a position holding the sector exactly when a valid slot caches it |
| SectorCache.Cache.Load | Phat/phat.c:478-494 | filling an unused slot reads the device sector, succeeds exactly when the read can, and keeps the view |
| SectorCache.Cache.ReadThroughCache | Phat/phat.c:444-496 | the slot returned holds the view's sector and is moved to the head; the first use builds the list and fills slot 0; a hit changes only the order; a miss evicts the tail slot; the view never changes |
| SectorCache.Cache.Store | Phat/phat.c:498-502 | a slot given new bytes is marked modified and the view changes at its sector only |
| SectorCache.Cache.WriteThroughCache | Phat/phat.c:504-513 | on success the view has the new bytes at that sector and nowhere else; a cached sector always succeeds; on failure the view is kept |
| SectorCache.Cache.ReadSector | Phat/phat.c:444-496 | on success the bytes are the view's sector; the view never changes |
| SectorCache.Cache.WriteSector | Phat/phat.c:504-513 | on success the view has the new bytes at that sector; on failure it is kept |
| SectorCache.Cache.ReadPair | Phat/phat.c:444-496 | two neighbouring sectors read through the cache are the view's two sectors |
| SectorCache.Cache.WritePair | Phat/phat.c:504-513 | two neighbouring sectors written through the cache: both or, after a failure on the second, only the first |
| SectorCache.SettledView | Phat/phat.c:444-496 | when every valid slot is written back (SYNC), the engine's view of the disk is the device's disk |
| SectorCache.Cache.Flush | Phat/phat.c:880-894 | when every slot can be evicted the flush succeeds, the disk then equals the old view and no slot stays valid; the view never changes |
| SectorCache.Cache.RefreshSlots | Phat/phat.c:538-551 | each valid slot inside the transferred range gets the device's new sector and SYNC |
| SectorCache.Cache.WriteSectorsWithoutCache | Phat/phat.c:535-552 | success exactly when the device write can happen; then both the disk and the view hold the new sectors in that range and nothing else changes |
| SectorCache.Cache.ReadSectorsWithoutCacheAsWritten | Phat/phat.c:515-533 | as written, a successful read returns the device's sectors and overwrites the cached copies of that range with them |
| SectorCache.Cache.ReadSectorsWithoutCache | Phat/phat.c:515-533 | corrected, a successful read returns the view's sectors and changes nothing |
| FatVolume.FreedAt | Phat/phat.c:1067-1085 | after the walk frees a set of clusters, an entry reads 0 exactly when it was freed and is unchanged otherwise |
| FatVolume.MarkThenCheckTable | Phat/phat.c:699-744 | after marking, entry 0 reads back as the flag that was marked and no other entry changes |
| FatVolume.UnlinkFromZero | Phat/phat.c:1067-1085 | a walk started at entry 0 frees entry 0 (media byte and clean flag) and drops the next-free hint to 0 |
| FatVolume.EndOfChainStored | Phat/phat.c:808-823 | the end-of-chain mark of the width, once stored, reads back unchanged and is not free |
| FatVolume.SecondTaken | Phat/phat.c:1087-1134 | after the hint is marked, the free entry the search then finds is another cluster that was free from the start |
| FatVolume.MountedGeometry | Phat/phat.c:746-835 | a mounted geometry is sound, lies on the disk, and is the one DbrGeometry reads at the sector LocateDbr finds |
| FatVolume.Volume.Table | Phat/phat.c:952-1001 | the table has one entry per FAT entry |
| FatVolume.Volume.constructor | Phat/phat.c:630-652 | a fresh engine: nothing cached, not writable, no FSInfo, counters zero |
| FatVolume.Volume.ReadFat | Phat/phat.c:952-1001 | on success the value is entry c of the first FAT copy; the view never changes |
| FatVolume.Volume.WriteCopy | Phat/phat.c:1027-1057 | on success copy k holds the new entry; nothing outside copy k changes in any case |
| FatVolume.Volume.WriteFat | Phat/phat.c:1003-1065 | on success entry c of every mirrored copy holds the stored value, the table reads it back and no other entry changes; nothing outside the FAT changes |
| FatVolume.Volume.SearchIn | Phat/phat.c:655-671 | the first free entry in the range, or NotEnoughSpace exactly when none in the range is free; an empty range gives NotEnoughSpace |
| FatVolume.Volume.Search | Phat/phat.c:655-671 | the first free entry from `from` up to num_FAT_entries, or NotEnoughSpace when there is none |
| FatVolume.Volume.SumFree | Phat/phat.c:673-686 | on success the count is the number of free entries of the table |
| FatVolume.Volume.GetNextCluster | Phat/phat.c:1138-1151 | InvalidParameter exactly for a cluster outside 2..max_valid; EndOfFATChain for an end-of-chain entry; FATError for an entry below 2 or above max_valid; otherwise the entry |
| FatVolume.Volume.FreeOne | Phat/phat.c:1073-1076 | one pass lowers the hint to the cluster, reads its entry and frees it |
| FatVolume.Volume.UnlinkClusterAsWritten | Phat/phat.c:1067-1085 | as written, from any start (0 included) the walk frees a linked chain, lowers the hint to its minimum, and ends at an end-of-chain mark (OK) or a broken link (FATError) |
| FatVolume.Volume.UnlinkCluster | Phat/phat.c:1067-1085 | corrected, a start outside 2..max_valid frees nothing; otherwise as written, over valid clusters only |
| FatVolume.Volume.TakeHint | Phat/phat.c:1091-1099 | a hint that is a free valid cluster is marked end-of-chain; otherwise nothing changes |
| FatVolume.Volume.Consume | Phat/phat.c:1100-1111 | with FSInfo the free count drops by one (not below 0) and a hint naming the taken cluster moves to the next free entry, or 2; without FSInfo nothing changes |
| FatVolume.Volume.SeekAndMark | Phat/phat.c:1114-1131 | the first free entry from the next-free hint is marked end-of-chain, NotEnoughSpace when none |
| FatVolume.Volume.TakeAndConsume | Phat/phat.c:1092-1112 | a free valid hint is marked end-of-chain and the FSInfo counters follow; otherwise nothing changes |
| FatVolume.Volume.AllocateClusterAsWritten | Phat/phat.c:1087-1136 | as written, a free hint is marked AND a second, different cluster is taken and returned, with the free count dropped twice |
| FatVolume.Volume.SearchValid | Phat/phat.c:655-671 | the corrected search finds a free valid cluster, wrapping from max_valid back to 2, or NotEnoughSpace exactly when none is free |
| FatVolume.Volume.AllocateCluster | Phat/phat.c:1087-1136 | corrected, a free valid hint is the cluster allocated, otherwise the first free valid cluster; it is marked end-of-chain and the free count drops once |
| FatVolume.Volume.MarkDirty | Phat/phat.c:699-721 | entry 0 keeps its other bits and gets its clean bit cleared or set; nothing outside the FAT changes |
| FatVolume.Volume.CheckIsDirty | Phat/phat.c:723-744 | the volume is dirty exactly when entry 0's clean bit is clear |
| FatVolume.Volume.UpdateFsInfoAsWritten | Phat/phat.c:864-878 | as written, the counters go to sector partition_start + 1, leaving the FSInfo sector Phat_Mount read unchanged |
| FatVolume.Volume.UpdateFsInfo | Phat/phat.c:864-878 | corrected, the FSInfo sector Phat_Mount read holds the counters afterwards |
| FatVolume.Volume.WipeCluster | Phat/phat.c:937-950 | on success every sector of the cluster is zero and nothing else changes; on failure nothing outside the cluster changes |
| FatVolume.Volume.ReadFsInfo | Phat/phat.c:838-855 | with the three signatures the counters come from the sector; otherwise the next free is the first free entry or 2, and the free count the count of free entries or 0 |
| FatVolume.Volume.Recount | Phat/phat.c:849-854 | the next free is the first free entry (2 when the search fails) and the free count the number of free entries (0 when counting fails) |
| FatVolume.Volume.Mount | Phat/phat.c:746-862 | InvalidParameter and PartitionTableError as LocateDbr decides, FSNotFat when no geometry can be mounted, and on OK the geometry MountedGeometry gives, the write flag, the dirty flag from entry 0 and, on FAT32, the FSInfo sector named by the BPB |
| FatVolume.Volume.MountAt | Phat/phat.c:777-862 | with the DBR found, the mounted geometry (the corrected one), dirty flag and FSInfo state are those the DBR describes |
| FatVolume.Volume.FindDbr | Phat/phat.c:756-770 | the DBR sector is the one LocateDbr names, or its error |
| FatVolume.Volume.Unmount | Phat/phat.c:896-912 | on success the device's disk is exactly the disk as the engine sees it: every cached sector is written back, and on a writable volume entry 0's clean flag, set back to the mounted state, has reached the device too; nothing outside the FAT changes |
| Directory.WalkOn | Phat/phat.c:1138-1151 | a walk that has reached a valid cluster moves on exactly as the entry of that cluster links |
| Directory.WalkStaysEnded | Phat/phat.c:1138-1151 | once the chain has ended (end-of-chain or bad link) every longer walk has ended too |
| Directory.WalkKept | Phat/phat.c:1235-1250 | storing into a free entry and into the entry that ends the chain leaves the first k links of the walk as they were |
| Directory.WalkGrown | Phat/phat.c:1235-1250 | linking a free cluster after the end of a walk extends the chain by exactly that cluster |
| Directory.StoredLink | Phat/phat.c:1003-1025 | a cluster number below the end-of-chain mark is stored in a FAT entry as it is, for every width |
| Directory.TableKeptPastFat | Phat/phat.c:937-950 | sectors changed only past the FAT copies leave the cluster table as it was |
| Directory.DataLba | Phat/phat.c:688-692 | the sector of a cluster lies in the data area and is ClusterToLba for every valid cluster |
| Directory.ItemLba | Phat/phat.c:1262-1297 | the sector holding a directory item lies past the FAT copies |
| Directory.SourcePlace | Phat/phat.c:1270-1290 | an item's cluster, sector and slot are those the engine computes: index over items per cluster; the root's sector from the index over items per sector; a data sector from the index within its cluster over items per sector; the slot from the index within its cluster modulo items per sector |
| Directory.ItemInCluster | Phat/phat.c:1262-1297 | every item of a cluster lies in one of the cluster's sectors |
| Directory.ItemsApart | Phat/phat.c:1262-1297 | two different items of a cluster differ in sector or in slot |
| Directory.RootItemsApart | Phat/phat.c:1262-1297 | two different items of the fixed root area differ in sector or in slot |
| Directory.ItemOfWithItem | Phat/phat.c:1299-1335 | an item read back after a store is the stored one; other items of the sector are unchanged |
| Directory.Open | Phat/phat.c:1548-1559 | a cursor opened at a start is positioned on every table, at item 0 |
| Directory.UpdateCluster | Phat/phat.c:1210-1260 | in the fixed root area OK or EndOfDirectory by the item count and nothing changes; FAT32 with a start below 2 gives InvalidParameter; otherwise on OK the cursor stands on the cluster holding the item along the chain, an ended chain gives EndOfDirectory only without allocation, and without allocation nothing on disk changes |
| Directory.Follow | Phat/phat.c:1226-1256 | the loop reaches the target position (OK) with the cursor positioned, or reports that the chain ends before it |
| Directory.WalkAfterRead | Phat/phat.c:1138-1151 | a link read moves the walk one cluster on; end-of-chain, a bad link or an invalid cluster end it |
| Directory.Step | Phat/phat.c:1228-1254 | one pass moves the cursor one cluster on, appending a cluster when the chain ends and allocation is allowed; the position stays exact |
| Directory.NextInChain | Phat/phat.c:1138-1151 | a link read on the cursor is a step of the walk; end-of-chain names a valid cluster whose entry is an end mark |
| Directory.Extend | Phat/phat.c:1235-1250 | on OK a new cluster is appended and the cursor moves onto it, still positioned |
| Directory.AppendCluster | Phat/phat.c:1235-1250 | a free valid cluster is taken by the corrected allocator, marked end-of-chain and linked after the current one, and the table changes in exactly those two entries |
| Directory.WipeData | Phat/phat.c:937-950 | on OK every sector of the cluster is zero and the table is unchanged |
| DirEntries.Name83 | Phat/phat.c:104-118 | the 8.3 name of an entry is its first 11 bytes |
| DirEntries.JoinHalves | Phat/phat.c:1457 | the high and low 16-bit halves of a cluster number put back together give the number |
| DirEntries.KeepLE16 | Phat/phat.c:104-118 | storing one 16-bit field leaves every field that does not overlap it unchanged |
| DirEntries.ClusterOfHalves | Phat/phat.c:1457 | the first cluster read from an entry is the one stored in its two halves |
| DirEntries.WithFirstCluster | Phat/phat.c:2300-2312 | the entry keeps every byte outside the two halves of the first-cluster field |
| DirEntries.FirstClusterSet | Phat/phat.c:2300-2312 | the entry with its halves set reads back the new first cluster |
| DirEntries.WithFileSize | Phat/phat.c:2417 | the entry reads back the new size and keeps its first 28 bytes |
| DirEntries.Deleted | Phat/phat.c:2575 | deletion puts the 0xE5 mark in the first name byte and keeps every other byte |
| DirEntries.WordAt | Phat/phat.c:104-118 | two bytes holding the halves of a word read back as that word |
| DirEntries.ShortEntryFields | Phat/phat.c:2062-2073 | every field of a new short entry reads back as given: name, attributes, case byte, tenths 0, the three dates and two times, the first cluster and size 0 |
| DirEntries.ShortEntryKind | Phat/phat.c:1369-1377 | a new short entry is free only when its name starts with the end or deleted mark, and is never read as a long-name entry unless its attributes are those of one |
| DirEntries.Closed | Phat/phat.c:2407-2421 | closing always stamps the access date; the modification date, time and size only when the file was written, and otherwise they stay; name, attributes and first cluster are kept |
| DirEntries.AccessStamped | Phat/phat.c:2412 | stamping the access date keeps the other words of the entry |
| DirEntries.ModificationStamped | Phat/phat.c:2413-2418 | stamping the modification date and time keeps the access date and the first cluster |
| DirEntries.KeepBelowSize | Phat/phat.c:2417 | storing the size leaves the fields before it as they were |
| DirItems.ItemPlace | Phat/phat.c:1262-1297 | an item has no place for a FAT32 cursor on cluster 0 or 1 or past the end of its chain; a place it has is a slot below 16 in a sector past the FAT copies |
| DirItems.PutAtReads | Phat/phat.c:1299-1335 | after an item is stored, that place reads back the stored entry and every other place reads as before |
| DirItems.PutAtKeepsTable | Phat/phat.c:1299-1335 | storing a directory item never changes the cluster table |
| DirItems.Locate | Phat/phat.c:1262-1280 | on OK the sector and slot are the item's place along the chain; an item with no place gives an error; nothing on disk changes |
| DirItems.GetDirItem | Phat/phat.c:1262-1297 | on OK the entry returned is the directory's item at the cursor; an item with no place is an error; the disk is unchanged |
| DirItems.PutDirItem | Phat/phat.c:1299-1335 | on OK the disk is the old one with exactly the cursor's item replaced; on failure the disk is unchanged; the table never changes |
| DirItems.StoreItem | Phat/phat.c:1318-1334 | the read-modify-write of the sector replaces exactly one item, or changes nothing on failure |
| DirItems.MoveNext | Phat/phat.c:1379-1389 | the index moves one on (within 32 bits) and the cursor is brought to its cluster; without allocation the disk is unchanged and the cursor stays positioned |
| DirItems.Absorb | Phat/phat.c:1409-1433 | a long-name item is checked and copied into the name buffer under the corrected length rule, a deleted item empties the name; the state stays well formed |
| DirItems.ScanSnoc | Phat/phat.c:1405-1433 | scanning a run one item longer is absorbing that item after the run |
| DirItems.ScanOfLongNames | Phat/phat.c:1409-1425 | on a run of long-name entries the scan is the accumulation of their name parts |
| DirItems.Terminated | Phat/phat.c:1489 | terminating the buffer keeps its length and every code unit before the terminator |
| DirItems.Finish | Phat/phat.c:1440-1489 | a gathered long name whose checksum matches (or that has none) is kept; otherwise, or when none was gathered, the displayed 8.3 name (at most 12 units) replaces it |
| DirItems.ListedLongName | Phat/phat.c:1391-1493 | the long-name entries of a storable name followed by a short entry with their checksum are listed under exactly that name, with the corrected length rule |
| DirItems.RunAtItem | Phat/phat.c:1405-1433 | each item of a run passed over is the directory's item at its index and is one the enumeration skips |
| DirItems.PassOver | Phat/phat.c:1409-1433 | the item is absorbed into the name state and, unless that fails, the cursor moves to the next item |
| DirItems.Advance | Phat/phat.c:1405-1493 | one pass of the loop either passes over a long-name or deleted item, stops on the end mark with the name emptied, reports a short entry with its finished name, or stops on an error |
| DirItems.TrailStep | Phat/phat.c:1405-1493 | one pass keeps the loop's trail or ends it with what Phat_NextDirItem reports |
| DirItems.NextDirItem | Phat/phat.c:1391-1493 | from the cursor the items of a run are passed over; on OK the next item is a listed short entry reported with the name the run gathered (its length by the corrected rule) and the cursor moves past it; EndOfDirectory is reported on the end mark with an empty name or where the directory has no item; the disk is unchanged |
| DirItems.StepBack | Phat/phat.c:1524-1534 | one step back reads the previous item and classifies it as a further piece, the run's start, a boundary or an error |
| DirItems.BackStep | Phat/phat.c:1524-1534 | a step back keeps the pieces between the cursor and the short entry, or ends on the run's first item |
| DirItems.FindFirstLfn | Phat/phat.c:1500-1538 | corrected: a cursor not on a listed short entry gives InvalidParameter; on OK the cursor moves back to the first item of the entry's long-name run, stopping at item 0; a wrong piece gives FSError |
| DirItems.PrevItemAsWritten | Phat/phat.c:1524 | the 32-bit decrement always gives an index below 2^32 |
| DirItems.PrevItemAway | Phat/phat.c:1524 | away from item 0 the decrement is the previous item |
| DirItems.BackFromZeroAsWritten | Phat/phat.c:1522-1527 | as written, stepping back from item 0 of the root area reaches item 0xFFFFFFFF and reads a sector far past the end of the root area |
| DirWrites.MarkStep | Phat/phat.c:2569-2576 | marking an item keeps the disk's size |
| DirWrites.MarkStepReads | Phat/phat.c:2569-2576 | after one mark the marked place reads back as its old item with 0xE5 in front, and every other place as before |
| DirWrites.MarkedToReads | Phat/phat.c:2566-2577 | after the items of a run are marked, each of their places holds its old item with the deleted mark and every other place holds what it held |
| DirWrites.MarkedKeepsTable | Phat/phat.c:2566-2577 | marking directory items never changes the cluster table |
| DirWrites.MarkedItem | Phat/phat.c:2566-2577 | every item of the run that was on the disk reads back as itself marked deleted |
| DirWrites.MarkOne | Phat/phat.c:2569-2576 | on OK exactly the item at the cursor is marked deleted; on failure the disk is unchanged; the table never changes |
| DirWrites.MarkNext | Phat/phat.c:2566-2577 | one pass of the deletion loop marks item i and moves on to i + 1 on OK |
| DirWrites.FindRun | Phat/phat.c:2562-2564 | on OK the run of the entry starts at an item not after the entry's own |
| DirWrites.EraseRun | Phat/phat.c:2562-2577 | on OK every item from the first long-name piece to the short entry is marked deleted and nothing else on disk changes |
| DirWrites.DeleteEntry | Phat/phat.c:2560-2586 | on OK the entry's items are marked deleted and then the file's chain is freed in the FAT, starting at the first cluster the deleted short entry names (phat.c:1457, 2562), and nothing else changes; with the corrected unlink, a file with no valid first cluster frees nothing |
| Lookup.Components | Phat/phat.c:1575-1600 | a path always has at least one component, each cut up to the next separator with the separators after it skipped |
| Lookup.ComponentsHead | Phat/phat.c:1575-1580 | the first component runs up to the next separator, and it is the only one exactly when no separator ends it |
| Lookup.ComponentsNext | Phat/phat.c:1595-1599 | after a component and the separators that follow it, the rest of the components begin |
| Lookup.ComponentsNoSep | Phat/phat.c:1577-1578 | no component contains a separator |
| Lookup.ComponentsOfJoinAfter | Phat/phat.c:1575-1600 | the components of a path joined from non-empty separator-free pieces are exactly those pieces |
| Lookup.NormalizedComponents | Phat/phat.c:268-322 | a non-empty normalised path cuts into the segments it was joined from, none empty, so a lookup of it never meets an empty component |
| Lookup.Names | Phat/phat.c:1583-1585 | one name per hop of the lookup |
| Lookup.PassedComponent | Phat/phat.c:1583-1599 | the names gone through plus the next component are a prefix of the path's components |
| Lookup.TookNames | Phat/phat.c:1583-1599 | an item met under the current component extends the names gone through by that component, and they reach the whole path exactly at its end |
| Lookup.WalkDown | Phat/phat.c:1587-1599 | a directory met for a component that is not the last: the walk goes on, opened in it, with the next component |
| Lookup.WalkStopped | Phat/phat.c:1575-1580 | before each call of Phat_NextDirItem the current component is the next of the path's components and is not empty |
| Lookup.Back | Phat/phat.c:1662-1667 | the 32-bit cur_diritem-- steps back by one from any item but 0 |
| Lookup.EmptyFirst | Phat/phat.c:1578-1579 | a path whose first component is empty is InvalidParameter before any item is read |
| Lookup.Stopped | Phat/phat.c:1601-1604 | the end of a directory before the component is met is DirectoryNotFound, or EndOfDirectory for Phat_FindItem's last component; no listed item of that directory before its end bears the component's name |
| Lookup.OtherName | Phat/phat.c:1583-1585 | an item under another name is passed over and the walk goes on in the same directory |
| Lookup.RunUnlisted | Phat/phat.c:1391-1430 | items Phat_NextDirItem passes over are not listed, so the items already known not to bear the name still cover every listed item before the end of the run |
| Lookup.PassedUnder | Phat/phat.c:1583-1585 | an item reported under another name joins the items of the directory known not to bear the component's name |
| Lookup.EndedUnmatched | Phat/phat.c:1601-1604 | Phat_NextDirItem reaching the end of the directory after the items met makes the component absent from it |
| Lookup.LastIndexUnmatched | Phat/phat.c:1379-1389 | an item at the last 32-bit index reported under another name leaves the component absent |
| Lookup.Reported | Phat/phat.c:1391-1498 | an OK outcome of Phat_NextDirItem is the listed entry on the disk at the reported index, under the name gathered for it, with the cursor one item on |
| Lookup.FoundLast | Phat/phat.c:1662-1667 | Phat_FindItem meeting its last component stops with the cursor stepped back onto the item |
| Lookup.NotDirectory | Phat/phat.c:1587 | an item met for a component that is followed by another but is not a directory gives NotADirectory |
| Lookup.EnteredLast | Phat/phat.c:1587-1594 | Phat_ChDir meeting its last component, a directory, opens the cursor on it and reports OK |
| Lookup.Consider | Phat/phat.c:1581-1610 | one pass of the shared loop either ends with a lookup outcome or keeps walking, and always makes progress |
| Lookup.Passed | Phat/phat.c:1583-1585 | an item under another name: the walk goes on after it with the name's absence carried, or ends with the component absent from the directory |
| Lookup.Take | Phat/phat.c:1586-1599 | an item under the component: the lookup ends on it (OK, NotADirectory or InvalidParameter for an empty next component) or goes down into it with the next component |
| Lookup.Probe | Phat/phat.c:1581-1610 | Phat_NextDirItem and then one pass of the loop, with the disk unchanged |
| Lookup.Descend | Phat/phat.c:1561-1611 | the lookup's outcome, with long names gathered under the corrected length rule: on OK the names met are exactly the path's components, each hop is the listed entry on the disk reported under its component's name, and each but the last is a directory entered in turn; where a component is not found (DirectoryNotFound, EndOfDirectory) no listed item of the directory searched bears its name; an empty component is InvalidParameter; NotADirectory as the loop decides; the disk never changes |
| Lookup.Cleared | Phat/phat.c:1548-1559 | the cleared long-name state is well formed and empty |
| Lookup.ChDir | Phat/phat.c:1561-1611 | with long names gathered under the corrected length rule, on OK the cursor is opened on the directory the path names, reached by descending through the entries listed under each component in turn; DirectoryNotFound means a directory on the way lists no item under the component; EndOfDirectory is never reported |
| Lookup.OpenDir | Phat/phat.c:1613-1626 | a path of only separators opens the root directory; otherwise the rest is looked up with Phat_ChDir from the root, with DirectoryNotFound only where a directory on the way lists no item under the component |
| Lookup.FindItem | Phat/phat.c:1628-1687 | with long names gathered under the corrected length rule, the path is looked up from the cursor's directory, or from the root on FAT32 when the cursor is on no data cluster; on OK the cursor stands on the item listed under the last component; EndOfDirectory names where the missing last component starts, and no listed item of its directory bears that name |
| Creation.VacantRun | Phat/phat.c:1950-1972 | the count is at most the slots needed, every slot it counts is vacant, and a short count stops on a slot that is not |
| Creation.ExistsBelow | Phat/phat.c:1944-1982 | a slot the directory cannot reach rules out every later slot |
| Creation.FreeRunIsFirstFit | Phat/phat.c:1944-1982 | corrected, the search finds the first run of enough vacant slots from the start, reaching only its last slot; it fails only on a directory that cannot grow, when no run fits |
| Creation.SearchKeepsSize | Phat/phat.c:1944-1982 | when a run fits among the slots the directory has, the search finds one there and needs no new cluster |
| Creation.AsWrittenWideRun | Phat/phat.c:1944-1982 | for runs of two or more slots, the search as written finds the same run as the corrected one |
| Creation.AsWrittenOneSlot | Phat/phat.c:1950-1956 | as written, a one-slot search finds the same slot but moves to the slot after it, which must exist or be allocated |
| Creation.AsWrittenMissesLastSlot | Phat/phat.c:1950-1956 | in a fixed root whose only free slot is the last, the corrected search finds it and the search as written fails |
| Creation.ItemsNeeded | Phat/phat.c:1933-1942 | an 8.3 name takes one slot; a long name takes at least one and, within the length limit, at most 21 |
| Creation.CreatedItems | Phat/phat.c:2027-2080 | as many items are written as the name needs |
| Creation.CreatedItemsListed | Phat/phat.c:2027-2080 | corrected, what creation writes is listed by the enumeration under exactly the name it was created with, the 8.3 case bits included |
| Creation.AsWrittenDropsCase | Phat/phat.c:2062-2073 | as written, an 8.3 name with a lower-case letter is stored with case bits 0 and listed under a different name |
| Creation.SeedEntries | Phat/phat.c:1983-2026 | a new directory starts with "." naming its own first cluster and ".." naming its parent's (0 for the root), both listed directories of size 0 under those names |
| Creation.DotNamesShown | Phat/phat.c:1995-2014 | the 8.3 names "." and ".." display as "." and ".." |
| Creation.PaddedShown | Phat/phat.c:1461-1478 | an 8.3 name of n visible base bytes and an empty extension displays as those bytes |
| FileIo.FileLbas | Phat/phat.c:2195-2202 | one LBA per sector of the chain, in file order |
| FileIo.ClusterOfSector | Phat/phat.c:2165 | the cluster index of a byte is the cluster index of the sector that holds it |
| FileIo.PointerLbaIsFileSector | Phat/phat.c:2195-2202 | the LBA computed from the pointer (cluster walk plus sector in cluster) is the LBA of file sector pointer / 512 |
| FileIo.FileLbasDistinct | Phat/phat.c:2159-2202 | a chain that visits no cluster twice gives every file sector its own LBA |
| FileIo.SectorAt | Phat/phat.c:2205-2280 | a sector of the file's bytes is 512 bytes long |
| FileIo.PutSector | Phat/phat.c:2329 | writing a sector keeps the length of the file's bytes and leaves the other sectors as they were |
| FileIo.PutKeepsMatch | Phat/phat.c:2342-2346 | the one-sector buffer stays right after a sector write when it holds that sector's new bytes or names another sector |
| FileIo.Wanted | Phat/phat.c:2218-2221 | the bytes a read hands over are n cut at the end of the file, and none at or past the end |
| FileIo.WriteEnd | Phat/phat.c:2355-2367 | as written the changed bytes run to the end of the last sector written; corrected, to the end of the data |
| FileIo.Written | Phat/phat.c:2282-2370 | after a write at p0 the data is in place; corrected, every other byte is kept; as written, the rest of the last partial sector is zero |
| FileIo.AsWrittenTailLost | Phat/phat.c:2355-2362 | a one-byte write at the start of a sector of 0x41 leaves byte 1 zero as written and 0x41 when corrected |
| FileIo.CorrectedWriteKeepsRest | Phat/phat.c:2282-2370 | corrected, a write replaces exactly the bytes it covers |
| FileIo.WriteSector | Phat/phat.c:2338-2354 | writing a sector with the next data bytes (and zeroes) extends the written part of the data |
| FileIo.SplicedPatch | Phat/phat.c:2326-2329 | a read-modify-write of a sector with the next bytes of data extends the written part by those bytes |
| FileIo.ZeroedPatch | Phat/phat.c:2359-2362 | writing the last bytes followed by zeroes over a sector extends the written part and zeroes to the sector's end |
| FileIo.HeadLen | Phat/phat.c:2234-2235 | the head step covers up to the end of the pointer's sector or the bytes wanted, whichever is fewer |
| FileIo.PatchedIsWritten | Phat/phat.c:2282-2370 | a write that has put all its data in place leaves the bytes Written says |
| FileIo.FileHandle.Open | Phat/phat.c:2140-2156 | the handle takes the entry's first cluster, size and attributes, read-only when asked or when the entry is; the buffer names the first cluster's first sector and, for a non-empty file, holds it, ReadFail when it cannot be read |
| FileIo.FileHandle.Fetch | Phat/phat.c:2228-2233 | the buffer is reloaded only when it names another sector; on OK it holds file sector k |
| FileIo.FileHandle.ReadHead | Phat/phat.c:2224-2240 | on OK the piece is the file's bytes at the pointer's offset in sector k |
| FileIo.FileHandle.ReadWhole | Phat/phat.c:2245-2255 | a whole sector comes from the buffer when it names the sector, otherwise from the disk; ReadFail exactly when it must be read and cannot be |
| FileIo.FileHandle.ReadTail | Phat/phat.c:2262-2277 | the tail re-reads the sector even when the buffer names it, so ReadFail exactly when the sector cannot be read |
| FileIo.FileHandle.HeadRead | Phat/phat.c:2223-2241 | the head step hands over the file's bytes from the pointer up to the sector's end or the bytes wanted; a chain that ends is EndOfFile |
| FileIo.FileHandle.SectorsRead | Phat/phat.c:2242-2261 | the loop hands over count whole sectors of the file's bytes from the pointer, OK exactly when all of them were handed over |
| FileIo.FileHandle.TailRead | Phat/phat.c:2262-2278 | the tail hands over the file's next c bytes, OK exactly when all of them were |
| FileIo.FileHandle.Transfer | Phat/phat.c:2222-2278 | the bytes handed over are the file's bytes from the pointer, OK exactly when all wanted bytes were handed over; EndOfFile on a short chain, ReadFail on an unreadable sector |
| FileIo.FileHandle.Read | Phat/phat.c:2205-2280 | zero bytes is InvalidParameter; an empty file or a pointer at or past the size is EndOfFile; otherwise, from a handle whose buffer is coherent with the disk, the bytes handed over are the file's bytes from the pointer, as many as Wanted says on success, and EndOfFile when the read ends at the size |
| FileIo.FileHandle.Store | Phat/phat.c:2342-2363 | a sector write puts s over file sector k and keeps the buffer in step; WriteFail exactly for a faulty sector, and then nothing changes |
| FileIo.FileHandle.HeadWrite | Phat/phat.c:2315-2336 | the head step writes the data up to the sector's end by read-modify-write; NotEnoughSpace past the chain, ReadFail or WriteFail on a faulty sector, and nothing written then |
| FileIo.FileHandle.SectorsWrite | Phat/phat.c:2337-2354 | the loop writes whole sectors of the data in place until fewer than 512 bytes are left, stopping at the first failure |
| FileIo.FileHandle.TailWrite | Phat/phat.c:2355-2367 | the tail writes the last bytes; as written the rest of that sector becomes zero, corrected it is kept |
| FileIo.FileHandle.Transmit | Phat/phat.c:2315-2367 | on OK the file's bytes become Written(content, pointer, data) and the pointer moves past the data; on failure the data written so far is in place and the failure names where |
| FileIo.FileHandle.Write | Phat/phat.c:2282-2370 | zero bytes is InvalidParameter and a read-only handle or volume is ReadOnly, with nothing changed; an empty file first gets the allocated cluster in its entry, and a failure of the allocator is returned as its own status with nothing changed; on OK the bytes are Written, the pointer moves past the data and the size becomes the larger of the old size and the pointer |
| FileIo.FileHandle.Seek | Phat/phat.c:2372-2380 | the pointer is set to the position, past the end included, and EndOfFile is reported exactly when it is at or past the size |
| FileIo.FileHandle.Close | Phat/phat.c:2397-2426 | with writes enabled a failure of Phat_GetDirItem or Phat_PutDirItem is returned with the handle left as it was; otherwise the entry handed back gets the access date and, after a write, the modification stamp and the 32-bit size, and the handle is zeroed |
| FatVolume.Volume.ReadWithin | Phat/phat.c:978-999 | an entry that lies inside one sector reads back as entry c of the table; the disk is unchanged |
| FatVolume.Volume.ReadAcross | Phat/phat.c:978-999 | corrected, a FAT12 entry that straddles two sectors is read from both and gives entry c of the table |
| FatVolume.Volume.WriteWithin | Phat/phat.c:1029-1061 | an entry inside one sector is stored into copy k; nothing outside copy k changes |
| FatVolume.Volume.WriteAcross | Phat/phat.c:1029-1061 | corrected, a FAT12 entry that straddles two sectors is stored into both halves of copy k; nothing outside copy k changes |
| FatVolume.Volume.UnlinkPass | Phat/phat.c:1071-1083 | one pass frees the current cluster and either goes on to its successor, which has not been visited, or ends the walk with its status |
| FatVolume.Volume.UnlinkFrom | Phat/phat.c:1071-1083 | the loop frees a linked chain from the start and ends as Unlinked describes |
| FatVolume.Volume.MarkFirstFree | Phat/phat.c:1114-1131 | on OK the first free entry from `from` is marked end-of-chain and nothing else in the table changes; NotEnoughSpace exactly when none is free, with nothing changed |
| FatVolume.Volume.Account | Phat/phat.c:1100-1111 | with FSInfo the free count drops by one (not below 0); without FSInfo nothing changes |
| FatVolume.Volume.SearchAndMark | Phat/phat.c:1114-1131 | corrected, a free valid cluster is marked end-of-chain, or NotEnoughSpace when no valid cluster is free, with nothing changed |
| FatVolume.Volume.PutFsInfoAt | Phat/phat.c:864-878 | on OK the sector at lba holds the next-free and free-count fields and no other sector changes; on failure nothing changes |
| FatVolume.Volume.WipeSector | Phat/phat.c:937-950 | one more sector of the range is zero, or on failure nothing outside the range has changed |
| FatVolume.Volume.LoadState | Phat/phat.c:837-860 | the dirty flag comes from entry 0, and on FAT32 the FSInfo sector and whether it is valid |
| FatVolume.Volume.LoadFsInfo | Phat/phat.c:837-855 | the FSInfo sector is remembered and counted valid exactly when its signatures are right |
| FatImage.CountFree | Phat/phat.c:673-686 | the number of free entries is at most the number of entries |
| FatImage.PutCopy | Phat/phat.c:1027-1063 | storing an entry into a FAT copy keeps the disk's size |
| FatCodec.Encode | Phat/phat.c:1035-1058 | the bytes an entry is stored as keep the width of its window |
| ShortNames.FirstFree | Phat/phat.c:1788-1899 | the alias index found, when there is one, lies between k and the largest tail number |
| SectorCache.Cache.LoadFirst | Phat/phat.c:449-469 | the first cached read links the list in slot order and loads the sector into slot 0, OK exactly when the device can read it |
| SectorCache.Cache.Replace | Phat/phat.c:483-495 | on a miss the tail slot is written back if dirty, refilled and moved to the head; OK exactly when the eviction and the read can succeed; the disk view is unchanged |

## Left out

- FatVolume.Volume.ReadFat: requires `c < num_FAT_entries`. Phat_ReadFAT has no range check, but the mounted geometry is the corrected one (max_valid_cluster is at most num_FAT_entries - 1), so the callers that stay within 2..max_valid_cluster never reach past the FAT. The as-written max_valid_cluster is shown by Boot.AsWrittenMaxValidOutsideFat only.
- FatVolume.Volume.WriteFat: requires `c < num_FAT_entries` for the same reason as ReadFat.
- FatVolume.Volume.ReadAcross: models the corrected read of a FAT12 entry that straddles two sectors. The source takes the 16-bit word at byte 511 of the one cached slot, reading past the sector data into the slot's LBA field. That behaviour is modelled at byte level only, by FatCodec.AsWrittenStraddleRead and FatCodec.Read12InSlotAsWritten.
- FatVolume.Volume.WriteAcross: models the corrected write of a straddling FAT12 entry. The as-written write, which overwrites the slot's LBA field, is modelled at byte level only, by FatCodec.AsWrittenStraddleWriteMovesSlot.
- FatVolume.Volume.Mount: installs the corrected geometry from Boot.MountGeometry. The as-written geometry (Boot.MountGeometryAsWritten: max_valid_cluster = num_FAT_entries + 1, and the FAT32 data area placed at the root directory) is stated and compared by lemmas but never mounted.
- FatVolume.Volume.Mount: reports FSNotFat for a DBR whose geometry is not sound or does not lie on the disk (for example bytes_per_sector other than 512, or a zero cluster size). Phat_Mount mounts such a volume and returns OK; the model has no meaning for the accesses that would follow.
- FatVolume.MountedGeometry: is defined only for sound geometries on the disk, for the reason given for Mount.
- FatVolume.Volume.MountAt: installs the corrected geometry and refuses an unsound DBR, for the reasons given for Mount.
- Boot.MbrEntryInfo: counts a partition taken from CHS from its starting to its ending address inclusive, one sector more than Phat_GetMBREntryInfo; the as-written half is Boot.MbrEntryInfoAsWritten and Boot.AsWrittenChsSizeShort (Findings row for Phat/phat.c:590-602). Boot.LocateDbr uses only the starting LBA, which both agree on.
- Boot.MbrEntryInfo: decodes the CHS fields with the corrected six-bit sector mask (Boot.ChsToLba). Phat_GetMBREntryInfo goes through Phat_CHS_to_LBA, which masks the sector with 0x1F; the as-written half is Boot.AsWrittenChsLosesSectorBit in the Findings table. Boot.LocateDbr uses MbrEntryInfo and so inherits the corrected mask.
- FatVolume.Volume.Unmount: Phat_WriteFAT calls Phat_WriteBackCachedSector and drops its result (phat.c:1064), so Phat_Unmount can return OK while the clean flag sits only in the cache. The model's device fails reads and writes of the same sectors (SectorCache.Device.CanTransfer), so a write-back after a successful read always succeeds here; a device whose writes fail where its reads succeed, the case in which the source reports OK without the flag on the disk, is not captured.
- Directory.DataLba: models the PHAT_BIGLBA build (BSP_phat.h:6-10), where LBA_t has 64 bits, so clusters 0 and 1 give data_start + (0xFFFFFFFE or 0xFFFFFFFF) * sectors_per_cluster. The default build has a 32-bit LBA_t, where the same sums wrap round to data_start - 2 * sectors_per_cluster and data_start - sectors_per_cluster. LBA sums wrapping at 2^32 (partition start plus FAT or data offsets) are not modelled in either build.
- Directory.AppendCluster: takes its cluster from the corrected FatVolume.Volume.AllocateCluster. Phat_UpdateClusterByDirItemIndex calls the allocator as written, which, when the hint is free, marks the hint, leaks it and links a second cluster, so three entries change rather than two. The as-written half is FatVolume.Volume.AllocateClusterAsWritten and FatVolume.SecondTaken (Findings row for Phat/phat.c:1087-1136). Directory.Extend and Directory.UpdateCluster with allocation inherit this.
- DirItems.Absorb: gathers long names with the corrected length rule (LongNames.LfnStep with `asWritten` false). Phat_SuckLFNIntoBuffer gives a name of L units, L = 12 modulo 13, the length L + 1; the as-written half is LongNames.AsWrittenLengthCounterexample, and LongNames.SuckSpec and LongNames.LongNameRoundTrip state both rules.
- DirItems.ListedLongName: the name is listed with its length by the corrected rule, for the reason given for Absorb; the source reports L + 1 for a name of L = 12 modulo 13 units.
- DirItems.NextDirItem: reports LFN_length by the corrected rule, for the reason given for Absorb.
- Lookup.Descend: is built on DirItems.Absorb, so it matches long names of L = 12 modulo 13 units that the source's `dirname_len == LFN_length` comparison never matches.
- Lookup.ChDir: finds such names too, through Descend.
- Lookup.OpenDir: finds such names too, through ChDir.
- Lookup.FindItem: finds such names too, through Descend.
- DirWrites.DeleteEntry: frees the chain with the corrected FatVolume.Volume.UnlinkCluster, which frees nothing for first cluster 0. Phat_DeleteFile unlinks an empty file's first cluster 0 as written, which frees FAT entry 0 and sets the free hint to 0; that half is FatVolume.UnlinkFromZero (Findings row for Phat/phat.c:1067-1085).
- DirItems.MoveNext: stops with EndOfDirectory where the 32-bit index would wrap round to 0. Phat_MoveToNextDirItem increments cur_diritem unchecked, so at 0xFFFFFFFF it would go back to the directory's first item.
- Lookup.Consider: through Lookup.Passed, takes the directory as ended when Phat_NextDirItem reports its last 32-bit index again. The source's cur_diritem would wrap round to 0 and the search would go on from the directory's first item. This needs 2^32 items.
- ShortNames.Gen83: Phat_FindShortFileName's scan of the directory is abstracted to the set `taken` of 8.3 names already present. Nothing ties that set to the directory items, and a read failure during the scan, which makes the source return that error, is not modelled.
- ShortNames.FirstFree: works on the same `taken` set as Gen83.
- Format.Plan: Phat_MakeFS_And_Mount is modelled as the layout it chooses (Plan, LayoutFor) and the first FAT sector it leaves (Format.FatHead, Format.FirstFatSector). Its sector writes are not modelled as a method over the cache: the DBR, the FSInfo and backup DBR, the FAT initialisation loop and the flush. It does not call Phat_Mount. It sets the engine's geometry itself (phat.c:2922-2939), with max_valid_cluster = num_FAT_entries + 1 and num_FAT_entries divided by the stale phat->FAT_bits; that in-memory geometry is not modelled. Format.MountSeesFormat describes what a later Phat_Mount of the formatted volume derives, not the state MakeFS leaves.
- FileIo.FileHandle.Read and FileIo.FileHandle.Write take the file's sectors as a list of LBAs (`lbas`) and its bytes as `content`. Phat_UpdateClusterByFilePointer's FAT walk and its allocation of new clusters while writing are not composed with the volume. The mapping itself is stated by FileIo.PointerLbaIsFileSector and FileIo.FileLbasDistinct. A write past the chain ends with NotEnoughSpace, where the source would allocate.
- FileIo.FileHandle.Write: the allocator's answer comes in as parameters (`allocSt`, its status, returned as it is when it is not OK, and `allocCluster`, the cluster it gave). The GetDirItem and PutDirItem that store it in the file's entry are left out. The new entry is returned instead, and their failures are not modelled.
- FileIo.FileHandle.Read: requires the handle's buffer to be coherent (FileIo.FileHandle.Coherent: when sector_buffer_LBA names a sector of the file, the buffer holds that sector's bytes on the disk). Phat_ReadFile accepts any open handle, and two states break coherence. (1) After a Phat_WriteFile whose device write failed, the data is already copied into the buffer (phat.c:2328-2330, 2344-2347, 2359-2363); a later head step or whole-sector step of that sector hands over bytes that never reached the disk (phat.c:2228-2234, 2247-2249). (2) Phat_OpenFile of a file of size 0 that has a first cluster aims the buffer at that cluster's first sector without loading it (phat.c:2150-2155). Reads from these states are not described.
- FileIo.FileHandle.Write: requires a coherent buffer too, for the same two states. From them the source merges the head step into the stale buffer without reloading it (phat.c:2320-2329), which the model does not describe. A WriteFail outcome of Write itself may leave the buffer incoherent, so Write promises Coherent only when the status is not WriteFail. The steps Fetch, HeadWrite, HeadStore, Store, SectorsWrite, TailWrite, AlignedWrite and Transmit, and the read steps, carry the same requirement.
- FileIo.FileHandle.Read and FileIo.FileHandle.Write: the 32-bit file pointer and size are unbounded naturals, so their wrap-round at 4 GiB is not modelled. FileIo.FileHandle.Close stores the size modulo 2^32.
- FileIo.FileHandle.Open: models the handle set-up after the path has been found. Phat_OpenFile's lookup, its creation of a missing file (Phat_MarkDirty, Phat_CreateNewItemInDir, a second Phat_FindItem) and its IsADirectory and NameTooLong checks are not composed into one method.
- Phat_CreateNewItemInDir is modelled on values (Creation.FreeRun over the list of directory items, Creation.CreatedItems for what is written, Creation.SeedEntries for "." and ".."). It is not a method over the volume, so update in place and the intermediate failures of its reads, allocations and writes are not captured.
- Phat_CreateDirectory, Phat_RemoveDirectory, Phat_Rename and Phat_Move are compositions of the lookup, creation, enumeration and deletion modelled here, and are not modelled as methods of their own. Phat_DeleteFile is modelled from the point where the item is found (DirWrites.DeleteEntry).
- Phat_Init, Phat_DeInit and the driver's open and close calls are I/O set-up with no state the model needs; the `Device` stands for an opened driver.
- Phat_SetCurDateTime: the current date and time are parameters of the operations that stamp entries. The PHAT_DEFAULT_* timestamp (phat.c:634-645) that the source uses before the first call is therefore not modelled; the caller passes whatever date it stamps.
- Phat_GetFilePointer, Phat_GetFileSize and Phat_IsEOF read fields of the handle; Phat_IsEOF is FileIo.FileHandle.AtEnd.
- Phat_PathToNameInPlace and the wide-string helpers (Phat_Wcslen, Phat_Wcscpy, Phat_Wcsncpy, Phat_ToEndOfString) are sequence operations in the model.
- Null-pointer parameter checks, which return InvalidParameter, are not modelled: Dafny references here are never null.
- The cache's `usage` counter and the SDMMC board support in Phat/BSP_phat.c are not modelled.

## Findings

| source | as written | input that shows it | evidently intended | confidence | as-written member | corrected member |
|---|---|---|---|---|---|---|
| Phat/phat.c:170-210 | the name table has 33 entries, but there are 35 states | PhatState_PartitionIndexOutOfBound and PhatState_NeedBigLBA index past the table | one name per state | not executed | StateNames.AsWrittenTableTooShort | StateNames.StateNameTotal |
| Phat/phat.c:590-602 | the size taken from CHS is the ending address minus the starting one | an entry with zero LBA fields whose CHS fields both name LBA 100 gets size 0 | the ending address is the last sector, so the size is one more | not executed | Boot.AsWrittenChsSizeShort | Boot.MbrEntryFromChs |
| Phat/phat.c:554-560 | the CHS sector number is masked with 0x1F | LBA 31 encodes as sector 32 and decodes as sector 0 | a 6-bit mask, 0x3F | not executed | Boot.AsWrittenChsLosesSectorBit | Boot.ChsRoundTrip |
| Phat/phat.c:1337-1367 | the long-name length counts the terminator slot | a 12-unit name decodes with length 13 | the length of the name itself | not executed | LongNames.AsWrittenLengthCounterexample | LongNames.LongNameRoundTrip |
| Phat/phat.c:1712-1761 | the base/extension split for the case bits is at position 8, not at the last dot | "abc.txt" comes back as "abc.TXT" | the extension starts after the last dot | not executed | ShortNames.AsWrittenDisplayUppercasesExtension | ShortNames.DisplayRoundTrip |
| Phat/phat.c:1712-1761 | a name whose only dot is its first or last unit passes the 8.3 test | ".abc" is listed under a name starting with a space and "abc." without its dot, so neither can be found under its own name | such names get a long-name entry | not executed | ShortNames.DisplayLeadingDot | ShortNames.Fits83ListedExactly |
| Phat/phat.c:985 | a FAT12 entry at byte 511 is read as a 16-bit word from one sector buffer | entry 341 reads its high byte from the slot's LBA field | read byte 0 of the next sector | not executed | FatCodec.AsWrittenStraddleRead | FatVolume.Volume.ReadAcross |
| Phat/phat.c:1037-1049 | the straddling FAT12 write stores its high byte over the slot's LBA field | marking entry 341 end-of-chain moves the slot to LBA 0xFF | write byte 0 of the next sector | not executed | FatCodec.AsWrittenStraddleWriteMovesSlot | FatCodec.StraddleWriteCorrected |
| Phat/phat.c:1087-1136 | a free hint is marked and then a second cluster is searched for, marked and returned | any free valid hint: two clusters are taken, one is leaked, and the free count drops by two | use the hint when free, otherwise search with wrap-round | not executed | FatVolume.Volume.AllocateClusterAsWritten | FatVolume.Volume.AllocateCluster |
| Phat/phat.c:515-532 | an uncached read overwrites cached slots with the device's bytes and marks them clean | a cached sector written but not yet written back loses that write | return the cached bytes and leave the cache alone | not executed | SectorCache.AsWrittenReloadDiscardsDirtySlot | SectorCache.Cache.ReadSectorsWithoutCache |
| Phat/phat.c:864-878 | the FSInfo update goes to sector partition_start + 1 | a BPB whose FSInfo field is not 1 | the FSInfo sector the mount read | not executed | FatVolume.Volume.UpdateFsInfoAsWritten | FatVolume.Volume.UpdateFsInfo |
| Phat/phat.c:815-835 | max_valid_cluster is num_FAT_entries + 1 | the highest valid cluster of any FAT16 or FAT32 volume has no FAT entry | the highest cluster that has both a FAT entry and sectors in the data area | not executed | Boot.AsWrittenMaxValidOutsideFat | Boot.ValidClustersInRange |
| Phat/phat.c:825-835 | on FAT32 the data area starts at the root directory's first sector | a root cluster other than 2 | the data area right after the FATs | not executed | Boot.AsWrittenFat32RootMisplaced | Boot.MountGeometry |
| Phat/phat.c:2818-2960 | the FAT size is rounded down and leaves out entries 0 and 1 | a 1.44 MB floppy gets an 8-sector FAT with 2730 entries, while its data area holds clusters 2 to 2819 | a FAT with an entry for every cluster | not executed | Format.AsWrittenFloppyFatTooSmall | Format.FloppyFatCovers |
| Phat/phat.c:2818-2960 | the entry count divides by the FAT width of the previous mount | formatting FAT12 after a FAT16 mount, or straight after Phat_Init (division by zero) | divide by the width being formatted | not executed | Format.AsWrittenStaleWidth | Format.MountSeesFormat |
| Phat/phat.c:3157-3189 | the FAT32 root cluster's end-of-chain is stored before the FAT is initialised, which wipes it | any fresh FAT32 volume: its root cluster is free | store it after the initialisation | not executed | Format.AsWrittenRootClusterFree | Format.FreshFirstFatSector |
| Phat/phat.c:268-322 | ".." clears back over a stale copy of an earlier segment | "a/./b/../c" gives "a/b/c" | "a/c" | not executed | Paths.AsWrittenParentKeepsStaleSegment | Paths.NormalizeParentExample |
| Phat/phat.c:268-322 | a segment copied onto itself overwrites the terminator, so the loop reads past the string | "a", and every non-empty normal path | stop at the terminator | not executed | Paths.AsWrittenOverrunsNormalPaths | Paths.NormalizeIdempotent |
| Phat/phat.c:245-266 | the parent keeps the separator before the removed component and clears the root, against its header's examples | "/a/b" gives "/a/" and "/" gives "" | "/a" and "/", as phat.h:235-238 documents | not executed | Paths.UpperDirectoryExamples | Paths.DocumentedParentAgainstCode |
| Phat/phat.c:324-365 | the loop that drops trailing separators starts on the terminator and stops at once | "a/b/" gives "" | "b" | not executed | Paths.AsWrittenTrailingSeparator | Paths.PathToNameOfJoin |
| Phat/phat.c:324-365 | a name longer than MAX_LFN is copied without a terminator | a last component longer than 255 units | cut at MAX_LFN and terminate | not executed | Paths.AsWrittenLongNameUnterminated | Paths.PathToName |
| Phat/phat.c:1522-1527 | the step back decrements the 32-bit item index without a check at 0 | a short entry at item 0 of a FAT12/16 root: item 0xFFFFFFFF is read, far past the root area | stop at item 0 | not executed | DirItems.BackFromZeroAsWritten | DirItems.FindFirstLfn |
| Phat/phat.c:1067-1085 | freeing a chain starts at any cluster, 0 included | deleting an empty file (first cluster 0) frees entry 0 and sets the hint to 0 | free nothing for a cluster outside 2..max_valid | not executed | FatVolume.UnlinkFromZero | FatVolume.Volume.UnlinkCluster |
| Phat/phat.c:1950-1956 | the free-slot search moves to the next slot before checking whether one slot is enough | a fixed root whose only free slot is the last one: creation fails | check the count before moving on | not executed | Creation.AsWrittenMissesLastSlot | Creation.FreeRunIsFirstFit |
| Phat/phat.c:2062-2073 | the short entry of an 8.3 name gets case bits 0 | "readme.txt" is listed as "README.TXT" and cannot be found under its name | store the case bits Phat_IsFit83 found | not executed | Creation.AsWrittenDropsCase | Creation.CreatedItemsListed |
| Phat/phat.c:2355-2362 | the tail step clears the sector buffer and writes the data followed by zeroes | a one-byte write at the start of a sector of 0x41 zeroes the other 511 bytes | read-modify-write of the tail sector | not executed | FileIo.AsWrittenTailLost | FileIo.CorrectedWriteKeepsRest |
