# Common utilities and UDS wire structures, in Dafny

This project models four sequential cores of the emulator's source tree and
proves what each promises.

- **String helpers** (`src/common/string_util.cpp`): `ToLower`, `StripSpaces`,
  `SplitPath`, `SplitString`, `ReplaceAll` and
  `StringFromFixedZeroTerminatedBuffer`.
  They live in module `StringUtil`. The standard-library searches they are
  written with (`find`, `rfind`, `find_last_of`, `find_first_not_of`,
  `find_last_not_of`) are in `StringSearch`. "Not found" (`npos`) is `None`.
- **Path helpers and the directory tree** (`src/common/file_util.cpp`,
  `src/common/file_util.h`, module `FileUtil`):
  - `StripTailDirSlashes`;
  - `SplitFilename83`, which fills a 9-char and a 4-char array in place;
  - `GetFilename`, `GetExtension`, `RemoveTrailingSlash`;
  - `SanitizePath`, given as its `std::replace` loop and an in-place `std::unique`;
  - `GetAllFilesFromNestedEntries` over the `FSTEntry` tree.
- **CityHash64** (`src/common/cityhash.cpp`, module `CityHash`):
  - `u64` arithmetic is `bv64`, so it wraps modulo 2^64;
  - loads are little-endian;
  - the length dispatch is stated as a lemma;
  - the 64-byte chunk loop is a `while` loop proved against a function that
    applies the round a given number of times.
- **UDS wire structures** (`src/core/hle/service/nwm/nwm_uds.h`, module `NwmUds`):
  - the packet-type, network-status and change-reason codes;
  - the byte images of `NodeInfo` (40 bytes), `ConnectionStatus` (0x30) and
    `NetworkInfo` (0x108), each with a read function and round-trip lemmas;
  - `NodeInfo` is also a class, whose `Reset` zeroes its fields in place.

`Bytes` holds the little- and big-endian stores and loads (`u16_le`,
`u32_be`, ...). Each load is specified as the inverse of its store.
`Wrappers` holds `Option`.

How the model relates to the source:

- `FSTEntry`'s fields are named as in the header (`isDirectory`,
  `physicalName`). The .cpp calls the same flag `is_directory`.
- The header declares `GetExtensionFromFilename`, but the .cpp defines
  `GetExtension`. The model follows the .cpp.
- `SanitizePath` and `Sanitized` take `ForwardSlash` as their default
  separator, as the header declares. On this platform `PlatformDefault` behaves
  as `ForwardSlash` (`SeparatorPair`).
- `SplitFilename83` searches for the point a second time when the last '.'
  is the final character. That second `rfind('.', point)` finds the same '.'.
  `Point83` models both searches literally, and `SecondSearchFindsSameDot`
  proves the second one is a no-op.

## Model

| member | source | states |
|---|---|---|
| StringSearch.Find | src/common/string_util.cpp:92 | the first occurrence of the pattern at or after the start position, or None exactly when there is none |
| StringSearch.FindLastOf | src/common/file_util.cpp:633 | the last index holding one of the characters, or None when no character of the set occurs |
| StringSearch.RFind | src/common/file_util.cpp:604 | the last index of the character at or before the position, or None |
| StringSearch.RFindLast | src/common/string_util.cpp:55 | the last index of the character, or None exactly when it does not occur |
| StringSearch.FindFirstNotOf | src/common/string_util.cpp:28 | the first index outside the set; None exactly when every character is in it |
| StringSearch.FindLastNotOf | src/common/string_util.cpp:31 | the last index outside the set; None exactly when every character is in it |
| StringUtil.LowerChar | src/common/string_util.cpp:22 | as written, no contract: C-locale `tolower` of one character; its properties are LowerCharChangesOnlyUpperCase |
| StringUtil.LowerCharChangesOnlyUpperCase | src/common/string_util.cpp:20-24 | a character changes iff it is 'A'..'Z', it then becomes 'a'..'z', and lower-casing twice is lower-casing once |
| StringUtil.ToLower | src/common/string_util.cpp:20-24 | same length, and each character is lower-cased independently |
| StringUtil.StripSpaces | src/common/string_util.cpp:27-35 | empty when all characters are " \t\r\n"; otherwise a contiguous substring with whitespace-only text around it and non-whitespace ends |
| StringUtil.StripSpacesUnique | src/common/string_util.cpp:27-35 | any split into whitespace, a core with non-whitespace ends and whitespace yields exactly that core |
| StringUtil.StripSpacesIdempotent | src/common/string_util.cpp:27-35 | stripping twice equals stripping once |
| StringUtil.DirEnd | src/common/string_util.cpp:43-53 | the directory part ends just after the last '/', or is empty, and no '/' follows it |
| StringUtil.FilenameEnd | src/common/string_util.cpp:55-58 | the extension starts at the last '.' unless that lies before the directory end, else at the end |
| StringUtil.SplitPath | src/common/string_util.cpp:37-73 | None iff the path is empty; otherwise path + filename + extension is the input, path is empty or ends with '/', filename and extension hold no '/', extension is empty or is the last '.' and what follows |
| StringUtil.SplitPathParts | src/common/string_util.cpp:43-72 | the three slices concatenate to the input and hold the separator and dot facts SplitPath promises |
| StringUtil.NextDelim | src/common/string_util.cpp:79 | getline stops at the next delimiter or the end, with no delimiter in between |
| StringUtil.Lines | src/common/string_util.cpp:79-81 | as written, no contract: the pieces successive getline calls produce until the input is exhausted; its properties are LinesHaveNoDelimiter, LinesJoin and SplitStringShape |
| StringUtil.SplitString | src/common/string_util.cpp:75-84 | the output is exactly the sequence of getline pieces of the input, earlier contents discarded |
| StringUtil.LinesHaveNoDelimiter | src/common/string_util.cpp:79-81 | no piece holds the delimiter |
| StringUtil.LinesJoin | src/common/string_util.cpp:79-83 | joining the pieces from a position with the delimiter, plus a final delimiter if the input ends with one, gives back the rest of the input |
| StringUtil.SplitStringShape | src/common/string_util.cpp:75-84 | no pieces iff the input is empty, no piece holds the delimiter, and the pieces joined plus a single trailing delimiter give the input back |
| StringUtil.Replaced | src/common/string_util.cpp:92-95 | as written, no contract: the reference meaning of ReplaceAll: occurrences found left to right, without overlap, each replaced by dest and not searched again |
| StringUtil.ReplacedSkip | src/common/string_util.cpp:92-95 | a stretch with no occurrence is copied unchanged |
| StringUtil.ReplacedNoOccurrence | src/common/string_util.cpp:92-97 | a string without the pattern is returned unchanged |
| StringUtil.ReplacedBySelf | src/common/string_util.cpp:89-90 | replacing a pattern by itself changes nothing, so the early return agrees with the loop |
| StringUtil.ReplacedDoesNotRescan | src/common/string_util.cpp:92-95 | inserted text is not searched again ("a" becomes "aa" for "a" to "aa"), and matches do not overlap ("aaa" becomes "ba" for "aa" to "b") |
| StringUtil.ReplaceStep | src/common/string_util.cpp:92-95 | one replace-and-advance keeps the done part plus the meaning of the rest equal to the final result |
| StringUtil.ReplaceDone | src/common/string_util.cpp:92-97 | when find fails, the account of the loop is the string itself |
| StringUtil.ReplaceAll | src/common/string_util.cpp:86-98 | the input unchanged when the patterns are equal; otherwise the left-to-right, non-overlapping replacement of every occurrence |
| StringUtil.StringFromFixedZeroTerminatedBuffer | src/common/string_util.cpp:151-158 | a prefix of the buffer of length at most max_len, with no NUL, ending at max_len or at the first NUL |
| FileUtil.StripTailDirSlashes | src/common/file_util.cpp:62-73 | a string of length at most 1 is unchanged; otherwise the result is a prefix, everything removed is '/', and it does not end with '/' ("//" gives "") |
| FileUtil.AllowedChars | src/common/file_util.cpp:609-612 | the characters kept for the short name are none of the forbidden ones, and no more than the input |
| FileUtil.AllowedPrefix | src/common/file_util.cpp:609-621 | the characters kept from a prefix are a prefix of those kept from the whole |
| FileUtil.Point83 | src/common/file_util.cpp:602-605 | as written, no contract: the point from the last '.' and the second search the source makes when that '.' is the final character; SecondSearchFindsSameDot shows that search is a no-op |
| FileUtil.SecondSearchFindsSameDot | src/common/file_util.cpp:602-605 | the second search for the point finds the same '.' as the first |
| FileUtil.ShortName83 | src/common/file_util.cpp:599-621 | as written, no contract: the 9-char short-name array made from the text before the point; its contents are ShortName83Layout |
| FileUtil.Extension83 | src/common/file_util.cpp:600-629 | as written, no contract: the 4-char extension array made from at most three characters after the point; its contents are Extension83Layout |
| FileUtil.SplitFilename83 | src/common/file_util.cpp:594-630 | the 9-char array holds the short name and the 4-char array the extension, as ShortName83 and Extension83 define them |
| FileUtil.WriteShortName | src/common/file_util.cpp:599-621 | the filled array is the short name of the text before the point |
| FileUtil.WriteExtension | src/common/file_util.cpp:623-629 | the filled array is the upper-cased extension, space padded and NUL terminated |
| FileUtil.OverflowName | src/common/file_util.cpp:613-619 | at a ninth allowed character, the first six characters and "~1" are the final short name |
| FileUtil.ShortName83Layout | src/common/file_util.cpp:599-621 | slot 8 is NUL; with at most 8 allowed characters they are upper-cased in order and exactly the later slots are spaces; with more, the first six and then "~1" |
| FileUtil.ShortName83HasNoForbiddenChars | src/common/file_util.cpp:610-612 | no slot of the short name holds a forbidden character except the space padding |
| FileUtil.Extension83Layout | src/common/file_util.cpp:600-629 | slot 3 is NUL; without '.' the extension is three spaces; otherwise the first at most 3 characters after the last '.', upper-cased, then spaces |
| FileUtil.GetFilename | src/common/file_util.cpp:632-640 | empty when no '/' or '\\' occurs; otherwise exactly the text after the last separator, which holds none |
| FileUtil.GetExtension | src/common/file_util.cpp:642-650 | empty when no '.' occurs; otherwise exactly the text after the last '.', which holds none |
| FileUtil.GetExtensionAfterLastDot | src/common/file_util.cpp:642-650 | "archive.tar.gz" has extension "gz" |
| FileUtil.RemoveTrailingSlash | src/common/file_util.cpp:652-663 | an empty path or one not ending in a separator is unchanged; otherwise exactly that one final separator is removed |
| FileUtil.RemoveTrailingSlashOnce | src/common/file_util.h:153-154 | only one separator is removed: "a//" gives "a/" |
| FileUtil.SeparatorPair | src/common/file_util.cpp:667-675 | the rewritten and the kept separator are '/' and '\\' in some order; '\\' is kept iff BackwardSlash |
| FileUtil.Sanitized | src/common/file_util.cpp:665-690 | as written, no contract: the separator rewrite, the squeeze and the trailing-slash removal, composed, with ForwardSlash as the default separator; its properties are SanitizedShape, SanitizedIdempotent and SanitizedRoot |
| FileUtil.SanitizePath | src/common/file_util.cpp:665-690 | separator ForwardSlash by default; the result is the path with type1 rewritten to type2, runs of type2 squeezed and one trailing separator dropped |
| FileUtil.Replace | src/common/file_util.cpp:677 | every occurrence of one character is replaced by the other, nothing else changes |
| FileUtil.Unique | src/common/file_util.cpp:686-688 | std::unique with "both are the separator", then erase: each run of the separator shrinks to one |
| FileUtil.UniqueStep | src/common/file_util.cpp:686-688 | one step of std::unique extends the kept prefix by the next character unless it and the last kept one are both the separator |
| FileUtil.Collapse | src/common/file_util.cpp:686-688 | as written, no contract: std::unique with "both are the separator" followed by erase: each run of the separator becomes one; its properties are the three Collapse lemmas |
| FileUtil.CollapseKeepsChars | src/common/file_util.cpp:686-688 | squeezing keeps only characters of the input, is empty iff the input is, and keeps the last character |
| FileUtil.CollapseNoAdjacent | src/common/file_util.cpp:686-688 | after squeezing no two separators are adjacent |
| FileUtil.CollapseOfNoAdjacent | src/common/file_util.cpp:686-688 | squeezing a string with no adjacent separators changes nothing |
| FileUtil.SanitizedShape | src/common/file_util.h:158-161 | the result holds no rewritten separator, no two kept separators in a row, and does not end with '/' or '\\' |
| FileUtil.SanitizedIdempotent | src/common/file_util.cpp:665-690 | sanitizing twice equals sanitizing once |
| FileUtil.SanitizedRoot | src/common/file_util.cpp:665-690 | "/" and "\\" sanitize to the empty string |
| FileUtil.FilesIn | src/common/file_util.cpp:469-478 | as written, no contract: the non-directory entries beneath a list of entries, depth first in child order; its properties are FilesInExactly and FilesInAreFiles |
| FileUtil.FilesInAppend | src/common/file_util.cpp:471-477 | collecting over two entry lists in turn collects their concatenation |
| FileUtil.FilesInSnoc | src/common/file_util.cpp:471-477 | one more child adds its files (a directory) or itself (a file) |
| FileUtil.GetAllFilesFromNestedEntries | src/common/file_util.cpp:469-478 | the output is its old contents followed by the files beneath the directory, depth first in child order |
| FileUtil.FilesInExactly | src/common/file_util.h:120-125 | an entry is collected iff it is a file reachable through directories |
| FileUtil.FilesInAreFiles | src/common/file_util.h:120-125 | no collected entry is a directory |
| CityHash.Fetch64 | src/common/cityhash.cpp:72-74 | the 8 bytes at the offset are the little-endian image of the result, and the offset plus 8 is within the input |
| CityHash.Fetch32 | src/common/cityhash.cpp:76-78 | the 4 bytes at the offset are the little-endian image of the result, and the offset plus 4 is within the input |
| CityHash.FetchDeterminedByBytes | src/common/cityhash.cpp:44-48 | an 8-byte load depends only on the 8 bytes it covers |
| CityHash.Fetch32DeterminedByBytes | src/common/cityhash.cpp:50-54 | a 4-byte load depends only on the 4 bytes it covers |
| CityHash.Rotate | src/common/cityhash.cpp:87-90 | as written, no contract: the value itself at shift 0, else the bitwise or of val >> shift and val << (64 - shift); the shift is a bv6, so it is never 64 (see RotateIsRotateRight) |
| CityHash.RotateIsRotateRight | src/common/cityhash.cpp:87-90 | at every shift the hash uses, Rotate is the right rotation of the 64 bits |
| CityHash.ShiftMix | src/common/cityhash.cpp:92-94 | as written, no contract: val ^ (val >> 47) |
| CityHash.Swap64 | src/common/cityhash.cpp:177-181 | the image of the result is the image of the argument with its 8 bytes reversed |
| CityHash.Swap64Involution | src/common/cityhash.cpp:177-181 | swapping twice gives the value back |
| CityHash.HashLen16 | src/common/cityhash.cpp:100-108 | as written, no contract: the three-argument Murmur-inspired mix, in wrapping u64 arithmetic |
| CityHash.HashLen8to16 | src/common/cityhash.cpp:111-118 | as written, no contract: the 8..16-byte case from the first and the last 8-byte load |
| CityHash.HashLen4to7 | src/common/cityhash.cpp:119-123 | as written, no contract: the 4..7-byte case from the first and the last 4-byte load, the first widened to u64 before the shift |
| CityHash.HashLen1to3 | src/common/cityhash.cpp:124-131 | as written, no contract: the 1..3-byte case in u32 arithmetic, widened to u64 for the multiplications by k2 and k0 |
| CityHash.ShortInputOf | src/common/cityhash.cpp:110-127 | two 8-byte loads for 8..16 bytes, two 4-byte loads for 4..7, three single bytes for 1..3, nothing for 0 |
| CityHash.HashShort | src/common/cityhash.cpp:110-132 | as written, no contract: dispatches on what was read to the three cases above, or k2 when nothing was read; the length is truncated to u32 for the 1..3 case |
| CityHash.HashLen0to16 | src/common/cityhash.cpp:132 | an empty input hashes to k2 |
| CityHash.ShortInputWordReads | src/common/cityhash.cpp:111-118 | for 8..16 bytes, what is read depends only on the first and last 8 bytes |
| CityHash.ShortInputHalfWordReads | src/common/cityhash.cpp:119-123 | for 4..7 bytes, what is read depends only on the first and last 4 bytes |
| CityHash.ShortInputBytes3Reads | src/common/cityhash.cpp:124-127 | for 1..3 bytes, what is read depends only on s[0], s[len >> 1] and s[len - 1] |
| CityHash.HashLen17to32 | src/common/cityhash.cpp:137-144 | as written, no contract: the 17..32-byte case from four 8-byte loads; Fetch64's requires shows each lies inside the input |
| CityHash.WeakHashLen32WithSeeds | src/common/cityhash.cpp:148-156 | as written, no contract: the source's sequence of updates with the temporaries substituted: (a + w + x + y + z, Rotate(b + a + w + z, 21) + Rotate(a + w + x + y, 44) + a + w) |
| CityHash.WeakHashLen32WithSeedsAt | src/common/cityhash.cpp:159-162 | as written, no contract: WeakHashLen32WithSeeds of the four 8-byte loads at an offset |
| CityHash.HashLen33to64 | src/common/cityhash.cpp:165-184 | as written, no contract: the 33..64-byte case from eight 8-byte loads; Fetch64's requires shows each lies inside the input |
| CityHash.LongInit | src/common/cityhash.cpp:199-204 | as written, no contract: the state after hashing the end of an input over 64 bytes, with Hash128to64 as a parameter |
| CityHash.LongRound | src/common/cityhash.cpp:209-218 | as written, no contract: one loop iteration on the chunk at an offset, ending with the swap of z and x |
| CityHash.RoundOf | src/common/cityhash.cpp:208-219 | as written, no contract: LongRound on the chunk at an offset of the input; RoundOfTakesChunk shows its other branch is never taken |
| CityHash.Rounds | src/common/cityhash.cpp:208-219 | as written, no contract: a given number of applications of the round at offsets advancing by 64 |
| CityHash.LongFinish | src/common/cityhash.cpp:220-221 | as written, no contract: the final combination of the state through Hash128to64 |
| CityHash.ChunkCount | src/common/cityhash.cpp:207 | the number of chunks is at least one, is the rounded-down length len - 1 over 64, and 64 times it lies in [len - 64, len) |
| CityHash.RoundDownMask | src/common/cityhash.cpp:207 | (len - 1) & ~63 is a multiple of 64, at most len - 1, and within 64 of it |
| CityHash.ChunksInBounds | src/common/cityhash.cpp:208-219 | every chunk the loop hashes lies inside the input |
| CityHash.RoundOfTakesChunk | src/common/cityhash.cpp:208-219 | on every round the hash takes, the chunk lies inside the input and RoundOf applies LongRound to it |
| CityHash.LongChunks | src/common/cityhash.cpp:206-219 | the loop applies the round once per chunk, at offsets 0, 64, ..., and stops after ChunkCount rounds |
| CityHash.CityHash64 | src/common/cityhash.cpp:186-222 | the result is the hash the length-class functions and the chunk rounds define |
| CityHash.Hash64 | src/common/cityhash.cpp:186-222 | as written, no contract: the length dispatch and, past 64 bytes, LongFinish of ChunkCount rounds from LongInit; its properties are Hash64Dispatch, and CityHash64 computes it |
| CityHash.Hash64Dispatch | src/common/cityhash.cpp:186-196 | up to 16 bytes use HashLen0to16, 17..32 HashLen17to32, 33..64 HashLen33to64, and the empty input hashes to k2 |
| Bytes.ReadOfStore | src/core/hle/service/nwm/nwm_uds.h:122-127 | loading back any little- or big-endian store gives the stored value |
| Bytes.StoresInjective | src/core/hle/service/nwm/nwm_uds.h:102-105 | equal images mean equal values, for both byte orders |
| Bytes.AgreeJoin | src/core/hle/service/nwm/nwm_uds.h:101-110 | agreeing on two adjacent byte ranges means agreeing on their union |
| NwmUds.PacketTypeCode | src/core/hle/service/nwm/nwm_uds.h:40-48 | codes 0..5 are the frame types and MacAddress is outside them |
| NwmUds.PacketTypeOf | src/core/hle/service/nwm/nwm_uds.h:40-48 | a byte is a packet type iff it is at most 5 or 255 |
| NwmUds.PacketTypeCodes | src/core/hle/service/nwm/nwm_uds.h:40-48 | reading a code gives the type back, and a byte reads as a type iff it is that type's code |
| NwmUds.NetworkStatusCode | src/core/hle/service/nwm/nwm_uds.h:87-93 | the codes are 3, 6, 7, 9 and 10 |
| NwmUds.NetworkStatusOf | src/core/hle/service/nwm/nwm_uds.h:87-93 | a value is a status iff it is one of 3, 6, 7, 9, 10 |
| NwmUds.NetworkStatusCodes | src/core/hle/service/nwm/nwm_uds.h:87-93 | reading a code gives the status back, and a value reads as a status iff it is its code |
| NwmUds.ChangeReasonCode | src/core/hle/service/nwm/nwm_uds.h:95-99 | the codes are 0, 1 and 4 |
| NwmUds.ChangeReasonOf | src/core/hle/service/nwm/nwm_uds.h:95-99 | a value is a reason iff it is one of 0, 1, 4 |
| NwmUds.ChangeReasonCodes | src/core/hle/service/nwm/nwm_uds.h:95-99 | reading a code gives the reason back, and a value reads as a reason iff it is its code |
| NwmUds.ReadLe16sOfImage | src/core/hle/service/nwm/nwm_uds.h:106 | reading the image of a u16_le array gives the array back |
| NwmUds.Le16sOfRead | src/core/hle/service/nwm/nwm_uds.h:106 | the image of an array read from bytes is those bytes |
| NwmUds.NodeInfoBytes | src/core/hle/service/nwm/nwm_uds.h:83 | the image is 40 bytes |
| NwmUds.ReadNodeInfo | src/core/hle/service/nwm/nwm_uds.h:69-74 | as written, no contract: the fields loaded from their offsets; its properties are ReadNodeInfoOfBytes and NodeInfoBytesOfRead |
| NwmUds.NodeInfoLayout | src/core/hle/service/nwm/nwm_uds.h:69-74 | seed at 0 (LE64), username at 8 (ten LE16), 4 zero bytes, node id at 32 (LE16), 6 zero bytes |
| NwmUds.ReadNodeInfoOfBytes | src/core/hle/service/nwm/nwm_uds.h:69-74 | reading the image of a node gives the node back |
| NwmUds.NodeInfoBytesOfRead | src/core/hle/service/nwm/nwm_uds.h:69-74 | the image of what was read agrees with the bytes everywhere except the padding |
| NwmUds.NodeInfo.constructor | src/core/hle/service/nwm/nwm_uds.h:69-74 | a node holding the given seed, username and node id |
| NwmUds.NodeInfo.Reset | src/core/hle/service/nwm/nwm_uds.h:76-80 | the seed, all ten username units and the node id become 0 |
| NwmUds.ZeroNodeBytes | src/core/hle/service/nwm/nwm_uds.h:76-83 | a reset node is written as 40 zero bytes |
| NwmUds.ConnectionStatusBytes | src/core/hle/service/nwm/nwm_uds.h:112 | the image is 0x30 bytes |
| NwmUds.ReadConnectionStatus | src/core/hle/service/nwm/nwm_uds.h:101-110 | as written, no contract: the fields loaded from their offsets; its properties are ReadConnectionStatusOfBytes and ConnectionStatusBytesOfRead |
| NwmUds.ConnectionStatusLayout | src/core/hle/service/nwm/nwm_uds.h:101-110 | status at 0, reason at 4, node id at 8, changed nodes at 0xA, the 16 node slots at 0xC, counts at 0x2C and 0x2D, bitmask at 0x2E |
| NwmUds.ReadConnectionStatusOfBytes | src/core/hle/service/nwm/nwm_uds.h:101-110 | reading the image of a status gives it back |
| NwmUds.ConnectionStatusBytesOfRead | src/core/hle/service/nwm/nwm_uds.h:101-112 | the structure has no padding: the image of what was read is the bytes read |
| NwmUds.NetworkInfoBytes | src/core/hle/service/nwm/nwm_uds.h:138 | the image is 0x108 bytes |
| NwmUds.ReadNetworkInfo | src/core/hle/service/nwm/nwm_uds.h:114-134 | as written, no contract: the fields loaded from their offsets, big-endian where the header says so; its properties are ReadNetworkInfoOfBytes and NetworkInfoBytesOfRead |
| NwmUds.NetworkIdsLayout | src/core/hle/service/nwm/nwm_uds.h:120-130 | within bytes 0xC..0x1F: OUI, OUI type, big-endian comm id, id, big-endian attributes and network id, node counts |
| NwmUds.NetworkInfoLayout | src/core/hle/service/nwm/nwm_uds.h:114-137 | every field's offset, with oui_value at 0xC, the big-endian wlan_comm_id at 0x10, the size byte at 0x3F and the 200 bytes of application data at 0x40 |
| NwmUds.ReadNetworkInfoOfBytes | src/core/hle/service/nwm/nwm_uds.h:114-134 | reading the image of a network description gives it back |
| NwmUds.NetworkInfoBytesOfRead | src/core/hle/service/nwm/nwm_uds.h:114-134 | the image of what was read agrees with the bytes everywhere except the padding |

## Left out

- Windows branches: the ':' directory end in `SplitPath`, `SanitizePath`'s backslash default and its network-path skip, and the wide-string conversions, because only the non-Windows behaviour is modelled.
- `UTF16ToUTF8` and `UTF8ToUTF16`, because they delegate to the utf8cpp library, which is not part of this model.
- `ToLower` and `SplitFilename83`'s `toupper` are taken in the C locale, so only 'A'..'Z' and 'a'..'z' change.
- `ReplaceAll`: its `requires` excludes an empty `src` with a different `dest`. On that input the source's loop finds the empty string at `pos` forever and never ends.
- `StringFromFixedZeroTerminatedBuffer`: the buffer is a sequence, and its `requires` says that every read of the scan is inside it, as the C pointer must guarantee.
- Filesystem and host operations of file_util.cpp (`Exists`, `CreateDir`, `Delete`, `Copy`, `ScanDirectoryTree`, `ReadFileToString`, user paths, ...) and `IOFile`, because they are host I/O.
- `GetAllFilesFromNestedEntries` returns the new output vector instead of appending through a reference. The `files` local is never used and is not modelled.
- `CityHash.HashLen0to16`: its contract states only the empty case. What it reads is stated on `ShortInputOf`, and the hash is a function of those loads by definition.
- `CityHash.RotateIsRotateRight`: proved at the nine shifts the hash uses, not for every shift. The shift is a `bv6`, so it is 0..63 and nothing is ever shifted by 64.
- `Hash128to64` (two-argument `HashLen16`) comes from cityhash.h, which is not part of this model. It is a function parameter of `Hash64` and `CityHash64`.
- `swap64` comes from swap.h, which is not part of this model. It is the byte reversal `Swap64`.
- `ShiftMix`, `HashLen16`, `HashLen17to32`, `WeakHashLen32WithSeeds` and `HashLen33to64` are straight-line arithmetic, modelled as written with no separate lemma. The closed form of `WeakHashLen32WithSeeds` is its definition.
- CityHash's big-endian host branch (`WORDS_BIGENDIAN`), because the loads are modelled for a little-endian host.
- `CityHash.LongChunks` is proved for any round function, so the loop's proof does not unfold the arithmetic. `CityHash64` passes `RoundOf`, whose out-of-bounds branch is never taken (`ChunksInBounds`).
- `CityHash.LongChunks` computes the rounded length with integer arithmetic. `RoundDownMask` states the source's `(len - 1) & ~63` is the same rounding on `bv64`, but the equation between the two is not proved: converting `bv64` to `int` is beyond the solver's budget.
- `CityHash.ChunkCount` counts the chunks and does not say which bytes a round reads.
- The UDS service logic (`NWM_UDS` methods, the network thread, beacons, bind nodes, the connection sequence), `WifiPacket`'s vector payload, `TagId`, `Node`, `BindNodeData`, `MillisecondsPerTU`, `DefaultNetworkChannel` and `DefaultBeaconInterval`. Their implementation file is not part of this model, and they involve threads, timing and a double.
- The UDS structures' padding is written as zero bytes and ignored when read. `NodeInfoBytesOfRead` therefore speaks only of the bytes outside the padding.
- The UDS read functions require an image of exactly the structure's size.
- `NwmUds.NodeInfo.Reset`: the class keeps the username as an array, but the fields are not tied to the byte image in place. The image is `NodeInfoBytes` of `Fields()`.
