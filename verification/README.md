# A verified model of motatool

motatool packs firmware images into `.mota` containers for over-the-air updates of MeshCore nodes, verifies
such containers, and serves them to a node over a serial or TCP link. This project models its working parts in
Dafny and proves what they promise, over all inputs and all runs:

* **Delta encoding** (`Varint`, `Crle`, `SuffixArray`, `PatchFormat`, `Bsdiff`, `Encode`). bsdiff over a
  prefix-doubling suffix array, control triples in signed varints, conditional run-length compression, and the
  sequential and in-place patch layouts. The decoders are the specification. The in-place decoder works
  destructively, byte by byte, in one memory that first holds the base, and it refuses to read a base byte below
  the end of the segment it is writing. Main results: `EncodeSequential` and `EncodeInPlace` produce patches that
  decode to the target for every pair of images.
* **In-place planning** (`InplacePlan`). A plan is made exactly when the window it comes to suits both images and
  the running layout; an automatic window is the least one in which the encoder keeps the whole base, and the
  staged container does not meet it.
* **Merkle root** (`Merkle`). The binary-counter fold with right-to-left bagging is the recursive tree that
  splits at the largest power of two, the shape of section 2.1 of RFC 6962 without its prefix bytes.
* **Container** (`Endf`, `Format`, `Verify`, `Build`). Parsing and writing are inverse, verification reports
  exactly what is wrong, and every container that is built parses, verifies and delivers its image. On the
  device, an in-place update leaves the target image in the window and its own staged container untouched.
* **Seeder** (`Seeder`, `Stream`, `PumpRun`, `Checksum`, `NodeSide`, `Attach`). The capture store over whole runs;
  the one-byte-lookbehind stream loop against a plain left-to-right tokeniser, with one response for each frame
  and every byte of text accounted for; the checksum as a parity, so that any one damaged byte is noticed; captures
  and fetches in bytes on the wire, from the node's side; the retrying attach handshake, whose contract determines
  what goes over the link and when, and on which lines it ends.
* **Bootloader helpers** (`Crc`, `HexRegion`). The CRC is the one of RFC 1952 and detects every burst of up to
  four bytes; HEX extraction depicts the records and does not depend on their order.

`Bytes` holds shared types and sequence facts. `Library` holds the cryptographic and text functions as
parameters. Nothing is known of them but their types; where a result needs it, it names the law that a signature
made from a seed verifies under the public key of that seed.

Code that updates state in the program is a method or a class here, proved against a function or predicate that
says what it is for: the loops of bsdiff, the suffix array and the run-length compressor, the peak counter, the
manifest array, the HEX buffers, the capture store, the link and the stream state. Recursive and expression code
is functions. Where the program's long loops have separate phases (bsdiff's main loop, a suffix-array round, one
leaf of the Merkle fold), each phase is a method of its own with its own contract, called from the loop.

Points where the code is followed rather than what is said about it:

* `search` is described as finding the longest prefix (`src/encode.rs:258`), with the remark that correctness
  does not depend on it. Its comparison is cut off at the end of the base, so it can miss a longer match. What is
  proved is what bsdiff relies on: the match is genuine, cannot be extended where it was found, and is not empty
  when the first byte occurs in the base at all.
* `encode_in_place` asserts only that the segment size is not zero and divides the memory size
  (`src/encode.rs:74-77`). Its subtraction of the shift succeeds exactly when memory has two segments
  (`Encode.ShiftFits`), so `EncodeInPlace` requires that. `plan_inplace` always supplies it.
* The handshake means not to send `ota folder on` between an M and its next byte (`src/serve.rs:685`). Its guard
  looks at the M held back, but not at a byte put aside when the 512-byte line buffer overflows. So a command can
  fall inside a frame: `Attach.CommandInsideFrame` gives an input. It does so exactly when the step before the
  retry has overflowed the buffer with an M put aside (`Attach.RetryIsSafe`), and never while the node's lines fit
  the buffer (`Attach.ShortLinesAreSafe`).
* The image size in the manifest is a wrapping 32-bit number, too: it is the true size exactly below 2^32 bytes,
  which full images and in-place targets always are.
* A trailer records the body length as a wrapping 32-bit number, so an image gets a trailer that is recognised
  exactly when its body is shorter than 2^32 bytes (`Endf.TrailerRecognised`).
* Some error branches are proved never to be taken: the checked layout subtractions, the hybrid RAM suffix check,
  the HEX data address overflow and the parse of the builder's own output. The 64-bit overflow checks of
  `minimum_inplace_memory` refuse nothing that its 32-bit limit would not refuse.

## Model

| member | source | states |
|---|---|---|
| Varint.LenRoundTrip | src/encode.rs:348-359 | decoding an encoded segment length gives the length and leaves whatever follows unread |
| Varint.SizeRoundTrip | src/encode.rs:328-346 | decoding an encoded signed size gives the size, negative ones included, and leaves whatever follows unread |
| Varint.LenIsBase128 | src/encode.rs:348-359 | a length is written as base-128 digits, least significant first, the top bit in every byte but the last, and no digit too many |
| Varint.SizeIsBase128 | src/encode.rs:328-346 | a signed size has its sign in bit 6 of the first byte and six bits of its amount below it, the rest in base 128 behind it |
| Varint.LenIsShort | src/encode.rs:349-359 | a length takes one byte below 128, two below 16384, and at most one more for each further 16384 |
| Varint.PackSize | src/encode.rs:330-346 | the byte loop writes the signed varint that `SizeRoundTrip` inverts |
| Varint.CrlePackSize | src/encode.rs:349-359 | the loop that sets continuation bits and clears the last one writes the varint that `LenRoundTrip` inverts |
| Crle.ReadSegmentBytes | src/encode.rs:387-401 | a written segment of either kind is read back whole, whatever follows it |
| Crle.ParseStreamOf | src/encode.rs:367-401 | parsing a serialised list of segments gives the list back and goes on with whatever stream comes after |
| Crle.FirstRun | src/encode.rs:405-420 | the first place at or after the start where six equal bytes begin, with the maximal run there; none found means no six equal bytes stand anywhere behind the start |
| Crle.EmitScattered | src/encode.rs:397-401 | appends exactly the encoding of one scattered segment |
| Crle.CrleCompress | src/encode.rs:367-395 | for all data: the output parses and decompresses to the data; no two scattered segments touch and none hides a run; every repeated segment is a maximal run of at least six; the output is at most 3 bytes longer than the data, plus one for each 16384 |
| SuffixArray.CompareSplit | src/encode.rs:302-304 | comparing suffixes by h + g bytes is comparing by h and, on a tie, by the g bytes behind |
| SuffixArray.CompareTotal | src/encode.rs:318-321 | two suffixes that agree on enough bytes are the same suffix |
| SuffixArray.CompareIsLex | src/encode.rs:293-324 | the bounded comparison agrees with dictionary order of the whole suffixes |
| SuffixArray.SortByKeySorts | src/encode.rs:307 | the sort orders by the two-level key |
| SuffixArray.KeyOrder | src/encode.rs:302-307 | if ranks order suffixes by k bytes, the pair keys order them, and tell them apart, by 2k bytes |
| SuffixArray.SortedRound | src/encode.rs:306-307 | one sort keeps the list a permutation of all positions and orders it by 2k bytes |
| SuffixArray.CountedRanks | src/encode.rs:308-314 | ranks that count key changes along the sorted list order all suffixes |
| SuffixArray.Renumber | src/encode.rs:308-317 | the renumbering loop yields ranks for 2k bytes, and a last rank of n - 1 means all suffixes are told apart |
| SuffixArray.LongEnough | src/encode.rs:318-321 | the exit on k >= n is sound: by then the order is strict |
| SuffixArray.SuffixArray | src/encode.rs:294-324 | a permutation of all positions in strictly ascending dictionary order of their suffixes, through either exit |
| SuffixArray.SuffixArrayWithSentinel | src/encode.rs:285-291 | the same for positions 0 to n, the empty suffix first |
| PatchFormat.ReadTripleBytes | src/encode.rs:235-239 | an emitted control triple is read back whole, whatever follows it |
| PatchFormat.AddInPlaceAdds | src/encode.rs:59-70 | adding base bytes one by one into the same memory gives the sum of the original base bytes as long as the writes stay below the base region |
| PatchFormat.TripleInPlace | src/encode.rs:59-70 | under the same condition one triple applied in place stores what the fresh-buffer decoder outputs, and nothing else changes |
| PatchFormat.InPlaceRefines | src/encode.rs:59-70 | the destructive decoder of a segment agrees with the fresh-buffer decoder on every stream, while writes stay below the base region |
| Bsdiff.MatchLen | src/encode.rs:249-256 | the length of the longest common prefix |
| Bsdiff.Search | src/encode.rs:261-281 | the position is in the base, and the length is all that agrees there with the wanted bytes |
| Bsdiff.FindMatch | src/encode.rs:261-281 | the recursion with its two match-length loops finds what `Search` specifies |
| Bsdiff.SearchFindsFirstByte | src/encode.rs:261-281 | over a sorted suffix array the binary search never returns an empty match if some suffix in range begins with the wanted byte |
| Bsdiff.MatchNotMissed | src/encode.rs:144-160 | at a position that agrees with the base at the last offset the search finds at least that byte; this keeps the running score from going negative |
| Bsdiff.ScoreMatch | src/encode.rs:147-152 | after scoring, the score is the true number of agreeing positions up to the furthest reach, also when the score had lagged behind the scan |
| Bsdiff.LeaveBehind | src/encode.rs:156-158 | moving the scan on keeps the score the true number of agreeing positions |
| Bsdiff.ScanForMatch | src/encode.rs:140-160 | stops at the first position whose match agrees wholly with the last alignment or beats it by more than 8 bytes, with that match and its true, never negative score; at the target's end, with the match last looked at, if there is none |
| Bsdiff.ForwardExtend | src/encode.rs:163-179 | the shortest forward span of greatest worth, twice the agreements less the length |
| Bsdiff.BackwardExtend | src/encode.rs:180-196 | the shortest backward span of greatest worth |
| Bsdiff.SplitOverlap | src/encode.rs:197-218 | the first split point at which the forward alignment has the greatest advantage |
| Bsdiff.ChooseSpans | src/encode.rs:162-221 | the kept spans lie inside both images and do not overlap, so no length goes negative; they are the best spans, parted at the best split |
| Bsdiff.RebuiltStep | src/encode.rs:223-243 | one more triple keeps the whole-stream invariant: the decoder has made exactly the target up to `lastscan`, with its cursor at `lastpos` |
| Bsdiff.EmitTriple | src/encode.rs:223-239 | the appended bytes are one triple whose diff part has the chosen length and which takes the decoder from the old scan and base positions to the new ones with the right output |
| Bsdiff.AppendDiff | src/encode.rs:125-246 | for all images: terminates, keeps what was in the body, and appends a stream that rebuilds the target from the base and ends exactly there; the stream is what the rounds emit over a sorted suffix array: each round breaks off at the first worthwhile match, emits exactly when that match leaves the alignment in use, and its triple takes up the best spans; every index, the signed ones included, is in bounds |
| Encode.EncodeSequential | src/encode.rs:45-57 | for all images: the patch decodes against the base to exactly the target, with every patch byte used; it begins with 0x02 and the target size |
| Encode.ReadsInPlaceHeader | src/encode.rs:95-100 | the six header fields are read back |
| Encode.ShiftFits | src/encode.rs:79-81 | the shift is at least two segments, and no larger than memory exactly when memory has two segments |
| Encode.ShiftedBase | src/encode.rs:66-82 | after the shift all of the surviving base stands where segments look for it |
| Encode.SegmentWritten | src/encode.rs:66-93 | writing a segment extends the finished target and leaves every base byte a later segment reads in place |
| Encode.SegmentDecodes | src/encode.rs:86-93 | decoding a coded segment in place stores that piece of the target and stops at the next segment |
| Encode.SegmentsDecode | src/encode.rs:84-93 | decoding all segments in place leaves the target at the bottom, whatever else memory held |
| Encode.InPlaceDecodesIn | src/encode.rs:59-106 | header, shift and segments together do so in any given memory |
| Encode.DecodedFits | src/encode.rs:59-70 | the in-place decoder accepts no patch, whoever made it, whose target is longer than the memory |
| Encode.TooLongIsRefused | src/encode.rs:71-106 | a patch made for a longer target is refused in every memory of that size |
| Encode.TargetMustFit | src/encode.rs:71-106 | a delivered target fits, because what is left behind is the memory itself |
| Encode.EncodeInPlace | src/encode.rs:71-106 | if the target fits the memory, the patch leaves exactly the target at the bottom of every memory that holds the base, with any bytes above it, base reads happening at `max((i+1)*seg, shift)` and above only; if it does not fit, the patch is refused in every memory; the patch begins with 0x12 and the sizes of memory, segment, shift, base and target in this order |
| InplacePlan.ShiftIsLargest | src/encode.rs:110-120 | with room for it, the shift is the largest whole number of segments that leaves the base whole |
| InplacePlan.ShiftLeavesBase | src/encode.rs:110-120 | the shift leaves the base whole exactly from two segments above the rounded base on |
| InplacePlan.FitsFromLeast | src/build.rs:200-204 | a window fits exactly when it is whole segments and not below the least window |
| InplacePlan.MinimumIsLeast | src/build.rs:205-219 | the computed minimum is that least window; it is refused exactly when it needs more than 32 bits |
| InplacePlan.PlannedWindowFits | src/build.rs:233-332 | every accepted plan meets the encoder's conditions, holds the target and never truncates the base; automatic sizing from layouts is the least such window |
| InplacePlan.PlannedWindowIs | src/build.rs:263-301 | which of the explicit, least and legacy windows is planned, and that two layouts agree on the application address; `PlannedExactly` says when there is a plan |
| InplacePlan.PlannedExactly | src/build.rs:221-332 | a plan is made if and only if the segment is not zero, and 4096 where a base layout or the legacy default asks for it; both layout records parse, each image lies below its own layout's ceiling and the application bases agree; and the window - the explicit one, the least one or 0x98000 - is not zero, has 32 bits, fits both images and lies with the target in the running layout's workspace. The plan is then that window |
| InplacePlan.PlannedWindowInWorkspace | src/build.rs:239-325 | window, base and target lie inside the running layout's bounds; the checked layout subtractions never fail |
| InplacePlan.StagedSizeIsLeast | src/build.rs:344-371 | the flash charge is the least whole number of pages that holds the container, or in hybrid mode the least positive one that leaves at most 64 KiB for RAM, so the suffix check never fails |
| InplacePlan.StagingIsDisjoint | src/build.rs:334-384 | in a shared span staging is accepted exactly when the window at the bottom and the container at the top do not meet, and overlap is the only reason to refuse |
| InplacePlan.StagedExactly | src/build.rs:334-384 | staging is accepted if and only if the container's flash part fits the span that its layout gives it |
| Merkle.Carry | src/merkle.rs:42-45 | a carry turns two neighbouring perfect blocks into the one of the next level |
| Merkle.Settle | src/merkle.rs:46-50 | placing the block in the first free level counts one more leaf |
| Merkle.PeaksAreBits | src/merkle.rs:36-51 | after i leaves peak k is there exactly when bit k of i is set, and is the root of its own slice of 2^k leaves |
| Merkle.Combiner.Join | src/merkle.rs:18-23 | the hash of left before right, and one more combination counted where it happens |
| Merkle.Push | src/merkle.rs:38-51 | folding in leaf i keeps that invariant, and each combination performed takes away one peak |
| Merkle.BagPeak | src/merkle.rs:54-59 | bagging a peak gives the tree of all leaves from that peak on |
| Merkle.Bag | src/merkle.rs:52-59 | bagging all peaks gives the recursive tree, with one combination less than peaks |
| Merkle.Root | src/merkle.rs:31-62 | for every leaf list the root is that of the recursive tree, zero for no leaves; exactly n - 1 combinations are performed |
| Merkle.LeavesAreBlocks | src/merkle.rs:26-28 | there is one leaf for each started block |
| Merkle.LeafOfBlock | src/merkle.rs:26-28 | leaf j is the hash of block j, the last of which may be short |
| Merkle.LeafIsHash | src/merkle.rs:13-16 | a leaf is the first four bytes of the SHA-256 of its block |
| Merkle.SmallTrees | src/merkle.rs:18-23 | the root of one leaf is the leaf, of two the first four bytes of the SHA-256 of left before right, and a third leaf joins on the right |
| Merkle.TreesJoin | src/merkle.rs:18-62 | the root of more leaves is that hash of the roots on both sides of the largest power of two below their number |
| Format.ReadWritten | src/format.rs:352-357 | a written 32-bit word is read back |
| Format.WrittenRead | src/format.rs:352-357 | writing back what was read restores the bytes |
| Format.WordIsLe | src/format.rs:352-354 | a word is read least significant byte first |
| Format.ReadsManifest | src/format.rs:303-321 | reading a written manifest gives all its fields back |
| Format.WritesManifest | src/format.rs:41-58 | writing the fields that were read gives the 197 bytes back, so the offsets leave no gap and no overlap |
| Format.ManifestFields | src/format.rs:41-58 | every field of a written manifest stands at its own offset, from 0 to 193, and the manifest ends at 197 |
| Format.ParseAccepts | src/format.rs:251-348 | every well-formed application container parses, to the manifest it was written from |
| Format.ParseAcceptsBootloader | src/format.rs:326-346 | every bootloader container parses whose manifest has exactly the fixed flags, sizes and geometry and whose image meets the image contract |
| Format.ParsedManifest | src/format.rs:261-346 | what parses is a well-formed application manifest or a bootloader manifest with its exact flags and geometry |
| Format.ParseIsExact | src/format.rs:251-348 | whatever parses is, byte for byte, the container of its manifest, leaves and payload |
| Format.ParsesExactly | src/format.rs:251-348 | a file parses if and only if it is the container of an application manifest, or of a bootloader manifest with an image that meets the contract, with its leaves and payload |
| Endf.EnsureEndf | src/endf.rs:221-240 | an image with a trailer is unchanged, any other gets one appended; the hash is that of the body either way |
| Endf.TrailerRecognised | src/endf.rs:198-240 | an appended trailer is recognised if and only if the body is shorter than 2^32 bytes, and then the identity is read back |
| Endf.TrailedExactly | src/endf.rs:198-240 | an image carries a trailer if and only if it is a body below 2^32 bytes with the trailer made for it and some identity |
| Endf.BuildNrf52Layout | src/endf.rs:151-162 | a record is built exactly for valid layouts, with every field in its place |
| Endf.LayoutRoundTrip | src/endf.rs:168-195 | a layout record behind any body and before any trailer is found again if valid and refused if not |
| Endf.RecordOutcomes | src/endf.rs:168-195 | 24 bytes in front of a trailer: no record unless they start with the marker; with it, a wrong version, length or geometry is each refused, and anything else is read field by field |
| Endf.NoRecord | src/endf.rs:168-195 | an image without a trailer, or too short for a record, has none, and that is no error |
| Endf.ValidProfiles | src/endf.rs:64-147 | the layouts that pass validation are exactly the listed storage profiles |
| Endf.ProfilesMean | src/endf.rs:25-62 | the write ceiling, the external staging and the hybrid RAM of each accepted profile |
| Endf.ValidGeometry | src/endf.rs:49-147 | in every valid layout both ceilings lie above the application base, and hybrid layouts stage internally up to the end |
| Verify.ChunksOfFlattened | src/verify.rs:23-36 | splitting stored leaf bytes gives back the leaves they were joined from |
| Verify.Verify | src/verify.rs:12-64 | each problem is reported exactly when it is there, and none is reported exactly for sound containers |
| Build.AssembleManifest | src/build.rs:104-125 | the array filled field by field is the manifest in bytes, the signature made over its signed part |
| Build.BuildDelta | src/build.rs:154-198 | a delta is made if and only if the base carries its trailer, the hardware agrees or is forced to and, for an in-place patch, the conditions of `InplacePlan.PlannedExactly` hold; otherwise the first of these reasons is reported; the patch's decoder makes the target of the base, with the base's body hash |
| Build.ManifestDescribes | src/build.rs:104-125 | the manifest is well formed and tells the truth about the image, the payload, the identity and the signer; its image size is true exactly below 2^32 bytes, and always for full images and in-place targets |
| Build.ContainerIsSound | src/build.rs:127-143 | a container put together from such a manifest parses to it, gives its payload back and has no problems |
| Build.ChoosePayload | src/build.rs:75-90 | the payload is the image itself, or a delta if and only if one can be made, and it delivers the image |
| Build.FinishBuild | src/build.rs:92-149 | given a payload that delivers, a container is made if and only if the block count, the total size and the staged size are within bounds, and it is a genuine container of that payload |
| Build.Package | src/build.rs:103-149 | manifest and container of a payload: parses, describes, verifies |
| Build.Build | src/build.rs:57-150 | a full image is built if and only if the block size is a power of two from 2 to 2048 and block count and size are within bounds; a delta is built if and only if the block size is one of those, a delta can be made (`DeltaExactly`) and block count, size and staging are within bounds; every built container parses to its manifest, verifies without problems, and its payload is the image or a patch that decodes against the base to the image the manifest names; its own parse never fails |
| Build.DeltaExactly | src/build.rs:154-198 | none of the reasons to refuse a delta applies if and only if these conditions hold |
| Build.PackedExactly | src/build.rs:92-149 | no reason to refuse a payload is left exactly when its blocks are 1 to 65535, the container has fewer than 2^32 bytes and the staging fits |
| Build.BlockSizesAre | src/build.rs:57-63 | the block sizes accepted are the eleven powers of two from 2 to 2048 |
| Build.OptionsWin | src/build.rs:65-71 | version, target and hardware name come from the options where these give them, from the trailer at its offsets where there is one, and are empty otherwise |
| Build.UpdateKeepsContainer | src/build.rs:334-384 | applying the payload of a built in-place container in the shared flash leaves the image of the declared hash at the bottom and the container's flash part as it was, for any bytes above the base |
| Seeder.SeederCore.Handle | src/serve.rs:173-197 | a reply exactly to known opcodes, as `ReadReplies`, `DescribeReplies`, `CountIsIndexable` and the store lemmas say; only BEGIN, WRITE and FIN can change the directory |
| Seeder.ReadReplies | src/serve.rs:181-190 | a READ request brings exactly the bytes it asks for if the folder has them, and an error if not |
| Seeder.FetchJoins | src/serve.rs:181-190 | the replies to reads over consecutive stretches join to that part of the container, however it is cut |
| Seeder.DescribeReplies | src/serve.rs:177-180 | a DESCRIBE request is answered with the description for indexes in the folder, with an error for others |
| Seeder.DescribeNames | src/serve.rs:322-338 | the description names root, target, version, codec, flags, length, the places and sizes of leaves and payload, the block size and the capabilities, each at its offset |
| Seeder.NodeFetchesPayload | src/serve.rs:173-197 | reading where the description says, in requests of any lengths, brings exactly the leaves and the payload of the container |
| Seeder.CountIsIndexable | src/serve.rs:176-180 | every index below the count is described, and no other unless the count is cut off at 255 |
| Seeder.SeederCore.HandleStorage | src/serve.rs:240-287 | the storage requests on raw arguments, against the transition function of the store; `NodeSide.DecodesBack` says what the arguments mean |
| Seeder.SeederCore.BeginPart | src/serve.rs:291-301 | a part of the declared length replaces any old one; its byte i is from the warm-start payload where that lies, and 0xFF elsewhere; no other file changes |
| Seeder.SeederCore.Publish | src/serve.rs:304-317 | publishes exactly parts that start with MAGIC and declare their own length, and moves nothing else |
| Seeder.StatReplies | src/serve.rs:257-265 | STAT tells whether a published file or a part is there, the published one first, and its length |
| Seeder.SReadReplies | src/serve.rs:275-283 | SREAD reads the part if there is one, else the published file; past the end and without a file it fails; nothing changes |
| Seeder.WriteReplies | src/serve.rs:267-274 | WRITE succeeds exactly with a part and with data as long as it says, and changes nothing otherwise |
| Seeder.WrittenAt | src/serve.rs:346-350 | byte by byte, what a write makes of a file: data, old bytes, and zeros in a gap |
| Seeder.FinReplies | src/serve.rs:304-317 | FIN succeeds exactly on a part that starts with `mOTA` and declares its own length, moves it, and otherwise fails and changes nothing |
| Seeder.PublishedStaysPublishable | src/serve.rs:240-317 | over every run of requests, every published file starts with MAGIC and declares its own exact length |
| Seeder.MidsAreIndependent | src/serve.rs:341-344 | over every run, requests about other captures leave this capture's files alone |
| Seeder.RepliesAreLocal | src/serve.rs:240-287 | a reply depends on the files of its own capture only |
| Seeder.ReadsBack | src/serve.rs:346-358 | what was written is read back at the same place, past the old end as well |
| Seeder.CaptureProgress | src/serve.rs:256-284 | during a capture every byte some write brought stays as in the container, through repeats and other requests |
| Seeder.CaptureCompletes | src/serve.rs:240-317 | BEGIN, slices of a container in any order that cover it, FIN: exactly that container is published, whatever the warm start put there |
| Stream.Link.ReadByte | src/serve.rs:418-426 | takes one read event off the link |
| Stream.Link.ReadFrameBytes | src/serve.rs:429-438 | n bytes, or nothing at the first read without a byte, which is used up |
| Stream.Link.ReadRequest | src/serve.rs:451-486 | reads as much as the request grammar says, and judges as it does; `Checksum.ValidExactly`, `OversizedWrite` and `CutShort` say what the grammar accepts |
| Stream.RequestRecognised | src/serve.rs:451-486 | a request of the right length is taken up whole, whatever follows; it is valid if and only if its last byte is the checksum, which `Checksum.RightExactly` characterises |
| Stream.StreamState.PushText | src/serve.rs:569-577 | one byte into the line buffer, and the line it completes |
| Stream.StreamState.PushLiteral | src/serve.rs:579-587 | a run of text bytes into the buffer; the first line completed is handed out |
| Stream.MagicPushes | src/serve.rs:532-541 | pushing the two magic bytes completes at most one line, so handing out only the first loses nothing |
| Stream.StreamState.AcceptUnframed | src/serve.rs:558-567 | an M is held back, any other byte is text |
| Stream.MagicOutcome | src/serve.rs:515-550 | the tokens behind a magic: a frame, a damaged frame, or two bytes of text with the opcode looked at again |
| Stream.StepTokens | src/serve.rs:501-556 | a step takes up the next tokens of what is pending, a waiting M stays waiting, and input is used up; a step that finds the link closed finds no token left |
| Stream.StepApplies | src/serve.rs:501-556 | a step does to files, line, wire and what is heard exactly what its tokens say |
| Stream.StepKeepsOutcome | src/serve.rs:501-556 | a step changes nothing in what the whole input comes to |
| Stream.StreamState.AfterPendingM | src/serve.rs:514-553 | the byte behind a held M: the specified step, with its response written once all of the request is read |
| Stream.StreamState.Pump | src/serve.rs:501-556 | one step with lookbehind and deferred byte is the specified one, so it changes nothing in what the whole input comes to, uses input up, writes at most one response and only for a frame, and hands out every line it completes |
| Stream.ServeLoop | src/serve.rs:731-748 | for every input and interleaving of timeouts: when the link closes, all responses, files, lines and frames are exactly those of the left-to-right tokeniser; each frame has one response, in order, from the files the frames before it have left, which `NodeSide.ResponsesRead` reads back; every byte of text is in a line handed out, in what a frame drops or in the buffer |
| Stream.TokensWellShaped | src/serve.rs:451-486 | the tokeniser yields frames with known opcodes and all their arguments only, so none is ignored |
| Stream.PlayAnswers | src/serve.rs:517-524 | playing any tokens writes exactly one response for each frame among them, in order |
| Stream.AnsweredOneByOne | src/serve.rs:488-496 | as many responses as frames, each with the magic and the opcode of its own frame; `NodeSide.ResponsesRead` says the rest of their bytes |
| Stream.TextThenFrame | src/serve.rs:532-541 | text without a frame start is text byte for byte, and a request right behind it is one frame, also when the text ends in part of the magic |
| Stream.TimeoutHarmless | src/serve.rs:501-512 | a timeout in text changes no token, not even between M and S |
| Stream.TextIsConserved | src/serve.rs:569-587 | over any tokens, the lines cut off, what frames drop and what is left in the buffer are the text, complete and in order; what is handed out are these lines trimmed, between the frames |
| Stream.Utf8LenAdds | src/serve.rs:569-577 | bytes add up in the line buffer; with `Utf8LenOfOne`, an ASCII character takes one byte of its 512 and any other byte received two |
| Stream.PiecesAreFair | src/serve.rs:517-530 | a line is cut at its line end or where the 512-byte buffer overflows, never earlier; a frame drops unfinished text only |
| Stream.PlayTexts | src/serve.rs:579-587 | playing a stretch of text is pushing its bytes |
| Stream.TrimTakesLineEnds | src/serve.rs:574-576 | trimming takes away trailing CR and LF only, and all of them |
| Checksum.ChecksumIsParity | src/serve.rs:440-442 | bit k of the checksum is the parity of the number of bytes, the seed included, that have bit k set |
| Checksum.RightExactly | src/serve.rs:478-485 | a checksum is right if and only if every bit is set in an even number of bytes from the opcode to the checksum itself |
| Checksum.ValidExactly | src/serve.rs:451-486 | a request of the right length is valid if and only if its bytes are even in that sense |
| Checksum.RequestIsEven | src/serve.rs:478-485 | a request as a node sends it begins with `MS` and is even behind it |
| Checksum.OneByteDamages | src/serve.rs:440-442 | changing any one byte of an even sequence to any other value makes it uneven |
| Checksum.DamageIsNoticed | src/serve.rs:451-486 | changing any one byte of a valid request, whose length still suits its opcode, makes it malformed |
| Checksum.OversizedWrite | src/serve.rs:466-470 | a WRITE that announces more than 512 bytes is malformed, and its data is left on the link |
| Checksum.CutShort | src/serve.rs:429-486 | a request cut short by a timeout at any byte is malformed, and reading goes on behind the timeout |
| NodeSide.ReadsResponse | src/serve.rs:488-496 | a reader that checks the magic `ms` and evenness and splits off opcode, status and payload gets back the opcode and the reply from every response frame |
| NodeSide.ResponsesRead | src/serve.rs:488-524 | every response that answers frames in order is read by it as the opcode of its frame and the reply to it, from the files the frames before have left |
| NodeSide.DecodesBack | src/serve.rs:240-287 | for each storage request, the arguments in the literal layout a node sends them - capture, then total or offset in four bytes, length in two, data - are well formed and are taken for that request |
| NodeSide.FolderRequestsFormed | src/format.rs:113-145 | so are those of COUNT, DESCRIBE, READ and DEFLATE_BLOCK |
| NodeSide.WireTokens | src/serve.rs:451-527 | the bytes of any sequence of well-formed requests are taken for exactly these frames |
| NodeSide.StoresOnWire | src/serve.rs:240-287 | a run of storage requests in bytes does to the directory what the run of the store does, and the response to each, as bytes, is read as the store's reply |
| NodeSide.CaptureOnWire | src/serve.rs:240-317 | `CaptureCompletes` in bytes: BEGIN, covering slices in any order among repeats and other requests, FIN; the container is published, and the last response is read as success |
| NodeSide.FetchOnWire | src/serve.rs:181-190 | the payloads read out of the responses to READ requests over consecutive stretches join to what `FetchJoins` speaks of |
| NodeSide.NodeFetchesOnWire | src/serve.rs:173-197 | in bytes: a DESCRIBE request brings the description, and READ requests of any lengths over the payload it names bring exactly the payload of the container |
| PumpRun.RunTokens | src/serve.rs:501-556 | a run of steps takes up the tokens of the input, in order |
| PumpRun.RunApplies | src/serve.rs:501-556 | and does exactly what they say |
| PumpRun.StepLocal | src/serve.rs:501-556 | what the link brings after the part a step reads makes no difference to it |
| PumpRun.RunLocal | src/serve.rs:501-556 | the same for a run of steps |
| PumpRun.NoFrameSeen | src/serve.rs:542-545 | no step has met a frame exactly when all that has been read is text |
| PumpRun.WaitsExactly | src/serve.rs:558-567 | an M on the wire waits for its next byte exactly when the host holds one back or has put one aside |
| PumpRun.PutAside | src/serve.rs:537-551 | a byte is put aside only when a line has just overflowed the 512-byte buffer |
| PumpRun.WaitingMOpensFrame | src/serve.rs:511-527 | while an M waits, the rest of a request that began with it completes the frame |
| Attach.AttachSerialFolder | src/serve.rs:631-694 | outcome, lines, files, all that is written and how much is unread at each write are those of the one run on this input, clock and stop flag; at most `max(1, max_attempts)` commands; each follows text only, and never falls between an M and its next byte unless the line buffer has overflowed there; success rests on an accepted line among what the read tokens come to, rejection on an error line, each the first such line, where `AcceptedExactly`, `RejectedExactly` and `ReplyDecides` say which lines those are; interruption and timeout name their round |
| Attach.Handshake | src/serve.rs:643-694 | the loop makes that run |
| Attach.RunIsDetermined | src/serve.rs:655-694 | input, policy, clock and stop flag leave only one run and one outcome |
| Attach.CommandsAreSpaced | src/serve.rs:685-692 | over every run, two commands are at least `retry_after` apart |
| Attach.RetriesBounded | src/serve.rs:685-692 | over every run, at most `max(1, max_attempts)` commands |
| Attach.RetryIsSafe | src/serve.rs:685-692 | whatever has come in when a retry goes out is text, and the retry falls between an M and its next byte if and only if the step before has overflowed the line buffer and put an M aside |
| Attach.CommandsAreSafe | src/serve.rs:643-692 | the same for every command written, first one and retries |
| Attach.ShortLinesAreSafe | src/serve.rs:569-577 | as long as the lines handed out fit the buffer, no command falls between an M and its next byte |
| Attach.CommandInsideFrame | src/serve.rs:685-692 | an input, a clock and a policy for which a command is sent inside the frame of a COUNT request |
| Attach.OutcomeIsSettled | src/serve.rs:661-683 | the outcome rests on the first decisive line that the tokens read come to, or there was none; a closed link has had all its tokens played; `AcceptedExactly` and `RejectedExactly` say which lines decide |
| Attach.AcceptedExactly | src/serve.rs:713-727 | a line is accepted if and only if it is white space, at most one `-> `, `OK folder attached` or `OK folder refreshed`, and then nothing or a tail that begins with a space or a colon |
| Attach.RejectedExactly | src/serve.rs:679-681 | a line is a rejection if and only if it is the same with `ERR` for the text |
| Attach.ReplyDecides | src/serve.rs:655-683 | an input that begins with such a reply, any carriage returns and a line feed: with time left, every run ends on that line, attached for the first two texts, rejected with the reply for `ERR` |
| Attach.RoundTaken | src/serve.rs:655-692 | a round that goes on, with a retry exactly when the guard passes, keeps the handshake under way |
| Attach.ResponseIsNoCommand | src/serve.rs:488-496 | a response frame is never the attach command |
| Crc.Crc32WithZeroed | src/bootloader.rs:925-935 | the loops compute the checksum of the bytes with the given range read as zero |
| Crc.StepLinear | src/bootloader.rs:930-932 | one bit step is linear over exclusive or |
| Crc.StepInjective | src/bootloader.rs:930-932 | one bit step loses nothing: it is one-to-one on 32-bit states |
| Crc.Bits8Lowers | src/bootloader.rs:930-932 | eight steps bring a value raised by one byte down again |
| Crc.FourBytes | src/bootloader.rs:927-933 | four bytes in a row act as one word mixed into the register |
| Crc.MixedInjective | src/bootloader.rs:927-933 | different groups of four bytes mix differently |
| Crc.RunInjective | src/bootloader.rs:927-933 | the same bytes take different registers to different registers |
| Crc.BurstDetected | src/bootloader.rs:925-935 | strings that differ only within four consecutive positions have the same checksum if and only if they agree outside the zeroed field |
| Crc.RegisterIsTableDriven | src/bootloader.rs:927-933 | the bit loop is the table-driven register of section 8 of RFC 1952 |
| Crc.ChecksumIsRfc1952 | src/bootloader.rs:925-935 | the checksum is the CRC of section 8 of RFC 1952 |
| HexRegion.Stamp | src/bootloader.rs:813-831 | copies exactly the part of a record inside the region, or reports a place already holding another byte |
| HexRegion.LandsAt | src/bootloader.rs:808-834 | a data record lands at its offset behind 65536 times the last linear or 16 times the last segment address, whichever came last, and behind 0 before any |
| HexRegion.ExtractRegion | src/bootloader.rs:794-850 | on success the region is what the records assign and 0xFF elsewhere; each error is given only for its reason; a conflict means two records disagree on that address; the address of a record cannot overflow |
| HexRegion.ConflictExactly | src/bootloader.rs:822-831 | for clean files, with or without an end-of-file record, a conflict is reported exactly when two records disagree inside the region |
| HexRegion.OrderIrrelevant | src/bootloader.rs:794-850 | for clean files with the same placements in any order, acceptance and result agree, and so does the report of a conflict |

## Left out

- Search: not claimed to return the longest match, because the source disclaims it and it does not hold.
- EncodeInPlace: requires two segments of memory, where the source's subtraction would underflow; the caller always supplies them.
- SHA-256, Ed25519, lossy UTF-8 decoding and the contract on bootloader images are abstract functions of `Library`.
- Byte-for-byte identity with the output of other detools encoders is not claimed; the source disclaims it.
- Machine widths of lengths and positions (`usize`, `i64`) are unbounded here, because slice lengths keep them in range; 32-bit fields, the 64-bit sums of the planner and 8-bit wrap-around are modelled.
- `sort_by_key` is modelled by a stable insertion sort on sequences; growing vectors are sequences, fixed buffers that the source fills in place are arrays.
- File-system and link write errors are not modelled: captures are a map from names to contents, and every write to the link succeeds.
- The link is a finite sequence of read events that ends closed; stop flags and clock readings are arbitrary functions of the round; the settling pause and threads are not modelled.
- Folder scanning, opening of serial and TCP links, the detach command and directory watching are not modelled.
- DEFLATE blocks, their cache and `src/transport.rs` are outside the model; the handler returns whatever an arbitrary function says for them.
- Log lines, suggested file names, version strings, the command line, inspection output and board tables are not modelled.
- Error texts are not modelled; every error is a constructor of its own.
- Intel HEX text parsing is not modelled; records, malformed ones among them, are the input.
- Building and field-by-field checking of format-3 bootloader packages is not modelled; parsing keeps their flags and geometry and takes the image contract as a parameter.
