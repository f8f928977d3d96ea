# PURB header layout — a Dafny model

This project models the layout core of PURBs (Padded Uniform Random Blobs). A
PURB is an encrypted container whose every byte looks random. Its header holds
one *cornerstone* per cipher suite: the sender's ephemeral public key, in a
uniform encoding. The header also holds *entry points*, which wrap the payload
key for each recipient. The model covers five parts:

- **Region reservation allocator** (`Regions`). This is the list of reserved
  half-open byte intervals `[startPos, endPos)`, kept sorted by start through a
  stable insertion sort.
  - A *strict* reserve (`requireFree`) fails when the interval shares a byte
    with a recorded reservation. The allocator is then left unchanged.
  - A *tolerant* reserve is always recorded, even over reserved bytes.
  - `ScanFreeRegions` reports the maximal free intervals of `[0, total)` in
    ascending order.

  The concrete runs of the allocator's tests are restated in
  `ReservationScenarios`.
- **Allowed positions and test fixtures** (`Layout`). With `n` suites in use,
  suite `k` gets one candidate offset per level `i = 0 .. ceil(log2 n)`. Level
  `i` consists of `2^i` cornerstone-wide slots, placed right after level
  `i - 1`. Level 0 sits right after the 12-byte nonce. Suite `k` takes slot
  `k mod 2^i` of each level.
  - `CreateInfo` builds the suite map for up to ten suites.
  - `CreateDecoders` generates `n` recipients per suite, round by round.
- **Cornerstone recovery in the debug rendering** (`Recovery`). The rendering
  keeps every allowed position that starts inside the serialised buffer. It
  reads one cornerstone length from each of those positions, clipped to the
  buffer's end, and XORs the ranges together. Serialisation runs with
  verbosity switched off, and the flag is then restored.
- **Framing of the rendering** (`Boxing`). Without boundaries, the lines are
  joined with newlines. With boundaries:
  - every line is padded to the width of the longest line;
  - each padded line is framed by `"| "` and `" |"`;
  - the block is put between a rule of underscores and a rule of dashes.
- **Data model** (`Purbs`): suite info, key pairs, recipients, cornerstones,
  entry points, the header and the PURB itself. Group elements and scalars are
  opaque byte strings.

Some operations in the Go code call out to something else: a callback, map
iteration, key generation, or serialisation. The model turns that outside
input into a parameter or a result:
- the scan callback becomes the returned list of gaps;
- Go's map iteration order becomes the `order` parameter;
- freshly generated key pairs become the `keys` parameter;
- `ToBytes` becomes the `toBytes` parameter, which returns the bytes and the PURB as ToBytes leaves it.

Go panics are modelled as `None`. In `Boxing`, a `char` stands for one byte of
a Go string.

The allocator's implementation file is not part of this model. `Reserve` and
`ScanFreeRegions` are modelled on what range_reservation_test.go requires of
them:
- a strict reserve over reserved bytes fails and changes nothing (lines 67-71);
- one over free bytes succeeds (lines 73-77);
- a scan reports the free intervals of `[0, total)` in ascending order (lines
  54-65 and 79-93);
- a second scan reports the same (lines 45-46).

`Regions.Reserve` and `Regions.ScanFreeRegions` state this as the general
contract, and `ReservationScenarios` proves the test runs from it.

Regions are kept sorted by start, with equal starts allowed. A tolerant reserve
may record a region starting where another one starts. So may two strict
reserves of empty intervals, which share no byte with anything. What a strict
reserve does guarantee is `Regions.StrictAcceptedExclusive`. Over any run of
reserves, a region recorded by a successful strict reserve shares no byte with
the starting reservations, nor with any earlier accepted request.
`Regions.StrictReserveKeepsDisjoint` covers only the special case where all
recorded regions are pairwise disjoint. Tolerant reserves of overlapping
cornerstones break that condition.

`createInfo` in encode_test.go fills a field `KeyLen`. The `SuiteInfo` struct
in struct.go names that field `CornerstoneLength`. The model uses the struct's
name.

## Model

| member | source | states |
|---|---|---|
| Regions.OverlapsIffSharedByte | purbs/range_reservation_test.go:67-77 | the endpoint overlap test holds exactly when some byte lies in both intervals |
| Regions.InsertSorted | purbs/range_reservation_test.go:8-27 | inserting into a sorted list gives a sorted list holding exactly the old elements plus the new one |
| Regions.InsertSortedPosition | purbs/range_reservation_test.go:8-27 | the insertion is stable: the new region goes after every region with a start at most its own, and before every region with a larger start |
| Regions.InsertionSort | purbs/range_reservation_test.go:8-27 | the output is sorted by start and is a permutation (same multiset) of the input |
| Regions.SortedPermutationUnique | purbs/range_reservation_test.go:22-26 | when starts are distinct, a sorted permutation is unique, so the sorted output is determined element by element |
| Regions.Empty | purbs/range_reservation_test.go:31-43 | a new allocator covers no byte |
| Regions.OverlapsAnyIffCoveredByte | purbs/range_reservation_test.go:67-77 | the allocator's overlap check agrees with "some byte of the interval is already reserved" |
| Regions.Reserve | purbs/range_reservation_test.go:48-77 | success exactly when the reserve is tolerant or no byte of the interval is reserved; a failure leaves the allocator unchanged; a success adds exactly the new region, and the covered bytes become the old ones plus the interval |
| Regions.StrictReserveKeepsDisjoint | purbs/range_reservation_test.go:67-77 | when the recorded regions are pairwise disjoint, a successful strict reserve keeps them so |
| Regions.RunCovers | purbs/range_reservation_test.go:48-77 | after any run of reserves, a byte is reserved exactly when it was reserved at the start or lies in an accepted request |
| Regions.StrictAcceptedExclusive | purbs/range_reservation_test.go:67-77 | over any run of reserves, a region recorded by a successful strict reserve shares no byte with the starting reservations or with any earlier accepted request |
| Regions.InsertSortedKeepsDisjoint | purbs/range_reservation_test.go:73-77 | inserting a region that overlaps no stored region keeps the stored regions pairwise disjoint |
| Regions.ScanFromComplement | purbs/range_reservation_test.go:79-93 | from the cursor on, a byte is reported free exactly when no region covers it |
| Regions.ScanFreeRegions | purbs/range_reservation_test.go:54-65 | the gaps are non-empty, lie in [0, total), ascend and never touch, and a byte of [0, total) is in a gap exactly when it is not reserved |
| Regions.FreeRegionsUnique | purbs/range_reservation_test.go:45-46 | the free bytes determine the gap list, so any two scans of the same allocator report the same gaps |
| Regions.FreeRegionsMaximal | purbs/range_reservation_test.go:79-93 | no gap can be widened: the byte before it and the byte at its end are reserved, unless the gap touches 0 or total |
| ReservationScenarios.SortInputDistinct | purbs/range_reservation_test.go:9-10 | the twenty test values are pairwise different |
| ReservationScenarios.SortExamplePermutation | purbs/range_reservation_test.go:9-10 | the test's expected output is a permutation of its input |
| ReservationScenarios.InsertionSortExample | purbs/range_reservation_test.go:8-27 | any sorted permutation of the twenty test values, as InsertionSort returns, has exactly the expected starts in order |
| ReservationScenarios.ScanOfEmpty | purbs/range_reservation_test.go:31-46 | an empty allocator over 1000 bytes reports the single gap [0, 1000) |
| ReservationScenarios.FirstReserveAccepted | purbs/range_reservation_test.go:48-52 | reserving [10,100) strictly in the empty allocator succeeds and reserves exactly those bytes |
| ReservationScenarios.ScanOfOneBlock | purbs/range_reservation_test.go:54-65 | with exactly [10,100) reserved, the scan over 1000 bytes reports [0,10) and [100,1000) |
| ReservationScenarios.FirstReservation | purbs/range_reservation_test.go:48-65 | reserving [10,100) strictly succeeds, and the scan then reports [0,10) and [100,1000) |
| ReservationScenarios.OverlappingReserveRefused | purbs/range_reservation_test.go:67-71 | the strict reserve of [50,200) over [10,100) fails and changes nothing |
| ReservationScenarios.DisjointReserveAccepted | purbs/range_reservation_test.go:73-77 | the strict reserve of [150,200) succeeds, and the reserved bytes become [10,100) and [150,200) |
| ReservationScenarios.ScanOfTwoBlocks | purbs/range_reservation_test.go:79-93 | with [10,100) and [150,200) reserved, the scan reports [0,10), [100,150) and [200,1000) |
| ReservationScenarios.RangeReservationScenario | purbs/range_reservation_test.go:67-93 | the whole second half of the test: refused, unchanged, accepted, then three gaps |
| Layout.CeilLog2 | purbs/encode_test.go:77 | the level count is the least r with n <= 2^r |
| Layout.CeilLog2Least | purbs/encode_test.go:77 | every r with n <= 2^r is at least CeilLog2(n) |
| Layout.AllowedPositions | purbs/encode_test.go:78-83 | ceil(log2 n)+1 offsets. The first lies right after the nonce, each lies inside its own level, and each is at least one cornerstone past the previous one |
| Layout.LevelsBackToBack | purbs/encode_test.go:79-82 | level 0 starts right after the nonce, and each level starts where the previous one's 2^i cornerstones end |
| Layout.PositionInLevel | purbs/encode_test.go:79-83 | each offset lies wholly inside its level, never in the nonce, at slot k mod 2^i |
| Layout.PositionsIncreasing | purbs/encode_test.go:80-83 | a suite's offsets increase strictly with the level, by at least one cornerstone length |
| Layout.SameLevelAligned | purbs/encode_test.go:81 | two suites' cornerstones at one level either coincide or share no byte |
| Layout.LevelZeroShared | purbs/encode_test.go:79-81 | every suite's first candidate is the byte right after the nonce |
| Layout.LastLevelDistinct | purbs/encode_test.go:77-83 | at the last level, the n suites all have different offsets |
| Layout.SuitePositions | purbs/encode_test.go:78-83 | the Go loop that advances the floor level by level computes exactly AllowedPositions |
| Layout.SuiteNamesDistinct | purbs/encode_test.go:75 | different suffix indices give different suite names |
| Layout.SuiteNamesCount | purbs/encode_test.go:86-89 | the first k suites have k different names |
| Layout.SuiteNamesMembers | purbs/encode_test.go:86-89 | a name belongs to the first k suites' names exactly when it is one of their SuiteNames |
| Layout.InfoMapKeys | purbs/encode_test.go:86-89 | the map built for k suites has exactly their names as keys |
| Layout.InfoMapValues | purbs/encode_test.go:86-89 | each of those names maps to its suite's allowed positions and the cornerstone length |
| Layout.CreateInfo | purbs/encode_test.go:72-92 | it fails exactly when n exceeds the ten suffixes; otherwise the map has n entries, keyed by the n suite names, each with its own allowed positions and the cornerstone length |
| Layout.CreateDecoders | purbs/encode_test.go:94-111 | n recipients for every entry of si, each of a suite in si; recipient t belongs to suite order[t mod m] for the m suites, with key pair t, and carries its private key |
| Layout.RecipientsPerSuite | purbs/encode_test.go:101-109 | each suite of si has exactly n recipients, and no other suite has any |
| Recovery.BytesQuietly | purbs/utils.go:17-20 | the bytes are what ToBytes gives with verbosity off. The returned PURB is the one ToBytes leaves, with the caller's verbosity flag restored |
| Recovery.BytesIgnoreVerbosity | purbs/utils.go:17-20 | the bytes do not depend on the verbosity flag the PURB was in |
| Recovery.BytesQuietlyRestores | purbs/utils.go:17-20 | when ToBytes changes nothing but the flag, the PURB comes back exactly as it was |
| Recovery.UsedStarts | purbs/utils.go:34-39 | the kept positions are the allowed positions inside the buffer, each kept as many times as it is listed |
| Recovery.UsedStartsConcat | purbs/utils.go:34-39 | filtering a concatenation gives the filtered parts one after the other, so the allowed order is kept |
| Recovery.UsedStartsSingle | purbs/utils.go:36-38 | a single position is kept exactly when it lies inside the buffer |
| Recovery.UsedStartsIncreasing | purbs/utils.go:34-39 | filtering keeps ascending positions ascending |
| Recovery.ClippedRanges | purbs/utils.go:43-50 | one range per kept start, inside the buffer; each is a full cornerstone length unless cut at the buffer's end |
| Recovery.SuiteRanges | purbs/utils.go:34-50 | every range starts at an allowed position inside the buffer, and some range exists exactly when some allowed position lies inside the buffer |
| Recovery.XorAtRemove | purbs/utils.go:55-61 | taking one value out of the combination XORs it out of every byte |
| Recovery.XorAtPermutation | purbs/utils.go:55-61 | the combined value does not depend on the order of the ranges |
| Recovery.XorCombine | purbs/utils.go:53-61 | the result is as long as the first range, byte i is the XOR of byte i of every range, and a single range is returned as is |
| Recovery.RecomputeCornerstone | purbs/utils.go:34-63 | it fails exactly where the Go code panics; otherwise it reads the suite's ranges from the bytes and returns their XOR |
| Recovery.AscendingPositionsRecomputable | purbs/utils.go:53-61 | with ascending positions and one of them inside the buffer, no later range is longer than the first, so the XOR loop cannot overrun |
| Recovery.CreateInfoRecomputable | purbs/utils.go:34-61 | for the positions createInfo produces, the recomputation succeeds on every buffer longer than the nonce |
| Boxing.SplitJoin | purbs/utils.go:75 | lines joined with newlines split back into the same lines |
| Boxing.BoxPlain | purbs/utils.go:74-76 | without boundaries, the output cut at newlines gives the lines back |
| Boxing.MaxLen | purbs/utils.go:79-84 | no line is longer than max, and max is 0 or the length of some line |
| Boxing.PadLine | purbs/utils.go:86-88 | the framed line is width+4 long: a bar and a space, the line, spaces up to the width, a space and a bar |
| Boxing.BoxedTextIsJoin | purbs/utils.go:90-94 | the boxed text is its output lines joined with newlines |
| Boxing.BoxSplitsIntoBoxedLines | purbs/utils.go:78-94 | every line fits the longest one's width, and the boxed output splits into exactly the boxed lines |
| Boxing.BoxFramed | purbs/utils.go:78-94 | with boundaries, the output lines are: an empty line, max+4 underscores, each line framed to max, the last one followed by one extra space, max+4 dashes, and an empty line |
| Purbs.EncoderViewForgetsOnlyPrivateKey | purbs/struct.go:71-78 | two recipients look the same to the encoder exactly when they share suite and public key, whatever private keys they hold |
| Purbs.CornerstoneOf | purbs/struct.go:46-53 | a well-keyed header yields a suite's cornerstone exactly when it has one. The result is the stored cornerstone, and it carries that suite's name |
| Purbs.ReadBytes | purbs/struct.go:57-62 | the cached encoding is returned when there is one. Otherwise the freshly marshalled bytes are returned and cached. Nothing else changes |
| Purbs.ReadBytesStable | purbs/struct.go:61 | a second read returns the first read's bytes, whatever a new marshalling would give |
| Purbs.ReadCornerstoneBytes | purbs/struct.go:49-61 | reading through the header caches the encoding in the header's own cornerstone. Every other cornerstone and field stays as it was, and the header stays well keyed |
| Purbs.ReadCornerstoneBytesStable | purbs/struct.go:49-61 | a second read through the header returns the first read's bytes and header |

## Left out

- The allocator's Go implementation file is not part of this model, and neither is its overlap check. The model checks a new interval against every recorded region (`Allocator.OverlapsAny`). A check against only the neighbours at the insertion point would agree with it while the stored regions are pairwise disjoint and none is empty: the regions are then ordered by end as well as by start, so only the two neighbours can reach the new interval. It would not agree once an empty region is stored (strict reserves accept `[50,50)` inside `[0,100)`, and it then becomes the only neighbour of `[60,70)`), nor once tolerant reserves have stored nested regions.
- Regions.ScanFreeRegions: the callback is replaced by the returned list of gaps. Because the scan is a function of the allocator, it cannot modify the allocator, and repeated scans agree; `FreeRegionsUnique` states this for any list with the same free bytes.
- Layout.CreateInfo: `math.Log2`, `math.Ceil` and `math.Pow` on floats are replaced by integer `CeilLog2` and `Pow2`. These agree for the n ≤ 10 that do not fail. The base suite name (the curve25519 suite's `String()`) is a parameter.
- Layout.CreateDecoders: Go's map iteration order and `key.NewHidingKeyPair` are parameters. The suite capability value attached to each recipient is represented only by its name.
- The constants `AEAD_NONCE_LENGTH` (12) and `CORNERSTONE_LENGTH` (32) are defined in a file that is not part of this model. Their values are taken from the cipher parameters: a 12-byte AEAD nonce and a 32-byte curve25519 hidden point.
- Recovery.RecomputeCornerstone: the `fmt.Sprintf` text of the rendering (utils.go:22-32, 51, 56, 63, 66-72) is left out. Only the values it prints are modelled, and `Box` takes any lines.
- Boxing.BoxFramed: stated for lines that contain no newline and for at least one line, which holds for the rendering's own lines. A formatted value that contained a newline would add extra lines to the split output.
- Regions.InsertionSort: its contract states sortedness and permutation. Stability is stated on the single insertion step, `InsertSortedPosition`.
- Regions.InsertionSort: Go sorts the caller's slice in place (range_reservation_test.go:20-23 reads the slice afterwards). The model returns the sorted sequence as a new value, and its contract relates that value to the input.
- Purbs.ReadBytes: Go caches the encoding through the `*Cornerstone` pointer that the header's map also holds. The model returns the updated cornerstone. `ReadCornerstoneBytes` writes it back into the header, which is how every later reader sees it.
- `Header.Layout` (struct.go:50) and `Purb.stream` (struct.go:41) are not in the datatypes. The layout is the entry-point hash table, and entry-point placement is outside this core. The stream is a randomness source; where randomness is used, it comes in as a parameter (`keys`, `marshalled`).
- `SuiteInfo` holds its allowed positions and cornerstone length as `nat`. So the model cannot express a negative position or length, which would make Go's `bytes[startPos:endPos]` (utils.go:49) panic. createInfo never produces one.
- Recovery.BytesQuietly: `ToBytes` is a method whose body is not part of this model. It is a parameter that returns the bytes and the PURB as ToBytes leaves it. The model promises only that the verbosity flag is restored. An unchanged PURB is promised (`BytesQuietlyRestores`) only when ToBytes changes nothing else.
- Boxing.Box: a Dafny `char` stands for one byte of a Go string. Go measures and pads lines by their byte length (utils.go:81, 87), so a line holding multi-byte UTF-8 is padded by bytes, not by the characters it shows. The model states widths in that same byte count and does not model UTF-8 decoding.
- Go `int` width is not modelled. Offsets, lengths and counts are unbounded integers; the values involved are small.
- `KDF` (PBKDF2-SHA256), `Monitor`, `getCPUTime` and `iiToF` (utils.go:97-141) are left out: they use cryptography, the process clock and floating point.
- The stream-cipher test (utils_test.go) and the PGP simulation (simulation/pgp_test.go) are left out; they exercise code outside this core.
- Entry-point placement, key wrapping, padding and assembly are outside this core. Only their data types in struct.go are modelled.
