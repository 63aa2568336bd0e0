# The LZO codecs, verified

A Dafny model of the LZO real-time compression library under `app/lzo`: the LZO1X, LZO1Y and LZO1Z
formats with their compressors and decompressors, and around them the overlapping use of buffers, the
lzopack file format, Adler-32 and CRC-32, and the LZO1, LZO1A and LZO2A codecs. `dafny verify dfyconfig.toml`
checks everything.

## How it is built

**The format** (`Format`, `Fields`, `Grammar`, `Language`). A compressed stream is a list of tokens: an
initial literal run, a run of four or more literals, and matches in six forms that carry up to three
literals. `Legal` says which token may follow which, `Apply` what it does to the window, `Enc` which bytes
it is. `Decoder` is the safe decoder as a function, one step per token, with every overrun test in the order
of the C code. The two meet in `Language.AcceptsExactlyStreams`: the decoder answers `LZO_E_OK` exactly on
the encodings of legal token lists that fit the output. `Truncation` and `Capacity` say what the other
lengths of input and output give, `Locality` what the result depends on, and `Repeat` where the dictionary
build of LZO1Z goes its own way: at an offset repeated before there is one it only asserts `m_off > 0`, and
asserts are compiled out unless LZO_DEBUG is set (lzo_conf.h:208-219), so that it copies its output buffer
onto itself.

**The decompressors** (`Copying`, `Decompress`, `Dictionary`, `Assertions`). One set of methods on arrays
stands for every build: LZO1X, LZO1Y or LZO1Z; with or without overrun tests; with or without a preset
dictionary; bytewise, 4- and 8-byte copies. `src` and `dst` may be the same array. Any input at all stays
within the arrays in the safe build; the result is the decoder's whenever the arrays are distinct or no step
overwrites input still to be read (`ClearRun`). The build without tests needs only that the decoder
succeeds, so that it refines the safe one.

**The encoders** (`Expansion`, `Emission`, `Greedy`, `Words`, `Compress`, `Lzo999`). Both encoders keep one
invariant, `Emitted`: the tokens so far begin with literals, are legal, mean the input so far, and are lean,
that is, on every suffix sixteen times the bytes written are at most seventeen times the bytes covered, up
to a constant. `Theorems` turns it into the round trip, the bound on the size, and the fact that a stream at
the top of a slightly larger buffer can be decoded in place. LZO1X-1 and LZO1Y-1 are modelled with their
hash table and block loop; the compressed form is a function of the input, and `Compress.CompressAll` writes
exactly it, also onto the buffer it reads. `Coverage` says what that form must contain, in terms of the
bytes alone: no block of 32 bytes or more is left out, and what repeats where the search looks becomes a
match. The 999 compressors run over any match finder whose offers satisfy `assert_match`, for every setting
of the lazy evaluation, in LZO1Z with `last_m_off` in step with the decoder's; a shortened match may leave
something owing, which the later match for which it was shortened always covers, so that the bound on the
size holds for every setting. `Choices` says which bytes may be literals, in terms of the match finder's
offers. `Words` has the machine words of the match loop: loads in either byte order, their exclusive or, and
the ways to find the first differing byte.

**Around them.** `Overlap` is `do_file` of `examples/overlap.c`; `Container` and `Lzopack` are
`examples/lzopack.c`, with its blocks decoded in place, and `Unpacking` says what it makes of any file at
all; `Adler` is `lzo_adler32` and `Crc` `lzo_crc32`, table and all; `BitStream` and `Lzo2a` are LZO2A with
its reserved bit bytes; `Lzo1` holds LZO1 and LZO1A, whose compressor clears the length of a match it has
already written to fold a literal into it. `Writing` is what all the encoders do to their buffers, and
`Known` has the output for a few inputs, byte by byte.

Pointers are indices, unaligned loads are the bytes they load, and the width of `lzo_uint` is a parameter
`word` (two to the number of bits) wherever a counter could wrap around. The documentation promises n + n/16
+ 67 bytes for compressed data and for in-place decompression; n + n/16 + 5 and n + n/16 + 7 are proved. For
LZO1 and LZO1A it promises the same and for LZO2A n + n/8 + 131 (app/lzo/doc/LZO.FAQ:197-215); n + n/16 + 1
and n + n/8 + 4 are proved.

## Model

| member | source | states |
|---|---|---|
| `Format.CopyMatch` | app/lzo/minilzo/minilzo.c:6311-6316 | a match copy keeps the window and adds exactly its length |
| `Format.CopyRepeats` | app/lzo/minilzo/minilzo.c:6311-6316 | every copied byte is the one `off` before it, also where source and destination overlap |
| `Format.CopyUnique` | app/lzo/minilzo/minilzo.c:6269-6316 | no other bytes repeat at that distance, so any copy loop that achieves it is the bytewise one |
| `Fields.M2Back` | app/lzo/minilzo/minilzo.c:6092-6143 | the offset, length and literal count of a two-byte M2 match, as each variant packs them, are read back |
| `Fields.M2Inverse` | app/lzo/minilzo/minilzo.c:6092-6143 | every two bytes that a variant reads as M2 are the packing of what it reads |
| `Fields.M1Back` | app/lzo/minilzo/minilzo.c:6230-6260 | the same for the M1 forms, with the M2 offsets added behind a long literal run |
| `Fields.OffInverse` | app/lzo/minilzo/minilzo.c:6160-6184 | every pair of M3/M4 offset bytes is the packing of its 14-bit offset and literal count |
| `Grammar.ReadExtAt` | app/lzo/minilzo/minilzo.c:6001-6010 | an extended length that keeps the 511 margin is read as that length |
| `Grammar.ReadExtInverse` | app/lzo/minilzo/minilzo.c:6001-6010 | every extended length that is read without an overrun is the canonical encoding of its value and kept the margin |
| `Grammar.HeadAt` | app/lzo/minilzo/minilzo.c:6090-6260 | the bytes of each of the six match forms, in the state that allows it, are read as that form, length, offset and count |
| `Grammar.HeadInverse` | app/lzo/minilzo/minilzo.c:6090-6260 | whatever is read as a match is the encoding of a match that is legal in that state |
| `Grammar.EofAt` | app/lzo/minilzo/minilzo.c:6205-6229 | every form of the end marker is recognised as such and never as a match |
| `Grammar.EofInverse` | app/lzo/minilzo/minilzo.c:6205-6229 | only an M4 marker at distance 0x4000 ends the stream, so that no M4 match can be mistaken for it |
| `Decoder.ReadExt` | app/lzo/minilzo/minilzo.c:5861-5881 | a length that is read lies at least 256 below 2^w: the counter never wraps |
| `Decoder.ReadHead` | app/lzo/minilzo/minilzo.c:6090-6260 | marker, length and offset bytes are read inside the input; LZO1X and LZO1Y offsets are never zero |
| `Decoder.TakeLits` | app/lzo/minilzo/minilzo.c:6011-6059 | literals are taken only when they fit the output and three more input bytes follow them, and then the output grows by their number |
| `Decoder.Step` | app/lzo/minilzo/minilzo.c:5983-6337 | each step that goes on consumes input and stays inside it: the decoder terminates |
| `Language.StepAt` | app/lzo/minilzo/minilzo.c:5983-6337 | a legal token's bytes with three more behind them are one step with that token's effect |
| `Language.StepInverse` | app/lzo/minilzo/minilzo.c:5983-6337 | every step that goes on is a legal token's bytes and effect, but for the one copy that `Repeat.ZeroCopyExact` describes |
| `Language.StreamAccepted` | app/lzo/minilzo/minilzo.c:5983-6343 | legal tokens and an end marker on the last input bytes give LZO_E_OK and the tokens' meaning |
| `Language.AcceptsExactlyStreams` | app/lzo/minilzo/minilzo.c:5936-6361 | LZO_E_OK if and only if the input is a legal token stream that fits the output, and then the output is its meaning; only a run of LZO1Z's dictionary build that repeats an offset before there is one may return it for anything else |
| `Truncation.LengthExact` | app/lzo/minilzo/minilzo.c:6339-6348 | an accepted stream cut short anywhere is LZO_E_INPUT_OVERRUN, and with anything behind it LZO_E_INPUT_NOT_CONSUMED with the same output |
| `Capacity.CapacityExact` | app/lzo/minilzo/minilzo.c:6350-6354 | a decodable stream gives the same result in every buffer that holds it and LZO_E_OUTPUT_OVERRUN in every smaller one; what the buffer holds before the call matters only to a run that makes it output |
| `Locality.SameDecode` | app/lzo/minilzo/minilzo.c:5936-6361 | neither what lies below the input nor what the output buffer holds makes a difference to the ordinary build, to its result or to whether it can decode in place |
| `Copying.CopyLits` | app/lzo/minilzo/minilzo.c:6012-6059 | 8-, 4- and 1-byte literal copies put the same bytes, also when moving down inside one array, and nothing else |
| `Copying.CopyBack` | app/lzo/minilzo/minilzo.c:6269-6316 | the 8- and 4-byte match copies, used only at distances of a chunk or more, equal the bytewise overlapping copy |
| `Copying.CopyWide` | app/lzo/minilzo/minilzo.c:5012-5048 | the compressor's 16-byte literal copies write at most twelve bytes too many |
| `Decompress.CopyDict` | app/lzo/src/lzo1x_d3.c:53-78 | a match that begins in the dictionary and may run on into the output copies from both, or fails exactly when it reaches back before the dictionary |
| `Decompress.ReadExtension` | app/lzo/minilzo/minilzo.c:6001-6010 | the loop over zero bytes reads what the decoder reads, and every value of the counter is below 2^w |
| `Decompress.ReadMatch` | app/lzo/minilzo/minilzo.c:6090-6260 | the branches over the marker read the decoder's match, in every variant and build |
| `Decompress.TakeLiterals` | app/lzo/minilzo/minilzo.c:6011-6059 | on arrays, literals have the decoder's effect and change nothing else, in every variant and build |
| `Decompress.TakeTrail` | app/lzo/minilzo/minilzo.c:6318-6335 | the literal count is re-read behind the copy, from input that the copy has not reached |
| `Decompress.TakeCopy` | app/lzo/minilzo/minilzo.c:6262-6335 | a match copy and its trailing literals have the decoder's effect, also where the dictionary build copies the output buffer onto itself |
| `Decompress.TakeMatch` | app/lzo/minilzo/minilzo.c:6090-6335 | a match step has the decoder's effect; the safe build stays in bounds on any input |
| `Decompress.TakeRun` | app/lzo/minilzo/minilzo.c:5994-6059 | a literal-run step has the decoder's effect |
| `Decompress.TakeStep` | app/lzo/minilzo/minilzo.c:5983-6337 | one step on the arrays is one step of the decoder |
| `Decompress.DecompressAll` | app/lzo/minilzo/minilzo.c:5395-5820 | all builds and all variants, with or without dictionary, with separate arrays or one: nothing outside the output is written, and the result is the decoder's; the build without tests needs only that the decoder succeeds |
| `Dictionary.DroppedRun` | app/lzo/minilzo/minilzo.c:5961-5976 | a run ends the same way without the oldest bytes of its window, as long as 0xbfff are left |
| `Dictionary.TrimInvisible` | app/lzo/minilzo/minilzo.c:5961-5976 | cutting a dictionary to its last 0xbfff bytes changes neither status nor output, for any stream |
| `Dictionary.Kept` | app/lzo/minilzo/minilzo.c:6066-6074 | decoding only adds to the window it began with |
| `Dictionary.DecompressDict` | app/lzo/minilzo/minilzo.c:5936-6361 | in all three variants the dictionary build gives the result of the ordinary decoder over a window prefilled with the whole dictionary if and only if the input has neither of the two steps named under `SameButOverruns`; the second of them needs a buffer of less than 255 times the input |
| `Dictionary.DictRoundTrip` | app/lzo/src/lzo1x_9x.c:521-556 | what was compressed with a dictionary decodes with it, however long the dictionary |
| `Dictionary.SameButOverruns` | app/lzo/src/lzo1x_d3.c:53-78 | over one window the dictionary build and the ordinary one give the same if and only if no step copies the output buffer onto itself and none finds a match that both reaches too far back and does not fit; in that second case they stop at one place with one output and report the two different overruns |
| `Dictionary.TearsReached` | app/lzo/src/lzo1x_d3.c:53-78 | seven bytes for which the ordinary build reports LZO_E_LOOKBEHIND_OVERRUN and the dictionary build LZO_E_OUTPUT_OVERRUN |
| `Dictionary.RoomyNeverTears` | app/lzo/src/lzo1x_d3.c:53-78 | with 255 bytes of output to every byte of input left the two cannot differ in the overrun they report |
| `Dictionary.RoundTrip999` | app/lzo/src/lzo1x_9x.c:795-856 | compressing with a dictionary at any level and decompressing with it gives the input back, for LZO1X, LZO1Y and LZO1Z, every match finder and every dictionary |
| `Repeat.ZeroOffset` | app/lzo/minilzo/minilzo.c:6106-6118 | a match at distance zero is read exactly for LZO1Z's repeat form before the first match |
| `Repeat.ZeroCopyExact` | app/lzo/src/lzo1x_d3.c:70-78 | the output buffer is copied onto itself exactly when such a match passes the test on the output in the dictionary build |
| `Repeat.LastOffset` | app/lzo/minilzo/minilzo.c:6168-6173 | once a match has been decoded the offset to repeat is never zero again |
| `Repeat.SkipsExactly` | app/lzo/src/lzo1x_d3.c:70-78 | some step of a call does so if and only if the input begins with literals and a repeat form follows them, which can be told from the bytes before the call |
| `Repeat.ZeroOffsetReached` | app/lzo/src/lzo1x_d3.c:70-78 | six bytes for which LZO1Z's dictionary build returns LZO_E_OK with three bytes of output that nobody wrote, and the ordinary build an overrun |
| `Assertions.AbortsExactly` | app/lzo/src/lzo1x_d3.c:70-71 | one of COPY_DICT's assertions fails if and only if the input begins with a match, or repeats an offset before there is one |
| `Assertions.EncodedNeverAborts` | app/lzo/src/lzo1x_d3.c:70-71 | none fails on any encoder's stream |
| `Assertions.MatchFirstReached` | app/lzo/src/lzo1x_d3.c:70-78 | six bytes that begin with a match into the dictionary: `op > out` fails, and without assertions they are decoded as they stand |
| `Expansion.PatchBytes` | app/lzo/minilzo/minilzo.c:5007-5014 | or-ing the literal count into the byte the decoder re-reads turns a match's bytes into those of the match with these literals, for every form and variant |
| `Expansion.LeanSnoc` | app/lzo/minilzo/minilzo.c:5000-5051 | a token that its predecessors' slack pays for keeps every suffix lean |
| `Expansion.LeanPatch` | app/lzo/minilzo/minilzo.c:5007-5014 | folding one to three literals into the last match makes no suffix cost more |
| `Emission.EmitLits` | app/lzo/minilzo/minilzo.c:5000-5051 | literals before a match, folded in or as a run, keep the tokens legal and mean the next input bytes |
| `Emission.EmitStore` | app/lzo/minilzo/minilzo.c:5241-5265 | the same with the header that a whole short input gets |
| `Emission.PatchEnc` | app/lzo/minilzo/minilzo.c:5007-5014 | on the bytes, folding is one or-ed byte and the literals behind |
| `Emission.StoreEnc` | app/lzo/src/lzo1x_9x.c:266-306 | the three ways to announce literals are the encodings of the three token forms |
| `Emission.StoreLast` | app/lzo/src/lzo1x_9x.c:266-306 | storing literals never changes the offset that LZO1Z may repeat |
| `Emission.OffTruncated` | app/lzo/minilzo/minilzo.c:5177-5178 | the casts to a byte keep exactly the 14 offset bits that the format carries |
| `Theorems.RoundTrip` | app/lzo/minilzo/minilzo.c:5936-6361 | every finished encoder's stream decodes to LZO_E_OK and its input, in any buffer that holds it |
| `Theorems.SizeBound` | app/lzo/examples/lzopack.c:212 | a lean encoder's stream has at most n + n/16 + 5 bytes |
| `Theorems.GapAfter` | app/lzo/examples/overlap.c:194-232 | between any two tokens the output is at least two bytes below the input, by the bound on the suffix that is left |
| `Theorems.ClearFrom` | app/lzo/examples/overlap.c:194-232 | from every token on, no write reaches a byte still to be read, the re-read literal count included |
| `Theorems.InPlaceClear` | app/lzo/examples/overlap.c:194-232 | so the whole stream at the top of a large enough buffer decodes without overwriting itself |
| `Greedy.LE32Injective` | app/lzo/minilzo/minilzo.c:4991-4997 | equal 32-bit loads are four equal bytes |
| `Greedy.Search` | app/lzo/minilzo/minilzo.c:4986-4999 | a match that is found lies in the block, before the current position, agrees in four bytes, and leaves the table within the block |
| `Greedy.MatchLen` | app/lzo/minilzo/minilzo.c:5052-5149 | the match ends at the first difference or where the block's end is seen, at most 12 bytes past the 20-byte margin, and all its bytes agree |
| `Greedy.MatchLenEnds` | app/lzo/minilzo/minilzo.c:5118-5147 | and it ends nowhere else: at a difference, or after a whole number of eights where the block's end is seen |
| `Greedy.MatchLenSkip` | app/lzo/minilzo/minilzo.c:5052-5106 | comparing eight bytes at once, stopping at the first that differs, gives the bytewise length |
| `Greedy.MatchGain` | app/lzo/minilzo/minilzo.c:5152-5203 | every match of four or more bytes saves at least a byte, which pays for the run before it |
| `Greedy.EmitGroup` | app/lzo/minilzo/minilzo.c:5000-5203 | literals and their match keep the tokens legal, meaningful and lean |
| `Greedy.NextGood` | app/lzo/minilzo/minilzo.c:4986-5204 | one round of the block loop keeps what holds at its top |
| `Greedy.BlockGood` | app/lzo/minilzo/minilzo.c:4924-5207 | so does a block, with the literals left over from the blocks before it |
| `Greedy.BlocksGood` | app/lzo/minilzo/minilzo.c:5211-5240 | and the loop over blocks of 49152 bytes |
| `Greedy.TokensGood` | app/lzo/minilzo/minilzo.c:5211-5275 | for every input the tokens chosen are legal, mean the input, and are lean; literal counts go only into a match of the same stream |
| `Greedy.CompressedEncodes` | app/lzo/minilzo/minilzo.c:5211-5275 | the compressed form is a finished encoder's stream for the input |
| `Coverage.StopsExactly` | app/lzo/minilzo/minilzo.c:5220-5231 | unless an address wraps around, a block is left out exactly when it and the literals before it have less than 32 bytes |
| `Coverage.RepeatedByte` | app/lzo/minilzo/minilzo.c:5211-5275 | one byte n times over, for any n, compresses to at most n/100 + 60 bytes unless an address wraps around |
| `Coverage.RepeatsFound` | app/lzo/minilzo/minilzo.c:4986-4999 | of every input: at a place that the search of a block looks at, no literal is left when since its beginning or the last match it has looked at the same four bytes, with none of the same hash in between |
| `Coverage.NeighboursFound` | app/lzo/minilzo/minilzo.c:4986-4999 | so within 32 bytes behind a match four bytes that repeat those one byte before are never left out |
| `Coverage.MatchesLookedAt` | app/lzo/minilzo/minilzo.c:4981-4986 | and a match begins only where the search looks: by single steps, and by one byte more for every 32 since the last match or the beginning of the block |
| `Known.ZerosByLzo1x1` | app/lzo/minilzo/minilzo.c:5211-5275 | the 34 bytes for a hundred zero bytes |
| `Known.Hashes` | app/lzo/minilzo/minilzo.c:4991-4993 | two values of the hash |
| `Known.ShortMatches` | app/lzo/minilzo/minilzo.c:5152-5203 | the bytes of matches at the limits of the two-byte forms, in the three variants |
| `Known.LongMatches` | app/lzo/minilzo/minilzo.c:5160-5203 | and of the longer forms |
| `Known.Headers` | app/lzo/minilzo/minilzo.c:5243-5275 | the headers of literals at the limits of their forms, and the end marker |
| `Writing.PutExt` | app/lzo/minilzo/minilzo.c:5028-5038 | a length extension is written, and nothing else changes |
| `Compress.PutMatch` | app/lzo/minilzo/minilzo.c:5150-5203 | a match is written in the form for its length and distance |
| `Compress.FindMatch` | app/lzo/minilzo/minilzo.c:4986-4999 | the loop over the hash table finds what the search finds and leaves its table |
| `Words.XorSplit` | app/lzo/minilzo/minilzo.c:5055-5106 | the exclusive or of two words is that of their bytes, place by place |
| `Words.LoadsDiffer` | app/lzo/minilzo/minilzo.c:5055-5063 | the exclusive or of two loads, in either byte order, is zero exactly when all their bytes are equal |
| `Words.TrailingFindsFirst` | app/lzo/minilzo/minilzo.c:5072-5073 | in a little-endian word the number of trailing zero bits over eight is the first differing byte |
| `Words.LeadingFindsFirst` | app/lzo/minilzo/minilzo.c:5065-5066 | in a big-endian word the number of leading zero bits over eight is |
| `Words.ShiftsDown` | app/lzo/minilzo/minilzo.c:5074-5078 | shifting down while the lowest byte is zero finds it too |
| `Words.ShiftsUp` | app/lzo/minilzo/minilzo.c:5067-5071 | and so does shifting up, in a word of the same width, while the highest byte is zero |
| `Words.FirstDifferent` | app/lzo/minilzo/minilzo.c:5065-5083 | all five ways to look into a word give the first differing byte |
| `Compress.EqualBytes` | app/lzo/minilzo/minilzo.c:5118-5145 | byte by byte, the number of equal leading bytes of eight |
| `Compress.MatchLength8` | app/lzo/minilzo/minilzo.c:5054-5083 | comparing words of eight bytes, the next one loaded before the end is looked at, gives the bytewise match length |
| `Compress.MatchLength4` | app/lzo/minilzo/minilzo.c:5084-5117 | so does comparing words of four bytes, two to a round |
| `Compress.MatchLength` | app/lzo/minilzo/minilzo.c:5052-5149 | all builds of the match loop return the same length, reading only inside the block |
| `Compress.PutTrail` | app/lzo/minilzo/minilzo.c:5005-5015 | one to three literals: their count is or-ed into `op[-2]`, and at most four bytes are written |
| `Compress.PutRun` | app/lzo/minilzo/minilzo.c:5017-5048 | four or more literals with their header, overshooting by at most twelve bytes |
| `Compress.LitsFit` | app/lzo/minilzo/minilzo.c:5000-5051 | before and after the literals the output lies within a sixteenth of the input consumed |
| `Compress.PutLits` | app/lzo/minilzo/minilzo.c:5000-5051 | the literals before a match are written as the tokens say |
| `Compress.StillIntact` | app/lzo/examples/overlap.c:139-170 | with the input min(n, 0xbfff) + n/16 + 67 bytes above the output, all input within a match distance is still in place |
| `Compress.PutGroup` | app/lzo/minilzo/minilzo.c:5000-5203 | literals, match length and match, in this order, with every byte read still the input's |
| `Compress.CompressBlock` | app/lzo/minilzo/minilzo.c:4924-5207 | one block, on one array or two, gives the tokens of the block and what is pending behind it |
| `Compress.CompressBlocks` | app/lzo/minilzo/minilzo.c:5220-5240 | so does the loop over the blocks, which clears the table before each |
| `Compress.PutHeader` | app/lzo/minilzo/minilzo.c:5243-5263 | the last literals' number goes into a header of its own, into the last match, or into a run's header |
| `Compress.PutLast` | app/lzo/minilzo/minilzo.c:5241-5266 | the last literals and their header complete the encoding of the input |
| `Compress.CompressAll` | app/lzo/minilzo/minilzo.c:5211-5275 | for every input, in one array or two, exactly the compressed form is written, at most n + n/16 + 5 bytes, and no byte outside the documented buffer is touched; what that form must contain is said under `Coverage` |
| `Overlap.Lossless` | app/lzo/minilzo/minilzo.c:5211-5275 | every input of any length is what the safe decoder returns for its compressed form |
| `Overlap.CompressedSize` | app/lzo/examples/overlap.c:139-147 | the compressed form has at most n + n/16 + 5 bytes, well below the documented 67 |
| `Overlap.InPlace` | app/lzo/examples/overlap.c:194-232 | a buffer of n + n/16 + 7 bytes is enough to decode in place, with the result of decoding elsewhere |
| `Overlap.CompressInPlace` | app/lzo/examples/overlap.c:150-170 | compressing a buffer onto itself gives what separate buffers give |
| `Overlap.DecompressInPlace` | app/lzo/examples/overlap.c:194-232 | decompressing a buffer onto itself gives the input back whenever the overhead is at least n/16 + 7, and stays in bounds otherwise |
| `Overlap.DoFile` | app/lzo/examples/overlap.c:139-247 | no step of the example program can report a failure, unless a smaller overhead is asked for |
| `Lzo999.CodedLenExact` | app/lzo/src/lzo1x_9x.c:335-371 | len_of_coded_match is nonzero exactly on the matches code_match can code, never exceeds the match length, and is the number of bytes coded, but for LZO1Z's shorter repeat |
| `Lzo999.CodedGain` | app/lzo/src/lzo1x_9x.c:107-262 | no coded match costs more than it covers, by the exact count of its bytes, and those accepted behind four or more literals pay for the run's header |
| `Lzo999.CodedLegal` | app/lzo/src/lzo1x_9x.c:107-262 | the form code_match chooses is legal in the state the literals have left, and a repeated offset is the decoder's |
| `Lzo999.BetterMatchOK` | app/lzo/src/lzo1x_9x.c:452-510 | exchanging a match for a shorter one with a shorter code gives a match that may be coded too |
| `Lzo999.EmitGroup` | app/lzo/src/lzo1x_9x.c:743-754 | literals and any match that may be coded keep the stream legal and meaning the input |
| `Lzo999.BetterGain` | app/lzo/src/lzo1x_9x.c:452-510 | the exchange costs a long match at most two sixteenths of a byte of what it saves |
| `Lzo999.DeferGain` | app/lzo/src/lzo1x_9x.c:375-405 | a later match that min_gain prefers saves more than the one deferred, by enough to pay for what a shortened match of three bytes leaves owing |
| `Lzo999.StillCovers` | app/lzo/src/lzo1x_9x.c:706-740 | through any chain of deferrals the match at hand covers what is owed |
| `Lzo999.Shortened` | app/lzo/src/lzo1x_9x.c:714-738 | the first bytes of a match are a match, which may be coded exactly when its size is not zero |
| `Lzo999.LenOfCodedMatch` | app/lzo/src/lzo1x_9x.c:335-371 | the loop computes the size |
| `Lzo999.LazyMinGain` | app/lzo/src/lzo1x_9x.c:375-405 | min_gain computes how much longer a later match must be |
| `Lzo999.Exchange` | app/lzo/src/lzo1x_9x.c:452-510 | better_match exchanges exactly the matches it should |
| `Lzo999.Coder.FindMatch` | app/lzo/src/lzo_mchw.ch:147-222 | advances by what is accepted, and offers what the match finder finds there |
| `Lzo999.Coder.PutMatch` | app/lzo/src/lzo1x_9x.c:142-257 | each branch writes the chosen form's bytes |
| `Lzo999.Coder.CodeMatch` | app/lzo/src/lzo1x_9x.c:107-262 | the match is emitted; afterwards `last_m_off` is again the decoder's: the two stay in step over every token sequence |
| `Lzo999.Coder.StoreRun` | app/lzo/src/lzo1x_9x.c:266-306 | the literals are emitted in the form their number asks for, and counted |
| `Lzo999.Coder.CodeRun` | app/lzo/src/lzo1x_9x.c:309-329 | the literals before a match, and their number for the match forms that depend on it |
| `Lzo999.Coder.LookAhead` | app/lzo/src/lzo1x_9x.c:676-706 | the next position's match, reset or exchanged, is still a match |
| `Lzo999.Coder.Prefer` | app/lzo/src/lzo1x_9x.c:706-740 | the later match is preferred exactly when it has a code and is longer by the gain; then a shortened match is coded or the bytes are left as literals, and the input up to it is accounted for |
| `Lzo999.Coder.TryLazy` | app/lzo/src/lzo1x_9x.c:653-740 | the lazy loop stops at the first preferred match within its reach, never looking further than the match it may still have to code |
| `Lzo999.Coder.Accept` | app/lzo/src/lzo1x_9x.c:614-650 | what is accepted is a match that code_match can code and that pays for the literals before it; and every match but those that the conditions name is accepted |
| `Lzo999.Coder.Round` | app/lzo/src/lzo1x_9x.c:596-757 | every round emits or defers what the specification of a round says, and advances |
| `Lzo999.Coder.CompressInternal` | app/lzo/src/lzo1x_9x.c:521-787 | for every match finder and every lazy, length and flag setting the buffer of n + n/16 + 5 bytes is never overrun, what is written is the compressed form determined by these, encodes the input and is lean, and literal and match bytes add up to its length |
| `Lzo999.CompressLevel` | app/lzo/src/lzo1x_9x.c:795-845 | levels 1 to 9 write the compressed form of their settings into the caller's buffer, and no other level is accepted |
| `Choices.Thorough` | app/lzo/src/lzo1x_9x.c:596-757 | in every compressed form a byte is a literal only where the match finder offers nothing worth coding, told by its offer, the literals pending and whether anything was coded, or before a preferred match at least as long; and every match coded is one that is offered, or the beginning of one |
| `Choices.ThoroughLevels` | app/lzo/src/lzo1x_9x.c:614-757 | at levels 1 to 3 every offer worth coding is coded, in full, and every literal stands where the offer is too poor |
| `Known.TwiceBy999` | app/lzo/src/lzo1x_9x.c:521-787 | the 15 bytes for eight letters that are repeated behind a ninth |
| `Known.Levels` | app/lzo/src/lzo1x_9x.c:803-825 | what the nine levels pass on |
| `Adler.Compose` | app/lzo/src/lzo_util.c:110-139 | the checksum of a whole is that of its second part continued from its first |
| `Adler.Deferred` | app/lzo/src/lzo_util.c:120-137 | reducing once per block equals reducing after every byte |
| `Adler.SmallFits` | app/lzo/src/lzo_util.c:100-103 | NMAX bytes never overflow 32 bits, from any 32-bit start value |
| `Adler.NmaxIsLargest` | app/lzo/src/lzo_util.c:102-103 | one byte more can |
| `Adler.ClosedForm` | app/lzo/src/lzo_util.c:100-139 | the halves of the checksum are one more than the sum of the bytes, and their number with every byte taken as often as there are bytes from it on, modulo 65521 |
| `Adler.Block` | app/lzo/src/lzo_util.c:122-134 | the 16-fold unrolled loop and its tail add up the block |
| `Adler.Adler32` | app/lzo/src/lzo_util.c:110-139 | the function returns the checksum of section 8.2 of RFC 1950 for every buffer, and 1 for none |
| `Crc.Compose` | app/lzo/src/lzo_crc.c:114-144 | the CRC-32 of a whole is that of its second part continued from its first |
| `Crc.Residue` | app/lzo/src/lzo_crc.c:114-144 | for every start value and every buffer the CRC of the buffer and its own CRC behind it, lowest byte first, is 0x2144df1c |
| `Crc.CheckValue` | app/lzo/src/lzo_crc.c:114-144 | the CRC of "123456789" from 0 is 0xcbf43926 |
| `Crc.EightLinear` | app/lzo/src/lzo_crc.c:38-91 | eight steps of the bitwise definition are linear: the bits of a sum come to the sum of what the parts come to |
| `Crc.EntryIs` | app/lzo/src/lzo_crc.c:38-91 | each of the 256 table entries is what the eight bits of its index come to over the polynomial 0xedb88320 |
| `Crc.StepIs` | app/lzo/src/lzo_crc.c:101-107 | one look-up and a shift are eight steps of the definition |
| `Crc.Do16` | app/lzo/src/lzo_crc.c:108-111 | sixteen look-ups are sixteen bytes of the definition |
| `Crc.Crc32` | app/lzo/src/lzo_crc.c:114-144 | for every buffer and start value the function returns the CRC of section 8 of RFC 1952, and 0 for no buffer |
| `Container.BE32Back` | app/lzo/examples/lzopack.c:110-132 | a 32-bit number is read back as written |
| `Container.BE32Inverse` | app/lzo/examples/lzopack.c:110-132 | and every four bytes are a number's |
| `Unpacking.DecodedHere` | app/lzo/examples/lzopack.c:346-364 | what the decoder makes of a block at the top of the buffer does not depend on what else the buffer holds |
| `Unpacking.PackedBlock` | app/lzo/examples/lzopack.c:207-234 | the stored bytes of every block that was packed stand for it, decoded in place |
| `Unpacking.TornReached` | app/lzo/examples/lzopack.c:346-364 | a corrupt block of 600 bytes on which the decoder would overwrite input it has not read |
| `Unpacking.BlocksAt` | app/lzo/examples/lzopack.c:319-378 | blocks and an end marker are read as these blocks, with what follows left |
| `Unpacking.BlocksInverse` | app/lzo/examples/lzopack.c:319-378 | whatever is read up to an end marker is the bytes of blocks that stand for the data |
| `Unpacking.UnpacksExactly` | app/lzo/examples/lzopack.c:260-399 | 0 if and only if the file is a known header, blocks that decode in place to their sizes, the end marker and, when the flags announce it, the checksum; the data is then that of the blocks |
| `Unpacking.PackSpells` | app/lzo/examples/lzopack.c:260-399 | every packed file is such a file, with nothing behind it |
| `Lzopack.InFile.XRead` | app/lzo/examples/lzopack.c:64-79 | a read delivers what there is up to its length, and fails when that is short unless the end may come |
| `Lzopack.InFile.XRead32` | app/lzo/examples/lzopack.c:110-121 | a number is read, or the file is too short |
| `Lzopack.CompressOne` | app/lzo/examples/lzopack.c:207-218 | LZO1X-1, or at level 9 LZO1X-999 at its level 8, leaves its compressed form of the block within the buffer |
| `Lzopack.PackBlock` | app/lzo/examples/lzopack.c:207-234 | a block is stored as its compressor's output exactly when that is shorter, and as it is otherwise; the check of the size never fails |
| `Lzopack.DoCompress` | app/lzo/examples/lzopack.c:147-252 | for every file and block size the output is a packed file of that content, every block but the last is full, and each is stored compressed exactly when that is shorter |
| `Known.PackHeader` | app/lzo/examples/lzopack.c:157-176 | the 17 bytes of a header |
| `Lzopack.ReadHeader` | app/lzo/examples/lzopack.c:275-303 | the header is accepted exactly with the magic, method 1 and a block size from 1024 to 8 MiB, and what is returned is what is read; each of the codes 1, 2 and 3 and the end inside the header is told apart by an exact condition on the bytes |
| `Lzopack.DecodeBlock` | app/lzo/examples/lzopack.c:346-364 | decoding at the top of the buffer gives what the block stands for, or refuses it exactly when it stands for nothing, as long as the block is not torn |
| `Lzopack.ReadSizes` | app/lzo/examples/lzopack.c:326-344 | zero ends the file; sizes out of range are refused, and a short file fails, each exactly when the bytes say so |
| `Lzopack.UnpackBody` | app/lzo/examples/lzopack.c:346-378 | a block is read whole, decoded or taken as it is, written and added to the checksum; a short file and a block that does not decode to its size have codes of their own |
| `Lzopack.UnpackNext` | app/lzo/examples/lzopack.c:319-378 | one round takes one block or the end marker off the file, and what it writes is what the specification puts first; the checksum follows what is written |
| `Lzopack.UnpackBlocks` | app/lzo/examples/lzopack.c:319-378 | the loop writes the data of all blocks up to the end marker, or stops with the code and the data that the specification says |
| `Lzopack.DoDecompress` | app/lzo/examples/lzopack.c:260-399 | for any file the code, the data written and what is left of the file are those of `UnpackFile`, unless a block is torn, when only the data before it is known; and for any file at all 0 means that the checksum read is that of what was written |
| `Lzopack.PackThenUnpack` | app/lzo/examples/lzopack.c:147-399 | every file comes back from its packed form with 0, for every block size from 1024 to 8 MiB and every level |
| `BitStream.AgreeAlways` | app/lzo/src/lzo2a_9x.c:59-67 | whatever is put later, the bytes at the end agree with what has been put so far, in the reserved byte up to its bits |
| `BitStream.GetBack` | app/lzo/src/config2a.h:122-134 | bits and bytes are read back where they were put, and the reader fetches a bit byte exactly where the writer reserved it |
| `BitStream.ReadBack` | app/lzo/src/config2a.h:122-134 | over any sequence of bits and bytes every item is read back in its place |
| `BitStream.ReaderEnds` | app/lzo/src/lzo2a_9x.c:302-312 | reading begins at the first byte and ends behind the last |
| `BitStream.WrittenSize` | app/lzo/src/lzo2a_9x.c:59-67 | at any time the bytes hold the bits put so far and less than a byte more |
| `BitStream.BitSink.PutBits` | app/lzo/src/lzo2a_9x.c:61-65 | putbits and putbit add their bits to the stream, filling and reserving bytes of the buffer, which has room for them |
| `BitStream.BitSink.PutByte` | app/lzo/src/lzo2a_9x.c:59 | putbyte adds a whole byte behind a byte that may not be full yet |
| `BitStream.BitSink.FlushBits` | app/lzo/src/lzo2a_9x.c:302-312 | the flush fills the last reserved byte, and the asserts before it hold |
| `BitStream.BitSource.TakeBits` | app/lzo/src/config2a.h:122-134 | NEEDBITS, MASKBITS and DUMPBITS take the next bits, or fail at the end of the input |
| `Lzo2a.TokReads` | app/lzo/src/lzo2a_d.ch:63-138 | a token is read exactly from its own bits and bytes, whatever stands behind them: at the reader's place they are there, and its length keeps the margin, if and only if it is read |
| `Lzo2a.AcceptsExactly` | app/lzo/src/lzo2a_d.ch:41-160 | LZO_E_OK if and only if the input spells legal tokens and any form of the end marker whose meaning fits the buffer, and then the output is that meaning |
| `Lzo2a.EncodedSpells` | app/lzo/src/lzo2a_9x.c:282-331 | what the compressor leaves behind, the bits of its reserved bytes filled in later, is such an input |
| `Lzo2a.TakeItems` | app/lzo/src/lzo2a_d.ch:63-138 | the bits and bytes of one token are taken from the input as the reader reads them |
| `Lzo2a.TakeTok` | app/lzo/src/lzo2a_d.ch:63-138 | a token has its effect on the output, or is refused exactly when it reaches too far back or does not fit, with the code of the test that its kind makes first |
| `Lzo2a.DecompressSafe` | app/lzo/src/lzo2a_d.ch:41-160 | on any input the outcome and the output are the decoder's, and nothing else is written |
| `Lzo2a.Coder.PutItems` | app/lzo/src/lzo2a_9x.c:228-283 | each kind of token is written as its bits and bytes, of the stated number |
| `Lzo2a.WidthPaid` | app/lzo/src/lzo2a_9x.c:228-283 | no match costs more than nine bits for each byte it covers |
| `Lzo2a.Coder.Round` | app/lzo/src/lzo2a_9x.c:119-292 | one round, lazy or not, emits the literal or the match that the rule says, and advances |
| `Lzo2a.Compress` | app/lzo/src/lzo2a_9x.c:82-331 | for every match finder the output encodes tokens that mean the input, in at most n + n/8 + 4 bytes of the caller's buffer; and each is what the rule says: a literal exactly where no match can be used or a longer one by the margin comes next, else the match found, in full |
| `Lzo2a.CompressedUnique` | app/lzo/src/lzo2a_9x.c:119-292 | input and match finder determine every byte of the output |
| `Known.OneByLzo2a` | app/lzo/src/lzo2a_9x.c:82-331 | the four bytes for one |
| `Lzo2a.RoundTrip` | app/lzo/src/lzo2a_9x.c:82-331 | every input comes back |
| `Lzo1.ReadRun` | app/lzo/src/lzo1.c:209-237 | a run's marker gives back its length, the eight special codes included |
| `Lzo1.TakeMatch` | app/lzo/src/lzo1a.c:173-222 | short, long and multiplexed matches are copied with their literal |
| `Lzo1.Decompress` | app/lzo/src/lzo1.c:192-265 | both decompressors return what the tokens mean and consume the input |
| `Lzo1.Coder.StoreRun` | app/lzo/src/lzo1.c:272-316 | any run is cut into pieces, each the longest that has a code; all but a short last one cost at most a sixteenth |
| `Lzo1.Coder.Cost` | app/lzo/src/lzo1.c:272-519 | a match saves enough to pay for the header of a short run before it |
| `Lzo1.Coder.Probe` | app/lzo/src/lzo1.c:364-392 | whatever the dictionary holds, a match is found exactly when the first place is in range with three equal bytes, or is in range and the second is so |
| `Lzo1.Coder.MatchLength` | app/lzo/src/lzo1.c:416-509 | the match goes exactly to the first difference, its greatest length or the input's end, inside the input |
| `Lzo1.Coder.PutMatch` | app/lzo/src/lzo1.c:447-519 | a match is coded in two or three bytes by its length |
| `Lzo1.Coder.MuxMeans` | app/lzo/src/lzo1a.c:327-343 | in the state where the match stands, clearing its length makes it a match of three bytes with the literal |
| `Lzo1.Coder.Multiplex` | app/lzo/src/lzo1a.c:327-347 | the folded literal is part of a legal stream and costs no more than it covers |
| `Lzo1.Coder.PutLits` | app/lzo/src/lzo1a.c:320-385 | a single literal is folded into the last match exactly when that is one of three bytes behind a short run or a folded literal; any others become runs |
| `Lzo1.Coder.CompressBlock` | app/lzo/src/lzo1a.c:245-587 | for any dictionary contents the stream means the input and consists of the groups that the rules choose |
| `Lzo1.Compress` | app/lzo/src/lzo1.c:596-616 | for every input, those too short to search included, the output encodes tokens that mean it, in at most n + n/16 + 1 bytes of the caller's buffer; no literal stands at a searched place where the dictionary leads to a match, and every match is the first it leads to, in full |
| `Lzo1.CompressedUnique` | app/lzo/src/lzo1a.c:245-587 | input and dictionary determine every byte of the output |
| `Known.ZerosByLzo1` | app/lzo/src/lzo1.c:326-589 | the nine bytes for a hundred zero bytes |
| `Known.RunHeads` | app/lzo/src/lzo1.c:272-316 | the markers of runs and matches at the limits of their forms |
| `Lzo1.RoundTrip` | app/lzo/src/lzo1a.c:591-640 | every input comes back from LZO1 and from LZO1A, whatever the dictionary holds |

## Left out

- The search structures behind the 999 compressors and LZO2A (`lzo_swd.ch`) are any function from positions to matches that satisfy the code's own asserts; its node lists and the settings that only steer it (`good_length`, `nice_length`, `max_chain`) do not appear.
- The hash tables of LZO1 and LZO1A are any function from positions to two places, since the code checks every place it gets; how they are filled is not modelled. LZO1X-1's table is modelled exactly, in its deterministic build with offsets; the variants that keep pointers or skip the clearing are not.
- RBITS other than 5 in LZO1 and LZO1A; LZO1A's store_run is taken from lzo1.c, which cuts a run into the same pieces.
- LZO1B, LZO1C, LZO1F and the optimizer `lzo1x_oo.ch`.
- The hash tables' 16-bit entries are naturals; they stay below 49152, the block size, by `Greedy.DictOK`.
- Statistics, progress callbacks, version and configuration queries, the lzotest driver, option parsing and printing.
- Lzopack.DoDecompress: of a corrupt file with a block on which the decoder overwrites its own unread input (`Unpacking.TornReached`), only the data before that block, the checksum test and the bounds are stated, not what the decoder makes of the overwritten bytes.
- Files are byte sequences with a position; a failing write and memory allocation are not modelled, and a read that ends the program is the outcome `ReadError`. lzopack's test mode is decompression whose output is not looked at.
- The JNI glue, the Java classes and the scripts of the application.
