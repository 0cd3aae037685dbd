# Argon2, modelled and verified

This project models the Argon2 core in `argon2/src` and the two codecs for digest strings, `encoding.c`
and `phc.ts`, and proves what they are for: that every way of filling the memory gives the memory that
RFC 9106 describes, that the fast build computes what the reference build computes, that the streaming
hash is the hash, that what the printers write the parsers read back and nothing else, and that a
password hashed to a string verifies against it.

    dafny verify dfyconfig.toml

## Files

| file | what it models |
|---|---|
| `Blamka.dfy`, `Words.dfy` | `fill_block` in `ref.c` and in the 128-bit form of `opt.c`, over any word type; the 64-bit words and the SSE2 and SSSE3 instructions |
| `Instance.dfy`, `IndexAlpha.dfy` | instance, position, memory layout; `index_alpha` against section 3.4.2 of RFC 9106 |
| `Fill.dfy` | one step of the filling, as a function: section 3.2 of RFC 9106, block by block |
| `Segments.dfy`, `SegmentsOpt.dfy` | `fill_segment` of `ref.c` and of `opt.c`, both against `Fill.SegmentTo` |
| `Slices.dfy` | whole slices and passes; the memory of partly advanced lanes |
| `Threads.dfy`, `Joins.dfy`, `WriteOnce.dfy`, `Determined.dfy` | `fill_memory_blocks_mt` as a state machine; when threads are created and joined; what is written and read when; what the memory and the choice of blocks depend on |
| `Bytes.dfy`, `Blake2b.dfy` | little-endian words; `blake2b_update`, `blake2b_final`, `blake2b_long` |
| `Context.dfy`, `PreHash.dfy`, `Core.dfy` | `validate_inputs`, the layout, `initial_hash`, first blocks, sequential filling, `finalize`, `argon2_ctx` |
| `Base64.dfy`, `Decimal.dfy`, `Encoding.dfy` | `to_base64`, `from_base64`, `decode_decimal`, `encode_string`, `decode_string`, `argon2_encodedlen` |
| `Digest.dfy` | `argon2_hash`, `argon2_verify` |
| `Standards.dfy` | the definitions that code and specification share, against the letter of the standards and of the C code |
| `Phc.dfy` | `serialize`, `deserialize`, and that they agree with `encoding.c` |

## How to read it

* A memory is a sequence of different arrays of 128 words, changed in place by the methods; `View` is
  its value. The functions of `Fill.dfy` and `Slices.dfy` say what that value has to become; the lemmas
  about schedules, reads and choices are about these functions.
* The block function is a parameter `g` wherever only its reads and writes matter, and `KERNEL` (the
  Argon2 compression on 64-bit words) in the methods. The BLAKE2b block compression `f` is a parameter
  throughout.
* Unsigned C arithmetic is written out: `u32` values, and `U32`, `U64` or an explicit `%` where the
  C code could wrap. That it does not wrap is proved, not assumed.
* In the state machine of the threads a lane builds a block in three steps: it reads, it may leave
  anything in the block it is writing, and it stores the result. `ReadsStayPut` is why one step can
  stand for the reading of many words.

* What depends on the platform is a parameter: `max` is ULONG_MAX, and `signed` says whether char is signed.
  `Seen` is a string as the comparisons of `encoding.c` take it.

* Code and specification share small definitions: which words a column has, which byte comes first, which type is
  data-independent where, what the types are called. `Standards.dfy` states what each of them has to be, in numbers,
  positions and letters.

Six findings, each stated exactly, five of them with an input that shows it:

* `index_alpha` returns every block that RFC 9106 allows if and only if there are at most 2^31 of them
  (`AllowedExactlyReached`; `NotAllReached`).
* A buffer of `argon2_encodedlen` is large enough for `encode_string` if and only if the version has at most
  two digits; the version is not checked by `validate_inputs`. From 100 on, `argon2_hash` with such a buffer
  fails (`EncodedLen`, `HashThenVerify`; `VersionTooLong`).
* `argon2_verify` rejects every string of more than 2^32 - 1 characters, and `argon2_hash` can make one, from a
  salt of 2^32 - 1 bytes for instance. Such a string is accepted for no password, not even its own
  (`HashThenVerify`; `TooLongWitness`).
* When `argon2_hash` writes the raw tag to the buffer of the salt, it does so before it makes the string, which
  then has the overwritten salt (`HashPassword`). A password verifies against that string if and only if its tag
  for the overwritten salt is the tag in the string (`WrittenVerifies`).
* A string that `decode_string` accepts is the one `encode_string` writes, unless char is signed and the string
  has a code of 128 or above; such codes are read as the letter `/`, and `deserialize` rejects such a string
  (`AcceptedAsWritten`, `AcceptedByBoth`; `AcceptedOtherwise`, `AcceptedByOne`).
* `deserialize` gives back what was serialized, a Buffer among the parameters as its base64 text, if and only if
  the input is unambiguous (`Phc.Unambiguous`) and each of its values is one that comes back: among the
  parameters, safe integers other than -0, and strings and Buffers whose text is no safe decimal (`RoundTrip`).
  The string `"1234"` comes back as a number (`StringReadAsNumber`), and so do the bytes with this base64 text
  (`DataReadAsNumber`), which `verify` in `index.ts` then leaves out, because it looks for a string.
  `ReadExactly` says which strings are accepted at all.

## Model

| member | source | states |
|---|---|---|
| Blamka.PWordByWord | argon2/src/blake2/blamka-round-ref.h:43-54 | the permutation P, written as eight applications of GB in place, is the one of section 3.6 of RFC 9106, word by word: each column result feeds exactly one diagonal |
| Blamka.ColumnsPartition | argon2/src/ref.c:69-77 | every word of a block belongs to exactly one column and one slot in it |
| Blamka.RoundNoMsg | argon2/src/blake2/blamka-round-ref.h:43-54 | on sixteen different places of an array the macro computes P of the words there and leaves every other word |
| Blamka.FillBlockRef | argon2/src/ref.c:39-81 | the new block is the compression G of section 3.5 of RFC 9106, xored over the old content if asked, also when the arguments are the same object |
| Blamka.Diagonalize | argon2/src/blake2/blamka-round-opt.h:106-153 | both shuffles, SSSE3 and SSE2, put the words of the diagonals into columns |
| Blamka.Undiagonalize | argon2/src/blake2/blamka-round-opt.h:124-167 | both shuffles put them back |
| Blamka.Round | argon2/src/blake2/blamka-round-opt.h:169-180 | the packed round is P on the sixteen words, for any multiply-add and any rotation |
| Blamka.RoundAt | argon2/src/opt.c:129-139 | a round on eight registers of the state is P on their words, and no other word changes |
| Blamka.FillBlockOpt | argon2/src/opt.c:110-145 | the register form computes the same G of what the state, the reference and the next block held, leaves the state equal to the block written, and does so when reference and next block are one object |
| Words.FBlaMkaRegIsFBlaMka | argon2/src/blake2/blamka-round-opt.h:59-62 | the two-word multiply-add is fBlaMka on each word |
| Words.RotiIsRotr | argon2/src/blake2/blamka-round-opt.h:35-57 | every rotation by shuffle, shift or addition is the rotation |
| Instances.LayoutIsOneToOne | argon2/src/core.h:71-83 | lane and offset determine the block index and are determined by it, inside the memory |
| IndexAlphas.IndexAlphaPicksFromWindow | argon2/src/core.c:189-257 | at every reachable position and for every J1 the result is the block that section 3.4.2 of RFC 9106 picks from its window, which is not empty; nothing wraps |
| IndexAlphas.WindowIsAllowed | argon2/src/core.c:206-231 | the window is exactly the set described block by block: not the current block, not the previous one, nothing of the current segment of another lane, in the first pass only what is older |
| IndexAlphas.IndexAlphaAllowed | argon2/src/core.c:189-257 | the result is always in that set |
| IndexAlphas.AllowedExactlyReached | argon2/src/core.c:233-257 | every allowed block is the result for some J1 if and only if there are at most 2^31 of them |
| IndexAlphas.NotAllReached | argon2/src/core.c:233-257 | a position in one lane of 2^32 - 4 blocks and an allowed block that is the result for no J1 |
| Fill.ReferenceIsRead | argon2/src/ref.c:162-179 | the block referred to is one of those the position may read |
| Fill.StepReads | argon2/src/ref.c:121-193 | the new block depends on nothing but the blocks the position reads |
| Segments.NextAddresses | argon2/src/ref.c:83-88 | the address block for the next counter, and the counter in the input block |
| Segments.ReferenceBlock | argon2/src/ref.c:162-179 | lane and index of the reference block, with the current lane in the first slice |
| Segments.FillSegmentRef | argon2/src/ref.c:90-194 | the memory becomes the one that the steps of the segment make one after the other, for every type, version, pass and position; the pseudo-random value for index i is word i mod 128 of the address block with counter i/128 + 1 where addressing is data-independent |
| SegmentsOpt.FillSegmentOpt | argon2/src/opt.c:174-283 | with the previous block carried in registers, also round a lane start, the memory becomes the same |
| Slices.SegmentFrame | argon2/src/ref.c:121-193 | a segment changes no block but its own |
| Slices.LaneSeesItsOwn | argon2/src/core.c:206-231 | what a lane reads is the same whether the other lanes of the slice have advanced or not |
| Slices.MixedStep | argon2/src/core.c:292-360 | one more block of any lane turns the memory of a mixture of progress into that of the next mixture |
| Slices.SequentialIsMixed | argon2/src/core.c:260-277 | the sequential order of lanes is one of the mixtures |
| Threads.ReadsNothingTorn | argon2/src/core.c:292-372 | no lane reads a block that is being written |
| Threads.ReadsStayPut | argon2/src/core.c:292-372 | no step of any thread changes a block that a lane is reading |
| Threads.WritersApart | argon2/src/core.c:292-372 | two lanes never write the same block |
| Threads.StepKeeps | argon2/src/core.c:292-372 | every step of the main thread and of any lane thread keeps the invariant: apart from the blocks being written, the memory is the mixture of the sequential memories |
| Threads.EveryRunIsSequential | argon2/src/core.c:292-372 | schedule independence: every finished run, whatever the interleaving and the thread limit, leaves the memory of the sequential loops |
| Threads.ThreadLimitIrrelevant | argon2/src/core.c:292-386 | finished runs with different thread limits leave the same memory |
| Threads.ThreadProtocol | argon2/src/core.c:311-357 | at most `threads` lane threads at once, none at the end of a slice; created only where there is none, joined only where there is one |
| Threads.ThreadsMoveOn | argon2/src/core.c:311-357 | within a slice every thread goes from created to joined once and never back, and a slice ends when all are joined |
| Threads.WorkShrinks | argon2/src/core.c:292-372 | every step but an intermediate write leaves less to do, so a run cannot go on for ever without being stuck in one block |
| Threads.NeverStuck | argon2/src/core.c:292-372 | there is no deadlock: before the end some step is always possible |
| Threads.RunCanFinish | argon2/src/core.c:292-372 | every run can be continued to a finished one, so for every instance and memory there are finished runs |
| Joins.CreatedAndJoinedOnce | argon2/src/core.c:311-357 | in every finished run, for every slice and every lane, exactly one step creates the thread and exactly one joins it, the first before the second |
| WriteOnce.EachBlockOncePerPass | argon2/src/ref.c:121-193 | in every run, by the end of each pass every block has been stored exactly once, in the first pass all but the first two of each lane |
| WriteOnce.ReadsOnlyStored | argon2/src/ref.c:121-193 | define before use: in every run, however its threads mix, a block that a lane is about to read has been stored before, in the first pass in that pass, or is one of the first two of its lane |
| Determined.ReadsOnlyComputed | argon2/src/ref.c:121-177 | at a position of the first pass, the blocks that may be read are the first two of a lane, those of earlier slices and those the lane has built in this slice |
| Determined.DeterminedByFirstBlocks | argon2/src/core.c:515-536 | the filled memory depends on the first two blocks of each lane and on nothing the allocator left elsewhere |
| Determined.RunChoicesIndependent | argon2/src/ref.c:106-175 | Argon2i refers to the same blocks whatever the memory holds, and so does Argon2id in the first two slices |
| Determined.ChoiceFollowsMemory | argon2/src/ref.c:104-175 | everywhere else, in Argon2d and in Argon2id from the third slice of the first pass on: as soon as there are two blocks to choose from, in two lanes or in the own one, two contents of the first word of the previous block lead to different ones |
| Determined.OneToChooseFrom | argon2/src/ref.c:154-175 | with one block to choose from, every pseudo-random word refers to it |
| Bytes.LeRoundTrip | argon2/src/blake2/blake2-impl.h:48-112 | little-endian bytes are read back as the number |
| Bytes.LoadStored | argon2/src/core.c:73-85 | loading what was stored gives the words |
| Blake2b.CounterStep | argon2/src/blake2/blake2b.c:57-61 | the two words of the counter with the carry are the byte count modulo 2^128 |
| Blake2b.State.Update | argon2/src/blake2/blake2b.c:224-262 | the state has absorbed the bytes so far followed by the new ones: all but the last block compressed, the rest buffered, the counter at the compressed bytes; or it refuses and changes nothing |
| Blake2b.State.Final | argon2/src/blake2/blake2b.c:264-292 | the digest of everything absorbed by the definition in section 3.3 of RFC 7693, the buffer wiped; or it refuses and changes nothing |
| Blake2b.HashPieces | argon2/src/blake2/blake2b.c:224-292 | however a message is cut into updates, the digest is that of the whole |
| Blake2b.HashInto | argon2/src/blake2/blake2b.c:294-330 | the one-shot function without a key: the digest, also of a missing input of length 0, or a failure that changes nothing, for exactly the arguments that are refused |
| Blake2b.Links | argon2/src/blake2/blake2b.c:359-377 | the loop of blake2b_long stops with 33 to 64 bytes to go, having written the first half of each link |
| Blake2b.Long | argon2/src/blake2/blake2b.c:333-389 | for every length from 1 to 2^32 - 1 exactly that many bytes, which are H' of section 3.3 of RFC 9106; a failure for any other |
| Contexts.Context.AcceptedExactly | argon2/src/core.c:388-513 | exactly which contexts are accepted; the product 8 * lanes, which may wrap before lanes is bounded, counts as if it could not |
| Contexts.LayoutIsValid | argon2/src/argon2.c:53-77 | an accepted context gives an instance with its passes, version, type and lanes, at most as many threads as lanes, segments of at least two blocks and 4 * lanes * segment_length blocks, the most that fit in the requested memory, without wrapping |
| PreHash.PreImageInjective | argon2/src/core.c:538-610 | different inputs are hashed as different strings |
| PreHash.InitialHash | argon2/src/core.c:538-610 | the digest is that of the inputs on entry, whether or not password and secret are wiped on the way; a buffer whose flag is set is zero as far as its length went and unchanged behind, and its length is 0; the others do not change |
| Core.FillFirstBlocks | argon2/src/core.c:515-536 | the first two blocks of each lane are H' of the pre-hash, the column and the lane; no other block changes |
| Core.FillMemoryBlocksSt | argon2/src/core.c:260-277 | pass by pass, slice by slice, lane by lane, with either build of fill_segment |
| Core.XorLastBlocks | argon2/src/core.c:155-172 | the xor of the last blocks of all lanes |
| Core.Finalize | argon2/src/core.c:155-187 | the tag is H' of that xor, and no byte beyond it is written |
| Core.Argon2Ctx | argon2/src/argon2.c:39-98 | an error code and no change, or the tag of the inputs as they were on entry (section 3.2 of RFC 9106), whatever the allocator left in the memory and also when the output is the password or the secret; behind the tag, and in password and secret, what initial_hash left |
| Core.ThreadsGiveTheTag | argon2/src/core.c:292-386 | every finished run with threads leads to the same tag |
| Base64.ByteToCharIsCode | argon2/src/encoding.c:83-88 | the branch-free encoding is the alphabet |
| Base64.CharToByteExact | argon2/src/encoding.c:94-102 | on codes 0 to 255 the branch-free decoding is its inverse, and 0xFF elsewhere |
| Base64.NegativeCharReadAsSlash | argon2/src/encoding.c:94-102 | on the negative values that a signed char gives it returns 63, the value of the last letter |
| Base64.SeenAsItIs | argon2/src/encoding.c:71-102 | the comparisons take a string for itself if and only if char is unsigned or all its codes are below 128 |
| Base64.DecodedIsValue | argon2/src/encoding.c:94-102 | the same on numbers: the value of a letter, or 255 |
| Base64.TextInjective | argon2/src/encoding.c:112-146 | different bytes have different texts |
| Base64.B64Len | argon2/src/encoding.c:440-453 | the number of letters |
| Base64.ToBase64 | argon2/src/encoding.c:112-146 | the text and a terminating zero although the accumulator wraps at 32 bits, nothing else touched; or -1 and nothing written, when they do not fit |
| Base64.FromBase64 | argon2/src/encoding.c:161-200 | it succeeds if and only if the letters up to the first other character are the text of bytes that fit, and then these bytes are in the buffer; where char is signed, of the letters that the characters are taken for |
| Decimals.DigitsExactly | argon2/src/encoding.c:209-236 | the printed numbers are exactly the digit strings without leading zeros |
| Decimals.DecodeDecimal | argon2/src/encoding.c:209-236 | it succeeds if and only if the run of digits is the printed form of a number up to ULONG_MAX, which it returns; no intermediate value is greater |
| Decimals.NumLen | argon2/src/encoding.c:455-462 | the length of the printed number |
| Encoding.ReadsUnique | argon2/src/encoding.c:258-371 | no string can be read in two ways under one type |
| Encoding.OtherTypeFails | argon2/src/encoding.c:320-327 | a string of one type is not read under another |
| Encoding.DecodeString | argon2/src/encoding.c:258-371 | if the string, as its characters are taken, begins with an encoded string whose fields fit, the context holds them and the result is that of validation, then of the check for trailing characters; otherwise decoding fails |
| Encoding.AcceptedAsWritten | argon2/src/encoding.c:258-438 | a string that is read to its end is the one encode_string writes for its fields if and only if char is unsigned or all its codes are below 128 |
| Encoding.AcceptedOtherwise | argon2/src/encoding.c:258-371 | where char is signed, a string with a code of 255 that is read to its end although encode_string never writes it |
| Encoding.EncodeString | argon2/src/encoding.c:373-438 | for an accepted context it succeeds if and only if the string and its terminating zero fit, which are then in the buffer; nothing is written past the end |
| Encoding.EncodedLen | argon2/src/argon2.c:447-452 | it is room enough for the string and its zero if and only if the version has at most two digits, and exactly that room if and only if it has two |
| Encoding.VersionTooLong | argon2/src/argon2.c:447-452 | accepted fields with version 100 whose string does not fit |
| Encoding.EncodeThenDecode | argon2/src/encoding.c:209-438 | encode_string on an accepted context succeeds if and only if the buffer is large enough, and what it wrote is read back with the same version, costs, lanes, salt and output, and refused under any other type, whatever the version and whether char is signed or not |
| Digests.Compare | argon2/src/argon2.c:239-247 | whether two buffers differ, with every byte looked at |
| Digests.Verify | argon2/src/argon2.c:249-313 | the result is OK if and only if the string, as its characters are taken, is an encoded hash of the type and ends in the tag of the password; the password is left as it is |
| Digests.HashPassword | argon2/src/argon2.c:100-177 | which inputs are accepted; the raw tag and the encoded string in their buffers, or an encoding error with the string buffer wiped if and only if it is too small; when the raw tag goes to the buffer of the salt, the string has the salt as it then is, and when it goes to that of the password, that is what changes there |
| Digests.WrittenVerifies | argon2/src/argon2.c:160-354 | a password verifies against the string with an overwritten salt if and only if its tag for that salt is the tag in the string |
| Digests.VerifiesWhenTagsAgree | argon2/src/argon2.c:249-354 | a string made for one password is accepted for another exactly when their tags are the same |
| Digests.OtherTypeNeverVerifies | argon2/src/argon2.c:249-313 | ... and for no password under another type |
| Digests.HashThenVerify | argon2/src/argon2.c:100-354 | hash a password into a buffer of argon2_encodedlen, which succeeds if and only if the version has at most two digits, then verify a password against the string, which succeeds if and only if the string has at most 2^32 - 1 characters and the tags agree, as they do for the same password; whichever build does which half |
| Digests.TooLongWitness | argon2/src/argon2.c:268-271 | accepted fields with the tag of a password, whose string is longer than that |
| Phc.SplitOfJoin | phc.ts:143-164 | splitting what was joined from fields without the separator gives the fields |
| Phc.DecimalOfInt | phc.ts:48-48 | every integer is printed as a decimal that is read back as it |
| Phc.IntOfDecimal | phc.ts:48-48 | every decimal is the printed form of its value |
| Phc.ToB64IsText | phc.ts:51-54 | padded base64 with the padding removed is the text to_base64 writes |
| Phc.ValueComesBack | phc.ts:105-120 | a value comes back as it was given, a Buffer as its base64 text, if and only if it is a safe integer other than -0, or a string or Buffer whose text is no safe decimal |
| Phc.DataReadAsNumber | phc.ts:212-220 | three bytes whose text comes back as a number |
| Phc.StringReadAsNumber | phc.ts:212-220 | an unambiguous input whose string comes back as a number |
| Phc.Serialize | phc.ts:69-144 | what is rejected, and the text of what is not, for every number |
| Phc.Deserialize | phc.ts:154-235 | the object that the fields say, or a rejection, for every string |
| Phc.ReadExactly | phc.ts:154-235 | exactly which strings are accepted, and as what: the texts of the grammar at the head of phc.ts with well-formed, different names other than "constructor", and v=digits after the id taken as the version |
| Phc.PartsReadBack | phc.ts:154-235 | the text of well-formed parts is read as these parts if and only if they are clear: params absent or not empty, none called "constructor", not a lone v=digits in the place of a version |
| Phc.ParamsOfEntries | phc.ts:194-222 | pairs that were written are read as the same parameters, unless one is called "constructor" |
| Phc.ParamsComeBack | phc.ts:194-222 | the map that is read is the one that was given if and only if each value is one that comes back |
| Phc.RoundTrip | phc.ts:69-235 | deserialize gives back what was serialized, value by value as it was given and a Buffer parameter as its base64 text, if and only if the parameters are absent or not empty, none is called "constructor", without a version they are not a single v=digits, the version prints as digits and is not -0, and each value is one that comes back |
| Phc.PartsComeBack | phc.ts:69-235 | apart from what single values are taken for, the first three of these conditions are exact |
| Phc.Normalises | phc.ts:154-235 | every string that is accepted says the same as the text serialize makes of its result, in whatever order the parameters are listed |
| Phc.FormatIsPhcText | argon2/src/encoding.c:373-438 | the string encode_string writes is the one serialize writes for the same fields |
| Phc.CodecsAgree | phc.ts:154-235 | decode_string reads a whole string as certain fields if and only if it is in the form serialize writes and deserialize reads the same fields |
| Phc.AcceptedByBoth | phc.ts:154-235 | on every string decode_string accepts, deserialize returns what the context holds, an absent version standing for 0x10; or rejects it, exactly if char is signed and a code is 128 or above |
| Phc.AcceptedByOne | phc.ts:154-235 | where char is signed, a string that decode_string accepts and deserialize rejects |
| Standards.GBIsSection36 | argon2/src/blake2/blamka-round-ref.h:31-41 | GB is these operations in this order, with rotations by 32, 24, 16 and 63 |
| Standards.MultiplyAdd | argon2/src/blake2/blamka-round-ref.h:25-29 | the multiply-add is the sum of the words and twice the product of their low halves |
| Standards.MultiplyAddExample | argon2/src/blake2/blamka-round-ref.h:25-29 | two sums, one with a carry that is lost |
| Standards.RotationsAre | argon2/src/blake2/blake2-impl.h:150-152 | the four rotations, by shifts |
| Standards.ColumnsCrossRows | argon2/src/ref.c:57-77 | two words of each row are in each column, and where |
| Standards.CompressIsSection35 | argon2/src/ref.c:39-81 | the compression with the index lists of the two loops of fill_block, P on each list, rows before columns, and the xors around them |
| Standards.LittleEndian | argon2/src/blake2/blake2-impl.h:82-112 | byte i of a number counts 256^i |
| Standards.Le32Bytes | argon2/src/blake2/blake2-impl.h:82-94 | the four bytes of LE32 |
| Standards.StoredByte | argon2/src/core.c:80-85 | a block is stored word after word, each least significant byte first |
| Standards.LoadedWord | argon2/src/core.c:73-78 | a block is loaded word after word |
| Standards.StartValues | argon2/src/blake2/blake2b.c:28-117 | the chaining values from which unkeyed digests of 64 and 32 bytes start |
| Standards.BlocksInTurn | argon2/src/blake2/blake2b.c:224-262 | before the last: whole blocks of 128 bytes, the counter up to and including each, no flags |
| Standards.LastBlock | argon2/src/blake2/blake2b.c:264-292 | the last block: what remains, one to 128 bytes, filled up with zeros, flagged, and counted by the bytes of the message |
| Standards.LongHashIsSection33 | argon2/src/blake2/blake2b.c:333-389 | where the parts of a long digest are, and which digests of what they are |
| Standards.HalvesOfWord | argon2/src/ref.c:163-175 | J1 is the lower half of a word and J2 the upper |
| Standards.ChoiceIsSection342 | argon2/src/core.c:189-257 | the result of index_alpha as one expression in J1, the size of W and the oldest block of W |
| Standards.WindowInOrder | argon2/src/core.c:241-256 | W goes from the oldest block to the newest, round the lane |
| Standards.AddressInput | argon2/src/ref.c:109-119 | the seven numbers of the input block, with the type by its code, and zeros |
| Standards.RandIsSection341 | argon2/src/ref.c:104-160 | where addressing is data-independent: word i mod 128 of the address block with counter i / 128 + 1; elsewhere the first word of the previous block |
| Standards.BlockIsSection32 | argon2/src/ref.c:132-193 | which blocks a step takes by their indices, when it xors over the old one, and that it changes no other |
| Standards.BlocksInOrder | argon2/src/core.c:260-277 | the order of passes, slices, lanes and blocks, with the first segment beginning at its third block |
| Standards.InputsAreFields | argon2/src/core.c:538-610 | which field of a context is which input |
| Standards.PreImageIsSection32 | argon2/src/core.c:538-610 | at which bytes which number stands, and the four fields behind them |
| Standards.FirstBlocksAreSection32 | argon2/src/core.c:515-536 | the first two blocks of each lane are H' of H_0, the column and the lane, in this order |
| Standards.TagIsSection32 | argon2/src/core.c:155-187 | the tag is H' of the block whose words are the xor over all lanes of those of the last blocks |
| Standards.TagOfInputs | argon2/src/argon2.c:39-98 | the tag of some inputs is taken of the memory filled in four slices a pass from the first blocks of a 64-byte H_0 |
| Standards.ErrorsInOrder | argon2/src/core.c:388-513 | which broken rule is reported first, and by which number |
| Standards.OtherCodes | argon2/include/argon2.h:101-156 | the other results, by their numbers |
| Standards.SymbolIsAlphabet | argon2/src/encoding.c:83-88 | the letters in their order |
| Standards.LettersOfTriple | argon2/src/encoding.c:133-143 | the letters of three bytes are the digits to base 64 of a number of 24 bits, from the highest on |
| Standards.DigitsInTurn | argon2/src/encoding.c:386-391 | decimal notation |
| Standards.FormatInLetters | argon2/src/encoding.c:373-438 | the whole encoded string, with the name of the type by its code |
| Standards.FormatBegins | argon2/src/argon2.c:26-37 | it begins with $argon2d$, $argon2i$ or $argon2id$ for the codes 0, 1 and 2 |
| Standards.StringIsFields | argon2/src/encoding.c:415-433 | which field of a context is which part of the string |
| Standards.InputsOfString | argon2/src/argon2.c:249-313 | the inputs of the tag that a string is verified with |
| Standards.RegularExpressions | phc.ts:41-49 | what idRegex, nameRegex, valueRegex, b64Regex and versionRegex match, by lists of characters, and the greatest safe integer |
| Standards.DecimalsArePrinted | phc.ts:48-48 | what decimalRegex matches is exactly what an integer is printed as |

## Left out

- fill_memory_blocks_mt: modelled as a state machine, not as a method; `Core.Argon2Ctx` runs the sequential loops, and `Core.ThreadsGiveTheTag` carries its result over to every finished run with threads.
- thread creation and join failures: the clean-up at argon2/src/core.c:338-342 joins handles that may have been joined already; only runs in which every call succeeds are modelled.
- the BLAKE2b block compression: a parameter; which blocks, counters and flags it is given is what is proved. Keyed hashing and the last-node flag are not modelled, because Argon2 does not use them.
- AVX2 and AVX-512 forms of fill_block, and XOP: the same argument with other shuffles.
- memory management: page alignment, mlock, the failure of small allocations and the wiping of the block memory have no effect on values; whether the large allocation succeeds is the parameter memoryAvailable. An object of size 0 is taken to have an address.
- sizes: object sizes are unbounded numbers; size_t is not taken to wrap. Pointers are 64 bits wide, which makes ARGON2_MAX_MEMORY 2^32 - 1.
- Core.Argon2Ctx: a buffer that is wiped must not be read again under another name; the C code takes this for granted.
- Phc.Serialize: inputs have the types that the interfaces declare, so the checks of `typeof` are not modelled. A number other than a safe integer is known by what it prints as and whether it is a natural number; what it prints as is not computed.
- Phc.Deserialize: a version beyond 2^53 - 1 is kept as its digits, which stand for the double that parseInt rounds them to; `Phc.Normalises` is about the versions that are exact. Of Buffer.from all that is used is that it reads canonical base64. Errors are one value, whatever their message.
- the order of JavaScript object keys: params are a sequence where they are written, in the order of Object.keys, and a map where they have been read.
- index.ts: argument checks and limits around the codec. Its verify drops associated data that deserialize returns as a number; `Phc.DataReadAsNumber` gives such data.
- argon2_core.cpp, the worker threads, GENKAT printing, run.c, bench.c, genkat.c, test.c: runtime plumbing and programs around the core.
- error message tables, type names in capitals and the wrappers for one type: they add nothing to what is proved of the functions they call.
