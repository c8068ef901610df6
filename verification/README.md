# Verified model of the giFT FastTrack plugin's core

This project models the parts of the plugin that carry algorithms: the streaming
file hash, the 2048-bit arithmetic of the handshake, the stream cipher and the
session protocol on top of it, the supernode cache with its peers and reference
counts, and the text codecs and source urls. Code that changes state in place is
modelled by classes, arrays and loops, each proved against a function of its inputs
or of the old state; the theorems are lemmas about those functions.

## What is proved

**The hash** (`Bytes`, `Md5`, `Rfc1321Suite`, `Crc`, `TreeHash`, `FstHash`, `HashValues`). Init, any sequence of
updates (empty ones included) and finish yield exactly the 36 bytes the whole file
defines: the MD5 of its first 307200 bytes, the sparse CRC in little-endian order,
and the root of the tree of its 32 KiB segments. The four specifications are
declarative; MD5 is the padded-block definition of RFC 1321 and gives the digests of
its test suite, the CRCs are the bit-at-a-time definitions, and the tree is
`tools/kzhash.pl` level by level. The
invariants of the one pass say what each field of the context is for the bytes seen
so far: the ring unrolled is the tail of the input, the saved CRC covers exactly the
samples before the one being read, and the node stack is the binary counter's spine
of perfect subtrees, with a place free whenever another node is pushed.

**The arithmetic** (`BigNum`, `Division`, `ModPow`, `Exact`, `EncType1`,
`DroppedBorrow`). The in-place loops compute limb functions whose values are then
proved: products are exact, the estimated quotient digit fits in 32 bits and is at most
two too small, and the correction loop ends for every modulus with its top bit set. Two
things in the code are not what one would expect, and the model keeps both:

- `big_expmod` multiplies on every bit of the exponent, so it computes the power
  2^bits - 1. That is the power asked for if and only if the exponent is all ones;
  for the only exponent used, 3, it is the cube.
- The correction loop of `big_mod` drops a borrow when a pending borrow meets a zero
  limb (`giFT-FastTrack/src/crypt/enc_type_1.c:197-199`). The model adds up what is
  dropped: the result is always the dividend plus that loss, modulo the modulus. Nothing
  is lost if and only if no pass drops a borrow, and that is decided by the dividend and
  the modulus alone: every number the true division would subtract the modulus from has
  to be no smaller than the modulus below each of its zero limbs (`Exact.Safe`). For safe
  numbers `big_mod` is exact, at most two corrections follow each digit, and `enc_type_1`
  returns the cube. With exactly one dropping pass `big_mod` is always wrong for an odd
  modulus, as the one used is, and so is `enc_type_1` for a number with an inverse; with
  more the result is wrong unless the losses add up to a multiple of the modulus. Every
  modulus of four limbs or more with a lowest limb above 0 and a third limb below
  0xffffffff, the fixed one among them, has a dividend that comes out wrong by 2^64, and
  if it is odd `big_mulmod` doubles a number wrongly (`DroppedBorrow`).

**The session** (`PacketBuffer`, `CipherState`, `Keystream`, `CipherStart`,
`StreamCipher`, `Frames`, `Protocol`, `Delivery`, `Conversation`, `SessionObject`). The session object, its packet buffer
and its two ciphers refine a state machine on values, for which two theorems hold for
every cut of the stream into non-empty receives: the state and the deliveries are
those of one receive, and a receiver in step with a sender gets exactly the frames
written if and only if every message fits its header and the last frame is not an
empty message. The second condition is a finding: `session_decrypt_packet` asks for
five bytes behind the type byte though the header has four
(`giFT-FastTrack/src/fst_session.c:500-508`), so an empty message is not seen until one more byte
arrives. The header byte order, the xinu state and both ciphers are then in step
again. Pings are answered in order, a handshake with a mangled enc_type is understood
because mangling is an involution for each seed, and a server that knows both seeds
reads what the client answers. Where each header byte lies is stated for each remainder
of the xinu state modulo 3. The keystream is sums of pad bytes, looked up, until the pad
is stirred or mixed; every reachable cipher state keeps its position inside the pad, its
lookup table a permutation of 0 to 255 and its pad not all zero.

**The nodes** (`Nodes`, `NodeCache`, `Peers`, `OverlayObject`). List cells, hash, tail
pointer, back links, the two-way peer maps and the reference counts agree after every
operation, whatever the order of the operations: a node's count is one for the cache,
one for its session, one for every connected node that has it as a peer and one for
every piece of code that works on it. A node whose count is zero is in no list, hash,
session or map. The cache is sorted by a total preorder, and sorting keeps the first
thousand nodes and exactly the index nodes behind them. Over any run of connection
attempts the nodes come to the front in turn. That the assertions in
`fst_peer.c` and `fst_session_connect` hold is a consequence.

**The codecs** (`Codecs`, `SourceUrl`, and dynint in `PacketBuffer`). Decoding undoes
encoding for base64, hex, url encoding and dynint, in the buffers the code allocates;
dynint uses the fewest octets (section 8.19.2 of ITU-T X.690). A source url restores
its source if and only if none of its three addresses is 255.255.255.255 and the url
encoded user name has at most 62 characters, or has 64 and is cut inside an escape
that decodes to itself.

Where the code and its documentation differ the model follows the code. PROTOCOL
says that only the part of the last 300 KiB that was not hashed before is hashed when
a sample overlaps it (`giFT-FastTrack/PROTOCOL:911-916`); the code drops that sample and
hashes the whole tail.

## What is assumed

Integers have the widths of the source where wrap-around can matter (MD5 and CRC
words, limbs, seeds, dynints, the header fields); `size_t` has 64 bits. Files have
fewer than 2^32 segments of 32 KiB, for which the node stack is large enough; the
comment at `giFT-FastTrack/src/fst_hash.h:94` promises less, files up to 2^32 bytes.
The functions `enc_type_2`, `enc_type_20` and `enc_type_80`, and `enc_type_1` as the
cipher sees it, are parameters: the theorems hold for all such functions. `qsort` may be any
algorithm, since the order of the five bytes is total. Receives bring at most 1024
bytes, sends succeed, memory is never short, and the plugin's callback returns TRUE.
The content of the info message an established session sends is a parameter, as is
whether an address is routable.

## Model

| member | source | states |
|---|---|---|
| Md5.MacrosAreRfcFunctions | giFT-FastTrack/src/md5.c:175-179 | the four macros are the functions F, G, H and I as section 3.4 of RFC 1321 writes them, for all words |
| Md5.RowWords | giFT-FastTrack/src/md5.c:181-270 | each of the 64 steps takes the message word its round prescribes and rotates by the number of bits its round prescribes, both in closed form |
| Md5.LastBlocks | giFT-FastTrack/src/md5.c:128-171 | the padded message ends in one block if the rest with its marker fits in 56 bytes, in two otherwise, and what those blocks are |
| Md5.ChainPrefix | giFT-FastTrack/src/md5.c:71-122 | whole blocks that have been processed do not depend on what follows them |
| Md5.CountBits | giFT-FastTrack/src/md5.c:75-82 | adding a length to the two-word counter, with its carry and its high part, gives the 64-bit count of bits of the longer message |
| Md5.Context.Count | giFT-FastTrack/src/md5.c:75-82 | the counter fields are the low and high words of the length in bits again after an update |
| Md5.Context.Update | giFT-FastTrack/src/md5.c:71-122 | the context of a message becomes the context of the message with the data appended, for any data and any fill of the buffer |
| Md5.Context.PadTail | giFT-FastTrack/src/md5.c:128-160 | all padded blocks but the last are processed and the buffer holds the last one but for its length, on both branches |
| Md5.Context.Final | giFT-FastTrack/src/md5.c:128-171 | writes the RFC 1321 digest of everything that was given to the context, and nothing else, into the caller's buffer |
| Md5.DigestChunks | giFT-FastTrack/src/md5.c:56-171 | for every chunking, init, updates and final yield the digest of the concatenation |
| Rfc1321Suite.EmptyDigest | giFT-FastTrack/src/md5.c:56-270 | the digest of the empty message is the one in section A.5 of RFC 1321, so all 64 constants and the initial state are fixed |
| Rfc1321Suite.AlphanumericsDigest | giFT-FastTrack/src/md5.c:56-270 | so is that of the 62 letters and digits, a message of two blocks |
| Crc.SmallByteIsBits | giFT-FastTrack/src/fst_hash.c:51-59 | one table step equals eight bit steps of the reflected CRC-32 |
| Crc.Small | giFT-FastTrack/src/fst_hash.c:51-59 | the loop is the bitwise CRC-32 of section 8 of RFC 1952, without complement, on every byte string and from every start value |
| Crc.Crc32Append | giFT-FastTrack/src/fst_hash.c:470-485 | the CRC of a concatenation is that of its second part started from that of the first |
| Crc.ChecksumByteIsBits | giFT-FastTrack/src/fst_hash.c:410-420 | one table step equals eight bit steps of the CRC with polynomial 0x1021 |
| Crc.Checksum | giFT-FastTrack/src/fst_hash.c:410-420 | the loop is the low 14 bits of the bitwise CRC from 0 |
| TreeHash.HashBlocks | giFT-FastTrack/tools/kzhash.pl:10-13 | reading 32 KiB at a time hashes exactly the segments of the input |
| TreeHash.PairUp | giFT-FastTrack/tools/kzhash.pl:16-25 | one round of the script pairs the hashes in order and rehashes a lone last one |
| TreeHash.Kzhash | giFT-FastTrack/tools/kzhash.pl:10-27 | the script's result is the tree root that the C code is also proved to compute |
| TreeHash.SpineAgrees | giFT-FastTrack/src/fst_hash.c:493-525 | what is on the stack after some blocks depends on those blocks only |
| TreeHash.SpineCollapse | giFT-FastTrack/src/fst_hash.c:510-517 | while the block count is even, hashing the two top nodes together gives the stack of half as many nodes of the next level |
| TreeHash.SpineOdd | giFT-FastTrack/src/fst_hash.c:502-517 | when the block count is odd the stack has one more node, the last hash itself |
| TreeHash.SpineFold | giFT-FastTrack/src/fst_hash.c:605-626 | one turn of the final fold is one level of pairing, with a lone last hash rehashed |
| TreeHash.SpineLength | giFT-FastTrack/src/fst_hash.c:493-525 | after n blocks the stack has as many nodes as n has one bits |
| TreeHash.PopCountBound | giFT-FastTrack/src/fst_hash.c:505-508 | a number below 2^k has at most k one bits, and k only if it is 2^k - 1 |
| TreeHash.StackFits | giFT-FastTrack/src/fst_hash.c:505-508 | the stack never has more than 31 nodes when another one is pushed, so the assertion on its size holds |
| FstHash.SamplesSplit | giFT-FastTrack/src/fst_hash.c:470-491 | the samples of the whole file are those before an offset of the doubling sequence followed by those from it on |
| FstHash.SamplesArePrior | giFT-FastTrack/src/fst_hash.c:542-549 | when the sample at an offset ends behind the limit, the samples that count are exactly those the saved CRC covers, so rewinding one sample is always enough |
| FstHash.RingWrite | giFT-FastTrack/src/fst_hash.c:463-466 | the two copies into the ring append the data to the unrolled window and drop as much from its front |
| FstHash.WindowSlides | giFT-FastTrack/src/fst_hash.c:455-467 | a window that holds the last bytes seen still does after it has slid |
| FstHash.RingIsTail | giFT-FastTrack/src/fst_hash.c:552-561 | the two pieces read from the ring at the end are the last n bytes of the input, in order |
| FstHash.LeavesAreHashed | giFT-FastTrack/src/fst_hash.c:572-578 | the leaves of the whole file are the hashed segments and the partial last one, if there is one |
| FstHash.HashContext.UpdateHead | giFT-FastTrack/src/fst_hash.c:448-453 | the head context has seen exactly the first 307200 bytes of the longer input |
| FstHash.HashContext.UpdateWindow | giFT-FastTrack/src/fst_hash.c:455-467 | the ring holds the last bytes of the longer input, on both branches |
| FstHash.HashContext.ReadSample | giFT-FastTrack/src/fst_hash.c:472-485 | one turn extends the CRC by exactly the part of the current sample that the data brings, and saves the CRC of the samples before |
| FstHash.HashContext.UpdateSmall | giFT-FastTrack/src/fst_hash.c:470-491 | the loop leaves the CRC, the saved CRC and the sample offset as they should be for the longer input |
| FstHash.HashContext.SmallExtends | giFT-FastTrack/src/fst_hash.c:470-491 | the sampling state for a position does not depend on the bytes behind it |
| FstHash.HashContext.PushSegment | giFT-FastTrack/src/fst_hash.c:502-520 | finishing a segment leaves the stack of one more block |
| FstHash.HashContext.Collapse | giFT-FastTrack/src/fst_hash.c:510-517 | the collapsing loop turns the stack with a pushed leaf into the binary counter's stack |
| FstHash.HashContext.UpdateSegment | giFT-FastTrack/src/fst_hash.c:497-524 | one turn hashes on to the end of a segment or of the data and keeps the tree's invariant |
| FstHash.HashContext.UpdateTree | giFT-FastTrack/src/fst_hash.c:493-524 | the loop leaves the segment context and the stack as they should be for the longer input |
| FstHash.HashContext.Update | giFT-FastTrack/src/fst_hash.c:443-528 | all four invariants hold for the input with the data appended, whatever its length |
| FstHash.HashContext.Rewind | giFT-FastTrack/src/fst_hash.c:542-549 | the CRC is that of exactly the samples that end no later than 307200 bytes before the end |
| FstHash.HashContext.HashTail | giFT-FastTrack/src/fst_hash.c:552-561 | the CRC is extended by the last min(n - 307200, 307200) bytes of the input |
| FstHash.HashContext.FinishSmall | giFT-FastTrack/src/fst_hash.c:539-564 | the field is the small hash of the whole input, for short inputs too |
| FstHash.HashContext.FoldTree | giFT-FastTrack/src/fst_hash.c:605-626 | the final fold leaves the root of the tree over all leaves at the bottom of the stack |
| FstHash.HashContext.FinishTree | giFT-FastTrack/src/fst_hash.c:571-629 | the first node is the tree root of the whole input, also when it is empty or one segment, and for a non-empty input it is the only node left |
| FstHash.HashContext.Finish | giFT-FastTrack/src/fst_hash.c:531-633 | returns the 36 bytes that the whole input defines |
| FstHash.HashChunks | giFT-FastTrack/src/fst_hash.c:425-633 | for every chunking of every file, init, updates and finish yield the 36 bytes of the one-shot definition |
| FstHash.HashFile | giFT-FastTrack/src/fst_hash.c:637-660 | so does hashing a file block by block |
| HashValues.KzHashParts | giFT-FastTrack/src/fst_hash.c:531-633 | 16 bytes are the MD5 digest of the first 307200 bytes, 4 are the small hash with its low byte first, and 16 are the tree root |
| HashValues.SmallHashIs | giFT-FastTrack/src/fst_hash.c:433-564 | for a file of more than 307200 bytes, the small hash is the CRC, from 0xffffffff, of the 307200-byte segments at 1 MiB times each power of two that end 307200 bytes before the end or earlier and of the tail, xor the length |
| HashValues.ShortSmallHash | giFT-FastTrack/src/fst_hash.c:433-564 | for every other file it is 0xffffffff xor the length, in bytes 16 to 19 |
| HashValues.SmallTrees | giFT-FastTrack/src/fst_hash.c:571-629 | the tree part of one segment is the digest of its digest, that of two the digest of both digests |
| HashValues.EmptyFile | giFT-FastTrack/src/fst_hash.c:425-633 | all 36 bytes of the hash of the empty file |
| Division.MulRowValue | giFT-FastTrack/src/crypt/enc_type_1.c:139-156 | a row of the schoolbook product adds the multiple exactly, carry included |
| Division.MulSubRowValue | giFT-FastTrack/src/crypt/enc_type_1.c:182-191 | the subtraction of a multiple is exact, with its borrow counted at full weight |
| Division.PassRowValue | giFT-FastTrack/src/crypt/enc_type_1.c:195-200 | a correction pass subtracts the modulus but for the borrows it drops, each at the weight of its limb |
| Division.TopSuffices | giFT-FastTrack/src/crypt/enc_type_1.c:193-202 | whenever a pass is made the limb above can pay its borrow |
| Division.PassValue | giFT-FastTrack/src/crypt/enc_type_1.c:193-202 | a pass lowers the window by the modulus less what it loses |
| Division.PassProgress | giFT-FastTrack/src/crypt/enc_type_1.c:193-202 | every pass lowers a measure even when it drops borrows, so the loop ends for every modulus with its top bit set |
| Division.NeverEnds | giFT-FastTrack/src/crypt/enc_type_1.c:193-202 | with a zero limb on top of the modulus no pass lowers the limb above the window, so the loop does not end unless that limb is zero |
| Division.CorrectValue | giFT-FastTrack/src/crypt/enc_type_1.c:193-202 | the loop leaves a remainder below the modulus that differs from the window plus the loss by a multiple of the modulus |
| Division.EstimateBounds | giFT-FastTrack/src/crypt/enc_type_1.c:179-180 | the estimated digit fits in 32 bits, is never too large, and is less than three too small |
| Division.ReduceValue | giFT-FastTrack/src/crypt/enc_type_1.c:182-191 | subtracting the estimated multiple never wraps the window |
| Division.DigitValue | giFT-FastTrack/src/crypt/enc_type_1.c:177-203 | one digit leaves the window plus the loss reduced modulo the modulus, and if nothing is lost at most two corrections follow |
| Division.DivideValue | giFT-FastTrack/src/crypt/enc_type_1.c:177-203 | dividend plus weighted loss is quotient times modulus plus remainder, for some quotient |
| Division.ModValue | giFT-FastTrack/src/crypt/enc_type_1.c:171-206 | for every dividend whose upper part is below the modulus, as it is for products of reduced factors, the result is the dividend plus the loss modulo the modulus |
| Division.ModExactIff | giFT-FastTrack/src/crypt/enc_type_1.c:171-206 | it is the dividend modulo the modulus if and only if the loss is a multiple of the modulus |
| Division.DivideSmall | giFT-FastTrack/src/crypt/enc_type_1.c:171-206 | a dividend below the modulus comes back unchanged and nothing is lost |
| ModPow.ProductFits | giFT-FastTrack/src/crypt/enc_type_1.c:130-137 | the product of reduced factors has an upper half below the modulus, which big_mod needs |
| ModPow.MulModValue | giFT-FastTrack/src/crypt/enc_type_1.c:130-137 | big_mulmod yields the product plus the loss modulo the modulus |
| ModPow.MulModClean | giFT-FastTrack/src/crypt/enc_type_1.c:130-137 | it yields the product modulo the modulus if and only if the loss is a multiple of the modulus |
| ModPow.ExpLoopValue | giFT-FastTrack/src/crypt/enc_type_1.c:119-127 | as long as the products are right, after any number of bits the loop has the power 2^bits - 1, whatever the bits are |
| ModPow.AllOnesOrNot | giFT-FastTrack/src/crypt/enc_type_1.c:110-128 | that is the power asked for if and only if the exponent's bits are all ones |
| ModPow.CubeValue | giFT-FastTrack/src/crypt/enc_type_1.c:63-76 | two bits give the cube plus an explicit loss modulo the modulus, without any hypothesis |
| ModPow.CubeIff | giFT-FastTrack/src/crypt/enc_type_1.c:63-76 | they give the cube if and only if that loss is a multiple of the modulus |
| Exact.LossIff | giFT-FastTrack/src/crypt/enc_type_1.c:197-199 | a pass loses nothing if and only if no pending borrow meets a zero limb |
| Exact.DropsNoneIff | giFT-FastTrack/src/crypt/enc_type_1.c:195-201 | that is so if and only if below each zero limb the window is no smaller than the modulus, which can be told before the pass |
| Exact.CorrectIff | giFT-FastTrack/src/crypt/enc_type_1.c:193-202 | the correction loop loses nothing if and only if none of its passes drops a borrow, and if and only if every number on the way down to the remainder is clear in that sense |
| Exact.DigitIff | giFT-FastTrack/src/crypt/enc_type_1.c:177-203 | so for a digit, from its window alone; then at most two corrections follow and the remainder is the true one |
| Exact.DivideIff | giFT-FastTrack/src/crypt/enc_type_1.c:171-206 | big_mod loses nothing if and only if no pass of any digit drops a borrow, and if and only if dividend and modulus are safe, a condition on the numbers of the true division |
| Exact.SafeIsExact | giFT-FastTrack/src/crypt/enc_type_1.c:171-206 | for a safe dividend big_mod returns the remainder |
| Exact.OneDropIsWrong | giFT-FastTrack/src/crypt/enc_type_1.c:171-206 | if exactly one pass drops a borrow, big_mod does not return the remainder, for every odd modulus |
| Exact.MulModSafe | giFT-FastTrack/src/crypt/enc_type_1.c:130-137 | big_mulmod loses nothing if and only if no pass drops a borrow, and if and only if the product is safe; then it returns the product modulo the modulus |
| Exact.CubeLossIff | giFT-FastTrack/src/crypt/enc_type_1.c:63-76 | cubing loses nothing if and only if no pass of the two reductions drops a borrow, and if and only if both products are safe |
| Exact.OneDropNoCube | giFT-FastTrack/src/crypt/enc_type_1.c:63-76 | if exactly one pass drops a borrow the result is not the cube, for a number with an inverse and an odd modulus |
| EncType1.BigMul | giFT-FastTrack/src/crypt/enc_type_1.c:139-156 | the output limbs hold the exact product, the limbs above are untouched |
| EncType1.BigIsLess | giFT-FastTrack/src/crypt/enc_type_1.c:158-169 | the comparison from the top limb down is that of the values |
| EncType1.SubMultiple | giFT-FastTrack/src/crypt/enc_type_1.c:182-191 | the loop changes the window and nothing else, by the function whose value MulSubRowValue gives |
| EncType1.SubModulus | giFT-FastTrack/src/crypt/enc_type_1.c:195-201 | the same for a correction pass |
| EncType1.CorrectWindow | giFT-FastTrack/src/crypt/enc_type_1.c:193-202 | the while loop ends, leaves the corrected remainder and a zero limb above it |
| EncType1.ModDigit | giFT-FastTrack/src/crypt/enc_type_1.c:177-203 | one turn of the outer loop reduces the window one limb lower and touches nothing else |
| EncType1.BigMod | giFT-FastTrack/src/crypt/enc_type_1.c:171-206 | the output is the remainder of which ModValue and ModExactIff speak |
| EncType1.BigMulMod | giFT-FastTrack/src/crypt/enc_type_1.c:130-137 | the first factor is replaced by the product as MulModValue gives it |
| EncType1.BitLength | giFT-FastTrack/src/crypt/enc_type_1.c:105-117 | the search from the top finds the bit length of the exponent |
| EncType1.BigExpMod | giFT-FastTrack/src/crypt/enc_type_1.c:110-128 | the loop over the bits makes the steps of which ExpLoopValue and CubeIff speak, as many as the exponent has bits |
| EncType1.SpellsValue | giFT-FastTrack/src/crypt/enc_type_1.c:84-103 | bytes and limbs that spell each other in little-endian order have the same value |
| EncType1.BigLeToH | giFT-FastTrack/src/crypt/enc_type_1.c:84-95 | the limbs spell the bytes |
| EncType1.BigHToLe | giFT-FastTrack/src/crypt/enc_type_1.c:97-103 | the bytes spell the limbs |
| EncType1.InputBelowModulus | giFT-FastTrack/src/crypt/enc_type_1.c:63-76 | a number of 256 bytes whose top byte is 1 is below the fixed modulus |
| EncType1.ModulusIsWritten | giFT-FastTrack/src/crypt/enc_type_1.c:34-48 | the limbs of the fixed modulus are one number, written out in digits of 128 bits |
| EncType1.EncType1 | giFT-FastTrack/src/crypt/enc_type_1.c:63-76 | for every key, the output bytes are the cube of the input with top byte 1, plus the loss, modulo the fixed modulus; they are the cube if and only if the loss is a multiple of the modulus, nothing is lost if and only if the input is safe, and for a safe input they are the cube |
| EncType1.KeyDropsDecide | giFT-FastTrack/src/crypt/enc_type_1.c:63-76 | no borrow is dropped for exactly the safe inputs; with exactly one dropping pass the result is not the cube, for an input with an inverse |
| DroppedBorrow.FirstPass | giFT-FastTrack/src/crypt/enc_type_1.c:195-201 | for every modulus affected, the pass over a window of the modulus and a little more drops the borrow at the second limb, loses 2^64, and what it leaves |
| DroppedBorrow.WrongRemainder | giFT-FastTrack/src/crypt/enc_type_1.c:171-206 | for every modulus affected, big_mod returns the excess of that dividend and 2^64, and exactly one pass drops a borrow |
| DroppedBorrow.WrongProduct | giFT-FastTrack/src/crypt/enc_type_1.c:130-137 | for every odd modulus affected there is a number whose double comes out too large by 2^64 |
| DroppedBorrow.WrongUnderModulus | giFT-FastTrack/src/crypt/enc_type_1.c:34-48 | so there is for the fixed modulus, and the number is one that big_mulmod may be given |
| DroppedBorrow.DoubleWrongly | giFT-FastTrack/src/crypt/enc_type_1.c:130-137 | big_mulmod on arrays that hold that number and 2 leaves the wrong double |
| PacketBuffer.Packet.Resize | giFT-FastTrack/src/fst_packet.c:283-321 | contents and read position stay, there is room for the length asked for and less than 512 bytes more, and a buffer that is large enough is kept |
| PacketBuffer.Packet.Write | giFT-FastTrack/src/fst_packet.c:324-333 | appends to the contents and leaves the read position |
| PacketBuffer.Packet.Recv | giFT-FastTrack/src/fst_packet.c:264-278 | appends what was received, as much as the resized buffer has room for, and fails if and only if that is nothing |
| PacketBuffer.Packet.Read | giFT-FastTrack/src/fst_packet.c:336-345 | takes the bytes off the unread part if there are enough, otherwise changes nothing |
| PacketBuffer.Packet.GetUint8 | giFT-FastTrack/src/fst_packet.c:158-163 | takes the first unread byte; moves nothing if there is none, when the result is not determined |
| PacketBuffer.Packet.GetNet32 | giFT-FastTrack/src/fst_packet.c:174-179 | takes four bytes in network order; moves nothing if there are fewer, when the result is not determined |
| PacketBuffer.Packet.CreateCopy | giFT-FastTrack/src/fst_packet.c:42-55 | the copy gets at most the unread bytes, which are then read |
| PacketBuffer.Packet.Append | giFT-FastTrack/src/fst_packet.c:58-61 | appends the unread part of the other packet, which stays as it is |
| PacketBuffer.Packet.Rewind | giFT-FastTrack/src/fst_packet.c:75-78 | everything is unread again |
| PacketBuffer.Packet.Truncate | giFT-FastTrack/src/fst_packet.c:81-93 | what was read is gone, in place, and the rest is the whole contents |
| PacketBuffer.Packet.PutDynInt | giFT-FastTrack/src/fst_packet.c:134-153 | appends the number's dynint, of which the round trip lemmas speak |
| PacketBuffer.Packet.GetDynInt | giFT-FastTrack/src/fst_packet.c:209-223 | parses as much as the dynint grammar takes, also when the packet ends early |
| PacketBuffer.DynIntRoundTrip | giFT-FastTrack/src/fst_packet.c:134-223 | every 32-bit number reads back and exactly its octets are consumed, whatever follows |
| PacketBuffer.DynIntsRoundTrip | giFT-FastTrack/src/fst_packet.c:134-223 | so does every sequence of numbers |
| PacketBuffer.ParsedIs | giFT-FastTrack/src/fst_packet.c:209-223 | octets of 128 and more go on, the first below 128 ends the integer, and its value is theirs as digits to base 128, the highest first |
| PacketBuffer.DynIntShortest | giFT-FastTrack/src/fst_packet.c:134-153 | no octets that parse to a number are fewer than its dynint |
| PacketBuffer.DynIntLength | giFT-FastTrack/src/fst_packet.c:134-153 | a dynint has one to five octets, and at most two below 0x4000, as for the 14-bit checksum |
| PacketBuffer.NoLeadingZero | giFT-FastTrack/src/fst_packet.c:134-153 | a dynint never begins with a padding octet 0x80 |
| PacketBuffer.CountOctets | giFT-FastTrack/src/fst_packet.c:140-141 | the shifting loop counts the octets of the dynint |
| PacketBuffer.Octets | giFT-FastTrack/src/fst_packet.c:143-150 | filling the buffer from its end and clearing the last mark writes the dynint |
| PacketBuffer.Net32RoundTrip | giFT-FastTrack/src/fst_packet.c:122-179 | a 32-bit word written in network order reads back |
| PacketBuffer.FromNet32Is | giFT-FastTrack/src/fst_session.c:590-592 | four bytes in network order are 2^24, 2^16, 2^8 and 1 times those bytes |
| PacketBuffer.Net32Is | giFT-FastTrack/src/fst_session.c:325-345 | a word written in network order has such bytes |
| CipherState.MangleInvolutes | giFT-FastTrack/src/crypt/fst_crypt.c:206-221 | mangling an enc_type twice with the same seed gives it back |
| CipherState.SortIsUnique | giFT-FastTrack/src/crypt/fst_crypt.c:455-467 | any ordered permutation of the bytes is the sorted one, so the result does not depend on the qsort algorithm |
| CipherState.SortPos | giFT-FastTrack/src/crypt/fst_crypt.c:185-187 | the five bytes that are sorted are inside the pad |
| CipherState.StartPos | giFT-FastTrack/src/crypt/fst_crypt.c:131-134 | the start position is inside the pad for every seed |
| CipherState.Draw | giFT-FastTrack/src/crypt/fst_crypt.c:421-439 | the number drawn is below the bound |
| CipherState.Shuffle | giFT-FastTrack/src/crypt/fst_crypt.c:154-164 | the shuffled table is a permutation of the identity |
| CipherState.RekeyHasOdd | giFT-FastTrack/src/crypt/fst_crypt.c:352-367 | a rekeyed pad has an odd byte, whatever it was |
| CipherState.AdjustHasOdd | giFT-FastTrack/src/crypt/fst_crypt.c:124-129 | an adjusted pad has an odd byte |
| CipherState.TotalKeeps | giFT-FastTrack/src/crypt/fst_crypt.c:330-336 | the running total keeps a pad with an odd byte one, and a non-zero pad non-zero |
| CipherState.MangledKeeps | giFT-FastTrack/src/crypt/fst_crypt.c:330-368 | so does a whole step before the wrap-around |
| CipherState.MixNonZero | giFT-FastTrack/src/crypt/fst_crypt.c:386-397 | the mixing at the wrap-around leaves a non-zero pad, whatever it was |
| CipherState.NextReady | giFT-FastTrack/src/crypt/fst_crypt.c:325-418 | a clock keeps the invariant: position inside the pad, lookup a permutation of 0 to 255, pad not all zero, and some byte odd without bit 0x10 |
| CipherState.InitReady | giFT-FastTrack/src/crypt/fst_crypt.c:107-201 | every seed and every supported enc_type start with it |
| CipherState.AlwaysReady | giFT-FastTrack/src/crypt/fst_crypt.c:107-418 | it holds after any number of clocks from every start |
| CipherState.CryptTwice | giFT-FastTrack/src/crypt/fst_crypt.c:96-102 | encrypting from the same state twice gives the data back |
| CipherState.CryptSum | giFT-FastTrack/src/crypt/fst_crypt.c:96-102 | encrypting two pieces one after the other is encrypting their concatenation |
| CipherStart.SeedAfterIs | giFT-FastTrack/src/crypt/fst_crypt.c:442-445 | after n steps a seed is 0x10dcd to the n times the seed, plus the increments 0x4271 as they have grown, modulo 2^32 |
| CipherStart.KeyByteIs | giFT-FastTrack/src/crypt/fst_crypt.c:309-313 | the key is laid into the pad word by word, the low byte of each first |
| CipherStart.MixingOrder | giFT-FastTrack/src/crypt/fst_crypt.c:258-307 | the three mixing functions are applied in order, each with the next seed |
| CipherStart.CubeBytes | giFT-FastTrack/src/crypt/fst_crypt.c:240-246 | a byte of the key given to enc_type_1 counts the upper 15 bits of its seed and starts again after 223 |
| Keystream.TypeBits | giFT-FastTrack/src/crypt/fst_crypt.c:168-307 | which bits of an enc_type make it unsupported, use the cube and the key, mix and count |
| CipherStart.AdjustedZeros | giFT-FastTrack/src/crypt/fst_crypt.c:124-129 | a pad of zeros gets the first byte 0x71 and is otherwise left alone |
| CipherStart.DigestWordIs | giFT-FastTrack/src/crypt/fst_crypt.c:141-152 | the shuffling starts from the first four bytes of the MD5 digest of the pad |
| CipherStart.DrawIs | giFT-FastTrack/src/crypt/fst_crypt.c:421-428 | a drawn number is the bound times the upper half of the seed, divided by 2^16 and rounded down |
| CipherStart.ShuffleIs | giFT-FastTrack/src/crypt/fst_crypt.c:154-164 | each place of the table in turn is exchanged with one drawn from it and those behind it, and nothing else moves |
| CipherStart.StartPosIs | giFT-FastTrack/src/crypt/fst_crypt.c:131-134 | the start position is drawn below 63 from the next seed |
| CipherStart.FirstKeystream | giFT-FastTrack/src/crypt/fst_crypt.c:107-418 | the first eight keystream bytes of the seed 0xFACB1238 under type 0x40, for any mixing functions |
| Keystream.StateAfter | giFT-FastTrack/src/crypt/fst_crypt.c:325-373 | as long as nothing is stirred the pad has running totals where the position has been, from the byte behind the first one on, and its own bytes elsewhere |
| Keystream.KeystreamIs | giFT-FastTrack/src/crypt/fst_crypt.c:325-418 | then the byte after n clocks is looked up under the sum, modulo 256, of addToLookup, the byte behind the position and the n + 1 bytes from it on, all as they were at the start; this holds for every starting position, and past position 7 unless that total has zeros in bits 4 to 6 |
| Keystream.KeystreamAtWrap | giFT-FastTrack/src/crypt/fst_crypt.c:374-418 | at the last position addToLookup is counted up first, for a type with bit 0x08 |
| Keystream.StateAfterWrap | giFT-FastTrack/src/crypt/fst_crypt.c:374-382 | behind the wrap-around, without bit 0x10, position and counters are as they should be and the pad is all running totals |
| Keystream.StirringClock | giFT-FastTrack/src/crypt/fst_crypt.c:346-368 | when the total at position 7 has zeros in bits 4 to 6 the pad is rekeyed with that total plus its third byte |
| Keystream.RekeyIs | giFT-FastTrack/src/crypt/fst_crypt.c:349-367 | rekeying with n puts the five bytes from (n*n + 2) mod 59 on in order, 0x20 to 0x3f before 0x00 to 0x1f and so on, and then every third byte becomes its position less the byte less one, made odd |
| Keystream.MixIs | giFT-FastTrack/src/crypt/fst_crypt.c:384-397 | the mixing adds the low bytes of six shifted words by exclusive or, and sets the bit that byte 10 names, at places that bytes 24 and 25 give |
| Keystream.MixingClock | giFT-FastTrack/src/crypt/fst_crypt.c:374-413 | at a wrap-around with bit 0x10 the pad is mixed with the old key, and every sixteenth time the key is made anew from the count |
| StreamCipher.MangleEncType | giFT-FastTrack/src/crypt/fst_crypt.c:206-221 | the loop over the key computes the function that MangleInvolutes is about |
| StreamCipher.Cipher.PadInit | giFT-FastTrack/src/crypt/fst_crypt.c:225-318 | fails exactly on the unsupported enc_types, and otherwise leaves the pad and the seed that InitReady starts from |
| StreamCipher.Cipher.AdjustPad | giFT-FastTrack/src/crypt/fst_crypt.c:124-129 | the loop changes the pad only if it has no odd byte |
| StreamCipher.Cipher.InitLookup | giFT-FastTrack/src/crypt/fst_crypt.c:136-165 | the swaps in place give the shuffled table, or the identity without bit 0x08 |
| StreamCipher.Cipher.SortPad | giFT-FastTrack/src/crypt/fst_crypt.c:187 | an in-place sort of five bytes changes only those, to their sorted order |
| StreamCipher.Cipher.StirPad | giFT-FastTrack/src/crypt/fst_crypt.c:189-195 | every third byte from the fifth on is stirred, no other is |
| StreamCipher.Cipher.Init | giFT-FastTrack/src/crypt/fst_crypt.c:107-201 | the object's fields are the initial state of which InitReady speaks, the old pad16 included where it is not set |
| StreamCipher.Cipher.MixPad | giFT-FastTrack/src/crypt/fst_crypt.c:386-397 | six bytes at the offset the pad itself gives are changed, inside the pad |
| StreamCipher.Cipher.WrapAround | giFT-FastTrack/src/crypt/fst_crypt.c:374-413 | position, counters, pad and pad16 after the end of the pad |
| StreamCipher.Cipher.Clock | giFT-FastTrack/src/crypt/fst_crypt.c:325-418 | one clock takes the fields to the next state and returns its output byte, of which KeystreamIs speaks |
| StreamCipher.Cipher.Crypt | giFT-FastTrack/src/crypt/fst_crypt.c:96-102 | encrypts the buffer in place, advances the state by its length and touches nothing behind it |
| Frames.HeaderRoundTrip | giFT-FastTrack/src/fst_session.c:193-222 | in all three byte orders the header's type and size read back modulo 2^16 |
| Frames.MessageOnWire | giFT-FastTrack/src/fst_session.c:193-227 | for every type, payload and xinu state, which byte behind the K is the low and the high byte of the type and of the length, for each remainder of the state modulo 3 |
| Frames.MessageTaken | giFT-FastTrack/src/fst_session.c:494-541 | what the receiver takes for type, length and payload of any bytes that begin with a K, for each remainder, and when it waits |
| Frames.ControlBytes | giFT-FastTrack/src/fst_session.c:472-486 | a ping is a P and a pong an R, and a byte that is neither nor a K is not understood |
| Frames.NextXinu | giFT-FastTrack/src/fst_session.c:224-225 | the next state differs from the last in exactly the bits in which the sum of type and length has zeros |
| Frames.FirstMessage | giFT-FastTrack/src/fst_session.c:174-238 | a first message of type 2 with five bytes begins 4b 02 00 00 05, and the state behind it is 0xffffffa9 |
| Frames.FindStays | giFT-FastTrack/src/fst_session.c:472-579 | a frame that was found is still the first one when more bytes come |
| Frames.ParseResumes | giFT-FastTrack/src/fst_session.c:472-579 | parsing what is there, and the rest when it comes, is parsing everything at once, for every buffer and every xinu state |
| Frames.FindMessage | giFT-FastTrack/src/fst_session.c:494-550 | where a message begins, the receiver finds its type and as much of its payload as the 16-bit size says |
| Frames.ParseFrames | giFT-FastTrack/src/fst_session.c:472-579 | frames that fit, with more behind them or not ending in an empty message, are found one by one with the sender's xinu states |
| Frames.OutOfStep | giFT-FastTrack/src/fst_session.c:472-579 | frames of which one is too long, or of which the last is an empty message, are never all found |
| Frames.InStep | giFT-FastTrack/src/fst_session.c:472-579 | the receiver finds exactly the frames written if and only if all are short and the last is not empty, and then nothing is left and the xinu states are equal |
| Frames.EmptyWaits | giFT-FastTrack/src/fst_session.c:500-508 | the five bytes of an empty message are not taken for a whole message |
| Frames.LastWaits | giFT-FastTrack/src/fst_session.c:500-508 | behind any short frames an empty message waits in the buffer, with everything before it delivered |
| Protocol.PutSum | giFT-FastTrack/src/fst_packet.c:243-261 | sending two pieces is sending their concatenation, on the wire and in the cipher |
| Protocol.TakeSum | giFT-FastTrack/src/fst_packet.c:249-278 | so it is for receiving |
| Protocol.NameLengthStays | giFT-FastTrack/src/fst_session.c:419-431 | a network name that has ended does not change when more bytes come |
| Protocol.KnownNames | giFT-FastTrack/src/fst_session.c:433-445 | KaZaA, FileShare and grokster are known names |
| Protocol.DecodeTurn | giFT-FastTrack/src/fst_session.c:472-579 | decoding a buffer is taking off one frame, answering or delivering it, and decoding the rest |
| Delivery.ReceiveSum | giFT-FastTrack/src/fst_session.c:351-579 | in every state two receives have the effect of one, so every byte is decrypted exactly once |
| Delivery.AnyCut | giFT-FastTrack/src/fst_session.c:351-579 | every cut into non-empty receives leaves the state, the bytes sent and the deliveries of a single receive |
| Delivery.Delivered | giFT-FastTrack/src/fst_session.c:174-579 | whatever the cut, a receiver in step delivers exactly the frames written if and only if they fit and do not end in an empty message; then buffer, xinu state and cipher are in step again |
| Delivery.ClearPart | giFT-FastTrack/src/fst_session.c:584-621 | the eight clear bytes give the server's seed and its unmangled enc_type |
| Delivery.WholeStream | giFT-FastTrack/src/fst_session.c:351-579 | for every seed, every supported enc_type and every cut of clear bytes, encrypted name and frames, the session ends established, with exactly the frames delivered, an empty buffer and the server's xinu state and cipher state, if and only if the name is a known one and the frames fit and do not end in an empty message |
| Delivery.ServerReads | giFT-FastTrack/src/fst_session.c:414-641 | whatever the cut, a server that knows both seeds decrypts what the client wrote behind the first packet to KaZaA and a zero, and for a known name to the node info and the pongs behind it; the client's outgoing cipher and xinu state are the server's then |
| Delivery.EveryPingAnswered | giFT-FastTrack/src/fst_session.c:476-479 | there is a pong for each of the server's pings if its frames fit and do not end in an empty message |
| Conversation.StepWrites | giFT-FastTrack/src/fst_session.c:174-238 | every event of an established session disconnects it or writes exactly the encryption of the frames it calls for |
| Conversation.RunWrites | giFT-FastTrack/src/fst_session.c:174-729 | so does every sequence of events, with one cipher and one xinu state throughout |
| Conversation.EncodeSum | giFT-FastTrack/src/fst_session.c:174-238 | the bytes of two runs of frames join, the second starting from the xinu state the first left |
| Conversation.PongsAreFrames | giFT-FastTrack/src/fst_session.c:476-483 | a pong for every ping, in order, and no change of the xinu state |
| Conversation.PeerHears | giFT-FastTrack/src/fst_session.c:174-729 | over whole runs of messages, pings and receives, and every cut of what was sent, the peer hears exactly what was said if and only if it fits and does not end in an empty message, and is then in step |
| SessionObject.Session.Connected | giFT-FastTrack/src/fst_session.c:294-348 | the first packet announces the seed and the mangled enc_type, and the session is handshaking |
| SessionObject.Session.Send | giFT-FastTrack/src/fst_packet.c:243-261 | encrypts with the outgoing cipher and appends to what was sent |
| SessionObject.Session.BuildMessage | giFT-FastTrack/src/fst_session.c:193-227 | the packet built is the frame's bytes for the current xinu state, and each header byte is where the state modulo 3 puts it |
| SessionObject.Session.SendMessage | giFT-FastTrack/src/fst_session.c:174-238 | writes the message and changes the xinu state if and only if the session is established |
| SessionObject.Session.SendControl | giFT-FastTrack/src/fst_session.c:694-729 | writes one byte and leaves the xinu state |
| SessionObject.Session.ReadHeader | giFT-FastTrack/src/fst_session.c:510-529 | reads type and size in the byte order of the xinu state |
| SessionObject.Session.TakeMessage | giFT-FastTrack/src/fst_session.c:494-562 | takes a whole message off the buffer and delivers it, with type and payload as MessageTaken gives them, or rewinds and waits |
| SessionObject.Session.TakeFrame | giFT-FastTrack/src/fst_session.c:472-579 | one turn of the loop is one turn of the protocol, its answer included |
| SessionObject.Session.DecodePackets | giFT-FastTrack/src/fst_session.c:472-579 | the loop leaves the object in the state that parsing its whole buffer defines |
| SessionObject.Session.ReadNetName | giFT-FastTrack/src/fst_session.c:414-467 | waits for the terminator, then accepts a known name and sends the info, or disconnects |
| SessionObject.Session.IsValidName | giFT-FastTrack/src/fst_session.c:433-445 | the name is accepted if and only if it is one of the known ones, case aside |
| SessionObject.Session.DoHandshake | giFT-FastTrack/src/fst_session.c:584-641 | both ciphers start from the seeds on the wire, and the own name is sent encrypted; it fails if and only if the enc_type is unsupported |
| SessionObject.Session.Greet | giFT-FastTrack/src/fst_session.c:376-405 | after eight bytes the rest of the buffer is decrypted once and is all that is left |
| SessionObject.Session.Receive | giFT-FastTrack/src/fst_session.c:351-579 | a receive takes the object to the state the protocol defines, in every stage, an empty receive included |
| SessionObject.ReceiveChunks | giFT-FastTrack/src/fst_session.c:351-579 | so does a sequence of receives, to which AnyCut and WholeStream apply |
| Nodes.Node.AddRef | giFT-FastTrack/src/fst_node.c:81-94 | the count is that of the holders, one more than before |
| Nodes.Node.Release | giFT-FastTrack/src/fst_node.c:99-126 | a node whose last holder lets go has no link and no session |
| Nodes.Spliced | giFT-FastTrack/src/fst_node.c:226-307 | pointers set between two neighbours make a well-linked list |
| Nodes.Insert | giFT-FastTrack/src/fst_peer.c:36-49 | inserting changes the list to one with the new cell at its place, head and both directions included |
| Nodes.Joined | giFT-FastTrack/src/fst_node.c:226-334 | joining the neighbours of a cell makes a well-linked list without it |
| Nodes.RemoveLink | giFT-FastTrack/src/fst_peer.c:53-72 | removing a cell anywhere leaves the list of the others, with the right head |
| NodeCache.CompareIs | giFT-FastTrack/src/fst_node.c:29-47 | the comparison is by age in steps of 300 seconds, the later first, then by score, the larger first, which for loads of one byte is load*(100-load) |
| NodeCache.CompareOrders | giFT-FastTrack/src/fst_node.c:29-47 | it is a total preorder |
| NodeCache.OrderedAhead | giFT-FastTrack/src/fst_node.c:29-47 | in an ordered cache every node was seen in a later period than each node behind it, or in the same one with no smaller score, by the nodes' own fields |
| NodeCache.PositionIs | giFT-FastTrack/src/fst_node.c:252-307 | a node goes to the front, to the back, or before the first node that is not better, by the nodes' own fields |
| NodeCache.PlaceKeepsOrder | giFT-FastTrack/src/fst_node.c:275-288 | inserting at the first place that is not better keeps an ordered list ordered |
| NodeCache.IndexesAre | giFT-FastTrack/src/fst_node.c:360-387 | the nodes kept behind the first thousand are exactly the index nodes there |
| NodeCache.IndexesInOrder | giFT-FastTrack/src/fst_node.c:362-387 | they stay in their order |
| NodeCache.KeptIs | giFT-FastTrack/src/fst_node.c:360-387 | the first thousand nodes stay as they are, and behind them exactly the index nodes |
| NodeCache.ClipStep | giFT-FastTrack/src/fst_node.c:362-387 | looking at one more node keeps it or removes it from its place |
| NodeCache.Cache.NoDuplicates | giFT-FastTrack/src/fst_node.c:169-393 | no node and no host is listed twice |
| NodeCache.Cache.Add | giFT-FastTrack/src/fst_node.c:169-212 | a listed host's node is updated and moved to the front, another gets a new node there that only the cache holds |
| NodeCache.Cache.Move | giFT-FastTrack/src/fst_node.c:226-307 | the node is among the others, which are in their old order, at the place that PositionIs describes for front, back and sorted; the hash and every count are as before, and nothing changes if it is not listed |
| NodeCache.Cache.Remove | giFT-FastTrack/src/fst_node.c:310-334 | the node is in no list and no hash and has lost its link and the cache's reference, the others are in their old order |
| NodeCache.Cache.GetFront | giFT-FastTrack/src/fst_node.c:337-344 | the first node, with one more reference, or none if and only if the cache is empty |
| NodeCache.Cache.LetGo | giFT-FastTrack/src/fst_node.c:99-126 | letting go of a node that was held for a while leaves the cache valid |
| NodeCache.Cache.SortList | giFT-FastTrack/src/fst_node.c:357-358 | relinking the cells in order keeps the cells and makes the list ordered |
| NodeCache.Cache.ClipOne | giFT-FastTrack/src/fst_node.c:362-387 | one turn of the loop keeps an index node or drops the node with its link, hash entry and reference |
| NodeCache.Cache.Sort | giFT-FastTrack/src/fst_node.c:350-393 | leaves the first thousand nodes of the sorted cache and the index nodes behind, where sorted means that of any two nodes the first was seen in a later period or in the same one with no smaller score; the tail pointer and the size are right, and every dropped node has lost its link, hash entry and one reference |
| Peers.AfterRemoval | giFT-FastTrack/src/fst_peer.c:53-72 | the global lists are right whether the list lost its head, an inner cell or its only cell |
| Peers.AfterInsertion | giFT-FastTrack/src/fst_peer.c:36-49 | the global lists are right with a new list or a longer one |
| Peers.Registry.ListIsExact | giFT-FastTrack/src/fst_peer.c:24-34 | a peer's list has exactly the nodes that have it as a peer, each once, in the cells the sessions know |
| Peers.Registry.NobodysPeer | giFT-FastTrack/src/fst_node.c:99-126 | a node with count zero is no node's peer |
| Peers.Registry.RemoveGlobal | giFT-FastTrack/src/fst_peer.c:53-72 | exactly that pair goes, and the peer loses one reference |
| Peers.Registry.AddGlobal | giFT-FastTrack/src/fst_peer.c:36-49 | exactly that pair comes, in a new cell, and the peer gains one reference |
| Peers.Registry.Insert | giFT-FastTrack/src/fst_peer.c:94-112 | the pair has a new cell in both maps, and the peer gains a reference if and only if it had no pair before |
| Peers.Registry.RemovePeers | giFT-FastTrack/src/fst_peer.c:74-92 | exactly the node's pairs go, and each of its peers, and no other node, loses one reference |
| Peers.Registry.Connect | giFT-FastTrack/src/fst_session.c:101-151 | the node's session is set, it gains one reference, and it has no peers yet |
| Peers.Registry.Free | giFT-FastTrack/src/fst_session.c:76-96 | the node has no session and no peers any more and has lost the session's reference, also when it was its own peer |
| OverlayObject.HolderCount | giFT-FastTrack/src/fst_node.c:81-126 | holders with at most one per connected node number as many as those nodes, the cache, the session and the temporary ones |
| OverlayObject.Overlay.RefIs | giFT-FastTrack/src/fst_node.c:81-126 | in every reachable state a node's count is one for the cache if it is listed, one for its session if it has one, one for every connected node that has it as a peer, and one for every piece of work on it |
| OverlayObject.Overlay.Unheld | giFT-FastTrack/src/fst_node.c:99-126 | a node with count zero is in no list, no hash, no session, no global and no session map |
| OverlayObject.Overlay.Add | giFT-FastTrack/src/fst_node.c:169-212 | adding a host keeps cache, peers, sessions and all counts in agreement; its node has the given class, port, load and time and is at the front, no node's holders change, and a new node is held by the cache alone |
| OverlayObject.Overlay.Move | giFT-FastTrack/src/fst_node.c:226-307 | so does moving a node, connected or a peer or not, to its place by front, back or order, which leaves its holders |
| OverlayObject.Overlay.Remove | giFT-FastTrack/src/fst_node.c:310-334 | so does removing one, which takes the cache's reference and no other |
| OverlayObject.Overlay.GetFront | giFT-FastTrack/src/fst_node.c:337-344 | so does holding the front node, which adds one temporary reference to it and to no other node |
| OverlayObject.Overlay.Hold | giFT-FastTrack/src/fst_node.c:81-94 | so does holding any node for a while, which adds one temporary reference to it |
| OverlayObject.Overlay.LetGo | giFT-FastTrack/src/fst_node.c:99-126 | so does letting go of it, which takes a temporary reference and no other |
| OverlayObject.Overlay.Befriend | giFT-FastTrack/src/fst_peer.c:94-112 | fst_peer_insert on a connected session keeps cache, peers, sessions and all counts in agreement |
| OverlayObject.Overlay.Open | giFT-FastTrack/src/fst_session.c:101-151 | so does a new session for a node that has none |
| OverlayObject.Overlay.Close | giFT-FastTrack/src/fst_session.c:76-96 | so does the end of a session; the other sessions' maps are as before |
| OverlayObject.Overlay.Sort | giFT-FastTrack/src/fst_node.c:350-393 | sorting the cache does so too, and takes a reference from exactly the nodes it drops, peers and connected ones included |
| OverlayObject.Overlay.ConnectFront | giFT-FastTrack/src/fst_fasttrack.c:92-212 | a turn connects the front node if and only if it has no session, is no connected node's peer and is routable; the node goes to the back, behind the others in their old order, or leaves the cache if it is not routable; no temporary reference is kept on any branch |
| OverlayObject.AllComeToFront | giFT-FastTrack/src/fst_fasttrack.c:92-212 | over any run of such turns the nodes come to the front one after the other in the order in which they were listed, each within as many turns as there are nodes |
| OverlayObject.Overlay.HearOf | giFT-FastTrack/src/fst_fasttrack.c:396-431 | a node the server tells of is cached if routable, at the front and with the address, port, load and time told, and its peer exactly if it was seen just now |
| OverlayObject.Overlay.Down | giFT-FastTrack/src/fst_fasttrack.c:333-388 | after a disconnect the node is held only by those that have it as a peer and by work in progress |
| Codecs.Base64RoundTrip | giFT-FastTrack/src/fst_utils.c:217-305 | decoding undoes encoding for every byte string, with all three paddings |
| Codecs.Base64Alphabet | giFT-FastTrack/src/fst_utils.c:219 | the 64 characters in order |
| Codecs.SextetsSpell | giFT-FastTrack/src/fst_utils.c:228-250 | four characters have the 24 bits of three bytes, the highest first |
| Codecs.Base64Vectors | giFT-FastTrack/src/fst_utils.c:217-257 | f, fo and foobar as in section 10 of RFC 4648, with both paddings |
| Codecs.Base64Fits | giFT-FastTrack/src/fst_utils.c:217-257 | the encoded text has 4*ceil(n/3) characters, fewer than are allocated |
| Codecs.Unbase64Fits | giFT-FastTrack/src/fst_utils.c:260-305 | decoding any text writes at most three bytes for four characters |
| Codecs.Base64Encode | giFT-FastTrack/src/fst_utils.c:217-257 | the loop and its two tails write the base64 text of section 4 of RFC 4648 |
| Codecs.Base64Decode | giFT-FastTrack/src/fst_utils.c:260-305 | the loop decodes any text, characters outside the alphabet included, as the specification does |
| Codecs.HexRoundTrip | giFT-FastTrack/src/fst_utils.c:310-372 | decoding undoes encoding for every byte string, and a lone last digit is ignored |
| Codecs.HexAlphabet | giFT-FastTrack/src/fst_utils.c:312 | the 16 digits in order |
| Codecs.HexOrder | giFT-FastTrack/src/fst_utils.c:322-327 | the high digit of a byte comes first |
| Codecs.HexRead | giFT-FastTrack/src/fst_utils.c:334-372 | digits are read in either case, and no other character is one |
| Codecs.HexEncode | giFT-FastTrack/src/fst_utils.c:310-331 | the loop writes two digits for every byte |
| Codecs.HexDecode | giFT-FastTrack/src/fst_utils.c:334-372 | the loop decodes pairs and fails on a digit that is none |
| Codecs.HexHashes | giFT-FastTrack/src/fst_hash.c:666-799 | decode16 restores both hashes from their hex text, inside the static buffer |
| Codecs.Base64Hashes | giFT-FastTrack/src/fst_hash.c:712-843 | decode64 restores both hashes from their base64 text, the leading '=' of the fthash skipped |
| Codecs.UrlRoundTrip | giFT-FastTrack/src/fst_utils.c:111-212 | url decoding undoes url encoding for every byte string |
| Codecs.UrlSpecials | giFT-FastTrack/src/fst_utils.c:111-153 | a plus is read as a space, and a percent sign without two digits behind it stays |
| Codecs.UrlEncodeIsPlain | giFT-FastTrack/src/fst_utils.c:155-212 | url encoded text has only plain characters and percent signs, at most three for each byte |
| Codecs.SpecialCharacters | giFT-FastTrack/src/fst_utils.c:177-198 | a character is escaped if and only if it is white space or not printable or one of thirteen |
| Codecs.UrlDecodeInPlace | giFT-FastTrack/src/fst_utils.c:111-153 | moving the rest of the buffer down after every escape decodes it in place |
| Codecs.UrlEncodeString | giFT-FastTrack/src/fst_utils.c:155-212 | the loop writes the encoded text |
| SourceUrl.DecRoundTrip | giFT-FastTrack/src/fst_source.c:372-450 | printed numbers parse back |
| SourceUrl.DecText | giFT-FastTrack/src/fst_source.c:372-450 | the ten digits, and that a number ends with its last one |
| SourceUrl.IpRoundTrip | giFT-FastTrack/src/fst_source.c:372-445 | printed addresses parse back |
| SourceUrl.SplitJoin | giFT-FastTrack/src/fst_source.c:290-364 | splitting undoes joining when no part has the separator |
| SourceUrl.CutDecodes | giFT-FastTrack/src/fst_source.c:412-426 | a cut of encoded text decodes to the whole string if and only if it is inside a last escape that decodes to itself |
| SourceUrl.CutNameIff | giFT-FastTrack/src/fst_source.c:412-500 | a user name survives the 64-byte buffer if and only if its encoding has at most 62 characters, or 64 with such a cut |
| SourceUrl.DecodeEncoded | giFT-FastTrack/src/fst_source.c:174-198 | decoding an encoded source restores option by option |
| SourceUrl.UrlRestores | giFT-FastTrack/src/fst_source.c:174-500 | decoding an encoded source gives it back if and only if no address is 255.255.255.255 and the user name survives |
| SourceUrl.IpOnly | giFT-FastTrack/src/fst_source.c:66-74 | the url of a source with an address alone: FastTrack:?ip= and four decimal numbers with dots |
| SourceUrl.PortOnly | giFT-FastTrack/src/fst_source.c:66-74 | with a port alone: port= |
| SourceUrl.SnodeIpOnly | giFT-FastTrack/src/fst_source.c:66-74 | with a supernode's address alone: sip= |
| SourceUrl.SnodePortOnly | giFT-FastTrack/src/fst_source.c:66-74 | with a supernode's port alone: sport= |
| SourceUrl.ParentIpOnly | giFT-FastTrack/src/fst_source.c:66-74 | with a parent's address alone: pip= |
| SourceUrl.UserOnly | giFT-FastTrack/src/fst_source.c:66-74 | with a user name alone: user= and its encoding, cut off |
| SourceUrl.EveryField | giFT-FastTrack/src/fst_source.c:335-364 | with all of them: the options in the order of the table with an ampersand between each two |
| SourceUrl.CreateUrl | giFT-FastTrack/src/fst_source.c:335-364 | the loop writes the url of which UrlRestores speaks, the last separator removed |
| SourceUrl.ParseUrl | giFT-FastTrack/src/fst_source.c:290-333 | the loop over the options parses any url as the specification does, unknown and malformed options included |

## Left out

- enc_type_2, enc_type_20 and enc_type_80: straight-line mixing without a law; they are parameters of the cipher.
- Sockets, timers, input callbacks, name resolution, logging and memory failure: a receive is a chunk that is given, a send appends bytes.
- Session callbacks that return FALSE: the session may be freed then and is not looked at again.
- libgift's list, dataset, string_sep, net_ip and net_ip_str are not part of this repository: lists are modelled with their cells, datasets as maps, the text helpers by how they are used. In which order a sort leaves equal nodes is not promised.
- The network name, the bandwidth and the old url format of fst_source.c, and fst_source_equal and the other small predicates: they would only add easy members.
- nodecache_free, loading and saving of nodes files, and the choice of sessions in fst_fasttrack.c: file and configuration glue.
- HTTP, download, upload, push, share, search, UDP discovery, ip sets and statistics: glue and counters.
- The path-keyed hash cache, the self tests and the generators in fst_hash.c, and the other tools.
- 32-bit size_t: doubling the sample offset wraps there.
- FstHash.HashContext.Update: the input so far has at most 32768 * 0xffffffff bytes, because the node stack is sized for that many segments.
- Md5.Context.Final: clears the context no further than the source does, where memset gets the size of a pointer; the context cannot be used again before Init.
- Md5.RowWords: the 64 unrolled macro calls are modelled as four tables of rows that a loop goes through.
- Division.DigitValue: the modulus has its top bit set, as the only one used has; with a zero limb on top of it the correction loop does not end (Division.NeverEnds).
- Division.ModValue: the same; and the upper part of the dividend is below the modulus, as big_mulmod makes it.
- EncType1.CorrectWindow: the modulus has its top bit set, because without it the loop need not end.
- EncType1.ModDigit: the same.
- EncType1.BigMod: the same.
- EncType1.BigMulMod: the same, for the limbs in use.
- EncType1.BigExpMod: the same, for the limbs in use.
- EncType1.EncType1: the keys that go wrong are given by their condition, not listed or counted; the input written out is one of big_mulmod under the fixed modulus (DroppedBorrow.WrongUnderModulus).
- SessionObject.Session.Receive: brings at most 1024 bytes, which is all the room a new packet has.
- PacketBuffer.Packet.Write: sizes are unbounded integers, so an overflow of size_t is not modelled.
- Codecs.UrlDecodeInPlace: works on bytes; a decoded %00 would end the C string there.
- Nodes.Node.Release: who holds a node is a ghost ledger; freeing the memory is not modelled.
- OverlayObject.Overlay.HearOf: a time before the clock's zero is taken as zero.
