# MrHakOS: verified model of the network security stack

MrHakOS is a freestanding kernel that carries its own cryptography, TCP, TLS 1.3 client and Tor client.
This project models that stack, and the concurrent rings around it, in Dafny and proves what each part is
for. Code that changes state step by step is modelled by classes, arrays and loops, and every such method is
proved against a specification on values; what the code promises is then proved about those specifications,
over every input and every run. Formats are pinned octet by octet against the standard that defines them, and
the specifications of hashes, modes and checksums by laws of their own. `dafny verify dfyconfig.toml` checks
everything.

**Curve25519** (`Limbs`, `Field25519`, `FieldOps`, `FieldCodec`, `X25519`, `Montgomery`). A field element is an
array of 16 signed limbs in radix 2^16 with lazy carries. Limb types are `int64`, so every store carries a proof
that it does not overflow. Carry passes, the 31-column product with its fold by 38, the branch-free swap and the
borrow-based reduction are loops over those arrays. The main theorem is that the code's ladder, which swaps
in and out on every bit and reuses its arrays, returns the bytes RFC 7748 prescribes (which swaps lazily), for
every scalar and every point; and that ladder doubles and adds on the curve by Montgomery's formulas.

**Streaming hash, CTR, GCM** (`StreamHash`, `Ctr`, `Gf128`, `Ghash`, `Gcm`). Byte-at-a-time code against
whole-message specifications: any chunking of `update` with digests taken in the middle, any split of a CTR
stream, the shift-and-xor loop against multiplication of polynomials modulo x^128 + x^7 + x^2 + x + 1, and
decryption returning what encryption took. The source writes the counter loop and the tag computation out in
both; here `Encrypt` and `Decrypt` share the methods `CtrLoop` and `ComputeTag`. The AES block function and the SHA
compression function are arbitrary functions, so the results hold for SHA-256 and SHA-1 alike.

**TCP receive stream** (`TcpStream`, `TcpRuns`, `TcpReader`). One buffer is shared by the segment handler, the
readers and the in-place compaction, and acceptance compares wrapping 32-bit sequence numbers. The class is proved
against functions on values; runs of those functions against an honest peer over a network that loses, repeats,
overlaps and reorders keep the byte stream exact. For segments of any age and any sender, `SegmentExactly` says
which ones keep it. `ReadStream` is the wait and the read on the class itself: what the TLS records are read from.

**TLS 1.3** (`TlsRecords`, `TlsClient`, `TlsFlight`). Record sealing and opening with numbered nonces, the byte
stream that `read` and `write` make of records, also when reads give up inside a record, reassembly of handshake
messages from records in a sliding buffer, the Finished check and the transcript.

**Tor** (`RelayCells`, `OnionLayers`, `RelayOutbound`, `RelayInbound`, `TorCircuit`, `TorHops`, `TorClient`,
`TorLink`). A client and any number of relays are one system: reliable ordered links, steps in any
interleaving, a circuit that grows while cells are under way. `TorHops` and `TorClient` are the client's own
loops, working in place on the CTR and hash objects above. `TorLink` is the cell framing below them, over a
connection whose reads may give up and whose writes may fail at any byte. The one hypothesis, `NoMistake`, is
that a digest check does not accept a cell at a hop before the one it belongs to.

**Around the stack**: the keyboard ring interrupted at every memory access (`KeyQueue`), the receive rings of
two network cards against the device (`NicRings`), the Internet checksum (`Checksum`), the SOCKS5 client run
against the bundled proxy (`Socks`), the line editor (`LineEditor`). `Bitwise`, `Bytes` and `LittleEndian` hold
the arithmetic of bits, octets and octet strings that the rest stands on.

Bytes are integers from 0 to 255 and 64-bit limbs are integers with range checks; bit operations are defined on
two's-complement integers in `Bitwise`. Where the code departs from a standard, the model follows the code:

- `VerifyFinished`: a server Finished whose body is longer than 32 bytes is accepted on its first 32 bytes, where
  section 4.4.4 of RFC 8446 fixes the length. `FinishedDeparts` says exactly which messages the two rules judge
  differently, `LongFinished` gives a flight with one of 37 bytes.
- `Read`: every handshake record after the handshake is skipped, a KeyUpdate included. The client still reads all
  that came before it; asked for as much and not giving up, it has all the data of the peer if and only if none
  came behind (`ReadPastUpdate`). `DataBehindUpdate` is a peer with one byte on each side.
- `HandleTcp`: sequence numbers are all the receiver compares, so a payload is taken for the next bytes whenever
  its number reaches the expected one. `AcceptExactly` and `SegmentExactly` say exactly when that is right, for
  bytes of the peer at any age `OwnBytesExactly`; `WholeSpaceOld` is a duplicate one sequence space old that breaks
  the stream.
- `LinkHandshake`: the client derives the circuit id width from the first 8192 bytes of VERSIONS. `SameFrames` says
  exactly when it still agrees with the peer on the stream, `HiddenVersion` gives a well-formed VERSIONS cell of
  8194 bytes with which it does not.

## Model

| member | source | states |
|---|---|---|
| Bytes.Increment | src/libc/crypto.cpp:407-409 | The ripple-carry loop adds one to the big-endian number modulo 2^(8n) and touches no other byte |
| Field25519.CarryPassValue | src/libc/crypto.cpp:239-246 | One carry pass keeps the value modulo 2^255-19: what leaves the top limb comes back 38-fold at the bottom |
| Field25519.Carry | src/libc/crypto.cpp:239-246 | The in-place pass has the limbs of the carry-pass function and never leaves int64 |
| Field25519.TwoPasses | src/libc/crypto.cpp:280-287 | After two passes over folded products all limbs lie in a small fixed range |
| FieldOps.Columns | src/libc/crypto.cpp:280-283 | The double loop fills 31 columns whose weighted sum is the product of the two values, with no overflow |
| FieldOps.FoldValue | src/libc/crypto.cpp:284-285 | Folding the high columns by 38 keeps the value modulo 2^255-19 |
| FieldOps.FieldMul | src/libc/crypto.cpp:280-288 | For limbs of magnitude below 2^26, aliasing allowed, the result is congruent to the product and its limbs are small again |
| FieldOps.FieldAdd | src/libc/crypto.cpp:278 | Limbs of sums add up, in value and in bound |
| FieldOps.FieldSub | src/libc/crypto.cpp:279 | Likewise for differences |
| FieldCodec.Select | src/libc/crypto.cpp:247-253 | The mask-and-xor swap exchanges two arrays exactly when the bit is 1 and leaves them alone when it is 0 |
| FieldCodec.ExponentIsInverse | src/libc/crypto.cpp:289-293 | Squaring 254 times and skipping the multiplication at bits 2 and 4 raises to exactly p-2 |
| FieldCodec.Invert | src/libc/crypto.cpp:289-294 | The array ends with the (p-2)-th power of the argument, in small limbs |
| FieldCodec.Canonical | src/libc/crypto.cpp:254-268 | Three passes and two conditional subtractions leave the unique representative below p, limb by limb |
| FieldCodec.Pack | src/libc/crypto.cpp:254-273 | The 32 bytes are the little-endian form of the residue below p |
| FieldCodec.Unpack | src/libc/crypto.cpp:274-277 | The limbs stand for the 255-bit little-endian number, top bit masked |
| FieldCodec.PointMasked | src/libc/crypto.cpp:274-277 | The top bit of the last octet does not count, all others do |
| FieldCodec.PackUnpack | src/libc/crypto.cpp:254-277 | Packing an unpacked string gives it back if and only if it is the reduced form of its number |
| X25519.ClampBytes | src/libc/crypto.cpp:300-302 | The byte masks give the decoded scalar of section 5 of RFC 7748 |
| X25519.ScalarShape | src/libc/crypto.cpp:300-302 | Every clamped scalar is a multiple of 8 between 2^254 and 2^255 |
| X25519.ScalarDecoded | src/libc/crypto.cpp:299-302 | The decoded scalar is 2^254 plus bits 3 to 253 of the scalar given: those bits are kept, all others fixed |
| X25519.ScalarBit | src/libc/crypto.cpp:307 | Shift and mask of byte i/8 read bit i of the scalar |
| X25519.DelayedSwaps | src/libc/crypto.cpp:306-318 | Swapping in and out on every bit ends where swapping only on changes of the bit ends |
| X25519.LadderStep | src/libc/crypto.cpp:308-317 | The 18 field operations over reused arrays compute one RFC step and keep all limbs in their bounds |
| X25519.RunLadder | src/libc/crypto.cpp:306-318 | 255 iterations compute the ladder, the bounds being inductive |
| X25519.ScalarMult | src/libc/crypto.cpp:296-323 | For every scalar and point the output bytes are those of the X25519 function of RFC 7748 |
| Montgomery.StepIsDoubling | src/libc/crypto.cpp:308-317 | One ladder step is the doubling of one point and the sum of both on v^2 = u^3 + 486662 u^2 + u, by Montgomery's formulas |
| Montgomery.LadderMultiplies | src/libc/crypto.cpp:306-321 | For every scalar the ladder gives the coordinate of the multiple of the point, defined by doubling and adding on the halves of the scalar |
| StreamHash.PadBlocks | src/libc/crypto.cpp:78-89 | The one or two blocks the finalisation compresses are those of the padded message, at every fill level |
| StreamHash.PadLayout | src/libc/crypto.cpp:80-88 | The padded message is the message, 0x80, the fewest zeros, and the bit count as eight octets that end a block |
| StreamHash.ChainBlock | src/libc/crypto.cpp:66-76 | Each block is compressed with the state the blocks before it left |
| StreamHash.WordsAt | src/libc/crypto.cpp:90 | Word i of the state is octets 4i to 4i + 3 of the digest, high octet first; SHA-1 (159) likewise |
| StreamHash.ChainSplit | src/libc/crypto.cpp:66-76 | Whole blocks may be compressed in any number of calls |
| StreamHash.HashCtx.Update | src/libc/crypto.cpp:66-76 | Absorbing data extends the message by exactly that data; SHA-1 (139-145) is the same machine |
| StreamHash.HashCtx.Final | src/libc/crypto.cpp:78-91 | The output is the one-shot hash of everything absorbed |
| StreamHash.HashCtx.Snapshot | src/libc/tls.cpp:43 | A digest from a copy is the hash so far and leaves the running context as it is |
| StreamHash.InChunks | src/libc/crypto.cpp:59-95 | For any list of chunks, with a snapshot before each, every digest is the one-shot hash of the concatenation so far |
| Ctr.CryptSplit | src/libc/crypto.cpp:417-426 | However a message is split over calls the output is the same |
| Ctr.CryptTwice | src/libc/crypto.cpp:417-426 | Two states at the same position undo each other |
| Ctr.StepCounter | src/libc/crypto.cpp:407-421 | The counter after n steps is iv + n modulo 2^128 |
| Ctr.KeystreamBlock | src/libc/crypto.cpp:417-426 | Sixteen octets of keystream are the cipher of one counter block, whose number is iv + n modulo 2^128 |
| Ctr.CtrState.Process | src/libc/crypto.cpp:417-426 | Byte k is xored with byte k mod 16 of AES(iv + k/16), in place or not, and the position moves by the length |
| Gf128.ProductIsReduced | src/libc/crypto.cpp:431-443 | The block product of NIST SP 800-38D equals the polynomial product reduced by the field polynomial |
| Gf128.ProductAddLeft | src/libc/crypto.cpp:431-443 | The product is linear in its first argument |
| Gf128.ReduceModulus | src/libc/crypto.cpp:437-440 | The constant 0xe1 is the right one: the field polynomial itself reduces to zero |
| Ghash.TimesX | src/libc/crypto.cpp:437-440 | The byte-wise right shift with conditional 0xe1 multiplies by x |
| Ghash.Multiply | src/libc/crypto.cpp:431-443 | The 128-round loop computes the block product |
| Ghash.BlockProductLinear | src/libc/crypto.cpp:431-443 | The product of blocks distributes over the xor of bytes |
| Ghash.OneIsUnit | src/libc/crypto.cpp:431-443 | The block of a one bit in front is the unit of the product, which fixes the order of bits |
| Gcm.GhashData | src/libc/crypto.cpp:445-453 | Data is absorbed in 16-byte blocks, the last one padded with zeros |
| Gcm.CtrLoop | src/libc/crypto.cpp:467-476 | The data is xored with the stream of inc32 counters behind J0 |
| Gcm.Encrypt | src/libc/crypto.cpp:455-489 | Ciphertext and tag are those of authenticated encryption in NIST SP 800-38D |
| Gcm.TagIsGhash | src/libc/crypto.cpp:478-488 | The tag is GHASH of additional data and ciphertext, each filled up to whole blocks, and the lengths, xored with the cipher of the IV and counter one |
| Gcm.LengthHalves | src/libc/crypto.cpp:481-483 | The last block of GHASH holds the bits of additional data in its first half and of ciphertext in its second |
| Gcm.GctrBlock | src/libc/crypto.cpp:462-476 | Block n of the data is xored with the cipher of the IV and the counter n + 2 |
| Gcm.Equal | src/libc/crypto.cpp:599-606 | The constant-time comparison is equality |
| Gcm.Decrypt | src/libc/crypto.cpp:498-535 | Accepts exactly when the tag is that of the data received, then yields the plaintext, otherwise writes nothing |
| Gcm.OpenSeal | src/libc/crypto.cpp:455-535 | Decryption accepts every output of encryption and returns its input |
| TcpStream.CoversSkip | src/libc/network.cpp:943-946 | The two signed comparisons hold exactly when the receive-next number lies inside the segment, at the skip distance |
| TcpStream.Network.SessionOpen | src/libc/network.cpp:1548-1559 | The session starts empty, whatever it was before |
| TcpStream.Network.TcpCompact | src/libc/network.cpp:1630-1637 | The in-place slide keeps the unread bytes and frees the rest |
| TcpStream.Network.AcceptPayload | src/libc/network.cpp:934-960 | The payload branch on buffer and fields is the acceptance function on values |
| TcpStream.Network.HandleTcp | src/libc/network.cpp:914-971 | The handler's new state, acknowledgements included, is the handling function of the old one, for every packet |
| TcpStream.FieldsAt | src/libc/network.cpp:916-923 | Address, ports, both numbers, header length, flags and payload are the octets of the header at their offsets, high octet first |
| TcpStream.FlagBits | src/libc/network.cpp:926-927 | FIN, SYN, RST and ACK are bits 0, 1, 2 and 4 of the flags |
| TcpStream.HandleIgnores | src/libc/network.cpp:924-926 | A segment of another address or port, or of a wrong header length, changes nothing; a reset is noted and nothing else |
| TcpStream.OpenedFor | src/libc/network.cpp:1548-1559 | A new session takes the segments of its peer's address and port to its own port, and has seen nothing |
| TcpStream.Network.TakeBytes | src/libc/network.cpp:1615-1620 | Both readers hand out the next unread bytes and consume them |
| TcpStream.Network.StreamRead | src/libc/network.cpp:1659-1670 | Reading then compacting hands out the next bytes and keeps the others |
| TcpRuns.CoversInWindow | src/libc/network.cpp:942-946 | Within the window, wrap-around included, a payload is taken exactly when it covers the next byte |
| TcpRuns.AcceptInWindow | src/libc/network.cpp:934-957 | The stream grows by exactly the new bytes that fit, or not at all |
| TcpRuns.FinInWindow | src/libc/network.cpp:962-970 | FIN is taken exactly when all data before it has been stored |
| TcpRuns.DataProgress | src/libc/network.cpp:934-970 | How far one segment carries the stream, with strict progress while there is room |
| TcpRuns.DataAnswered | src/libc/network.cpp:934-970 | Every data segment is answered once, and once more when its FIN is taken, the last time with how far the stream reaches |
| TcpRuns.BareChangesNothing | src/libc/network.cpp:936-970 | A segment without payload, SYN or FIN changes nothing, also behind the peer's own FIN |
| TcpRuns.AcksStaySound | src/libc/network.cpp:958-968 | What a segment is answered with stands for a count between what was stored before and after it, a range that pins the 32-bit number |
| TcpRuns.AcksFollow | src/libc/network.cpp:958-968 | Over every run the acknowledgements of each step lie between the counts before and after that step, and none is taken back |
| TcpRuns.OneCount | src/libc/network.cpp:958-968 | In a range of less than 2^32 counts a sequence number stands for one count only |
| TcpRuns.StreamIsExact | src/libc/network.cpp:936-970 | Over every run, bytes read and then unread bytes are a prefix of the peer's stream, and FIN means all of it |
| TcpRuns.AcceptExactly | src/libc/network.cpp:934-957 | Any payload with any number keeps the stream if and only if its bytes from the expected number on, if they reach it and as far as they fit, are the peer's next bytes |
| TcpRuns.OwnBytesExactly | src/libc/network.cpp:934-957 | The same for bytes of the peer's own stream at any age and distance, by their offset modulo 2^32 |
| TcpRuns.FinExactly | src/libc/network.cpp:962-970 | A FIN keeps the stream if and only if it is not taken, is the first and at its end, or is a later one that does not carry the expected number |
| TcpRuns.SegmentExactly | src/libc/network.cpp:934-970 | Both together for every segment of the connection that is no SYN-ACK |
| TcpRuns.WholeSpaceOld | src/libc/network.cpp:942-957 | A duplicate one sequence space old is stored again, and with a different byte the stream is no prefix of the peer's any more |
| TcpReader.ReadStream | src/libc/network.cpp:1659-1670 | Whatever an honest network delivers during the wait, the bytes handed out are the next ones of the peer's stream: the contract the TLS reader relies on |
| TlsRecords.BuildNonce | src/libc/tls.cpp:99-103 | The nonce is the IV xored with the 64-bit record number |
| TlsRecords.NonceInjective | src/libc/tls.cpp:99-103 | Different record numbers below 2^64 have different nonces |
| TlsRecords.NonceNumber | src/libc/tls.cpp:99-103 | Nonce xor IV is the record number, its low octet last |
| TlsClient.NoNonceTwice | src/libc/tls.cpp:99-125 | On the wire every record of a list is sealed under its own number, and no nonce serves two of them below 2^64 |
| TlsClient.TlsClient.SendAll | src/libc/tls.cpp:104-125 | Nor do two sends share one when some are refused or cut off; what each put out is a prefix of its sealed record |
| TlsRecords.StripInner | src/libc/tls.cpp:154-159 | Stripping finds content and type whatever the padding |
| TlsRecords.OpenSealedRecord | src/libc/tls.cpp:104-160 | A sealed record opens to its content and type |
| TlsRecords.SealedLayout | src/libc/tls.cpp:104-125 | Type, version, length, ciphertext and tag stand at their offsets, the header is what is authenticated, and a standard receiver opens the record to content, type and padding |
| TlsClient.ChunksCarry | src/libc/tls.cpp:420-428 | The records of a write carry exactly its data, 1 to 16384 bytes each |
| TlsClient.WritesCarry | src/libc/tls.cpp:420-428 | Any list of writes puts on the wire records that carry their concatenation |
| TlsClient.TlsClient.SendEncryptedRecord | src/libc/tls.cpp:104-125 | What goes out is the sealed record with the next number, which is used up even when the stream refuses the bytes; a record too long for the buffer changes nothing |
| TlsClient.TlsClient.Write | src/libc/tls.cpp:420-430 | What goes out is the wire form of the data's records, numbers consecutive; of a failed write a prefix of it, and never more numbers than records |
| TlsClient.TlsClient.ReadRecord | src/libc/tls.cpp:127-143 | Success takes exactly one record off the stream, however its bytes arrive |
| TlsClient.TlsClient.DecryptRecord | src/libc/tls.cpp:145-160 | Opens the record with the next number, strips it, and counts only what authenticates |
| TlsClient.FirstRecord | src/libc/tls.cpp:127-143 | On an aligned stream the record read is the peer's next one |
| TlsClient.TlsClient.Read | src/libc/tls.cpp:432-455 | Bytes handed out continue the peer's application data, through padding, empty records and post-handshake records; a full read stays aligned, and without forgeries even a reader that lost its place hands out only the next data |
| TlsClient.TlsClient.ReadMany | src/libc/tls.cpp:432-455 | Over any sequence of read sizes, up to the first short read, the bytes read are a prefix of the bytes written, with no assumption on forgeries; without a give-up or an alert they are as many as asked for |
| TlsClient.TlsClient.ReadWritten | src/libc/tls.cpp:420-455 | Reading what any list of writes put on the wire gives a prefix of what was written, and as much as asked for unless a wait gives up |
| TlsClient.TlsClient.ReadOn | src/libc/tls.cpp:432-455 | Over any run of reads and give-ups, lost places included, what is read and what is still owed are together the peer's data, if nothing on the stream passes for a record that is not the peer's |
| TlsClient.TlsClient.ReadPastUpdate | src/libc/tls.cpp:442-452 | Of a peer that changes its keys the client reads what came before the KeyUpdate, and asked for as much as that has all the peer's data if and only if none came behind, without a give-up and with no assumption on forgeries |
| TlsClient.TlsClient.ReadOnPastUpdate | src/libc/tls.cpp:442-452 | Whatever more it asks for, it gets nothing from behind the KeyUpdate, if nothing there passes for a record under the old keys |
| TlsClient.DataBehindUpdate | src/libc/tls.cpp:442-452 | A peer with one byte on each side of a KeyUpdate: two bytes of data, of which one can reach the client |
| TlsFlight.FlightUnique | src/libc/tls.cpp:347-370 | A byte stream starts with at most one flight: the cuts of records cannot matter |
| TlsFlight.MessageLayout | src/libc/tls.cpp:347-352 | Octets 1 to 3 of a handshake message are the number of octets behind them |
| TlsFlight.PeerHandshake | src/libc/tls.cpp:321-345 | However a peer cuts its handshake bytes into records, pads them and puts others between them, those bytes are what the client takes out |
| TlsFlight.AcceptedUnique | src/libc/tls.cpp:347-370 | Messages and transcript of an accepted flight are determined by the handshake stream |
| TlsFlight.VerifyFinished | src/libc/tls.cpp:355-360 | Accepts exactly the first 32 bytes that match the hash of the messages before |
| TlsFlight.FinishedDeparts | src/libc/tls.cpp:355-360 | The check agrees with section 4.4.4 of RFC 8446 if and only if the message has at most 36 bytes or does not begin like a good one |
| TlsFlight.LongFinished | src/libc/tls.cpp:355-360 | A flight that ends in a Finished of 37 bytes is accepted, against the RFC |
| TlsFlight.Reassembly.Add | src/libc/tls.cpp:340-345 | Sliding and appending keep the waiting bytes in order; refusal only when they do not fit |
| TlsFlight.Reassembly.TakeMessages | src/libc/tls.cpp:347-370 | Complete messages are cut off the front and hashed in order, up to a checked Finished |
| TlsFlight.ReadEncryptedFlight | src/libc/tls.cpp:321-373 | Acceptance means the handshake stream has an accepted flight; every refusal says which record or message caused it |
| TlsFlight.Establish | src/libc/tls.cpp:395-416 | Application keys and the client Finished are computed from one transcript that ends with the server Finished |
| TlsFlight.ClientFinishedIsRfc | src/libc/tls.cpp:381-393 | The client Finished is one message that passes a server's check: the HMAC under the key expanded from the client's handshake traffic secret |
| RelayCells.DecodeEncode | src/libc/tor.cpp:379-385 | A relay cell decodes to its command, stream id and data, whatever its digest and padding |
| RelayCells.CellLayout | src/libc/tor.cpp:379-385 | Command, recognized, stream id, digest, length, data and padding stand at the offsets of tor-spec, high octet first |
| RelayCells.DecodedLayout | src/libc/tor.cpp:422-427 | So does the receiver find them in every payload, a length beyond the cell cut to 498 |
| RelayCells.MarkAt | src/libc/tor.cpp:387-392 | The mark is the first four octets of the digest of all own cells and this one, its digest field zero |
| RelayCells.SealIsRecognized | src/libc/tor.cpp:387-393 | Ends with equal digests agree: a sealed cell is recognized and decodes to its message |
| RelayCells.RecognizedExactly | src/libc/tor.cpp:411-420 | Among cells whose length fits, exactly the sealed ones are recognized |
| RelayCells.CoverAt | src/libc/tor.cpp:394-395 | Octet i of a cell meets octet pos + i of a keystream that starts at counter zero |
| OnionLayers.Extend | src/libc/tor.cpp:388-395 | The encrypting end advances by one cell, and what it puts out is that cell of the layer |
| OnionLayers.Peeled | src/libc/tor.cpp:411-431 | The decrypting end in step knows its own cells without fail and passes others on unchanged |
| RelayOutbound.SendKeeps | src/libc/tor.cpp:375-398 | A cell to the last hop keeps every layer in step and nested in the next |
| RelayOutbound.ProcessOne | src/libc/tor.cpp:387-395 | A relay gets its own message in order, or the cell for the next relay |
| RelayOutbound.ProcessKeeps | src/libc/tor.cpp:387-395 | A relay's step keeps both ends of every hop in step |
| RelayOutbound.QuietMeansInStep | src/libc/tor.cpp:375-398 | With nothing on the links each relay is where the client is and has recognized all that was asked |
| RelayInbound.AnswerKeeps | src/libc/tor.cpp:410-431 | A relay that speaks, filling its cell with whatever bytes it likes, keeps the layers in step |
| RelayInbound.ForwardKeeps | src/libc/tor.cpp:410-431 | A relay that passes a cell on under its own layer keeps them in step |
| RelayInbound.PeelReaches | src/libc/tor.cpp:410-435 | Peeling stops exactly at the hop a cell comes from, with that hop's next message |
| RelayInbound.ReceiveDelivers | src/libc/tor.cpp:400-438 | A cell of hop h delivers the first message of h not yet told, and hops beyond h stay unadvanced |
| RelayInbound.ReceiveKeeps | src/libc/tor.cpp:400-438 | Receiving keeps every hop in step |
| RelayInbound.GrowKeeps | src/libc/tor.cpp:465-473 | A new hop starts in step unless a cell from beyond the last hop has already been dropped |
| RelayInbound.QuietMeansInStep | src/libc/tor.cpp:400-438 | With nothing on the links the client is where each relay is and knows all it said |
| TorCircuit.CircuitStaysInStep | src/libc/tor.cpp:351-475 | Over every run of sends, relay steps, receives and extensions messages arrive once, in order, at the right hop; in quiet states positions and digests of both ends are equal |
| TorCircuit.NothingIgnored | src/libc/tor.cpp:458-473 | If EXTENDED2 comes before cells of the new hop, no cell reaches the client from beyond its last hop |
| TorCircuit.OrderIsEnough | src/libc/tor.cpp:438-475 | So the condition on extending holds in every run that keeps that order |
| TorCircuit.OrderedCircuitStaysInStep | src/libc/tor.cpp:351-475 | Every run from the start that keeps that order has messages arrive once, in order, at the right hop, and equal ends in quiet states |
| TorHops.TorHop.constructor | src/libc/tor.cpp:465-471 | A hop starts with both digests seeded and both ciphers at position zero |
| TorHops.TorHop.Stamp | src/libc/tor.cpp:387-392 | The digest is put in and the running digest committed, on the hash objects |
| TorHops.TorHop.Check | src/libc/tor.cpp:413-433 | Accepts exactly a recognized cell; otherwise digest and payload are restored |
| TorClient.TorClient.SendRelayCell | src/libc/tor.cpp:375-398 | Refuses without hops or above 498 bytes and then changes nothing; otherwise digest and ciphers advance and the onion of the sealed message goes out in one cell, of which a failed write leaves a prefix |
| TorClient.TorClient.PeelCell | src/libc/tor.cpp:409-434 | The in-place peel loop is the peeling function |
| TorClient.TorClient.RecvRelayCell | src/libc/tor.cpp:400-438 | What it returns is what listening to the cells it took off the link gives; it fails only by giving up, on DESTROY or after 64 cells, and says where the link then stands |
| TorClient.HearExactly | src/libc/tor.cpp:404-409 | Cells of other circuits and commands are passed over, DESTROY ends the wait, and relay cells of the circuit are peeled |
| TorClient.ListenReceives | src/libc/tor.cpp:402-437 | Listening is receiving relay cells one after another; other cells change nothing |
| TorLink.FrameUnique | src/libc/tor.cpp:224-258 | Cells are a prefix code: a stream starts with at most one |
| TorLink.FrameLayout | src/libc/tor.cpp:204-222 | Circuit id, command, length where there is one, and payload stand in a cell as tor-spec has them |
| TorLink.TorLink.ReadCell | src/libc/tor.cpp:224-258 | Success takes exactly one cell off the stream, cut to the buffer; failure means a read gave up or a fixed cell does not fit, and leaves the stream inside the cell it should have read |
| TorLink.TorLink.SendVarCell | src/libc/tor.cpp:204-213 | A variable cell goes out in the peer's format, of a failed write a prefix of it |
| TorLink.TorLink.SendFixedCell | src/libc/tor.cpp:215-222 | So does a fixed one |
| TorLink.SameFrames | src/libc/tor.cpp:283-293 | Whatever cells there are, client and peer agree on the bytes of the stream if and only if every VERSIONS with a cell behind it settles the same id width by the part the client keeps |
| TorLink.BestIsHighest | src/libc/tor.cpp:285-290 | The version taken is the highest of 3, 4 and 5 that the peer lists, if it lists any |
| TorLink.WidthIsNegotiated | src/libc/tor.cpp:271-292 | Ids are wide if and only if the peer's list and the client's own have a version from 4 on in common |
| TorLink.SameWidth | src/libc/tor.cpp:283-293 | If every VERSIONS does, the client also goes on with the peer's width |
| TorLink.HiddenVersion | src/libc/tor.cpp:286-292 | A well-formed VERSIONS that lists version 3 in all 8192 bytes of the buffer and version 4 behind them makes client and peer frame whatever follows in different widths |
| TorLink.TorLink.LinkHandshake | src/libc/tor.cpp:278-310 | Succeeds only on a flight of at most 24 cells with VERSIONS that ends in NETINFO, and on every such flight unless a read gives up or a write fails; reads exactly that flight across the width switch, and answers in the new width |
| KeyQueue.PressAppends | src/libc/interrupts.cpp:170-181 | An interrupt puts the key behind those that wait, or drops it, exactly when it is no key or 63 are pending |
| KeyQueue.KeysInOrder | src/libc/interrupts.cpp:170-181 | Over every interleaving keys come out once each in the order they went in, none lost |
| KeyQueue.CallReturnsOldest | src/libc/interrupts.cpp:266-273 | A call that starts with a key pending returns the oldest, whatever arrives between its accesses |
| KeyQueue.KeyRing.GetLastKey | src/libc/interrupts.cpp:266-273 | The same for the code on its fields, with interrupts between accesses |
| NicRings.RtlStoreKeeps | src/libc/network.cpp:790-812 | The device never overwrites a slot that waits; it misses a frame exactly when all slots wait |
| NicRings.RtlStepKeeps | src/libc/network.cpp:792-812 | Every access of the driver keeps the ring consistent, EOR on the last slot only |
| NicRings.RtlExactlyOnce | src/libc/network.cpp:790-813 | Over every interleaving acceptable frames are handed on once each, in order |
| NicRings.RtlHandsOn | src/libc/network.cpp:797-803 | A whole frame is handed on without its check sequence; parts and impossible sizes are not |
| NicRings.E1000StoreKeeps | src/libc/network.cpp:501-515 | The device stops one slot before the driver and never overwrites a slot that waits |
| NicRings.E1000ExactlyOnce | src/libc/network.cpp:815-833 | Over every interleaving acceptable frames are handed on once each, in order |
| NicRings.E1000HandsOn | src/libc/network.cpp:821-825 | A whole frame of at least 14 octets is handed on as it is |
| Checksum.Fold | src/libc/network.cpp:170-172 | The fold loop terminates with the residue modulo 65535, zero only for zero |
| Checksum.AddWords | src/libc/network.cpp:162-169 | The 32-bit sum never overflows for any 16-bit length, odd or even |
| Checksum.TotalIsNumber | src/libc/network.cpp:162-168 | The sum of the words is the whole segment as one number, modulo 65535 |
| Checksum.TotalPads | src/libc/network.cpp:168-169 | An odd last octet counts as if a zero came behind it |
| Checksum.StoredMakesZero | src/libc/network.cpp:152-175 | Storing the checksum in its zeroed field makes recomputation return 0 |
| Checksum.AcceptedExactly | src/libc/network.cpp:1398-1418 | Recomputation returns 0 for no other field value, up to the two zeros of one's complement |
| Checksum.TcpChecksum | src/libc/network.cpp:152-160 | The TCP checksum is that of the pseudo-header and the segment |
| Checksum.PseudoHeaderOctets | src/libc/network.cpp:152-157 | The pseudo-header sums both addresses, the protocol and the length as twelve octets |
| Socks.RequestArrives | scripts/socks5_proxy.py:104-119 | However much of a request has arrived, the proxy waits or reads exactly the client's target |
| Socks.GreetingLayout | src/libc/network.cpp:1716-1721 | The greeting as RFC 1928 has it, the login offered exactly with a user name |
| Socks.AuthLayout | src/libc/network.cpp:1740-1744 | The login as RFC 1929 has it, both texts cut to 255 octets |
| Socks.RequestLayout | src/libc/network.cpp:1759-1780 | The request as RFC 1928 has it, address and port high octet first |
| Socks.ReplyLayout | scripts/socks5_proxy.py:68-73 | So does the reply |
| Socks.WantedIsTarget | scripts/socks5_proxy.py:104-119 | What the proxy should be asked for is the target: its name, or else its address, and its port |
| Socks.LetInExactly | scripts/socks5_proxy.py:76-95 | The proxy lets in exactly who names its own user and secret, if it has them |
| Socks.AuthArrives | scripts/socks5_proxy.py:86-93 | Likewise for the login, each text up to 255 bytes |
| Socks.ReplySeen | src/libc/network.cpp:1778-1807 | The reply is complete at ten bytes and says whether the proxy is connected |
| Socks.HandshakeIsExact | src/libc/network.cpp:1709-1809 | Over every run the proxy connects to exactly the client's target, success means it is connected, and exactly the handshake has been consumed |
| Socks.NoDeadlock | src/libc/network.cpp:1709-1809 | Once everything sent has arrived, one of the two ends can move |
| LineEditor.Terminal.CloseGap | src/libc/terminal.cpp:899-919 | The shift to the left removes one character and restores the terminator |
| LineEditor.Terminal.Insert | src/libc/terminal.cpp:957-967 | The shift to the right inserts one |
| LineEditor.Terminal.HandleChar | src/libc/terminal.cpp:877-968 | Buffer, length and caret follow the text-before, text-after editor, capped at 255 |
| LineEditor.Typing | src/libc/terminal.cpp:957-967 | Typing a printable text puts it in front of the caret |
| LineEditor.CaretMoves | src/libc/terminal.cpp:921-932 | The caret keys leave the line alone; left and right undo one another, home and end go to its ends |
| LineEditor.Deletions | src/libc/terminal.cpp:898-919 | Backspace takes back the last key, delete does the same from one place to the left |
| LineEditor.UpRecalls | src/libc/terminal.cpp:934-939 | n times up recalls the n-th line back |
| LineEditor.DownRecalls | src/libc/terminal.cpp:940-946 | n times down comes back, at the end to an empty line |
| LineEditor.History.CopyRow | src/libc/terminal.cpp:859-863 | The copy up to the terminator gives one row the text of another and leaves all others alone |
| LineEditor.History.Add | src/libc/terminal.cpp:844-868 | Rows of 256 characters, moved up one by one when all are taken, hold the remembered list |
| LineEditor.HistoryIsLatest | src/libc/terminal.cpp:844-868 | For every key sequence the history is the last 16 submitted lines without blanks and consecutive repetitions |
| LineEditor.KeptIsRuns | src/libc/terminal.cpp:844-853 | What is kept of all lines is one line for every run of equal lines that are not blank |

## Left out

- The AES block cipher, the SHA-1 and SHA-256 compression functions, HMAC and HKDF: arbitrary functions here, since no layer above needs their insides.
- The group law of the curve (the formulas for doubling and adding are the reference) and any claim of cryptographic strength: only functional refinement is stated.
- Reading ServerHello, certificate validation, ClientHello and ntor computations: the key schedule and the hop keys enter as given functions and states.
- The one-shot TCP openers `sendTcpText` and `tcpRequestRaw`: they do not reset the read position and so do not start the session invariant.
- Re-entry of the packet poll while an acknowledgement waits for ARP, and time: a deadline is an arbitrary decision of any read to give up.
- AcceptInWindow: assumes what an honest peer and network keep, an age below 2^32 and an end at most 2^31 ahead; AcceptExactly is the condition without them.
- IsSynAck: assumes a SYN-ACK without payload, and that none is repeated after the sequence space has gone round once.
- Write: sequence numbers are unbounded and enter the nonce modulo 2^64, as in the code, which does not stop at the limit.
- ReadOn: a reader that has given up inside a record looks for records where none begins; that no such stretch passes the tag check is a hypothesis (`Unforged`), so is the absence of forgeries.
- Read: without that hypothesis nothing is promised once the client has lost its place.
- RecvRelayCell: promises nothing about cells read after a read gave up inside a cell; `part` says how far the link then stands from a cell boundary.
- NoMistake: the chance that a foreign cell passes the 32-bit digest check is excluded by hypothesis.
- DESTROY and PADDING cells as events of the relay system, relays that fail, and the three-hop limit: circuits here have any length and end only at the client.
- Process: a relay at the end of the circuit drops a cell it does not recognize, where a real one would tear the circuit down; no run of the model gets there.
- RtlStore: buffer descriptors keep only ownership, flags, size and contents; register acknowledgements, the transmit rings and the RTL8139 ring are not modelled.
- Scancode translation and polling before the first keyboard interrupt; the interrupt handler is the only producer.
- StepProxy: each of its three reads is one step that waits for a whole message, and a connection that breaks shows only as a client that gives up.
- HandleChar: redrawing, scrolling and the repair of impossible field values.
- DHCP, ARP, DNS, ICMP, the file system, the allocator and the terminal's commands.
