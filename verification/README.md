# Mania, verified

A Dafny model of the protocol core of mania, a QQ protocol client written in Rust: its message cipher, its wire
formats, its request and reply protocol, its streaming hashes, its directory cache and its upload path. Each part is
modelled with the branches, constants and panics of the code, and the properties that its callers rely on are proved for
all inputs and all runs. `dafny verify dfyconfig.toml` checks the whole project.

## How it is organised

| files | part |
|---|---|
| Wrappers, ByteOrder, Quotients, Words, Decimal | shared types, big-endian numbers, wrapping words, decimal account numbers |
| TeaBlock, TeaChain, Tea | the cipher in three layers: block permutation, chaining over any permutation, padding |
| Packet | the length-prefixing builder and the consuming reader |
| SsoPacket, ServerFrame, ClientPacket | parsing server frames, what every frame means, and the packets the client builds |
| Tlv, WtLogin, LoginReply | tag-length-value sets, the login envelope, and the replies inside it |
| Socket | the receive loop of the connection |
| StreamSha1, TriSha1 | the two streaming hashes |
| Sequence, Business | the sequence allocator and the request/reply protocol, as interleaved atomic steps |
| Directory, DirectoryModes, DirectoryLaws, DirectoryRuns, DirectoryCache | the friend and member directory on values, its laws, interleaved refreshes, and the cache class |
| Highway, Silk | the upload frame codec and passes, and the SILK framing with its duration counter |

## Conventions

- Bytes are integers below 256 and words integers below 2^32 or 2^64; wrapping and truncation are written out.
- An operation that can only panic returns an `Option`, whose `None` is the panic; one that can also fail returns an
  `Outcome`. Reading past the end of a buffer is a panic, as it is in the `bytes` crate.
- The closures that the builder and the reader take are trees: `Field` for what is written, `Shape` for what is read.
- Loops and objects of the source are methods and classes, each proved equal to a function on values; the laws are
  lemmas about those functions.
- Random fill bytes, timestamps, sequence numbers, replies of the server and failures of the network are parameters.
- Library code is a parameter: the SHA-1 compression function, zlib inflation, protobuf decoding, MD5, the SILK codec.
- Layouts, constants and formulas that both ends share are also stated on their own: in literal bytes, by binary digit or
  by place value.
- A law that the code does not meet on all inputs is stated with its exact condition: `Packet.WrappedIffFits`,
  `StreamSha1.UpdateEnds`, `TriSha1.SmallFileOverfed`, `Sequence.OneDrawIff`, `Business.PanicIffDropped`,
  `Socket.ReceiveAllIff`, `DirectoryModes.ColdGroupLookup`, `DirectoryModes.ColdFriendLookup`,
  `DirectoryModes.RefreshedFriendLookupIff`, `DirectoryModes.WholeGroupIff`, `DirectoryLaws.ColdFullGroupLookup`,
  `DirectoryLaws.FullFriendLookup`, `Highway.SplitFrameIff`, `WtLogin.EnvelopeLength`, `WtLogin.TransEmpLengths`,
  `Tea.DecryptedImage`.

## Model

| member | source | states |
|---|---|---|
| Words.XorBits | mania/src/core/crypto/tea.rs:33-37 | the exclusive or of the cipher, defined on integers, sets a bit exactly when the two operands differ there |
| Words.XorCancels | mania/src/core/crypto/tea.rs:62-68 | applying an exclusive or twice gives the first operand back |
| ByteOrder.BigEndianRoundTrip | mania/src/core/packet.rs:447-460 | a number that fits its width is read back from its bytes |
| ByteOrder.FromBigEndianRoundTrip | mania/src/core/packet.rs:603-617 | bytes are the encoding of the number they are read as, and that number is below the limit of the width |
| ByteOrder.NetworkOrder | mania/src/core/packet.rs:452-455 | the most significant byte of a u32 is written first |
| ByteOrder.BigEndianAt | mania/src/core/packet.rs:447-460 | byte i of a number of any width is its digit at that place, counted from the most significant one |
| ByteOrder.LittleOrder | mania/src/core/crypto/stream_sha1.rs:20-22 | the least significant byte of a little-endian u32 is written first |
| Words.BitIs | mania/src/core/crypto/tea.rs:101-109 | bit i of a word is its binary digit at that place |
| Words.SameBits | mania/src/core/crypto/tea.rs:101-109 | a word is known from its bits |
| TeaBlock.RoundsInverse | mania/src/core/crypto/tea.rs:101-109 | any number of rounds is undone by the reversed rounds, in both orders, whatever the two mixing functions are |
| TeaBlock.SumEnds | mania/src/core/crypto/tea.rs:116 | the running sum after 16 rounds is the constant TEA_DELTA << 4 that decryption starts from |
| TeaBlock.SumIs | mania/src/core/crypto/tea.rs:102 | the running sum after any n rounds is n times 0x9E3779B9 modulo 2^32 |
| TeaBlock.MixBits | mania/src/core/crypto/tea.rs:103-108 | every bit of the mixed word is the parity of that bit in three sums modulo 2^32: key word and 16 times the other half, that half and the running sum, key word and a 32nd of that half |
| TeaBlock.EncryptTrace | mania/src/core/crypto/tea.rs:93-112 | encryption is a chain of such rounds from the two halves of the block to the two halves of the result |
| TeaBlock.Permutation | mania/src/core/crypto/tea.rs:93-134 | for every key and every block, block decryption and block encryption are inverses of each other, both ways |
| TeaBlock.EncryptBlock | mania/src/core/crypto/tea.rs:93-112 | the loop over a running sum computes the rounds of the specification |
| TeaBlock.DecryptLoop | mania/src/core/crypto/tea.rs:115-134 | the loop that counts the sum down computes the reversed rounds, from the sum of the last round |
| TeaBlock.DecryptBlock | mania/src/core/crypto/tea.rs:115-134 | with 16 rounds and the shifted constant it is the inverse permutation |
| TeaChain.DecryptOfEncrypt | mania/src/core/crypto/tea.rs:61-73 | over any block permutation, any number of blocks and any start vectors, decrypting a chain gives the plaintext blocks |
| TeaChain.EncryptOfDecrypt | mania/src/core/crypto/tea.rs:32-42 | and every ciphertext is the encryption of what it decrypts to |
| TeaChain.EncryptPrefix | mania/src/core/crypto/tea.rs:32-42 | the first n ciphertext blocks depend on the first n plaintext blocks only |
| TeaChain.EncryptChainAt | mania/src/core/crypto/tea.rs:32-42 | each ciphertext block, from the blocks around it: the plaintext block masked by the ciphertext before it goes in, and what comes out is masked by what went in before |
| TeaChain.DecryptPrefix | mania/src/core/crypto/tea.rs:61-73 | the first n plaintext blocks depend on the first n ciphertext blocks only |
| Tea.BlocksRoundTrip | mania/src/core/crypto/tea.rs:24-44 | writing 64-bit blocks as bytes and reading them again gives the blocks |
| Tea.BytesRoundTrip | mania/src/core/crypto/tea.rs:50-77 | reading a multiple of eight bytes as blocks and writing them again gives the bytes |
| Tea.DecryptedOfEncrypted | mania/src/core/crypto/tea.rs:7-83 | over any block permutation, for every text and every fill, decryption recovers the text, and begin_pos is the fill count plus one |
| Tea.RoundTrip | mania/src/core/crypto/tea.rs:7-83 | tea_decrypt undoes tea_encrypt for every text, every 16-byte key and every choice of fill bytes |
| Tea.Encrypted | mania/src/core/crypto/tea.rs:8-11 | the ciphertext is a positive multiple of 8 bytes, of the length that the padding gives it |
| Tea.DecryptedImage | mania/src/core/crypto/tea.rs:79-82 | a ciphertext that decrypts to a text is an encryption of that text, under some fill, exactly when the header bits and the zero trailer, which are not checked, are intact |
| Tea.CiphertextPrefix | mania/src/core/crypto/tea.rs:32-42 | messages that share their first padded blocks share their first ciphertext blocks |
| Tea.PaddedBytes | mania/src/core/crypto/tea.rs:8-20 | the padded message byte by byte: the fill count in the header, the fill, the text, seven zero bytes |
| Tea.CiphertextIs | mania/src/core/crypto/tea.rs:22-46 | the 64-bit blocks of padded message and ciphertext, most significant byte first, are linked by that chain under zero start vectors |
| Tea.BlockTrace | mania/src/core/crypto/tea.rs:93-146 | the block cipher of a key is sixteen of those rounds under its four words, each read from its own four bytes, most significant first |
| Tea.DecryptPanics | mania/src/core/crypto/tea.rs:49-82 | decryption panics exactly on a length that is not a multiple of 8, on fewer than 16 bytes, and on 16 bytes whose header asks for the longest fill |
| Tea.EncryptBlocks | mania/src/core/crypto/tea.rs:26-42 | the in-place loop over the work blocks is the chain of the specification |
| Tea.DecryptBlocks | mania/src/core/crypto/tea.rs:54-73 | the in-place decryption loop is the inverse chain |
| Tea.TeaEncrypt | mania/src/core/crypto/tea.rs:7-47 | the array code that pads, chains and writes back computes the specified ciphertext |
| Tea.TeaDecrypt | mania/src/core/crypto/tea.rs:49-83 | the array code returns the specified text, or nothing exactly where the source panics |
| Packet.PacketBuilder.Patch | mania/src/core/packet.rs:522-533 | patching a length changes the bytes of the prefix and no others |
| Packet.PacketBuilder.Write | mania/src/core/packet.rs:442-587 | for every tree of fields the back-patching builder appends exactly the pure encoding behind what the buffer held, and fails exactly on the trees on which the source panics |
| Packet.PacketBuilder.WriteAll | mania/src/core/packet.rs:442-587 | the same for a chain of builder calls |
| Packet.PacketReader.Walk | mania/src/core/packet.rs:598-690 | the consuming reader returns the value that the pure reader describes and leaves the bytes it leaves, and fails exactly when it panics |
| Packet.PacketReader.Enter | mania/src/core/packet.rs:666-690 | entering a section splits off exactly its bytes |
| Packet.ReadOfEncode | mania/src/core/packet.rs:491-690 | reading the encoding of a tree whose lengths fit, with anything behind it, gives the values of the tree and stops exactly at its end; a reader may leave part of a section unread |
| Packet.ReadOfEncodeAll | mania/src/core/packet.rs:491-690 | the same for the body of a section, with the bytes left unread |
| Packet.FitsDoesNotPanic | mania/src/core/packet.rs:539-587 | a tree whose lengths fit is built without a panic |
| Packet.SectionLength | mania/src/core/packet.rs:539-560 | the length of an outermost section counts the whole packet |
| Packet.WrappedIffFits | mania/src/core/packet.rs:491-587 | a byte string survives its length prefix exactly when the length that is written fits; otherwise it is cut silently |
| Packet.WrappedPanics | mania/src/core/packet.rs:491-587 | a frame around a byte string panics exactly on an unknown prefix, and in section_16 on a length above 65535 |
| Packet.FrameBytes | mania/src/core/packet.rs:491-587 | every byte of the three frames around any body: the length, wrapped to its width, then the body |
| Packet.SectionRead | mania/src/core/packet.rs:635-664 | a section whose length does not count its own prefix, or more than is there, panics; any other is split off at its exact end |
| Packet.CountedPrefixRead | mania/src/core/packet.rs:650-690 | a length that counts its own prefix is taken off again |
| ClientPacket.Request13Recovered | mania/src/core/packet.rs:263-290 | a protocol 13 request whose lengths fit is built without a panic, and a reader of its layout gets every field back |
| ClientPacket.Request12Recovered | mania/src/core/packet.rs:200-261 | the same of protocol 12: header and body are built without a panic and recovered from behind the session encryption |
| ClientPacket.OutermostIsPacket | mania/src/core/packet.rs:242-261 | every built packet up to 64 MiB is one frame of the connection |
| ClientPacket.Bytes13 | mania/src/core/packet.rs:263-290 | every byte of a protocol 13 packet |
| ClientPacket.BodyBytes12 | mania/src/core/packet.rs:200-241 | every byte of the part of a protocol 12 packet that is encrypted |
| ClientPacket.Bytes12 | mania/src/core/packet.rs:242-261 | every byte around it |
| SsoPacket.ParsePacket | mania/src/core/packet.rs:292-363 | the two-reader parser returns what the pure parser returns: packet, error or panic |
| SsoPacket.ParseSso | mania/src/core/packet.rs:321-362 | the same for the half behind the authentication flag, with the rebuilt length of an inflated body |
| Decimal.ParseOfDecimal | mania/src/core/packet.rs:303-304 | the decimal text of an account number parses to that number |
| Decimal.LastDigit | mania/src/core/packet.rs:242-261 | decimal text is built digit by digit |
| Decimal.ParseDigits | mania/src/core/packet.rs:303-304 | a digit is its value, and one more digit behind a number counts exactly when the result fits 32 bits |
| Decimal.ParseRejects | mania/src/core/packet.rs:303-304 | one leading plus sign is ignored, and nothing but digits behind it, at least one, is accepted |
| ServerFrame.ParseOfFrame | mania/src/core/packet.rs:292-363 | parsing any well-formed server frame gives its meaning: the first applicable of five errors in the order of the code, or the packet, for every authentication flag and for compressed and plain bodies |
| ServerFrame.ParseBodyOf | mania/src/core/packet.rs:321-362 | parsing the body of a frame finds its sequence, command and content, or the failed return code |
| ServerFrame.UnlockOf | mania/src/core/packet.rs:311-318 | flags 0, 1 and 2 give the same body back from plain, session-key and zero-key encryption |
| ServerFrame.RebuiltIsSection | mania/src/core/packet.rs:335-343 | an inflated body with its rebuilt length is a valid section |
| ServerFrame.PayloadRecovered | mania/src/core/event.rs:73-81 | parse followed by resolve_event recovers sequence, command and payload of every successful frame of the account, for all three flags, compressed or not |
| ServerFrame.ReturnCode | mania/src/core/packet.rs:324-362 | a frame that carries any code other than 0 between -2^31 and 2^31 as the u32 congruent to it is rejected with exactly that code |
| ServerFrame.EventWithoutPayload | mania/src/core/event.rs:73-81 | the payload section is read before the command is looked up, so without one there is a panic |
| Tlv.SerializeSet | mania/src/core/tlv.rs:152-159 | the serialisation loop appends the count and every entry, and of the given values panics exactly on one longer than 65535 bytes |
| Tlv.WriteTlv | mania/src/core/tlv.rs:280-286 | one entry is its tag and its length-prefixed value |
| Tlv.Deserialize | mania/src/core/tlv.rs:211-245 | the counted loop over a shared reader returns what the pure decoder of a set returns, for both tables |
| Tlv.ReadTlv | mania/src/core/tlv.rs:191-209 | one entry is read, or skipped when its tag is unknown, as the pure decoder does |
| Tlv.ExpirationRecovered | mania/src/core/tlv/t01cq.rs:8-14 | the fields of tag 0x01c are read back, whatever follows them |
| Tlv.NoticeRecovered | mania/src/core/tlv/t146.rs:10-18 | the fields of tag 0x146 are read back, whatever follows them |
| Tlv.SelfInfoRecovered | mania/src/core/tlv/t11a.rs:11-25 | the fields of tag 0x11A are read back, whatever follows them |
| Tlv.DeserializeTlvOf | mania/src/core/tlv.rs:191-209 | reading an entry stops at its exact end whether its tag is unknown, its value does not decode, or bytes of it are left over |
| Tlv.SetRoundTrip | mania/src/core/tlv.rs:211-245 | decoding a framed set of at most 65535 entries gives the winners of its supported tags, and panics exactly when some entry on its own does |
| Tlv.WinnersAre | mania/src/core/tlv.rs:219-226 | a tag is in the result exactly when an entry of it decodes, and its value is that of the last such entry |
| Tlv.TagTable | mania/src/core/tlv.rs:191-280 | what each tag of the two tables decodes to, and that every other tag is unsupported |
| Tlv.WinnerIsLast | mania/src/core/tlv.rs:219-226 | the last entry of a tag wins, and a tag without an entry is missing |
| Tlv.TooFewEntries | mania/src/core/tlv.rs:211-245 | a set that ends before its count is reached panics |
| Tlv.EncryptedSetRoundTrip | mania/src/core/tlv/t144.rs:9-23 | the same holds of a set that travels through tea_encrypt and tea_decrypt |
| WtLogin.EnvelopeLength | mania/src/core/event/login/trans_emp.rs:272-300 | the u16 at offset 1 of build_wtlogin_packet counts the whole packet exactly when the packet is shorter than 65536 bytes |
| WtLogin.BuildEnvelope | mania/src/core/event/login/trans_emp.rs:272-300 | the builder never panics here and produces the specified envelope around the encrypted body |
| WtLogin.TransEmpLengths | mania/src/core/event/login/trans_emp.rs:240-269 | each u16 length of build_trans_emp_body is the length of the inner packet or of the request body exactly when that length fits |
| WtLogin.ParseEnvelope | mania/src/core/event/login/trans_emp.rs:303-332 | the stepping reader opens an envelope as the pure function does, with both error cases and the panics |
| WtLogin.OpenOfEnvelope | mania/src/core/event/login/trans_emp.rs:303-332 | opening what a server encrypts gives the body back |
| WtLogin.Markers | mania/src/core/event/login/trans_emp.rs:303-331 | both marker bytes of an envelope are checked, the first one first, around fifteen skipped bytes |
| WtLogin.TooShort | mania/src/core/event/login/trans_emp.rs:303-323 | an envelope that ends before its second marker panics once its first one is right |
| WtLogin.EnvelopeBytes | mania/src/core/event/login/trans_emp.rs:272-300 | every byte of build_wtlogin_packet |
| WtLogin.InnerBytes | mania/src/core/event/login/trans_emp.rs:240-253 | every byte of the inner packet of build_trans_emp_body |
| WtLogin.TransEmpBytes | mania/src/core/event/login/trans_emp.rs:255-269 | every byte around it: timestamp, length, application and the two empty sections |
| LoginReply.ParseReply | mania/src/core/event/login/trans_emp.rs:141-237 | the parser of a trans_emp reply, with its nested readers, is the pure one |
| LoginReply.QrImageRecovered | mania/src/core/event/login/trans_emp.rs:156-188 | a QR code reply gives back its signature and the winning values of its set, or the first missing tag |
| LoginReply.ConfirmedRecovered | mania/src/core/event/login/trans_emp.rs:193-218 | a confirmed login gives back the winning values of its set, or the first missing tag |
| LoginReply.QrImageFromEntries | mania/src/core/event/login/trans_emp.rs:156-188 | a QR code reply, from the bytes of its entries: image, seconds, last readable message and signature, each in its place, or the first missing tag |
| LoginReply.ConfirmedFromEntries | mania/src/core/event/login/trans_emp.rs:193-218 | a confirmed login, from the bytes of its entries: each value in its place, or the first missing tag |
| LoginReply.StateCodes | mania/src/core/event/login/trans_emp.rs:219-226 | the other states of a QR code, by the byte the server sends |
| LoginReply.ShortReplies | mania/src/core/event/login/trans_emp.rs:141-154 | replies too short for what is read in front of their answer panic |
| LoginReply.TransEmpRouted | mania/src/core/event/login/trans_emp.rs:146-236 | an answer is routed by its command, and an unknown command is an error |
| LoginReply.LoginRecovered | mania/src/core/event/login/wtlogin.rs:36-101 | a successful login reply sets up the session that its inner set describes, with its new tgtgt key, through both layers of encryption |
| LoginReply.LoginFromEntries | mania/src/core/event/login/wtlogin.rs:36-101 | what a login comes to, from the last entry of each tag of its inner set: the first missing one in order, a panic on a d2 key that is not 16 bytes long, or the session with every value in its place |
| LoginReply.RefusalRecovered | mania/src/core/event/login/wtlogin.rs:102-110 | a refused login gives back its code and the message of the winning notice, or the missing tag |
| LoginReply.RefusalFromEntries | mania/src/core/event/login/wtlogin.rs:102-110 | the message of a refusal, from the bytes of the last notice of its set |
| LoginReply.LoginEndToEnd | mania/src/core/event/login/wtlogin.rs:36-103 | the same over the whole way: server frame, SSO packet, event payload, envelope, encrypted set, session from the entries |
| Socket.RecvLoop | mania/src/core/socket.rs:93-111 | the receive loop delivers the packets that the pure framing of the stream gives, and stops where it stops |
| Socket.ReceiveAll | mania/src/core/socket.rs:93-110 | packets of 4 bytes to 64 MiB are delivered whole and in order, with their length restored, whatever follows them |
| Socket.DeliversPackets | mania/src/core/socket.rs:93-110 | on any stream, everything that is delivered is a packet that states its own length |
| Socket.SectionIsPacket | mania/src/core/packet.rs:539-560 | what an outermost section builds is such a packet |
| Socket.OversizedNotDrained | mania/src/core/socket.rs:97-100 | the body of an oversized packet stays in the stream |
| Socket.OversizedBody | mania/src/core/socket.rs:97-100 | all packets inside the body of an oversized one are delivered as if they had been sent on their own |
| Socket.ReceiveAllIff | mania/src/core/socket.rs:93-110 | packets that state their own length are all delivered, in order and to the end of the stream, exactly when none is larger than 64 MiB |
| Socket.HowItEnds | mania/src/core/socket.rs:93-110 | a length below 4 panics, and a packet or length that never becomes whole is never delivered |
| StreamSha1.Core.Update | mania/src/core/crypto/stream_sha1.rs:27-33 | feeding the eager block buffer keeps state, buffer and block count those of the message so far |
| StreamSha1.Core.Finalize | mania/src/core/crypto/stream_sha1.rs:35-47 | the digest is the one-shot SHA-1 of the message, in one or two padded blocks |
| StreamSha1.PaddingBytes | mania/src/core/crypto/stream_sha1.rs:37-41 | the padding is a one bit, zeros and the number of bits in eight bytes, and fills whole blocks in the shortest way |
| StreamSha1.FoldAppend | mania/src/core/crypto/stream_sha1.rs:27-33 | compressing in two parts goes through the state and the leftover of the first part |
| StreamSha1.StreamSha1.Update | mania/src/core/crypto/stream_sha1.rs:72-85 | update takes a snapshot at every full block and its recursion terminates |
| StreamSha1.StreamSha1.Finalize | mania/src/core/crypto/stream_sha1.rs:87-91 | the snapshots of all whole blocks and then the SHA-1 of everything are returned |
| StreamSha1.DigestChunks | mania/src/core/crypto/stream_sha1.rs:50-91 | for every block size and every chunking the digests are those of the data in one piece |
| StreamSha1.SnapshotBytes | mania/src/core/crypto/stream_sha1.rs:18-24 | byte i of word w of snapshot j is the i-th byte, from the least significant, of that word of the state after j + 1 blocks of data |
| StreamSha1.DigestBytes | mania/src/core/crypto/stream_sha1.rs:42-46 | the last result is the state after the padded data, most significant byte of each word first |
| StreamSha1.FirstSnapshot | mania/src/core/crypto/stream_sha1.rs:11 | the state starts from the five constants of SHA-1 |
| StreamSha1.FoldBlock | mania/src/core/crypto/stream_sha1.rs:27-33 | one whole block is one call of the compression function |
| StreamSha1.UpdateEnds | mania/src/core/crypto/stream_sha1.rs:72-85 | the recursion of update ends exactly when the block size is not 0 |
| TriSha1.RangesOf | mania/src/core/crypto/tri_sha1.rs:13-24 | the ranges are in order and disjoint |
| TriSha1.SelectNext | mania/src/core/crypto/tri_sha1.rs:34-41 | the slice of one more range goes behind what the earlier ranges select from a chunk |
| TriSha1.TriSha1.Update | mania/src/core/crypto/tri_sha1.rs:31-43 | one update feeds exactly the bytes of the chunk that lie in a range, once each and in file order |
| TriSha1.HashChunks | mania/src/core/crypto/tri_sha1.rs:13-49 | for every chunking the hasher gets the bytes in the ranges and then the size; of a file of the announced size, its sample |
| TriSha1.SelectIsSample | mania/src/core/crypto/tri_sha1.rs:14-24 | the sample of a large file is its first, middle and last 10 MiB, 30 MiB in all; at 30 MiB and below it is the file |
| TriSha1.RangesInside | mania/src/core/crypto/tri_sha1.rs:18-22 | the ranges of a large file lie inside it |
| TriSha1.SmallFileOverfed | mania/src/core/crypto/tri_sha1.rs:16 | the inclusive end of the small range takes one byte too many exactly when more than the file is fed |
| TriSha1.LargeFileIgnoresRest | mania/src/core/crypto/tri_sha1.rs:18-22 | what is fed behind a large file is not hashed |
| TriSha1.SizeBytesAt | mania/src/core/crypto/tri_sha1.rs:46-47 | the eight bytes of the size, in the byte order of the machine |
| Sequence.NumbersAreFresh | mania/src/core/packet.rs:163-179 | in every interleaving of any number of threads, while fewer than 2^32 - 9900000 calls have returned, one offset at most is drawn and the numbers are contiguous from it, distinct and never 0 or 1 |
| Sequence.RunKeepsInv | mania/src/core/packet.rs:163-179 | the invariant of the allocator holds after every run |
| Sequence.OneDrawIff | mania/src/core/packet.rs:163-179 | that bound is exact: with that many calls there is a run that draws twice |
| Business.RunKeepsInv | mania/src/core/business.rs:241-314 | the invariant of allocator, pending map, reply channels and tasks holds after every run, in which posts fail or panic and callers give up at any time |
| Business.PendingIsExact | mania/src/core/business.rs:257-311 | the pending keys are exactly the numbers of the requests inserted and not yet removed |
| Business.FirstReplyFindsEntry | mania/src/core/business.rs:257-313 | from its insertion on, the first packet with its number finds the entry of a request, even before its post returns |
| Business.AnsweredByOwnSequence | mania/src/core/business.rs:241-258 | an answer comes from a packet with the request's own sequence number |
| Business.SentOnce | mania/src/core/business.rs:257-258 | only one task ever takes out the entry of a request, and it sends once at most |
| Business.WaiterIsServed | mania/src/core/business.rs:308-314 | a waiting receiver always has its entry pending, its sender in the hands of a task, or its result |
| Business.PanicIffDropped | mania/src/core/business.rs:257-258 | over every run a dispatch task has panicked exactly when it held an entry whose receiver a failed or panicking post, or a caller that gave up, had dropped before the send |
| Business.NoDropNoPanic | mania/src/core/business.rs:257-258 | in a run in which no receiver is dropped no dispatch task panics |
| Business.TimeoutOrAnswer | mania/src/core/operation/wt_op.rs:126-184 | any waiting request is one late reply from a panic if its caller times out, and from its answer if not |
| Business.LateReplyPanics | mania/src/core/operation/wt_op.rs:126-184 | there is a run from the start of the process in which every post succeeds and a task panics on a reply behind the timeout |
| Business.DroppedEntryStays | mania/src/core/business.rs:311-312 | the entry of a request whose receiver is gone stays in the map, and only the arrival of a packet with its number takes it out |
| Business.FailedPostPanics | mania/src/core/business.rs:301-313 | a post that fails or panics is one reply away from a panic of the dispatch task |
| Business.PushIsNotAnswered | mania/src/core/business.rs:278-281 | a pushed event leaves no entry, so a packet with its number answers nobody |
| Directory.New | mania/src/core/cache.rs:21-57 | each mode sets up the maps it has and no others, all empty |
| Directory.FailedRefreshKeepsLists | mania/src/core/operation/cache_op.rs:182-217 | a refresh that fails, even midway, leaves the cached friends and groups unchanged |
| Directory.PrepareKeepsMode | mania/src/core/operation/cache_op.rs:20-36 | the refreshes in front of a lookup keep the shape of the directory |
| DirectoryRuns.IndexesAreInverse | mania/src/core/operation/cache_op.rs:160-292 | in Full mode, if all records come from one bijection, after any interleaving of the pages of any number of refreshes, failed ones included, the two indexes are mutual inverses inside it that cover every cached friend and member |
| DirectoryRuns.LoneRefresh | mania/src/core/operation/cache_op.rs:182-217 | the page steps of a friend refresh that meets no other add up to the refresh of the specification, also when a page stops it |
| DirectoryRuns.LoneMembersRefresh | mania/src/core/operation/cache_op.rs:267-292 | the same of a group refresh |
| DirectoryLaws.FriendsKeepInv | mania/src/core/operation/cache_op.rs:182-217 | one friend refresh, failed or not, keeps that |
| DirectoryLaws.MembersKeepInv | mania/src/core/operation/cache_op.rs:267-292 | one group refresh keeps that |
| DirectoryLaws.RefreshIndexes | mania/src/core/operation/cache_op.rs:187-210 | a friend refresh indexes every friend it reaches before it fails, and nobody else |
| DirectoryLaws.FullRoundTrip | mania/src/core/operation/cache_op.rs:15-91 | a successful uin2uid agrees with the bijection, and uid2uin of its result gives the number back |
| DirectoryLaws.ColdFullGroupLookup | mania/src/core/operation/cache_op.rs:21-37 | a Full-mode lookup in a group that is not cached equals the direct search, in both directions, exactly when the group lists the account or the index does not know it |
| DirectoryLaws.FullFriendLookup | mania/src/core/operation/cache_op.rs:21-37 | a Full-mode friend lookup equals the direct search, in both directions, exactly when the index knows the account just when the server lists it as a friend, and always on a cold cache |
| DirectoryModes.SearchIsFind | mania/src/core/operation/cache_op.rs:241-265 | the early-exit search finds what a search of all pages together finds, and a failure counts only before a hit |
| DirectoryModes.ColdGroupLookup | mania/src/core/operation/cache_op.rs:93-158 | a cold Half-mode group lookup equals the direct search, in both directions, exactly when no page fails or the search finds nothing |
| DirectoryModes.RefreshedFriendLookupIff | mania/src/core/operation/cache_op.rs:182-239 | in Half mode after a refresh a friend lookup equals the direct search exactly when the last record of the account number agrees with its first, and the reverse lookup exactly when the identifier has one holder |
| DirectoryModes.RefreshedFriendLookup | mania/src/core/operation/cache_op.rs:182-239 | so both equal the direct search when account numbers and identifiers always come together in the records |
| DirectoryModes.ListedTwice | mania/src/core/operation/cache_op.rs:203 | a number listed with two identifiers is answered with the last by the cache and with the first by the search |
| DirectoryModes.RefreshedFriend | mania/src/core/operation/cache_op.rs:187-216 | a refresh stores the last record of every account number, with the name of its group from the latest page so far that names it |
| DirectoryModes.RefreshedNobodyElse | mania/src/core/operation/cache_op.rs:211-215 | and nobody who is on no page |
| DirectoryModes.RefreshedGroup | mania/src/core/operation/cache_op.rs:267-292 | a group refresh stores the members of all pages in order and leaves friends and other groups alone |
| DirectoryModes.ColdFriendLookup | mania/src/core/operation/cache_op.rs:20-37 | after any run of lookups a new Half-mode cache knows no friend, so a friend lookup equals the direct search, in both directions, exactly when no page lists the friend and none fails |
| DirectoryModes.WarmLookup | mania/src/core/operation/cache_op.rs:20-37 | a lookup whose group is cached, with an index that is not empty, asks the server for nothing: whatever it would answer, directory and result are the same, in both directions |
| DirectoryModes.WarmGroupLookup | mania/src/core/operation/cache_op.rs:93-147 | it answers with the index or with the first record in the cached list, in both directions |
| DirectoryModes.WarmFriendLookup | mania/src/core/operation/cache_op.rs:114-157 | outside a group it answers with the index or with a cached friend |
| DirectoryModes.WholeGroupIff | mania/src/core/operation/cache_op.rs:355-361 | listing a group without a cache keeps the last page only: it is the whole group exactly when all earlier pages are empty |
| DirectoryCache.Cache.InsertUinUid | mania/src/core/cache.rs:59-66 | both index maps are updated in place |
| DirectoryCache.Cache.RefreshFriendsCache | mania/src/core/operation/cache_op.rs:182-217 | the paging loop, which terminates on the remaining pages, changes the maps as the specification does, on failures too |
| DirectoryCache.Cache.RefreshGroupMembersCache | mania/src/core/operation/cache_op.rs:267-292 | the same for a group |
| DirectoryCache.Cache.ResolveUin2UidWithinCache | mania/src/core/operation/cache_op.rs:93-124 | the lookup within the cache: index, then group, then friends |
| DirectoryCache.Cache.ResolveUid2UinWithinCache | mania/src/core/operation/cache_op.rs:126-158 | the reverse lookup; friends are searched in any order |
| DirectoryCache.Cache.LookUpUid | mania/src/core/operation/cache_op.rs:15-47 | uin2uid changes the maps and answers as specified, in all three modes |
| DirectoryCache.Cache.LookUpUin | mania/src/core/operation/cache_op.rs:56-84 | uid2uin does, up to the order in which friends are searched |
| DirectoryCache.Cache.FastFetchGroupMembersUid | mania/src/core/operation/cache_op.rs:294-309 | the early-exit paging loop is the direct search |
| DirectoryCache.Cache.FastFetchGroupMembersUin | mania/src/core/operation/cache_op.rs:311-326 | the same in the other direction |
| DirectoryCache.Cache.FastFetchFriendsUid | mania/src/core/operation/cache_op.rs:219-230 | the same for friends |
| DirectoryCache.Cache.FastFetchFriendsUin | mania/src/core/operation/cache_op.rs:232-239 | the same for friends in the other direction |
| DirectoryCache.Cache.FetchUncachedGroup | mania/src/core/operation/cache_op.rs:355-361 | the map that is built without a cache ends up with the last page of the group |
| Highway.Encode | mania/src/core/highway/hw_frame_codec.rs:26-34 | encode appends the frame to the buffer |
| Highway.Decode | mania/src/core/highway/hw_frame_codec.rs:41-63 | decode returns and consumes what the specification says, on every buffer |
| Highway.DecodeOfEncode | mania/src/core/highway/hw_frame_codec.rs:26-63 | decoding a whole frame returns it and leaves exactly what follows it |
| Highway.DecodeOfFrames | mania/src/core/highway/hw_frame_codec.rs:26-63 | any frames that arrive whole come out in order and the buffer ends empty |
| Highway.FrameMarkers | mania/src/core/highway/hw_frame_codec.rs:26-63 | every byte of a frame, and that the same layout between other markers is an error that consumes it |
| Highway.SplitFrameIff | mania/src/core/highway/hw_frame_codec.rs:46-52 | a frame that arrives in any number of pieces, with a call after each, comes out exactly when the pieces before the last are together shorter than 10 bytes, since later calls lose the header |
| Highway.Stream.ReadStream | mania/src/core/highway/hw_client.rs:104-112 | a read takes a whole chunk, or what is left of the file |
| Highway.UploadPass | mania/src/core/highway/hw_client.rs:207-226 | a pass sends the specified chunks in order, up to the chunk or the reply that fails, and succeeds exactly when none does |
| Highway.WholePass | mania/src/core/highway/hw_client.rs:239-243 | for a file of the announced size the bodies are not empty, start where the ones before end, and add up to the file |
| Highway.CutPass | mania/src/core/highway/hw_client.rs:215-226 | a pass that is cut short has sent a prefix of the file, tiled the same way |
| Highway.Upload | mania/src/core/highway/hw_client.rs:179-197 | the upload sends the whole file in its TCP pass or, after a failed connection or pass, again from the start in its HTTP pass |
| Silk.Encode | mania-codec/src/audio/encoder/silk_encoder.rs:101-131 | the chunk loop writes the header and one framed block for every whole frame, and stops on a codec error |
| Silk.EncodedIs | mania-codec/src/audio/encoder/silk_encoder.rs:101-131 | the whole output, however long the samples: ten header bytes and one block for every whole frame, low length byte first, or the code of the first frame that fails |
| Silk.LowRatePanics | mania-codec/src/audio/encoder/silk_encoder.rs:104-107 | the encoder panics exactly on a rate below 1000 |
| Silk.CountBlocks | mania/src/core/operation/highway_op.rs:650-658 | the counter terminates on any input within its bounds, with the specified count and cursor |
| Silk.CounterAgrees | mania/src/core/operation/highway_op.rs:649-659 | in the encoder's output the counter counts floor(bytes / frame size) blocks and its cursor ends at the end of the data |
| Silk.CountBound | mania/src/core/operation/highway_op.rs:650-658 | on any data the counter counts at most one block for every two bytes and ends behind the last readable length |

## Left out

- Strings are byte strings: the lossy UTF-8 conversion of `PacketReader::string` is not modelled, so commands and
  account texts are compared as bytes.
- Memory orderings of the allocator: its operations are on one atomic location, where all threads agree on one order.
- Sequence.NumbersAreFresh: assumes fewer than 2^32 - 9900000 returned calls, because the counter wraps; Sequence.OneDrawIff shows that bound is exact.
- Business: `resolve_event` and the event handlers are one step of a dispatch task; handler effects and the reconnecting lock are not modelled.
- StreamSha1.Core.Finalize: the bit length is cut to 64 bits in code and specification alike, so beyond 2^61 bytes it is not the SHA-1 of the standard.
- TriSha1.HashChunks: the SHA-1 hasher is the byte string fed to it, because its library is not part of this model; u64 overflow of the offset is not modelled.
- DirectoryCache.Cache.RefreshFriendsCache: the clear and re-insert at the end of a refresh is one step, so a lookup between the two is not modelled.
- DirectoryRuns.IndexesAreInverse: taking in one page of a refresh is one step, so two threads inside the index at the same time are not modelled.
- DirectoryLaws.ColdFullGroupLookup: only a lookup whose requests succeed is compared with the search; one whose refresh fails returns that error.
- DirectoryLaws.FullFriendLookup: the same, and the pages of the search do not fail either.
- Tlv.SerializeSet: the values of the entries are given; the panics on a tag without a constructor (tlv.rs:155) and on a missing temp password (t106.rs:34) come before a value exists and are not modelled.
- The cached branches of `fetch_maybe_cached_group_members` and `fetch_maybe_cached_friends` run a caller's closure over the maps behind the refreshes modelled here, and are not modelled themselves.
- Highway.UploadPass: the protobuf head of a frame is reduced to its offset and length; MD5, addresses, HTTP and replies other than success or failure are not modelled.
- Silk.CountBlocks: the scaling of the block count to seconds is floating-point arithmetic and is not modelled.
- WtLogin.BuildEnvelope: build_trans_emp_body and the tag values taken from the context are not built step by step; only the layout and the lengths are modelled.
- Socket.RecvLoop: the channel to the receiver never closes, and a stream is a finite byte string; reading in small pieces is the library's.
- Message entities, OIDB events, push messages, QR polling, reconnecting, heartbeat, signing, image and audio decoding: field copying, timers and input or output.
