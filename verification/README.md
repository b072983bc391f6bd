# A verified model of v2ray-rust

v2ray-rust relays TCP streams and UDP datagrams through chains of proxies. Its difficult code is of four kinds, and all
four are modelled and proved here.

1. **Framed, encrypted streams that can be suspended anywhere** (Shadowsocks TCP, VMess, Trojan UDP). Readers and writers
   are hand-resumed generators over a transport that may stall, take part of a write, or cut a stream at any byte.
   `Framing` gives the meaning of a byte string (`Decode`) and the invariant of a suspended reader (`Resumes`);
   `ChunkReader` and `ChunkWriter` are the theory of a reader and a writer of sealed chunks as resumable machines, `Offers`
   that of an application handing its bytes to such a writer;
   `ShadowsocksTcp`, `VmessBody`, `VmessStream` and `TrojanStream` hold the classes, step by step as in the source.
   `ShadowsocksSession`, `VmessSession` and `TrojanSession` join a writer, a channel and a reader. The main results are end
   to end: for every schedule of the transport and of the polls, what a reader has delivered is a prefix of what was
   written, and all of it once the wire is drained; and from every state so reached in which neither end has failed, a
   transport that is ready whenever it is asked gets the rest through in finitely many polls.
2. **An array-encoded trie for CIDR routing** (`Bits`, `IpTrie`, `GeoIp`): insertion and lookup on three parallel vectors
   agree with "longest matching rule, and among those the latest", for a trie of any width and a walk from any bit.
3. **The compilation of proxy chains** (`Chain`, `ChainBuilder`, `UdpRoute`): every chain of configured nodes becomes
   layers that tunnel to the address asked for; and of the layers built for UDP, it is decided for every chain whether a
   datagram sent through them reaches its target.
4. **Stateful helpers**: the ping-pong replay filter (`ReplayWindow`), the nested HMAC of the VMess key derivation
   (`Kdf`), the address codec and the formats built on it (`Utf8`, `Address`, `Socks5Udp`, `TrojanRequest`, `TrojanUdp`), the
   counting nonce (`Aead`), UDP packets opened in place (`ShadowsocksUdp`) and the relay loop (`Relay`).

What goes over the wire, and what is made of it, is also stated byte by byte in the numbers of the protocols (`Address.WireBytes`,
`ShadowsocksTcp.FrameBytes`, `VmessStream.AcceptedIff`, `Kdf.KeyBlockBytes` and their like), so that no law rests on a constant
alone.

`dafny verify dfyconfig.toml` checks everything.

## What is assumed

- An AEAD under one key is a pair of functions with `Aead.Sound`: opening undoes sealing, a sealed text is 16 bytes longer
  than the plain one, an opened text 16 bytes shorter (`Aead.SoundIs`; `Aead.SoundExists` shows that there are such
  pairs). Nothing is assumed about forgeries. The key derivation of a Shadowsocks session is a function from salt to
  cipher. SHA-256 is a function with 32-byte results, and the HMAC library is taken to be HMAC over it. The hash functions
  of a Bloom filter are any function from salts to sets of bits.
- A transport is a `Pipe.Channel`. Two lists of turns, `turns` for the reader and `pushes` for the writer, decide what each
  poll does - stall, fail, or move at most so many bytes - and the contracts hold for all lists, which covers every
  fragmentation and every partial write. A turn is faulty if it makes a write fail or take nothing; what a writer says of
  its failures is stated in terms of the faulty turns it used (`Pipe.Used`, `Pipe.Faulty`). A reader or writer may report a
  stall or a transport error only if its last poll of the transport ended so, and may not report a stall without having
  polled (`Pipe.Honest`, `Pipe.Polled`). For progress, a poll finds turns that start by moving at least one byte and hold no
  fault (`Pipe.Healthy`); between polls a transport may be supplied with others (`Pipe.Channel.Supply`).
- The generator macro of the source is not part of this model. Its meaning is taken to be: `co_await` returns `Pending` and
  evaluates its expression again on the next poll; `co_yield` returns and resumes behind itself; arguments are bound anew
  on every call; a plain `return`, and a `?` that meets an error (`src/proxy/shadowsocks/aead.rs:70-73`,
  `src/proxy/trojan/trojan_stream.rs:267`), ends the generator, after which every call gives the attribute's `ret_val`.
- Arithmetic wraps as in a build without overflow checks: the 16-bit chunk counter of VMess, and the shifts by the full
  word width that a prefix length of zero leads to.
- Callers keep the contracts the source relies on: after `Pending` a Trojan datagram is offered again unchanged, and a
  reader is given room for at least one byte. What a reader without room does is stated by the `Put` of each reader and by
  `ChunkReader.ZeroRoomSafeIff`.
- In `UdpRoute`, a server opens what is sealed for it and forwards it to the address inside, a Trojan or VMess server has
  to be reached over a stream, and nodes are told apart by their addresses. Transports pass datagrams through.

## Where the code falls short of its documentation

- `README.md:21` of the repository promises longest-prefix match for CIDR rules. `get` always starts at bit 31, so the IPv6
  trie matches the low 32 bits of an address as if they were its top 32 (`IpTrie.V6StartsAtBit31`). The address zero is the
  only one that is looked up rightly under every list of rules (`IpTrie.V6LookupCorrectIff`), and a list of rules is
  answered rightly for every address exactly when it gives every address the answer it gives zero
  (`IpTrie.V6RulesLookupCorrectIff`). The IPv4 trie is right (`IpTrie.V4StartsAtTop`).
- A rule with prefix length zero covers one address instead of all of them (`IpTrie.CoversAsCidrIff`).
- The comment at `src/proxy/shadowsocks/aead.rs:21` wants payloads smaller than 0x3FFF. The code sends a chunk that small
  exactly when it is offered less (`ShadowsocksTcp.ChunkBelowIff`), and accepts lengths up to and including 0x3FFF
  (`ShadowsocksTcp.LengthAcceptedIff`).
- A transport error while a Trojan datagram's head is written is dropped, the payload goes out behind a torn head, and the
  datagram counts as sent. A datagram reported as sent, after however many polls, is on the wire as its frame exactly when
  no turn used for it failed or took nothing (`TrojanStream.SentWholeIff`, `TrojanSession.SendDatagram`).
- The VMess header check at `src/proxy/vmess/aead_header.rs:218` measures the whole buffer, not the header, so its verdict
  on a header shorter than four bytes depends on what else has arrived (`VmessStream.VerdictIndependentIff`).
- A VMess response that ends inside its header is taken for a success: the header reader reports the end of file as one, and
  the rest of the header is read as body (`src/proxy/vmess/vmess_stream.rs:187-204`). `VmessStream.TruncatedIff` says when.
- A buffer that ends inside the port of a domain name aborts the cursor reader instead of failing (`Address.PanicsIff`).
- UDP over an empty chain indexes an empty list of marks (`ChainBuilder.ChainStreamBuilder.BuildUdp`).
- Datagrams get lost in chains that `build_udp` accepts (`UdpRoute.LostDatagrams`): if two different Shadowsocks servers lie
  behind the last UDP-over-TCP layer, the packets of the last one are addressed to the first; and if the only UDP-over-TCP
  layer is the first layer of all, it is laid on a UDP socket. `UdpRoute.DatagramReachesIff` has the exact condition.
- Transports behind the last hop of a chain are applied before it (`Chain.AppliedInOrderIff`).

## Model

| member | source | states |
|---|---|---|
| Pipe.ReadAtLeast | src/common/macro_def.rs:119-137 | after any schedule the buffer has grown by exactly the bytes taken from the transport; ready iff it holds the length asked for; it reads nothing if it already does; stall, end of file and transport error are told apart |
| Pipe.WriteRest | src/proxy/shadowsocks/aead.rs:176-191 | the transport has gained exactly the bytes between the old and the new position, so a stalled write is resumed without loss or repetition; result, position and turns left are those of the write specification; stalls and errors are the transport's own |
| Pipe.PushingFails | src/proxy/shadowsocks/aead.rs:176-191 | under every schedule, a write fails exactly when one of the turns it uses is an error or takes nothing |
| Aead.IncrementCounts | src/proxy/shadowsocks/aead_helper.rs:119-130 | adding one with carry to the little-endian bytes of n gives those of n + 1 |
| Aead.AeadCipher.IncreaseNonce | src/proxy/shadowsocks/aead_helper.rs:119-130 | the carry loop, in place, adds one to the first twelve bytes of the nonce array |
| Aead.AeadCipher.Encrypt | src/proxy/shadowsocks/aead_helper.rs:102-107 | the k-th use seals under the nonce that is k in little endian, and moves on to k + 1 |
| Aead.AeadCipher.Decrypt | src/proxy/shadowsocks/aead_helper.rs:109-116 | opens under nonce k, and moves on to k + 1 whether or not it opened |
| Aead.SaltLenIs | src/proxy/shadowsocks/aead_helper.rs:26-45 | salts have 16 bytes for AES-128-GCM, 32 for AES-256-GCM and ChaCha20-Poly1305, none without a cipher |
| Aead.NonceBytes | src/proxy/shadowsocks/aead_helper.rs:119-130 | all twelve bytes of the nonce of use k: k / 256^i modulo 256 at place i |
| Aead.NoncesRepeat | src/proxy/shadowsocks/aead_helper.rs:119-130 | two uses share a nonce exactly when they are a multiple of 2^96 apart |
| Aead.FirstNoncesDistinct | src/proxy/shadowsocks/aead_helper.rs:119-130 | the first 2^96 nonces are pairwise distinct |
| ShadowsocksTcp.FramesInverse | src/proxy/shadowsocks/aead.rs:193-210 | the reader recognises every frame the writer makes as exactly its payload, whatever follows it |
| ShadowsocksTcp.FrameBytes | src/proxy/shadowsocks/aead.rs:193-210 | the bytes of frame n: the length, high byte first, sealed under nonce 2n, and the payload sealed under nonce 2n + 1, each 16 bytes longer than what it seals |
| ShadowsocksTcp.OpenIs | src/proxy/shadowsocks/aead.rs:62-119 | what is made of any 18 bytes as a length and of any bytes as a payload, the refusals and the bound 0x3FFF included |
| ShadowsocksTcp.DecryptedReader.DecryptLength | src/proxy/shadowsocks/aead.rs:100-119 | the sealed length opens under the next nonce and is refused if the tag is wrong or the length exceeds 0x3FFF |
| ShadowsocksTcp.DecryptedReader.OpenLength | src/proxy/shadowsocks/aead.rs:70-75 | keeps the reader's invariant; an error is the fault that decoding all received bytes from the start would meet |
| ShadowsocksTcp.DecryptedReader.OpenBody | src/proxy/shadowsocks/aead.rs:83-89 | opens the payload in place, its tag staying behind it, and keeps the reader's invariant |
| ShadowsocksTcp.DecryptedReader.Put | src/proxy/shadowsocks/aead.rs:90-96 | hands over exactly as much of the payload as is left and has room, and steps over the tag when that is nothing; the reader stays in step with the stream exactly if there was room or nothing was left |
| ShadowsocksTcp.DecryptedReader.PollRead | src/proxy/shadowsocks/aead.rs:53-98 | keeps the invariant under every schedule; a call fills the room or finishes the frame, or has delivered every complete frame received and says truthfully whether the transport stalled, failed or ended, or which fault decoding meets |
| ShadowsocksTcp.LengthAcceptedIff | src/proxy/shadowsocks/aead.rs:100-119 | of the lengths two bytes can hold, sealed high byte first, the reader accepts exactly those up to and including 0x3FFF, and reads each as what it is |
| ShadowsocksTcp.ChunkBelowIff | src/proxy/shadowsocks/aead.rs:161-167 | a chunk stays below 0x3FFF bytes iff the offer does; it is the offer if that has at most 0x3FFF bytes, and its first 0x3FFF bytes otherwise |
| ChunkReader.ConsistentPrefix | src/proxy/shadowsocks/aead.rs:62-97 | in every state of the reader, the bytes delivered are a prefix of the plaintext of the frames received |
| ChunkReader.ZeroRoomSafeIff | src/proxy/shadowsocks/aead.rs:90-96 | what the loop does without room for output leaves a reader in step with the stream exactly when nothing of the frame was left to deliver |
| ShadowsocksTcp.EncryptedWriter.EncryptedBuffer | src/proxy/shadowsocks/aead.rs:193-210 | appends one frame for the chunk, using exactly two nonces |
| ShadowsocksTcp.EncryptedWriter.Flush | src/proxy/shadowsocks/aead.rs:176-191 | moves bytes without disturbing the accounting: wire and unsent buffer are salt and frames |
| ShadowsocksTcp.EncryptedWriter.PollWrite | src/proxy/shadowsocks/aead.rs:153-173 | two nonces per accepted chunk however many polls it takes; until an error the wire is a prefix of salt and frames; when the call is ready it is all of them exactly if no write has ever failed; a call fails exactly on a faulty turn; the count returned is that of the chunk |
| ChunkWriter.BooksWire | src/proxy/shadowsocks/aead.rs:164-191 | between two writes of any chunk writer, the wire is the head and one frame per chunk exactly if no write has failed, because a failed write clears bytes that were never sent |
| ShadowsocksTcp.CryptoReader.Handshake | src/proxy/shadowsocks/crypto_io.rs:123-150 | a ready handshake holds exactly 16 bytes of salt for AES-128-GCM, 32 for the other two ciphers and none without one; the frame reader runs under the key that salt derives and starts with the byte right behind it; ready iff the frame reader exists; a complete salt is refused iff the replay window has seen it |
| ShadowsocksTcp.CryptoReader.PollRead | src/proxy/shadowsocks/crypto_io.rs:152-164 | what was received is the salt and then what the frame reader received; a pending call has delivered every complete frame; every other outcome is explained by the transport, the replay window or the frames |
| ShadowsocksTcp.EndToEnd | src/proxy/shadowsocks/crypto_io.rs:123-164 | on any part of an honest wire the reader meets no fault and delivers a prefix of the plaintext; all of it once the whole wire is in |
| ShadowsocksSession.Session.Run | src/proxy/shadowsocks/aead.rs:53-173 | for every interleaving of writer and reader polls over every transport, the bytes received are a prefix of the bytes written, and equal all bytes accepted once the wire is drained |
| ShadowsocksSession.Session.Finish | src/proxy/shadowsocks/aead.rs:53-173 | from every reachable state in which neither end has failed, finitely many polls of a transport that is ready whenever it is asked deliver everything the application writes, whatever the transport does after its first move |
| ShadowsocksSession.Delivery | src/proxy/shadowsocks/aead.rs:53-173 | the same, of any reachable state of sender, channel and receiver |
| ReplayWindow.BloomContext.CheckAndSet | src/proxy/shadowsocks/context.rs:70-93 | the two filters and counters move as the window specification says, and the answer is whether either filter held the salt |
| ReplayWindow.BloomContext.CheckNonceAndSet | src/proxy/shadowsocks/context.rs:117-126 | an empty salt is never a replay and changes nothing; any other goes through the window |
| ReplayWindow.BloomContext.CheckAll | src/proxy/shadowsocks/context.rs:70-126 | over any list of nonces, empty ones included, state and answers of the object are those of the window run on all salts it has ever checked |
| ReplayWindow.RunTracks | src/proxy/shadowsocks/context.rs:70-93 | over every run, each filter is exactly the bit map of its own stretch of the insertion history |
| ReplayWindow.WindowSize | src/proxy/shadowsocks/context.rs:77-90 | neither filter ever holds more than its capacity, and together they cover at least the last capacity + 1 insertions |
| ReplayWindow.SeenIff | src/proxy/shadowsocks/context.rs:70-93 | after any run, a salt is reported exactly when each of its positions is one of a salt of the current stretch of the history, or each is one of a salt of the stretch before; and how long the stretches are |
| ReplayWindow.LetThroughIff | src/proxy/shadowsocks/context.rs:70-93 | a salt is let through, and remembered, exactly if it is not reported |
| ReplayWindow.RecentSaltsAreSeen | src/proxy/shadowsocks/context.rs:70-93 | each of the last capacity + 1 inserted salts is reported as seen, through any number of switches and whatever the hash functions |
| ReplayWindow.ContextSees | src/proxy/shadowsocks/context.rs:70-93 | whatever an object has been through, it reports each of the last salts it let pass, one more than a filter's capacity of them |
| ReplayWindow.OlderSaltsAreForgotten | src/proxy/shadowsocks/context.rs:77-85 | that bound is tight: a switch forgets every salt whose bits are not among those of the last capacity + 1 insertions |
| ShadowsocksUdp.PacketRoundTripIff | src/proxy/shadowsocks/udp_crypto_io.rs:41-178 | opening a sealed packet gives back address and payload exactly when the codec can carry the address |
| ShadowsocksUdp.PacketBytes | src/proxy/shadowsocks/udp_crypto_io.rs:41-94 | a packet is address and payload in the clear, or the salt and both sealed under twelve zeros |
| ShadowsocksUdp.OpenIs | src/proxy/shadowsocks/udp_crypto_io.rs:97-178 | what is made of any bytes as a packet: salts of 16 or 32 bytes, a tag of 16, and which refusal comes when |
| ShadowsocksUdp.StaleBufferIff | src/proxy/shadowsocks/udp_crypto_io.rs:50-54 | without a cipher a packet is read back exactly when the buffer it was appended to was empty |
| ShadowsocksUdp.OpeningIsUnique | src/proxy/shadowsocks/udp_crypto_io.rs:97-178 | a packet that opens to an address and a payload holds exactly the plaintext that is sealed for them |
| ShadowsocksUdp.EncryptPayload | src/proxy/shadowsocks/udp_crypto_io.rs:41-58 | appends the packet to the buffer without a cipher, replaces the buffer by it with one |
| ShadowsocksUdp.EncryptPayloadAead | src/proxy/shadowsocks/udp_crypto_io.rs:60-94 | salt, then address and payload sealed in place under nonce zero, whatever the buffer held before |
| ShadowsocksUdp.CopyToFront | src/proxy/shadowsocks/udp_crypto_io.rs:161-161 | the overlapping move puts the stretch at the front and leaves the rest of the array as it was |
| ShadowsocksUdp.DecryptPayload | src/proxy/shadowsocks/udp_crypto_io.rs:97-121 | every index is in range on every input; on success the payload is at the front of the buffer; the error cases are those of the specification, in its order |
| ShadowsocksUdp.DecryptPayloadAead | src/proxy/shadowsocks/udp_crypto_io.rs:123-164 | the same, for the sealed case: length checks, decryption in place, address, move |
| ShadowsocksUdp.UdpStream.PollSendTo | src/proxy/shadowsocks/udp_crypto_io.rs:281-311 | a packet is sealed once and offered until the socket takes or refuses it; the result is the socket's own, with the length of the sealed packet; a refused packet does not leak into the next |
| ShadowsocksUdp.UdpStream.RecvFrom | src/proxy/shadowsocks/udp_crypto_io.rs:214-225 | what is opened is what the buffer held before and then the packet, or as many of its first bytes as there is room for; address, count and content, or the reason of the refusal, are those of opening that; a stall or an error of the socket changes nothing |
| ShadowsocksUdp.UdpStream.ReceiveDatagram | src/proxy/shadowsocks/udp_crypto_io.rs:214-225 | a sealed datagram received into an empty buffer with room for it comes out as its address and its payload exactly when the address is representable |
| ShadowsocksUdp.EveryPacketOpens | src/proxy/shadowsocks/udp_crypto_io.rs:287-310 | whichever packet of a run arrives, in whatever order, it opens to the datagram it was made from |
| VmessBody.ChunkNoncesRepeat | src/proxy/vmess/aead.rs:110-112 | two chunks of one direction share a nonce exactly when they are a multiple of 2^16 apart |
| VmessBody.ChunkNonceBytes | src/proxy/vmess/aead.rs:110-112 | the twelve bytes of the nonce: the counter, high byte first, and bytes 2 to 11 of the initialisation vector |
| VmessBody.FrameBytes | src/proxy/vmess/aead.rs:95-129 | the bytes of a chunk: the length of payload and tag in the clear, high byte first, and the sealed payload |
| VmessBody.ChunkIs | src/proxy/vmess/aead.rs:80-82 | a chunk is the first 16368 bytes of the offer, or all of it |
| VmessBody.LengthAcceptedIff | src/proxy/vmess/aead.rs:225-255 | any two bytes are accepted as a length exactly up to 17408; a body that does not open is refused, and one shorter than its tag aborts |
| VmessBody.NextFrameOfFrame | src/proxy/vmess/aead.rs:95-129 | every chunk's length field is at most 2^14, which the reader's size check accepts, and the frame opens to its chunk |
| VmessBody.VmessAeadWriter.EncryptedBuffer | src/proxy/vmess/aead.rs:95-129 | frames one chunk under the counter's nonce; the counter is the number of chunks modulo 2^16 |
| VmessBody.VmessAeadWriter.PollWrite | src/proxy/vmess/aead.rs:67-93 | an empty write ends the writer for good; otherwise until an error the wire is a prefix of one frame per chunk, and when the call is ready it is all of them exactly if no write has ever failed |
| VmessBody.VmessAeadReader.ReplaceBuffer | src/proxy/vmess/vmess_stream.rs:200-200 | the buffer taken over counts as the first bytes received of the body |
| VmessBody.VmessAeadReader.ReadLength | src/proxy/vmess/aead.rs:225-230 | keeps the reader's invariant; an oversized length is the fault decoding would meet |
| VmessBody.VmessAeadReader.OpenBody | src/proxy/vmess/aead.rs:239-255 | opens the chunk under the counter's nonce, in step with the writer's, and keeps the invariant |
| VmessBody.VmessAeadReader.Put | src/proxy/vmess/aead.rs:257-265 | as for Shadowsocks: the reader stays in step with the stream exactly if there was room or nothing was left of the chunk |
| VmessBody.VmessAeadReader.PollRead | src/proxy/vmess/aead.rs:202-267 | the contract of the Shadowsocks reader, for VMess chunks |
| VmessStream.HonestHeader | src/proxy/vmess/aead_header.rs:166-239 | on any part of an honest response the header reader asks for more until the header is complete, and then consumes exactly 18 + length + 16 bytes |
| VmessStream.HeaderBytes | src/proxy/vmess/aead_header.rs:168-216 | the bytes of a response header: the length of the payload, high byte first, and the payload, each sealed, 34 bytes more than the payload |
| VmessStream.ResponseVerdict | src/proxy/vmess/aead_header.rs:217-238 | a sealed response of at least four bytes, whatever comes behind it, is accepted exactly if its first byte is the one agreed on and its third is zero, and is a bad header otherwise |
| VmessStream.AcceptedIff | src/proxy/vmess/aead_header.rs:166-239 | any bytes at all are accepted exactly if the length opens, the payload opens, at least 20 bytes follow the length, and the first and the third are right; 34 and the length are then consumed |
| VmessStream.RefusedIff | src/proxy/vmess/aead_header.rs:166-239 | of any bytes at all, when more are asked for and which refusal comes when |
| VmessStream.OnlyGoodResponses | src/proxy/vmess/aead_header.rs:217-239 | a header reader that has accepted a response of at least four bytes got back the byte agreed on and no dynamic port |
| VmessStream.HeaderWhole | src/proxy/vmess/aead_header.rs:166-239 | once the header of an honest response is in, however much has arrived behind it, the header reader never asks for more |
| VmessStream.VerdictIndependentIff | src/proxy/vmess/aead_header.rs:217-233 | the verdict on a complete header is independent of what has arrived behind it exactly when its payload has four bytes |
| VmessStream.VmessHeaderReader.Accept | src/proxy/vmess/aead_header.rs:217-236 | a response is accepted exactly if no check fails, and any fault is that of the verdict on all bytes received; an accepted one is stepped past exactly |
| VmessStream.VmessHeaderReader.PollRead | src/proxy/vmess/aead_header.rs:158-240 | under every schedule the outcome is the verdict on all bytes received, and a response counts as accepted only with a good verdict; end of file is reported as success without a response, with everything received behind the length left in the buffer |
| VmessStream.VmessReader.ReadHeader | src/proxy/vmess/vmess_stream.rs:187-200 | the body phase starts with every byte read past the header, and only after a verdict |
| VmessStream.VmessReader.PollRead | src/proxy/vmess/vmess_stream.rs:182-206 | keeps the accounting of header and body bytes across the phases; the body phase is never left, and a response counts as truncated only if it ended while its header was incomplete; a pending call has delivered every complete chunk; failures are the transport's, the header's or the chunks' |
| VmessStream.ReceivePath | src/proxy/vmess/vmess_stream.rs:187-204 | for every fragmentation, header and stolen buffer split the bytes received without loss or repetition, and the sender's plaintext is delivered in order, all of it at the end |
| VmessStream.TruncatedIff | src/proxy/vmess/vmess_stream.rs:187-204 | an honest response counts as truncated exactly if its header had not arrived whole when the header phase ended; the body reader is then given the rest of the header, and everything after it, as body |
| VmessStream.VmessWriter.WriteHeader | src/proxy/vmess/vmess_stream.rs:232-248 | the position follows what the transport took; body bytes wait for the last header byte |
| VmessStream.VmessWriter.PollWrite | src/proxy/vmess/vmess_stream.rs:224-255 | a chunk is framed exactly on the poll that starts a write with the header out; the count returned is that of the chunk; until the body has failed the wire is a prefix of header and frames, and when the call is ready it is all of them exactly if the body has never failed; without a faulty turn nothing fails |
| VmessStream.SendPath | src/proxy/vmess/vmess_stream.rs:229-254 | until the body has failed, the wire is a prefix of the header and then one frame per chunk, and no body byte precedes the last header byte |
| VmessSession.SentInOrder | src/proxy/vmess/vmess_stream.rs:224-255 | of any reachable sender and application: wire and chunks are prefixes of what they should be, and both are whole between writes |
| VmessSession.Session.Run | src/proxy/vmess/vmess_stream.rs:182-255 | for every interleaving of writer and reader polls over every transport, the wire is a prefix of header and frames and the bytes received are a prefix of those written, all bytes accepted once the wire is drained; the response is never taken for truncated; the sender stops only after a faulty turn |
| VmessSession.Session.Finish | src/proxy/vmess/vmess_stream.rs:182-255 | the same for VMess, from within the header or the body |
| VmessSession.Delivery | src/proxy/vmess/vmess_stream.rs:182-255 | the same, of any reachable state of sender, channel and client |
| TrojanUdp.FrameRoundTripsIff | src/proxy/trojan/trojan_stream.rs:366-386 | a frame reads back as its datagram exactly when address and payload fit their length fields |
| TrojanUdp.HeadBytes | src/proxy/trojan/trojan_stream.rs:366-386 | the bytes of a frame: address, length high byte first, 13, 10, payload; payloads have up to 65535 bytes |
| TrojanUdp.HeadLenIs | src/proxy/trojan/trojan_stream.rs:246-258 | a head has 11 bytes for type 1, 23 for type 4, and 8 more than its second byte for type 3; other types are refused |
| TrojanUdp.ParseOfHead | src/proxy/trojan/trojan_stream.rs:246-270 | the length computed from two bytes is that of the address, the length and the CRLF, and the only fault left is a bad encoding |
| TrojanStream.TrojanUdpReader.ReadKind | src/proxy/trojan/trojan_stream.rs:246-258 | an unknown address type is the fault decoding would meet; otherwise the invariant is kept |
| TrojanStream.TrojanUdpReader.ReadHead | src/proxy/trojan/trojan_stream.rs:267-271 | address and length leave the buffer, and the invariant is kept |
| TrojanStream.TrojanUdpReader.Put | src/proxy/trojan/trojan_stream.rs:280-291 | hands over payload bytes with the address they came with; a datagram is split exactly when the call leaves some of it; the reader stays in step with the stream exactly if there was room or nothing was left |
| TrojanStream.TrojanUdpReader.PollRecvFrom | src/proxy/trojan/trojan_stream.rs:229-287 | keeps the invariant under every schedule; a call fills the room or finishes the datagram, or has delivered every complete datagram and says truthfully why it has no more |
| TrojanStream.ReceivePath | src/proxy/trojan/trojan_stream.rs:238-286 | on any part of an honest wire, payload bytes arrive in order, and unless a call was short of room the datagrams are those sent, one each; all of them at the end |
| TrojanStream.TrojanUdpWriter.PushHead | src/proxy/trojan/trojan_stream.rs:374-376 | one poll of the head phase moves fields, wire and turns as the specification of a step says, the dropped error included |
| TrojanStream.TrojanUdpWriter.PushBody | src/proxy/trojan/trojan_stream.rs:377-385 | the same for the payload, which is bound anew on every poll |
| TrojanStream.SendGood | src/proxy/trojan/trojan_stream.rs:374-386 | every step keeps the accounting of wire, head and payload, and the head is torn exactly when a turn used for the datagram was faulty; a finished datagram reports its payload's length |
| TrojanStream.TrojanUdpWriter.PollSendTo | src/proxy/trojan/trojan_stream.rs:356-387 | one datagram is begun per call that finds none under way; an empty payload ends the writer; the writer is broken exactly if it used a faulty turn; a datagram reported as sent has its whole payload out, its head torn exactly if a turn used for it was faulty; the call has a schedule on which the payload goes out bare |
| TrojanStream.SentWholeIff | src/proxy/trojan/trojan_stream.rs:366-386 | a datagram reported as sent is on the wire as its frame exactly when no turn used for it was faulty; otherwise a proper prefix of its head and then its payload are |
| TrojanSession.SendDatagram | src/proxy/trojan/trojan_stream.rs:356-388 | the same over however many polls one datagram takes, for every schedule |
| TrojanStream.SendPath | src/proxy/trojan/trojan_stream.rs:366-386 | until a faulty turn the wire is a prefix of one frame per datagram, and all of them between datagrams |
| TrojanStream.EndToEnd | src/proxy/trojan/trojan_stream.rs:202-388 | a reader fed any part of an unbroken writer's wire receives the datagrams sent; boundaries never merge |
| TrojanSession.Session.Run | src/proxy/trojan/trojan_stream.rs:202-388 | for every interleaving of sender and receiver polls over every transport, the writer is broken exactly if it used a faulty turn; until then the payload bytes arrive in order, and if every receive has room for a datagram the datagrams received are the first ones sent, one each, all of them once the wire is drained |
| TrojanSession.Session.Finish | src/proxy/trojan/trojan_stream.rs:202-388 | the same for Trojan: every datagram arrives, one each, if the receiver has room for it |
| TrojanSession.Delivery | src/proxy/trojan/trojan_stream.rs:202-388 | the same, of any reachable state of sender, channel and receiver |
| TrojanRequest.RequestRoundTripIff | src/proxy/trojan/trojan_stream.rs:58-119 | a request is understood, and exactly its bytes are taken, iff the first read gets the whole hash and the address is representable |
| TrojanRequest.RequestBytes | src/proxy/trojan/trojan_stream.rs:96-119 | the bytes of a request: 56 bytes of hash, 13, 10, command 1 and the target or command 3 and the dummy address 1, 0, 0, 0, 0, 0, 0, and again 13, 10 |
| TrojanRequest.AcceptedIff | src/proxy/trojan/trojan_stream.rs:58-94 | any bytes are accepted exactly if the first read gets 56 bytes, they are the password, the 59th byte is 1 or 3, and an address and two bytes follow; what is made of them is said byte by byte |
| TrojanRequest.RefusedIff | src/proxy/trojan/trojan_stream.rs:58-94 | when the first packet is too short, when the password is wrong and when the command is |
| TrojanRequest.UnderstoodReprintsIff | src/proxy/trojan/trojan_stream.rs:81-93 | an accepted request re-encodes to the bytes taken exactly when both CRLFs are there and a UDP association carries the dummy address, none of which is checked |
| TrojanRequest.WriteTo | src/proxy/trojan/trojan_stream.rs:96-119 | appends the encoding of the request |
| TrojanRequest.ReadFrom | src/proxy/trojan/trojan_stream.rs:58-94 | the reading of the specification, for a stream that ends or fails anywhere; a caller refused for its hash gets every byte back |
| Address.RoundTripIff | src/proxy/address.rs:175-263 | writing and reading back, with anything behind it, returns an address exactly when the codec can carry it |
| Address.WireBytes | src/proxy/address.rs:242-263 | every byte of every serialized address: types 1, 4 and 3, octets, segments and port high byte first, the length of a name |
| Address.ReadsBytes | src/proxy/address.rs:175-224 | what the cursor reader makes of any buffer, byte by byte, except that PanicsIff has the case that aborts |
| Utf8.ValidIff | src/proxy/address.rs:199-200 | the check on a domain name accepts exactly the UTF-8 encodings, RFC 3629, of strings of code points |
| Address.Reprint | src/proxy/address.rs:175-224 | a successful read consumes exactly the serialized length and re-prints to the bytes it consumed |
| Address.ParseGrows | src/proxy/address.rs:175-224 | a successful read is not disturbed by what follows the address |
| Address.PanicsIff | src/proxy/address.rs:191-198 | the cursor reader aborts on exactly the buffers of type 3 that end inside the port of a domain name |
| Address.WriteToBuf | src/proxy/address.rs:242-263 | appends the serialization and leaves what the buffer held |
| Address.ReadFromCursor | src/proxy/address.rs:175-224 | agrees with the parser on every buffer, error cases included, and moves the cursor by what was used |
| Address.ReadFromStream | src/proxy/address.rs:97-172 | on a stream that ends or fails anywhere, accepts exactly what the cursor reader accepts, and consumes as much |
| Socks5Udp.RequestRoundTripIff | src/proxy/socks/socks5.rs:342-371 | a request is read back exactly when its address is representable and the buffer was empty before |
| Socks5Udp.RequestBytes | src/proxy/socks/socks5.rs:345-351 | the bytes of a request: three zeros, the address and the data |
| Socks5Udp.ReadIs | src/proxy/socks/socks5.rs:358-370 | any bytes are incomplete below three, a fragment if the third is not zero, and otherwise a request exactly if an address follows |
| Socks5Udp.ReadReprintsIff | src/proxy/socks/socks5.rs:358-370 | but for the ignored reserved bytes, only the encoding of a request is read as that request |
| Socks5Udp.EncodeTo | src/proxy/socks/socks5.rs:345-351 | appends the encoding |
| Socks5Udp.DecodeFrom | src/proxy/socks/socks5.rs:358-370 | a request takes the whole datagram; a short or fragmented one is left in the buffer, one with a bad address loses its first three bytes |
| IpTrie.Trie.Extend | src/config/ip_trie.rs:62-77 | adds one fresh node per missing bit and leaves every stored value alone |
| IpTrie.Trie.Put | src/config/ip_trie.rs:40-79 | stores the value under the first bits of the key and changes nothing else, for either width |
| IpTrie.Trie.Get | src/config/ip_trie.rs:81-98 | returns the deepest value on the path of branches taken, from any starting bit; it terminates, and every index is in range |
| Bits.KeyBitsAre | src/config/ip_trie.rs:43-57 | the path of a key: the branch at depth d is its bit of weight 2^(w - 1 - d) |
| IpTrie.TableLast | src/config/ip_trie.rs:58-61 | each path holds the value of the last rule stored there |
| IpTrie.LookupDecides | src/config/ip_trie.rs:81-98 | a full lookup finds the value of the rule that decides the key, and nothing iff no rule covers it |
| IpTrie.DecidesUnique | src/config/ip_trie.rs:40-98 | "longest, then latest" picks out one rule |
| IpTrie.GetIsLongestPrefix | src/config/ip_trie.rs:81-98 | a lookup from bit s is longest-prefix match, latest first, on the key's low s + 1 bits moved to the top |
| IpTrie.CoversAsCidrIff | src/config/ip_trie.rs:41-42 | a rule covers what its CIDR notation says exactly when its prefix length is not zero |
| IpTrie.CoversIs | src/config/ip_trie.rs:41-42 | what covering and CIDR notation mean, as division by powers of two; a rule of prefix length zero covers its own address alone |
| IpTrie.V4StartsAtTop | src/config/ip_trie.rs:82-83 | the IPv4 lookup is on the key itself |
| IpTrie.V6StartsAtBit31 | src/config/ip_trie.rs:82-83 | the IPv6 lookup is on the low 32 bits of the key times 2^96 |
| IpTrie.LookupCorrectIff | src/config/ip_trie.rs:81-98 | a lookup from bit s is longest-prefix match for every list of rules exactly for the keys that moving their low s + 1 bits to the top leaves alone |
| IpTrie.RulesLookupCorrectIff | src/config/ip_trie.rs:81-98 | if the walk skips more than half of the key, a list of rules is answered rightly for every key exactly when it gives every key the answer it gives zero |
| IpTrie.V6LookupCorrectIff | src/config/ip_trie.rs:81-98 | an IPv6 lookup is longest-prefix match for every list of rules exactly for the address zero |
| IpTrie.V6RulesLookupCorrectIff | src/config/ip_trie.rs:81-98 | the same for IPv6: only rules that do not tell addresses apart are answered rightly throughout |
| GeoIp.NormalizeCovers | src/config/ip_trie.rs:1-6 | clearing the bits behind the prefix does not change which keys a rule covers |
| GeoIp.NormalizeIs | src/config/ip_trie.rs:1-6 | normalizing rounds the address down to a multiple of the power of two that the prefix leaves, and does nothing for prefix length zero |
| GeoIp.AnswersLookup | src/config/ip_trie.rs:119-133 | whatever a lookup finds is a valid index, and the name there is the deciding rule's |
| GeoIp.GeoIpMatcher.GetOutboundPos | src/config/ip_trie.rs:135-143 | names stay free of duplicates and indices stable; a new name goes to the end |
| GeoIp.GeoIpMatcher.PutV4 | src/config/ip_trie.rs:150-154 | adds one normalized rule under the given name and disturbs no other rule or name |
| GeoIp.GeoIpMatcher.PutV6 | src/config/ip_trie.rs:145-149 | the same for IPv6 |
| GeoIp.GeoIpMatcher.Match4 | src/config/ip_trie.rs:119-125 | never out of range; the name of the longest, then latest, covering rule, or the empty name iff none covers |
| GeoIp.GeoIpMatcher.Match6 | src/config/ip_trie.rs:127-133 | never out of range; the answer for the key the walk from bit 31 follows |
| Chain.ChainTunnels | src/config/mod.rs:306-346 | every chain is a tunnel to the address asked for: it starts at the first hop, and each hop is spoken to at its own address |
| Chain.AppliedOrder | src/config/mod.rs:325-343 | layers are applied in chain order, except that the last hop is moved to the end |
| Chain.AppliedInOrderIff | src/config/mod.rs:325-343 | they are applied in exactly chain order iff no transport follows the last hop |
| ChainBuilder.TypeIter.Next | src/proxy/utils/mod.rs:34-46 | the resumed iterator gives every protocol exactly once, from the last layer to the first |
| ChainBuilder.BuildUdpMarker | src/proxy/mod.rs:295-309 | mark i holds iff a UDP-over-TCP layer lies strictly to the right of i, one mark a layer |
| ChainBuilder.AnyBlackhole | src/proxy/mod.rs:178-179 | finds a black hole iff there is one |
| ChainBuilder.PositionUot | src/proxy/mod.rs:183-184 | the distance of the last UDP-over-TCP layer from the right end |
| ChainBuilder.ChainStreamBuilder.SetLastUdpAddr | src/proxy/mod.rs:183-193 | the index is always in bounds, and the deferred hop's UDP address is that of the hop behind the last UDP-over-TCP hop |
| ChainBuilder.ChainStreamBuilder.BuildInnerMarkers | src/proxy/mod.rs:177-194 | establishes the invariant of a finished builder |
| ChainBuilder.ChainStreamBuilder.BuildTcp | src/proxy/mod.rs:216-247 | blocked iff the chain has a black hole; otherwise the stream leads to the address asked for |
| ChainBuilder.ChainStreamBuilder.BuildUdp | src/proxy/mod.rs:250-293 | refused iff the chain has a black hole, out of bounds only for an empty chain; the address to unwrap is always there; the layers are the chain's own, each building TCP inside iff a UDP-over-TCP layer follows, and the deferred hop is asked to go on to the hop right behind the last of those |
| ChainBuilder.BuildChain | src/config/mod.rs:306-346 | fails iff a tag is not configured; otherwise the builder is the compiled chain of the named nodes |
| ChainBuilder.PushAll | src/config/mod.rs:325-343 | the loop that hands each hop the next address left yields exactly the specified layers and deferred hop |
| ChainBuilder.TypesOfChain | src/config/mod.rs:326-343 | a chain has as many layers as nodes, and a black hole among them iff one was configured |
| UdpRoute.UotBuilt | src/proxy/mod.rs:249-290 | over a stream, the layers before the last UDP-over-TCP layer lead to that layer's own server, where it becomes an association (Trojan) or a stream to its target (VMess) |
| UdpRoute.ArriveIff | src/proxy/shadowsocks/udp_crypto_io.rs:281-311 | a packet sealed by several Shadowsocks layers comes out exactly if it is sent to the first server and each later layer addresses its packets to its own |
| UdpRoute.TailCircle | src/proxy/mod.rs:183-194 | the Shadowsocks layers behind the last UDP-over-TCP layer each send to the next hop, and the last of them to the first hop |
| UdpRoute.PlanIsCarrier | src/proxy/mod.rs:250-293 | folding the layers `build_udp` returns, with their marks, gives the carrier whose route is studied |
| UdpRoute.DatagramReachesIff | src/proxy/mod.rs:176-293 | for every chain and target: a datagram reaches its target exactly if the last UDP-over-TCP layer is not the first layer of all, all hops behind it have the same address, and, when there is none, the target is the one the chain was built for or the last hop is Trojan |
| UdpRoute.LostDatagrams | src/proxy/mod.rs:183-193 | the chain of two different Shadowsocks hops and the chain of a lone Trojan hop lose every datagram |
| Kdf.UpdateAppends | src/proxy/vmess/kdf.rs:63-65 | at every depth, feeding more text is the same as having been fed the longer text |
| Kdf.FinalizeIsNested | src/proxy/vmess/kdf.rs:67-76 | by induction on depth, a hasher computes HMAC, section 2 of RFC 2104, over the HMAC of the level below |
| Kdf.SplittingDoesNotMatter | src/proxy/vmess/kdf.rs:63-76 | however a text is cut into updates, the digest is that of the whole |
| Kdf.LongKeyIsHashed | src/proxy/vmess/kdf.rs:39-49 | a key longer than the block works exactly as its digest |
| Kdf.XorBits | src/proxy/vmess/kdf.rs:51-54 | `^` on bytes, bit by bit |
| Kdf.KeyBlockBytes | src/proxy/vmess/kdf.rs:35-54 | every bit of both 64-byte key blocks: the key, or the digest of one longer than 64 bytes, with zeros behind it, XORed with 0x36 and 0x5C |
| Kdf.HmacIs | src/proxy/vmess/kdf.rs:67-76 | the two hashes of HMAC, the outer block before the digest of inner block and text |
| Kdf.SaltLetters | src/proxy/vmess/kdf.rs:14-14 | the key of the innermost level is "VMess AEAD KDF" |
| Kdf.KeyBlocks | src/proxy/vmess/kdf.rs:51-54 | the loop masks both padded key blocks in place |
| Kdf.New | src/proxy/vmess/kdf.rs:34-61 | the next level over a fresh hasher is the fresh hasher for one more key, long keys included |
| Kdf.OneShot1 | src/proxy/vmess/kdf.rs:143-147 | HMAC under the key over HMAC-SHA256 keyed "VMess AEAD KDF" |
| Kdf.OneShot3 | src/proxy/vmess/kdf.rs:159-163 | the same, three levels deep, in the order of the keys |
| Relay.CopyWithCapacity.Fill | src/common/net/copy_with_capacity.rs:55-66 | one read into the empty buffer, with conservation kept |
| Relay.CopyWithCapacity.Drain | src/common/net/copy_with_capacity.rs:69-81 | writes the buffered bytes in order, with conservation kept at every suspension |
| Relay.CopyWithCapacity.PollCopy | src/common/net/copy_with_capacity.rs:51-91 | at every return, read = written ++ buffered and the counters account for it; ready exactly when the writer was asked to flush everything and has done so, which is only when the source has ended and everything was written in order, or at once if the capacity is zero; a flush that stalls or fails is the answer; it waits only for a transport that stalled |

## Left out

- ShadowsocksTcp.DecryptedReader.PollRead: requires room for output; what a call without room does to the stream is stated by ShadowsocksTcp.DecryptedReader.Put and ChunkReader.ZeroRoomSafeIff, not followed further.
- ShadowsocksTcp.CryptoReader.PollRead: requires room for output, for the same reason.
- VmessBody.VmessAeadReader.PollRead: requires room for output, for the same reason.
- VmessStream.VmessReader.PollRead: requires room for output, for the same reason.
- TrojanStream.TrojanUdpReader.PollRecvFrom: requires room for output, for the same reason.
- VmessStream.VmessWriter.WriteHeader: does not model that the source yields `Pending` after a partial header write without having arranged to be woken; wakers are outside the model everywhere, so VmessSession.Session.Finish and its like take for granted that polls come.
- VmessStream.ReceivePath: says nothing about what a truncated response decodes to; VmessStream.TruncatedIff says when there is one and what it is decoded from. VmessSession.Session closes its channel only behind the header.
- VmessSession.Session.Run: the peer is one whose chunks are framed as the client's own writer frames them, since the repository has no VMess server.
- TrojanStream.TrojanUdpWriter.PollSendTo: requires the same payload again after `Pending`, which the source relies on without checking.
- TrojanStream.TrojanUdpWriter.PushBody: requires a payload at least as long as what is already out of it.
- TrojanSession.Session.Run: promises nothing about what arrives after a faulty turn, when the wire holds a torn frame.
- ShadowsocksUdp.DecryptPayload: the content of the buffer after a refusal is not described.
- ShadowsocksUdp.UdpStream.RecvFrom: when the socket cuts a packet short, or the buffer was not empty, rejection is up to the cipher, about whose forgeries nothing is assumed.
- UdpRoute.DatagramReachesIff: follows datagrams on their way out only, not the replies.
- Kdf.New: the nested hashers are owned values in the source and are modelled as a datatype; their update in place is not captured.
- Relay.CopyWithCapacity.PollCopy: also stands for the variant with atomic counters (`src/common/net/copy_with_capacity.rs:137-178`), which runs the same loop; the wrap-around of the 64-bit counters is not modelled.
- GeoIp.GeoIpMatcher.PutV4: requires room for 32 more nodes and one more name below the 32-bit limits, which the source does not check.
- GeoIp.GeoIpMatcher.PutV6: the same, for 128 nodes.
- IpTrie.Trie.Extend: requires the new node indices to stay below the null index, as does IpTrie.Trie.Put.
- IpTrie.Trie.Put: requires the new node indices to stay below the null index and the value below the "no value" mark, which the source does not check.
- Streams with the cipher kind "none" are passed through unchanged by the source and are not modelled as streams.
- The sealing of the VMess request header, the authentication id and the header's checksum: straight-line calls to foreign ciphers and hashes.
- Server-side SOCKS5 and HTTP negotiation, WebSocket, gRPC, HTTP/2, TLS and simple-obfs layers: thin wrappers around foreign code, or dependent on framing that is not visible.
- Configuration files, the domain matcher, statistics, latency measurement and the API server: plumbing and foreign libraries.
- Randomness, clocks, sockets and task scheduling: salts, packets and turns are parameters.
