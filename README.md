# rotten UDP tracker: wire handling, modelled in Dafny

`rotten` is a BitTorrent UDP tracker (BEP 15) written in Rust. This project
models the part of it that works on bytes and on the swarm map:

- **Action classification** (`Action::new`, module `Actions`): a datagram
  shorter than the 16-byte request header is an Error; otherwise the
  big-endian u32 at bytes 8..12 decides: 0 Connect, 1 Announce, 2 Scrape,
  anything else Error.
- **Frame decoding** (`Parser::parse`, `Event::from`, module `Parser`): the
  request fields are read as big-endian integers at fixed offsets. The
  Announce fields are read at offsets 0..98. A Scrape payload is cut into
  whole 8-byte chunks. An Error classification gives `Frame::Error`.
- **Handling one datagram** (`Handler::run` without its `send`, module
  `Server`): the Connect, Announce and Error replies are built by appending
  big-endian fields to a byte buffer, and Scrape gets an empty reply. On
  Announce the info hash is looked up in the shared map
  `info hash -> peers`, and is inserted with the one-peer list
  `[Peer(from_addr)]` when it is missing.
- **Byte order** (module `NetworkEndian`): the `byteorder`/`bytes` reads and
  writes the code relies on, as functions on `seq<Byte>`. They are proved
  to be inverse to each other.

The map is a `map<string, seq<Peer>>` field of a `Db` class. All `Handler`
objects hold a reference to the same `Db`, as every handler in the source
holds a clone of one `Arc`. `Handler.Run` is specified by two functions:
`Response` gives the reply and `NextDb` gives the new map. The lemmas
about those functions state the layouts and the map invariants. `Replay`
folds `NextDb` over a run of datagrams. This is sound for the source
because the mutex makes each handler's map access atomic.

Where the code departs from BEP 15 or from what a full tracker would do,
the model follows the code:

- no connection-id registry or validation;
- Scrape chunks are 8 bytes, not 20;
- a known info hash is not appended to;
- no Stopped removal, reaping, `num_want` cap or scrape counts;
- leechers and seeders are both the length of the peer list;
- the Error reply uses a fresh random transaction id, not the request's;
- a short Announce is not a typed decode error: the source panics on it.

Inputs the model takes as parameters: the two values drawn from
`rand::random` (the new connection id of a Connect reply and the
transaction id of an Error reply) are parameters of `Handler.Run`. The
lossy UTF-8 decoding (`String::from_utf8_lossy(..).parse().unwrap()`) that
turns info hashes and peer ids into string keys is a parameter
`lossy: seq<Byte> -> string`, and nothing is assumed about it.

## Model

| member | source | states |
|---|---|---|
| Actions.Classify | src/action.rs:12-23 | total; Connect, Announce, Scrape exactly when the length is at least 16 and the u32 at 8..12 is 0, 1, 2; Error exactly when shorter than 16 or the code is above 2 |
| Actions.ShortIsError | src/action.rs:13-15 | every datagram shorter than 16 bytes, the empty one included, is an Error |
| Actions.HeaderFields | src/action.rs:33-36 | a header written as u64, u32, u32 reads back its connection id at 0, action at 8 and transaction id at 12, whatever follows |
| Actions.ClassifyHeader | src/action.rs:17-20 | a header carrying code 0, 1 or 2 classifies as Connect, Announce or Scrape, whatever follows it |
| Actions.ClassifyUnknownCode | src/action.rs:21 | a full header with any code above 2 classifies as Error |
| Actions.ClassifyDependsOnlyOnActionField | src/action.rs:13-22 | two datagrams on the same side of the length guard with equal bytes 8..12 classify alike |
| Actions.ClassifyExamples | src/action.rs:31-69 | the unit tests: id 0x41727101980, transaction 123 with codes 0, 1, 2, 3 give Connect, Announce, Scrape, Error; the empty buffer gives Error |
| NetworkEndian.BytesOfBE | src/parser.rs:26 | writing the big-endian value of a byte string back at its width gives the same bytes |
| NetworkEndian.ReadPutU32 | src/action.rs:17 | a u32 read at an offset where `put_u32(x)` was written is x |
| NetworkEndian.ReadPutU64 | src/parser.rs:26 | a u64 read at an offset where `put_u64(x)` was written is x |
| NetworkEndian.ReadPutU16 | src/parser.rs:50 | a u16 read at an offset where `put_u16(x)` was written is x |
| NetworkEndian.ToI32 | src/parser.rs:49 | `read_i32` is the two's-complement reading: in the i32 range, congruent to the unsigned value mod 2^32, negative exactly when the top bit is set |
| NetworkEndian.FromI32 | src/parser.rs:49 | the bit pattern of an i32 reads back as that i32 |
| Parser.EventFrom | src/parser.rs:108-117 | 1 Completed, 2 Started, 3 Stopped, each exactly; every other value, 0 included, None |
| Parser.EventRoundTrip | src/parser.rs:101-117 | the wire code of each event decodes back to that event |
| Parser.ScrapeHashes | src/parser.rs:58-61 | one key per whole 8-byte chunk, (length / 8) of them, the i-th from bytes 8i..8i+8; a partial tail chunk is dropped |
| Parser.Parse | src/parser.rs:19-71 | always Ok; the frame kind is exactly the classification; Connect, Announce and Scrape carry the u64 at 0 and the u32 at 12 |
| Parser.AnnounceReencode | src/parser.rs:34-50 | the decoder reads all 98 bytes at their offsets: the Announce frame of any buffer, written back with the client encoder (keys from bytes 16..36 and 36..56, raw event code from 80), gives the buffer's first 98 bytes; with AnnounceRoundTrip, each field is pinned to its offset in both directions |
| Parser.ScrapeLayout | src/parser.rs:55-68 | a Scrape frame has (length - 16) / 8 keys, the i-th from bytes 16+8i..24+8i |
| Parser.ConnectRoundTrip | src/parser.rs:22-30 | a Connect request (u64 c, u32 0, u32 t) parses to Connect(c, t), whatever bytes follow |
| Parser.AnnounceRoundTrip | src/parser.rs:31-54 | an Announce request written from any field values parses to the frame of those values |
| Parser.ConnectExampleParse | src/parser.rs:25-28 | the Connect header of the classification tests (id 0x41727101980, transaction 0x7B) decodes to Connect(0x41727101980, 0x7B) |
| Parser.ScrapeRoundTrip | src/parser.rs:55-68 | a Scrape request of whole 8-byte chunks plus a short tail parses to one key per chunk, in order |
| Server.InvalidRequestText | src/server.rs:182 | the error body is the 15 ASCII bytes of "invalid request" |
| Server.IpWord | src/server.rs:166-169 | an IPv4 address becomes the u32 whose big-endian bytes are its octets; IPv6 becomes 0 |
| Server.LenU32 | src/server.rs:163-164 | `len() as u32` is the length itself below 2^32 |
| Server.AfterAnnounce | src/server.rs:147-156 | an unknown hash is added mapped to [Peer(from)]; a known hash and every other key keep their lists; no key is removed |
| Server.NextDb | src/server.rs:126-185 | only an Announce frame changes the map |
| Server.Response | src/server.rs:126-185 | Connect reply 16 bytes, Announce reply 20 + 6n bytes for the stored list, Scrape reply empty, Error reply 23 bytes |
| Server.Db.constructor | src/server.rs:24 | the map starts empty |
| Server.Db.GetOrInsert | src/server.rs:145-156 | the new map is AfterAnnounce of the old one and the returned peers are the list now stored under the hash |
| Server.PutPeers | src/server.rs:165-171 | appends the six-byte entry of every peer, in list order |
| Server.WriteConnect | src/server.rs:129-137 | the appended fields form the Connect reply |
| Server.WriteAnnounce | src/server.rs:159-172 | the appended fields and peers form the Announce reply |
| Server.WriteError | src/server.rs:177-183 | the appended fields form the Error reply |
| Server.Handler.constructor | src/server.rs:83-89 | a handler holds the shared map, the sender's address and the datagram |
| Server.Handler.Run | src/server.rs:125-189 | the reply is Response of the parsed frame and the old map; the map becomes NextDb of the old map; one-peer lists stay one-peer lists, and then every Announce reply is 26 bytes |
| Server.ConnectReplyLayout | src/server.rs:134-136 | the Connect reply is 16 bytes: u32 0, the echoed transaction id, the supplied connection id |
| Server.AnnounceHeadFields | src/server.rs:160-164 | the 20-byte head reads action 1, the transaction id, interval 1, then n twice |
| Server.AnnounceReplyHeader | src/server.rs:159-164 | the Announce reply has 20 + 6n bytes and reads action 1, the transaction id, interval 1, then the peer count as both leechers and seeders |
| Server.PeerListAt | src/server.rs:165-171 | the i-th six bytes of the peer list are the i-th peer's entry |
| Server.AnnounceReplyPeer | src/server.rs:165-171 | peer i sits at offset 20 + 6i: its IPv4 word (0 for IPv6), then its port at 24 + 6i |
| Server.ErrorReplyLayout | src/server.rs:180-182 | the Error reply is 23 bytes: u32 3, the supplied id, then "invalid request" |
| Server.AfterAnnounceSingletons | src/server.rs:147-155 | if every stored list has one peer, it still does after an Announce |
| Server.Replay | src/server.rs:83-95 | handling a run of datagrams in turn on one shared map never loses a key |
| Server.ReplaySingletons | src/server.rs:147-155 | from the empty map, after any run of datagrams, every stored list holds exactly one peer |
| Server.ReplayKeepsStored | src/server.rs:147-148 | once a hash is stored, later datagrams never change its list |
| Server.FirstAnnouncerKept | src/server.rs:147-155 | a hash not yet stored ends up mapped to exactly [Peer(sender of its first Announce)], whatever datagrams follow |
| Server.AnnounceReplyOnSingletons | src/server.rs:147-164 | while every list has one peer, every Announce reply is 26 bytes with leechers = seeders = 1 |
| Server.ConnectExampleReply | src/server.rs:134-136 | the Connect reply to that header is 00000000 0000007B followed by the eight bytes of the new connection id |

## Left out

- `run`, `Listener::run` and `Handler::send` (src/server.rs:22-106, 191-208): socket I/O, `tokio::select!`, task spawning and the would-block retry loops are I/O and concurrency. `Replay` stands in for the sequence of handlers.
- The `Arc<Mutex<..>>` around the map (src/server.rs:12, 145) is concurrency. The map is a plain field of `Db`.
- `rand::random` (src/server.rs:131, 178) is nondeterministic. Its two results are parameters of `Handler.Run`.
- `String::from_utf8_lossy(..).parse().unwrap()` (src/parser.rs:37-42, 60) is UTF-8 decoding in the Rust standard library. It is the parameter `lossy`, and nothing is proved about UTF-8. Its `unwrap` cannot fail, because parsing a `String` from a `str` is infallible.
- Parser.Parse: an Announce datagram shorter than 98 bytes makes the source panic on an out-of-range slice. The model excludes it by the precondition `InBounds`, which `Handler.Run` inherits. A Scrape datagram is at least 16 bytes once classified, so it needs no such condition.
- `Peer::from` (src/server.rs:216-220) only wraps the address. It is the datatype constructor `Peer`.
- `dgram_len` of the handler (src/server.rs:115) is never read, and `connection` (src/server.rs:118) is used only by the send. Neither is a field of the model's `Handler`.
- Logging (`tracing`, `println!`), src/bin/server.rs (process bootstrap and socket binding) and src/lib.rs (module declarations, `DEFAULT_PORT`, type aliases) are not part of this model.
- IPv6 addresses are kept as a sequence of 16-bit segments. The only thing the core does with them is write 0 in their place.
