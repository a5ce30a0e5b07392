/**
 Decoding a datagram into a typed request `Frame`, field by field at the
 fixed offsets of the BEP 15 request layouts.

 Info hashes and peer ids are turned into string keys by the lossy UTF-8
 decoding of the Rust standard library; the model takes that decoding as a
 parameter `lossy` and assumes nothing about it.
 */
module Parser {
  import opened NetworkEndian
  import Actions

  datatype Event = None | Completed | Started | Stopped

  datatype Frame =
    | Connect(connectionId: U64, transactionId: U32)
    | Announce(connectionId: U64, transactionId: U32,
               infoHash: string, peerId: string,
               downloaded: U64, left: U64, uploaded: U64,
               event: Event, ipAddress: U32, key: U32,
               numWant: int, port: U16)
    | Scrape(connectionId: U64, transactionId: U32, infoHashes: seq<string>)
    | Error

  datatype Result<T> = Ok(value: T) | Err(message: string)

  /** Length of an Announce request; shorter ones are sliced out of bounds by the parser. */
  const ANNOUNCE_LEN: nat := 98

  /** Width of the chunks the Scrape payload is split into. */
  const SCRAPE_CHUNK: nat := 8

  /** `Event::from`: 1, 2 and 3 name an event, every other value is None. */
  function EventFrom(n: U32): (e: Event)
    ensures e == Completed <==> n == 1
    ensures e == Started <==> n == 2
    ensures e == Stopped <==> n == 3
    ensures e == None <==> n != 1 && n != 2 && n != 3
  {
    match n
    case 1 => Completed
    case 2 => Started
    case 3 => Stopped
    case _ => None
  }

  /** The code BEP 15 gives each event. */
  function EventCode(e: Event): (n: U32)
    ensures n <= 3
  {
    match e
    case None => 0
    case Completed => 1
    case Started => 2
    case Stopped => 3
  }

  lemma EventRoundTrip(e: Event)
    ensures EventFrom(EventCode(e)) == e
  {
  }

  /**
   `chunks_exact(8).map(lossy).collect()`: one key per whole 8-byte chunk,
   in order; a trailing partial chunk is dropped.
   */
  function ScrapeHashes(payload: seq<Byte>, lossy: seq<Byte> -> string): (hashes: seq<string>)
    ensures |hashes| == |payload| / SCRAPE_CHUNK
    ensures forall i :: 0 <= i < |hashes| ==>
      hashes[i] == lossy(payload[SCRAPE_CHUNK * i..SCRAPE_CHUNK * i + SCRAPE_CHUNK])
    decreases |payload|
  {
    if |payload| < SCRAPE_CHUNK then []
    else
      var rest := ScrapeHashes(payload[SCRAPE_CHUNK..], lossy);
      var hashes := [lossy(payload[..SCRAPE_CHUNK])] + rest;
      assert forall i :: 1 <= i < |hashes| ==>
        payload[SCRAPE_CHUNK..][SCRAPE_CHUNK * (i - 1)..SCRAPE_CHUNK * (i - 1) + SCRAPE_CHUNK]
          == payload[SCRAPE_CHUNK * i..SCRAPE_CHUNK * i + SCRAPE_CHUNK];
      hashes
  }

  /** What `parse` demands of its buffer so that no slice is out of bounds. */
  predicate InBounds(buf: seq<Byte>)
  {
    Actions.Classify(buf) == Actions.Announce ==> |buf| >= ANNOUNCE_LEN
  }

  function ParseAnnounce(buf: seq<Byte>, lossy: seq<Byte> -> string): Frame
    requires |buf| >= ANNOUNCE_LEN
  {
    Announce(
      ReadU64(buf, 0), ReadU32(buf, 12),
      lossy(buf[16..36]), lossy(buf[36..56]),
      ReadU64(buf, 56), ReadU64(buf, 64), ReadU64(buf, 72),
      EventFrom(ReadU32(buf, 80)), ReadU32(buf, 84), ReadU32(buf, 88),
      ToI32(ReadU32(buf, 92)), ReadU16(buf, 96))
  }

  /**
   `Parser::parse`: classify the datagram, then read the fields of that
   request. It returns Ok on every branch, the frame's kind is the
   classification, and an Error classification carries no fields.
   */
  function Parse(buf: seq<Byte>, lossy: seq<Byte> -> string): (r: Result<Frame>)
    requires InBounds(buf)
    ensures r.Ok?
    ensures r.value.Connect? <==> Actions.Classify(buf) == Actions.Connect
    ensures r.value.Announce? <==> Actions.Classify(buf) == Actions.Announce
    ensures r.value.Scrape? <==> Actions.Classify(buf) == Actions.Scrape
    ensures r.value.Error? <==> Actions.Classify(buf) == Actions.Error
    ensures !r.value.Error? ==>
      r.value.connectionId == ReadU64(buf, 0) && r.value.transactionId == ReadU32(buf, 12)
  {
    match Actions.Classify(buf)
    case Connect => Ok(Connect(ReadU64(buf, 0), ReadU32(buf, 12)))
    case Announce => Ok(ParseAnnounce(buf, lossy))
    case Scrape => Ok(Scrape(ReadU64(buf, 0), ReadU32(buf, 12), ScrapeHashes(buf[16..], lossy)))
    case Error => Ok(Error)
  }

  /** A Scrape frame holds (length - 16) / 8 keys, the i-th from bytes 16 + 8i .. 24 + 8i. */
  lemma ScrapeLayout(buf: seq<Byte>, lossy: seq<Byte> -> string)
    requires Actions.Classify(buf) == Actions.Scrape
    ensures var f := Parse(buf, lossy).value;
      && |f.infoHashes| == (|buf| - 16) / SCRAPE_CHUNK
      && forall i :: 0 <= i < |f.infoHashes| ==>
           f.infoHashes[i] == lossy(buf[16 + SCRAPE_CHUNK * i..16 + SCRAPE_CHUNK * i + SCRAPE_CHUNK])
  {
    var f := Parse(buf, lossy).value;
    forall i | 0 <= i < |f.infoHashes|
      ensures f.infoHashes[i] == lossy(buf[16 + SCRAPE_CHUNK * i..16 + SCRAPE_CHUNK * i + SCRAPE_CHUNK])
    {
      assert buf[16..][SCRAPE_CHUNK * i..SCRAPE_CHUNK * i + SCRAPE_CHUNK]
        == buf[16 + SCRAPE_CHUNK * i..16 + SCRAPE_CHUNK * i + SCRAPE_CHUNK];
    }
  }

  // Request encoders, as a client writes the requests. The decoder is proved
  // to invert them (ConnectRoundTrip, AnnounceRoundTrip, ScrapeRoundTrip).

  function ConnectRequest(connectionId: U64, transactionId: U32): (buf: seq<Byte>)
    ensures |buf| == Actions.HEADER_LEN
  {
    Actions.Header(connectionId, Actions.Code(Actions.Connect), transactionId)
  }

  /** The three transfer counters of an Announce request, bytes 56..80. */
  function Counters(downloaded: U64, left: U64, uploaded: U64): (c: seq<Byte>)
    ensures |c| == 24
  {
    PutU64(downloaded) + (PutU64(left) + PutU64(uploaded))
  }

  /** The trailing fields of an Announce request, bytes 80..98. */
  function Trailer(event: U32, ipAddress: U32, key: U32, numWant: int, port: U16): (t: seq<Byte>)
    requires -0x8000_0000 <= numWant < 0x8000_0000
    ensures |t| == 18
  {
    PutU32(event) + (PutU32(ipAddress) + (PutU32(key) + (PutU32(FromI32(numWant)) + PutU16(port))))
  }

  function AnnounceRequest(connectionId: U64, transactionId: U32,
                           infoHash: seq<Byte>, peerId: seq<Byte>,
                           downloaded: U64, left: U64, uploaded: U64,
                           event: U32, ipAddress: U32, key: U32,
                           numWant: int, port: U16): (buf: seq<Byte>)
    requires |infoHash| == 20 && |peerId| == 20
    requires -0x8000_0000 <= numWant < 0x8000_0000
    ensures |buf| == ANNOUNCE_LEN
  {
    Actions.Header(connectionId, Actions.Code(Actions.Announce), transactionId)
      + infoHash + peerId
      + Counters(downloaded, left, uploaded)
      + Trailer(event, ipAddress, key, numWant, port)
  }

  /** The info-hash payload of a Scrape request: the chunks back to back. */
  function Concat(chunks: seq<seq<Byte>>): (s: seq<Byte>)
    requires forall i :: 0 <= i < |chunks| ==> |chunks[i]| == SCRAPE_CHUNK
    ensures |s| == SCRAPE_CHUNK * |chunks|
  {
    if chunks == [] then [] else chunks[0] + Concat(chunks[1..])
  }

  function MapLossy(chunks: seq<seq<Byte>>, lossy: seq<Byte> -> string): (keys: seq<string>)
    ensures |keys| == |chunks|
    ensures forall i :: 0 <= i < |chunks| ==> keys[i] == lossy(chunks[i])
  {
    seq(|chunks|, i requires 0 <= i < |chunks| => lossy(chunks[i]))
  }

  /** Decoding a Connect request gives back its two ids, whatever bytes follow the header. */
  lemma {:induction false} ConnectRoundTrip(connectionId: U64, transactionId: U32,
                                            rest: seq<Byte>, lossy: seq<Byte> -> string)
    ensures InBounds(ConnectRequest(connectionId, transactionId) + rest)
    ensures Parse(ConnectRequest(connectionId, transactionId) + rest, lossy)
         == Ok(Connect(connectionId, transactionId))
  {
    Actions.ClassifyHeader(Actions.Connect, connectionId, transactionId, rest);
    Actions.HeaderFields(connectionId, Actions.Code(Actions.Connect), transactionId, rest);
  }

  /** The counters read back from bytes 56..80 of any buffer that carries them there. */
  lemma ReadCounters(front: seq<Byte>, downloaded: U64, left: U64, uploaded: U64, back: seq<Byte>)
    requires |front| == 56
    ensures var buf := front + Counters(downloaded, left, uploaded) + back;
      ReadU64(buf, 56) == downloaded && ReadU64(buf, 64) == left && ReadU64(buf, 72) == uploaded
  {
    var c := Counters(downloaded, left, uploaded);
    var buf := front + c + back;
    assert c[0..8] == PutU64(downloaded) && c[8..16] == PutU64(left) && c[16..24] == PutU64(uploaded);
    SliceShift(front, c, back, 0, 8);
    SliceShift(front, c, back, 8, 8);
    SliceShift(front, c, back, 16, 8);
    ReadPutU64(buf, 56, downloaded);
    ReadPutU64(buf, 64, left);
    ReadPutU64(buf, 72, uploaded);
  }

  /** The trailing fields read back from bytes 80..98 of any buffer that ends with them. */
  lemma ReadTrailer(front: seq<Byte>, event: U32, ipAddress: U32, key: U32, numWant: int, port: U16)
    requires |front| == 80
    requires -0x8000_0000 <= numWant < 0x8000_0000
    ensures var buf := front + Trailer(event, ipAddress, key, numWant, port);
      && ReadU32(buf, 80) == event && ReadU32(buf, 84) == ipAddress && ReadU32(buf, 88) == key
      && ToI32(ReadU32(buf, 92)) == numWant && ReadU16(buf, 96) == port
  {
    var t := Trailer(event, ipAddress, key, numWant, port);
    var buf := front + t;
    assert buf == front + t + [];
    assert t[0..4] == PutU32(event) && t[4..8] == PutU32(ipAddress) && t[8..12] == PutU32(key);
    assert t[12..16] == PutU32(FromI32(numWant)) && t[16..18] == PutU16(port);
    SliceShift(front, t, [], 0, 4);
    SliceShift(front, t, [], 4, 4);
    SliceShift(front, t, [], 8, 4);
    SliceShift(front, t, [], 12, 4);
    SliceShift(front, t, [], 16, 2);
    ReadPutU32(buf, 80, event);
    ReadPutU32(buf, 84, ipAddress);
    ReadPutU32(buf, 88, key);
    ReadPutU32(buf, 92, FromI32(numWant));
    ReadPutU16(buf, 96, port);
  }

  /** The two 20-byte identifiers sit at bytes 16..36 and 36..56. */
  lemma ReadIds(h: seq<Byte>, infoHash: seq<Byte>, peerId: seq<Byte>, back: seq<Byte>)
    requires |h| == 16 && |infoHash| == 20 && |peerId| == 20
    ensures var buf := h + infoHash + peerId + back;
      buf[16..36] == infoHash && buf[36..56] == peerId
  {
    var buf := h + infoHash + peerId + back;
    assert buf == h + infoHash + (peerId + back);
    SliceShift(h, infoHash, peerId + back, 0, 20);
    SliceShift(h + infoHash, peerId, back, 0, 20);
  }

  /** A buffer whose Announce fields hold given values parses to the frame of those values. */
  lemma ParseAnnounceFields(buf: seq<Byte>, lossy: seq<Byte> -> string,
                            connectionId: U64, transactionId: U32,
                            infoHash: seq<Byte>, peerId: seq<Byte>,
                            downloaded: U64, left: U64, uploaded: U64,
                            event: U32, ipAddress: U32, key: U32,
                            numWant: int, port: U16)
    requires |buf| >= ANNOUNCE_LEN && Actions.Classify(buf) == Actions.Announce
    requires ReadU64(buf, 0) == connectionId && ReadU32(buf, 12) == transactionId
    requires buf[16..36] == infoHash && buf[36..56] == peerId
    requires ReadU64(buf, 56) == downloaded && ReadU64(buf, 64) == left && ReadU64(buf, 72) == uploaded
    requires ReadU32(buf, 80) == event && ReadU32(buf, 84) == ipAddress && ReadU32(buf, 88) == key
    requires ToI32(ReadU32(buf, 92)) == numWant && ReadU16(buf, 96) == port
    ensures InBounds(buf)
    ensures Parse(buf, lossy) == Ok(Announce(connectionId, transactionId, lossy(infoHash), lossy(peerId),
                                             downloaded, left, uploaded, EventFrom(event), ipAddress, key,
                                             numWant, port))
  {
  }

  /** The header of an Announce request: its action and its two ids. */
  lemma AnnounceRequestHeader(connectionId: U64, transactionId: U32,
      infoHash: seq<Byte>, peerId: seq<Byte>,
      downloaded: U64, left: U64, uploaded: U64,
      event: U32, ipAddress: U32, key: U32,
      numWant: int, port: U16)
    requires |infoHash| == 20 && |peerId| == 20
    requires -0x8000_0000 <= numWant < 0x8000_0000
    ensures var buf := AnnounceRequest(connectionId, transactionId, infoHash, peerId,
                                       downloaded, left, uploaded, event, ipAddress, key, numWant, port);
      Actions.Classify(buf) == Actions.Announce && ReadU64(buf, 0) == connectionId && ReadU32(buf, 12) == transactionId
  {
    var h := Actions.Header(connectionId, Actions.Code(Actions.Announce), transactionId);
    var c := Counters(downloaded, left, uploaded);
    var t := Trailer(event, ipAddress, key, numWant, port);
    ConcatAssoc(h, infoHash, peerId);
    ConcatAssoc(h, infoHash + peerId, c);
    ConcatAssoc(h, infoHash + peerId + c, t);
    var rest := infoHash + peerId + c + t;
    Actions.ClassifyHeader(Actions.Announce, connectionId, transactionId, rest);
    Actions.HeaderFields(connectionId, Actions.Code(Actions.Announce), transactionId, rest);
  }

  /** The info hash and peer id of an Announce request. */
  lemma AnnounceRequestIds(connectionId: U64, transactionId: U32,
      infoHash: seq<Byte>, peerId: seq<Byte>,
      downloaded: U64, left: U64, uploaded: U64,
      event: U32, ipAddress: U32, key: U32,
      numWant: int, port: U16)
    requires |infoHash| == 20 && |peerId| == 20
    requires -0x8000_0000 <= numWant < 0x8000_0000
    ensures var buf := AnnounceRequest(connectionId, transactionId, infoHash, peerId,
                                       downloaded, left, uploaded, event, ipAddress, key, numWant, port);
      buf[16..36] == infoHash && buf[36..56] == peerId
  {
    var h := Actions.Header(connectionId, Actions.Code(Actions.Announce), transactionId);
    var c := Counters(downloaded, left, uploaded);
    var t := Trailer(event, ipAddress, key, numWant, port);
    ConcatAssoc(h + infoHash + peerId, c, t);
    ReadIds(h, infoHash, peerId, c + t);
  }

  /** The three counters of an Announce request. */
  lemma AnnounceRequestCounters(connectionId: U64, transactionId: U32,
      infoHash: seq<Byte>, peerId: seq<Byte>,
      downloaded: U64, left: U64, uploaded: U64,
      event: U32, ipAddress: U32, key: U32,
      numWant: int, port: U16)
    requires |infoHash| == 20 && |peerId| == 20
    requires -0x8000_0000 <= numWant < 0x8000_0000
    ensures var buf := AnnounceRequest(connectionId, transactionId, infoHash, peerId,
                                       downloaded, left, uploaded, event, ipAddress, key, numWant, port);
      ReadU64(buf, 56) == downloaded && ReadU64(buf, 64) == left && ReadU64(buf, 72) == uploaded
  {
    var h := Actions.Header(connectionId, Actions.Code(Actions.Announce), transactionId);
    ReadCounters(h + infoHash + peerId, downloaded, left, uploaded, Trailer(event, ipAddress, key, numWant, port));
  }

  /** The trailing fields of an Announce request. */
  lemma AnnounceRequestTrailer(connectionId: U64, transactionId: U32,
      infoHash: seq<Byte>, peerId: seq<Byte>,
      downloaded: U64, left: U64, uploaded: U64,
      event: U32, ipAddress: U32, key: U32,
      numWant: int, port: U16)
    requires |infoHash| == 20 && |peerId| == 20
    requires -0x8000_0000 <= numWant < 0x8000_0000
    ensures var buf := AnnounceRequest(connectionId, transactionId, infoHash, peerId,
                                       downloaded, left, uploaded, event, ipAddress, key, numWant, port);
      && ReadU32(buf, 80) == event && ReadU32(buf, 84) == ipAddress && ReadU32(buf, 88) == key
      && ToI32(ReadU32(buf, 92)) == numWant && ReadU16(buf, 96) == port
  {
    var h := Actions.Header(connectionId, Actions.Code(Actions.Announce), transactionId);
    ReadTrailer(h + infoHash + peerId + Counters(downloaded, left, uploaded), event, ipAddress, key, numWant, port);
  }

  /** Decoding an Announce request gives back every field it was written with. */
  lemma {:induction false} AnnounceRoundTrip(connectionId: U64, transactionId: U32,
                                             infoHash: seq<Byte>, peerId: seq<Byte>,
                                             downloaded: U64, left: U64, uploaded: U64,
                                             event: U32, ipAddress: U32, key: U32,
                                             numWant: int, port: U16,
                                             lossy: seq<Byte> -> string)
    requires |infoHash| == 20 && |peerId| == 20
    requires -0x8000_0000 <= numWant < 0x8000_0000
    ensures var buf := AnnounceRequest(connectionId, transactionId, infoHash, peerId,
                                       downloaded, left, uploaded, event, ipAddress, key, numWant, port);
      InBounds(buf) &&
      Parse(buf, lossy) == Ok(Announce(connectionId, transactionId, lossy(infoHash), lossy(peerId),
                                       downloaded, left, uploaded, EventFrom(event), ipAddress, key,
                                       numWant, port))
  {
    var buf := AnnounceRequest(connectionId, transactionId, infoHash, peerId,
                               downloaded, left, uploaded, event, ipAddress, key, numWant, port);
    AnnounceRequestHeader(connectionId, transactionId, infoHash, peerId,
                          downloaded, left, uploaded, event, ipAddress, key, numWant, port);
    AnnounceRequestIds(connectionId, transactionId, infoHash, peerId,
                       downloaded, left, uploaded, event, ipAddress, key, numWant, port);
    AnnounceRequestCounters(connectionId, transactionId, infoHash, peerId,
                            downloaded, left, uploaded, event, ipAddress, key, numWant, port);
    AnnounceRequestTrailer(connectionId, transactionId, infoHash, peerId,
                           downloaded, left, uploaded, event, ipAddress, key, numWant, port);
    ParseAnnounceFields(buf, lossy, connectionId, transactionId, infoHash, peerId,
                        downloaded, left, uploaded, event, ipAddress, key, numWant, port);
  }

  lemma ConcatAssoc(a: seq<Byte>, b: seq<Byte>, c: seq<Byte>)
    ensures a + b + c == a + (b + c)
  {
  }

  /** The i-th chunk of the payload sits at offset 8i. */
  lemma {:induction false} ConcatChunk(chunks: seq<seq<Byte>>, i: nat)
    requires forall j :: 0 <= j < |chunks| ==> |chunks[j]| == SCRAPE_CHUNK
    requires i < |chunks|
    ensures Concat(chunks)[SCRAPE_CHUNK * i..SCRAPE_CHUNK * i + SCRAPE_CHUNK] == chunks[i]
  {
    if i > 0 {
      ConcatChunk(chunks[1..], i - 1);
      assert Concat(chunks) == chunks[0] + Concat(chunks[1..]);
      assert Concat(chunks)[SCRAPE_CHUNK * i..SCRAPE_CHUNK * i + SCRAPE_CHUNK]
          == Concat(chunks[1..])[SCRAPE_CHUNK * (i - 1)..SCRAPE_CHUNK * (i - 1) + SCRAPE_CHUNK];
    }
  }

  /**
   Decoding a Scrape request built from whole 8-byte chunks gives one key
   per chunk, in order; a tail shorter than a chunk is dropped.
   */
  lemma {:induction false} ScrapeRoundTrip(connectionId: U64, transactionId: U32,
                                           chunks: seq<seq<Byte>>, tail: seq<Byte>,
                                           lossy: seq<Byte> -> string)
    requires forall i :: 0 <= i < |chunks| ==> |chunks[i]| == SCRAPE_CHUNK
    requires |tail| < SCRAPE_CHUNK
    ensures var buf := Actions.Header(connectionId, Actions.Code(Actions.Scrape), transactionId) + Concat(chunks) + tail;
      InBounds(buf) && Parse(buf, lossy) == Ok(Scrape(connectionId, transactionId, MapLossy(chunks, lossy)))
  {
    var payload := Concat(chunks) + tail;
    var buf := Actions.Header(connectionId, Actions.Code(Actions.Scrape), transactionId) + Concat(chunks) + tail;
    ConcatAssoc(Actions.Header(connectionId, Actions.Code(Actions.Scrape), transactionId), Concat(chunks), tail);
    Actions.ClassifyHeader(Actions.Scrape, connectionId, transactionId, payload);
    Actions.HeaderFields(connectionId, Actions.Code(Actions.Scrape), transactionId, payload);
    assert buf[16..] == payload;
    ScrapeHashesOfChunks(chunks, tail, lossy);
  }

  /** The keys of a payload of whole chunks and a short tail are the chunks' keys. */
  lemma ScrapeHashesOfChunks(chunks: seq<seq<Byte>>, tail: seq<Byte>, lossy: seq<Byte> -> string)
    requires forall i :: 0 <= i < |chunks| ==> |chunks[i]| == SCRAPE_CHUNK
    requires |tail| < SCRAPE_CHUNK
    ensures ScrapeHashes(Concat(chunks) + tail, lossy) == MapLossy(chunks, lossy)
  {
    var payload := Concat(chunks) + tail;
    var hashes := ScrapeHashes(payload, lossy);
    forall i | 0 <= i < |chunks|
      ensures hashes[i] == lossy(chunks[i])
    {
      ConcatChunk(chunks, i);
      assert payload[SCRAPE_CHUNK * i..SCRAPE_CHUNK * i + SCRAPE_CHUNK]
          == Concat(chunks)[SCRAPE_CHUNK * i..SCRAPE_CHUNK * i + SCRAPE_CHUNK];
    }
  }

  /** The Connect header of the classification tests, decoded, gives back its two ids. */
  lemma ConnectExampleParse(lossy: seq<Byte> -> string)
    ensures Parse(ConnectRequest(0x41727101980, 0x7B), lossy) == Ok(Connect(0x41727101980, 0x7B))
  {
    ConnectRoundTrip(0x41727101980, 0x7B, [], lossy);
    assert ConnectRequest(0x41727101980, 0x7B) + [] == ConnectRequest(0x41727101980, 0x7B);
  }

  // The other direction: what the decoder reads, written back with the
  // client encoder, gives the bytes it was read from.

  /** The header fields, written back, are the first 16 bytes. */
  lemma HeaderOf(buf: seq<Byte>)
    requires |buf| >= Actions.HEADER_LEN
    ensures Actions.Header(ReadU64(buf, 0), ReadU32(buf, 8), ReadU32(buf, 12)) == buf[..16]
  {
    PutReadU64(buf, 0);
    PutReadU32(buf, 8);
    PutReadU32(buf, 12);
    assert buf[..16] == buf[0..8] + buf[8..12] + buf[12..16];
  }

  /** The three counters, written back, are bytes 56..80. */
  lemma CountersOf(buf: seq<Byte>)
    requires |buf| >= 80
    ensures Counters(ReadU64(buf, 56), ReadU64(buf, 64), ReadU64(buf, 72)) == buf[56..80]
  {
    PutReadU64(buf, 56);
    PutReadU64(buf, 64);
    PutReadU64(buf, 72);
    SliceSplit(buf, 64, 72, 80);
    SliceSplit(buf, 56, 64, 80);
  }

  /** The trailing fields, num_want through its i32 reading, written back, are bytes 80..98. */
  lemma TrailerOf(buf: seq<Byte>)
    requires |buf| >= ANNOUNCE_LEN
    ensures Trailer(ReadU32(buf, 80), ReadU32(buf, 84), ReadU32(buf, 88), ToI32(ReadU32(buf, 92)), ReadU16(buf, 96))
         == buf[80..98]
  {
    PutReadU32(buf, 80);
    PutReadU32(buf, 84);
    PutReadU32(buf, 88);
    PutReadU32(buf, 92);
    PutReadU16(buf, 96);
    assert FromI32(ToI32(ReadU32(buf, 92))) == ReadU32(buf, 92);
    SliceSplit(buf, 92, 96, 98);
    SliceSplit(buf, 88, 92, 98);
    SliceSplit(buf, 84, 88, 98);
    SliceSplit(buf, 80, 84, 98);
  }

  /**
   Every byte of an Announce request is read by the decoder: writing the
   decoded frame back with the client encoder (the 20-byte identifiers and
   the raw event code as they were on the wire) gives the first 98 bytes.
   With AnnounceRoundTrip this pins each field to its offset in both
   directions.
   */
  lemma {:induction false} AnnounceReencode(buf: seq<Byte>, lossy: seq<Byte> -> string)
    requires InBounds(buf) && Actions.Classify(buf) == Actions.Announce
    ensures var f := Parse(buf, lossy).value;
      && f.Announce?
      && f.infoHash == lossy(buf[16..36]) && f.peerId == lossy(buf[36..56])
      && f.event == EventFrom(ReadU32(buf, 80))
      && buf[..ANNOUNCE_LEN]
         == AnnounceRequest(f.connectionId, f.transactionId, buf[16..36], buf[36..56],
                            f.downloaded, f.left, f.uploaded, ReadU32(buf, 80),
                            f.ipAddress, f.key, f.numWant, f.port)
  {
    var f := Parse(buf, lossy).value;
    HeaderOf(buf);
    CountersOf(buf);
    TrailerOf(buf);
    assert ReadU32(buf, 8) == Actions.Code(Actions.Announce);
    SliceSplit(buf, 0, 80, 98);
    SliceSplit(buf, 0, 56, 80);
    SliceSplit(buf, 0, 36, 56);
    SliceSplit(buf, 0, 16, 36);
    assert buf[..ANNOUNCE_LEN] == buf[0..98] && buf[..16] == buf[0..16];
  }
}
