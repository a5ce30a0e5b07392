/**
 Handling one datagram: decode it, answer it, and on Announce record the
 requester in the in-memory swarm map (info hash -> peers).

 The map is shared by all handlers of the server; here it is one `Db`
 object that every `Handler` refers to. Locking, the socket and the final
 send are not modelled; the two random values the handler draws (a new
 connection id, an error transaction id) are parameters of `Run`.
 */
module Server {
  import opened NetworkEndian
  import Actions
  import opened Parser

  datatype IpAddr = V4(a: Byte, b: Byte, c: Byte, d: Byte) | V6(segments: seq<U16>)
  datatype SocketAddr = SocketAddr(ip: IpAddr, port: U16)

  /** A peer is just the address a datagram came from (`Peer::from` is this constructor). */
  datatype Peer = Peer(addr: SocketAddr)

  /** The announce interval, in seconds, that every Announce reply carries. */
  const INTERVAL: U32 := 1

  /** The ASCII bytes of "invalid request", the body of every error reply. */
  const INVALID_REQUEST: seq<Byte> :=
    [0x69, 0x6e, 0x76, 0x61, 0x6c, 0x69, 0x64, 0x20, 0x72, 0x65, 0x71, 0x75, 0x65, 0x73, 0x74]

  lemma InvalidRequestText()
    ensures |INVALID_REQUEST| == |"invalid request"|
    ensures forall i :: 0 <= i < |INVALID_REQUEST| ==> INVALID_REQUEST[i] == "invalid request"[i] as int
  {
  }

  /** `u32::from` of an IPv4 address (its octets most significant first); 0 for IPv6. */
  function IpWord(ip: IpAddr): (w: U32)
    ensures ip.V4? ==> PutU32(w) == [ip.a, ip.b, ip.c, ip.d]
    ensures ip.V6? ==> w == 0
  {
    match ip
    case V4(a, b, c, d) =>
      Pow256Widths();
      BytesOfBE([a, b, c, d]);
      BE([a, b, c, d])
    case V6(_) => 0
  }

  /** One peer in an Announce reply: its IPv4 word, then its port. */
  function PeerEntry(p: Peer): (s: seq<Byte>)
    ensures |s| == 6
  {
    PutU32(IpWord(p.addr.ip)) + PutU16(p.addr.port)
  }

  /** The peers of an Announce reply, in list order. */
  function PeerList(peers: seq<Peer>): (s: seq<Byte>)
    ensures |s| == 6 * |peers|
  {
    if peers == [] then [] else PeerList(peers[..|peers| - 1]) + PeerEntry(peers[|peers| - 1])
  }

  /** `peers.len() as u32`: the length truncated to 32 bits. */
  function LenU32(peers: seq<Peer>): (n: U32)
    ensures |peers| < 0x1_0000_0000 ==> n == |peers|
  {
    |peers| % 0x1_0000_0000
  }

  function ConnectReply(transactionId: U32, connectionId: U64): seq<Byte>
  {
    PutU32(Actions.Code(Actions.Connect)) + PutU32(transactionId) + PutU64(connectionId)
  }

  /** Leechers and seeders are both given as the length of the peer list. */
  function AnnounceReply(transactionId: U32, peers: seq<Peer>): seq<Byte>
  {
    PutU32(Actions.Code(Actions.Announce)) + PutU32(transactionId) + PutU32(INTERVAL)
      + PutU32(LenU32(peers)) + PutU32(LenU32(peers)) + PeerList(peers)
  }

  function ErrorReply(transactionId: U32): seq<Byte>
  {
    PutU32(Actions.Code(Actions.Error)) + PutU32(transactionId) + INVALID_REQUEST
  }

  /**
   The map after an Announce of infoHash from `from`: an unknown hash is
   added with the one-peer list [Peer(from)]; a known hash, and every
   other key, keeps its list untouched.
   */
  function AfterAnnounce(db: map<string, seq<Peer>>, infoHash: string, from: SocketAddr)
    : (r: map<string, seq<Peer>>)
    ensures infoHash in r
    ensures r.Keys == db.Keys + {infoHash}
    ensures infoHash in db ==> r[infoHash] == db[infoHash]
    ensures infoHash !in db ==> r[infoHash] == [Peer(from)]
    ensures forall k :: k in db && k != infoHash ==> r[k] == db[k]
  {
    if infoHash in db then db else db[infoHash := [Peer(from)]]
  }

  /** The map after handling a frame: only an Announce can change it. */
  function NextDb(db: map<string, seq<Peer>>, frame: Frame, from: SocketAddr)
    : (r: map<string, seq<Peer>>)
    ensures !frame.Announce? ==> r == db
  {
    if frame.Announce? then AfterAnnounce(db, frame.infoHash, from) else db
  }

  /** The reply to a frame, given the map as it was before the frame was handled. */
  function Response(frame: Frame, db: map<string, seq<Peer>>, from: SocketAddr,
                    connectionId: U64, errorTransactionId: U32): (r: seq<Byte>)
    ensures frame.Connect? ==> |r| == 16
    ensures frame.Announce? ==> |r| == 20 + 6 * |AfterAnnounce(db, frame.infoHash, from)[frame.infoHash]|
    ensures frame.Scrape? ==> r == []
    ensures frame.Error? ==> |r| == 23
  {
    match frame
    case Connect(_, transactionId) => ConnectReply(transactionId, connectionId)
    case Announce(_, transactionId, infoHash, _, _, _, _, _, _, _, _, _) =>
      AnnounceReply(transactionId, AfterAnnounce(db, infoHash, from)[infoHash])
    case Scrape(_, _, _) => []
    case Error => ErrorReply(errorTransactionId)
  }

  /** Every stored swarm holds exactly one peer. */
  ghost predicate Singletons(db: map<string, seq<Peer>>)
  {
    forall k :: k in db ==> |db[k]| == 1
  }

  /** The shared swarm map (`Db`). */
  class Db {
    var swarms: map<string, seq<Peer>>

    ghost predicate Valid()
      reads this
    {
      Singletons(swarms)
    }

    constructor ()
      ensures swarms == map[]
      ensures Valid()
    {
      swarms := map[];
    }

    /**
     The lookup of an Announce: the peers stored under infoHash, after
     storing [Peer(from)] there if the hash was unknown.
     */
    method GetOrInsert(infoHash: string, from: SocketAddr) returns (peers: seq<Peer>)
      modifies this
      ensures swarms == AfterAnnounce(old(swarms), infoHash, from)
      ensures infoHash in swarms && peers == swarms[infoHash]
      ensures old(Valid()) ==> Valid()
    {
      if infoHash !in swarms {
        swarms := swarms[infoHash := [Peer(from)]];
      }
      peers := swarms[infoHash];
    }
  }

  /** `for_each` over the peers, appending each one's entry to the buffer. */
  method PutPeers(buf: seq<Byte>, peers: seq<Peer>) returns (out: seq<Byte>)
    ensures out == buf + PeerList(peers)
  {
    out := buf;
    var i := 0;
    while i < |peers|
      invariant 0 <= i <= |peers|
      invariant out == buf + PeerList(peers[..i])
    {
      var p := peers[i];
      out := out + PutU32(IpWord(p.addr.ip));
      out := out + PutU16(p.addr.port);
      assert peers[..i + 1][..i] == peers[..i];
      assert PeerList(peers[..i + 1]) == PeerList(peers[..i]) + PeerEntry(p);
      i := i + 1;
    }
    assert peers[..i] == peers;
  }

  /** The Connect reply, appended field by field. */
  method WriteConnect(transactionId: U32, connectionId: U64) returns (buf: seq<Byte>)
    ensures buf == ConnectReply(transactionId, connectionId)
  {
    buf := [];
    buf := buf + PutU32(0);
    buf := buf + PutU32(transactionId);
    buf := buf + PutU64(connectionId);
  }

  /** The Announce reply, appended field by field, then peer by peer. */
  method WriteAnnounce(transactionId: U32, peers: seq<Peer>) returns (buf: seq<Byte>)
    ensures buf == AnnounceReply(transactionId, peers)
  {
    buf := [];
    buf := buf + PutU32(1);
    buf := buf + PutU32(transactionId);
    buf := buf + PutU32(1);
    buf := buf + PutU32(|peers| % 0x1_0000_0000);
    buf := buf + PutU32(|peers| % 0x1_0000_0000);
    buf := PutPeers(buf, peers);
  }

  /** The Error reply, appended field by field. */
  method WriteError(transactionId: U32) returns (buf: seq<Byte>)
    ensures buf == ErrorReply(transactionId)
  {
    buf := [];
    buf := buf + PutU32(3);
    buf := buf + PutU32(transactionId);
    buf := buf + INVALID_REQUEST;
  }

  /** The handler of one datagram received from `fromAddr`. */
  class Handler {
    const db: Db
    const fromAddr: SocketAddr
    /** The datagram, as the parser holds it. */
    const dgram: seq<Byte>

    constructor (db: Db, fromAddr: SocketAddr, dgram: seq<Byte>)
      ensures this.db == db && this.fromAddr == fromAddr && this.dgram == dgram
    {
      this.db := db;
      this.fromAddr := fromAddr;
      this.dgram := dgram;
    }

    /**
     `Handler::run` up to the send: parse the datagram, build the reply,
     and on Announce insert an unknown info hash into the map.
     */
    method Run(lossy: seq<Byte> -> string, connectionId: U64, errorTransactionId: U32)
      returns (reply: seq<Byte>)
      requires InBounds(dgram)
      modifies db
      ensures db.swarms == NextDb(old(db.swarms), Parse(dgram, lossy).value, fromAddr)
      ensures reply == Response(Parse(dgram, lossy).value, old(db.swarms), fromAddr,
                                connectionId, errorTransactionId)
      ensures old(db.Valid()) ==> db.Valid()
      ensures old(db.Valid()) && Parse(dgram, lossy).value.Announce? ==> |reply| == 26
    {
      var frame := Parse(dgram, lossy).value;
      match frame {
        case Connect(_, transactionId) =>
          reply := WriteConnect(transactionId, connectionId);
        case Announce(_, transactionId, infoHash, _, _, _, _, _, _, _, _, _) =>
          var peers := db.GetOrInsert(infoHash, fromAddr);
          reply := WriteAnnounce(transactionId, peers);
          AnnounceReplyHeader(transactionId, peers);
        case Scrape(_, _, _) =>
          reply := [];
        case Error =>
          reply := WriteError(errorTransactionId);
      }
    }
  }

  // Layout of the replies: each field read back from its offset.

  /** The Connect reply is 16 bytes: action 0, the echoed transaction id, the new connection id. */
  lemma ConnectReplyLayout(transactionId: U32, connectionId: U64)
    ensures var r := ConnectReply(transactionId, connectionId);
      && |r| == 16
      && ReadU32(r, 0) == 0 && ReadU32(r, 4) == transactionId && ReadU64(r, 8) == connectionId
  {
    var r := ConnectReply(transactionId, connectionId);
    assert r[0..4] == PutU32(0) && r[4..8] == PutU32(transactionId) && r[8..16] == PutU64(connectionId);
    ReadPutU32(r, 0, 0);
    ReadPutU32(r, 4, transactionId);
    ReadPutU64(r, 8, connectionId);
  }

  /** The fixed 20-byte head of an Announce reply. */
  function AnnounceHead(transactionId: U32, n: U32): (h: seq<Byte>)
    ensures |h| == 20
  {
    PutU32(Actions.Code(Actions.Announce)) + PutU32(transactionId) + PutU32(INTERVAL) + PutU32(n) + PutU32(n)
  }

  lemma AnnounceReplySplit(transactionId: U32, peers: seq<Peer>)
    ensures AnnounceReply(transactionId, peers) == AnnounceHead(transactionId, LenU32(peers)) + PeerList(peers)
  {
  }

  /**
   The Announce reply starts with action 1, the echoed transaction id and an
   interval of 1; leechers and seeders are both the (32-bit) peer count, and
   the whole reply is 20 + 6n bytes.
   */
  lemma AnnounceReplyHeader(transactionId: U32, peers: seq<Peer>)
    ensures var r := AnnounceReply(transactionId, peers);
      && |r| == 20 + 6 * |peers|
      && ReadU32(r, 0) == 1 && ReadU32(r, 4) == transactionId && ReadU32(r, 8) == 1
      && ReadU32(r, 12) == LenU32(peers) && ReadU32(r, 16) == LenU32(peers)
  {
    var h := AnnounceHead(transactionId, LenU32(peers));
    AnnounceReplySplit(transactionId, peers);
    AnnounceHeadFields(transactionId, LenU32(peers));
    ReadU32Prefix(h, PeerList(peers), 0);
    ReadU32Prefix(h, PeerList(peers), 4);
    ReadU32Prefix(h, PeerList(peers), 8);
    ReadU32Prefix(h, PeerList(peers), 12);
    ReadU32Prefix(h, PeerList(peers), 16);
  }

  lemma AnnounceHeadFields(transactionId: U32, n: U32)
    ensures var h := AnnounceHead(transactionId, n);
      && ReadU32(h, 0) == 1 && ReadU32(h, 4) == transactionId && ReadU32(h, 8) == 1
      && ReadU32(h, 12) == n && ReadU32(h, 16) == n
  {
    var p1 := PutU32(1);
    var p2 := p1 + PutU32(transactionId);
    var p3 := p2 + PutU32(1);
    var p4 := p3 + PutU32(n);
    var h := p4 + PutU32(n);
    assert p1 == [] + PutU32(1);
    ReadLastU32([], 1);
    ReadLastU32(p1, transactionId);
    ReadLastU32(p2, 1);
    ReadLastU32(p3, n);
    ReadLastU32(p4, n);
    ReadU32Prefix(p1, PutU32(transactionId), 0);
    ReadU32Prefix(p2, PutU32(1), 0);
    ReadU32Prefix(p2, PutU32(1), 4);
    ReadU32Prefix(p3, PutU32(n), 0);
    ReadU32Prefix(p3, PutU32(n), 4);
    ReadU32Prefix(p3, PutU32(n), 8);
    ReadU32Prefix(p4, PutU32(n), 0);
    ReadU32Prefix(p4, PutU32(n), 4);
    ReadU32Prefix(p4, PutU32(n), 8);
    ReadU32Prefix(p4, PutU32(n), 12);
  }

  /** The i-th peer's six bytes sit at offset 6i of the peer list. */
  lemma {:induction false} PeerListAt(peers: seq<Peer>, i: nat)
    requires i < |peers|
    ensures PeerList(peers)[6 * i..6 * i + 6] == PeerEntry(peers[i])
  {
    var init := peers[..|peers| - 1];
    assert PeerList(peers) == PeerList(init) + PeerEntry(peers[|peers| - 1]);
    if i < |peers| - 1 {
      PeerListAt(init, i);
      assert init[i] == peers[i];
    }
  }

  /**
   Each peer of the list appears in the Announce reply, in list order: peer
   i's IPv4 word (0 for IPv6) at offset 20 + 6i and its port at 24 + 6i.
   */
  lemma {:induction false} AnnounceReplyPeer(transactionId: U32, peers: seq<Peer>, i: nat)
    requires i < |peers|
    ensures var r := AnnounceReply(transactionId, peers);
      && 20 + 6 * i + 6 <= |r|
      && ReadU32(r, 20 + 6 * i) == IpWord(peers[i].addr.ip)
      && ReadU16(r, 24 + 6 * i) == peers[i].addr.port
  {
    AnnounceReplySplit(transactionId, peers);
    PeerAfterHead(AnnounceHead(transactionId, LenU32(peers)), peers, i);
  }

  lemma PeerAfterHead(h: seq<Byte>, peers: seq<Peer>, i: nat)
    requires |h| == 20 && i < |peers|
    ensures var r := h + PeerList(peers);
      && 20 + 6 * i + 6 <= |r|
      && ReadU32(r, 20 + 6 * i) == IpWord(peers[i].addr.ip)
      && ReadU16(r, 24 + 6 * i) == peers[i].addr.port
  {
    var pl := PeerList(peers);
    var k := 6 * i;
    assert k + 6 <= |pl|;
    PeerListAt(peers, i);
    SliceAfter(h, pl, k, 6);
    ReadPeerEntry(h + pl, 20 + k, peers[i]);
  }

  /** A peer entry read back: the IPv4 word, then the port. */
  lemma ReadPeerEntry(r: seq<Byte>, off: nat, p: Peer)
    requires off + 6 <= |r| && r[off..off + 6] == PeerEntry(p)
    ensures ReadU32(r, off) == IpWord(p.addr.ip) && ReadU16(r, off + 4) == p.addr.port
  {
    var e := PeerEntry(p);
    assert r[off..off + 4] == e[0..4] == PutU32(IpWord(p.addr.ip));
    assert r[off + 4..off + 6] == e[4..6] == PutU16(p.addr.port);
    ReadPutU32(r, off, IpWord(p.addr.ip));
    ReadPutU16(r, off + 4, p.addr.port);
  }

  /** The Error reply is 23 bytes: action 3, the given id, then the text "invalid request". */
  lemma ErrorReplyLayout(transactionId: U32)
    ensures var r := ErrorReply(transactionId);
      && |r| == 23
      && ReadU32(r, 0) == 3 && ReadU32(r, 4) == transactionId && r[8..] == INVALID_REQUEST
  {
    var r := ErrorReply(transactionId);
    assert r[0..4] == PutU32(3) && r[4..8] == PutU32(transactionId);
    ReadPutU32(r, 0, 3);
    ReadPutU32(r, 4, transactionId);
  }

  // The swarm map over a run of the server.

  /** An Announce keeps every stored list a one-peer list. */
  lemma AfterAnnounceSingletons(db: map<string, seq<Peer>>, infoHash: string, from: SocketAddr)
    requires Singletons(db)
    ensures Singletons(AfterAnnounce(db, infoHash, from))
  {
  }

  /** The map after handling a run of datagrams, each a frame and the address it came from. */
  function Replay(db: map<string, seq<Peer>>, steps: seq<(Frame, SocketAddr)>): (r: map<string, seq<Peer>>)
    ensures db.Keys <= r.Keys
    decreases |steps|
  {
    if steps == [] then db else Replay(NextDb(db, steps[0].0, steps[0].1), steps[1..])
  }

  /**
   Starting from the empty map of a fresh server, however many datagrams
   are handled, every info hash is stored with exactly one peer (which
   peer: FirstAnnouncerKept).
   */
  lemma {:induction false} ReplaySingletons(db: map<string, seq<Peer>>, steps: seq<(Frame, SocketAddr)>)
    requires Singletons(db)
    ensures Singletons(Replay(db, steps))
    decreases |steps|
  {
    if steps != [] {
      var next := NextDb(db, steps[0].0, steps[0].1);
      if steps[0].0.Announce? {
        AfterAnnounceSingletons(db, steps[0].0.infoHash, steps[0].1);
      }
      ReplaySingletons(next, steps[1..]);
    }
  }

  /** The frame is an Announce of infoHash. */
  predicate Announces(frame: Frame, infoHash: string)
  {
    frame.Announce? && frame.infoHash == infoHash
  }

  /**
   A hash that was not stored ends up with the one-peer list of the sender
   of its first Announce, whatever datagrams follow.
   */
  lemma {:induction false} FirstAnnouncerKept(db: map<string, seq<Peer>>, steps: seq<(Frame, SocketAddr)>,
                                              infoHash: string, j: nat)
    requires infoHash !in db
    requires j < |steps| && Announces(steps[j].0, infoHash)
    requires forall k :: 0 <= k < j ==> !Announces(steps[k].0, infoHash)
    ensures infoHash in Replay(db, steps) && Replay(db, steps)[infoHash] == [Peer(steps[j].1)]
    decreases |steps|
  {
    var next := NextDb(db, steps[0].0, steps[0].1);
    if j == 0 {
      ReplayKeepsStored(next, steps[1..], infoHash);
    } else {
      assert !Announces(steps[0].0, infoHash);
      assert infoHash !in next;
      forall k | 0 <= k < j - 1
        ensures !Announces(steps[1..][k].0, infoHash)
      {
        assert steps[1..][k] == steps[k + 1];
      }
      FirstAnnouncerKept(next, steps[1..], infoHash, j - 1);
    }
  }

  /** Once a hash is stored, later datagrams never change its peer list. */
  lemma {:induction false} ReplayKeepsStored(db: map<string, seq<Peer>>, steps: seq<(Frame, SocketAddr)>, infoHash: string)
    requires infoHash in db
    ensures infoHash in Replay(db, steps) && Replay(db, steps)[infoHash] == db[infoHash]
    decreases |steps|
  {
    if steps != [] {
      ReplayKeepsStored(NextDb(db, steps[0].0, steps[0].1), steps[1..], infoHash);
    }
  }

  /**
   With every list a one-peer list, every Announce reply is 26 bytes and
   reports one leecher and one seeder.
   */
  lemma AnnounceReplyOnSingletons(db: map<string, seq<Peer>>, frame: Frame, from: SocketAddr,
                                  connectionId: U64, errorTransactionId: U32)
    requires Singletons(db) && frame.Announce?
    ensures var r := Response(frame, db, from, connectionId, errorTransactionId);
      |r| == 26 && ReadU32(r, 12) == 1 && ReadU32(r, 16) == 1
  {
    AfterAnnounceSingletons(db, frame.infoHash, from);
    var peers := AfterAnnounce(db, frame.infoHash, from)[frame.infoHash];
    AnnounceReplyHeader(frame.transactionId, peers);
  }

  /** The Connect reply to that header is 00000000 0000007B followed by the eight bytes of the new connection id. */
  lemma ConnectExampleReply(db: map<string, seq<Peer>>, from: SocketAddr, newId: U64, errId: U32)
    ensures Response(Connect(0x41727101980, 0x7B), db, from, newId, errId)
         == [0, 0, 0, 0, 0, 0, 0, 0x7B] + PutU64(newId)
  {
    PutU32Small(0);
    PutU32Small(0x7B);
  }
}
