/**
 Classification of a datagram by the action code in its request header
 (connection_id u64 | action u32 | transaction_id u32).
 */
module Actions {
  import opened NetworkEndian

  datatype Action = Connect | Announce | Scrape | Error

  /** Length of the request header that every request starts with. */
  const HEADER_LEN: nat := 16

  /**
   `Action::new`: a datagram shorter than the header (empty included) is an
   Error; otherwise the u32 at bytes 8..12 decides, 0, 1 and 2 naming the
   three requests and every other code an Error.
   */
  function Classify(buf: seq<Byte>): (a: Action)
    ensures a == Connect <==> |buf| >= HEADER_LEN && ReadU32(buf, 8) == 0
    ensures a == Announce <==> |buf| >= HEADER_LEN && ReadU32(buf, 8) == 1
    ensures a == Scrape <==> |buf| >= HEADER_LEN && ReadU32(buf, 8) == 2
    ensures a == Error <==> |buf| < HEADER_LEN || ReadU32(buf, 8) > 2
  {
    if |buf| == 0 || |buf| < HEADER_LEN then Error
    else
      match ReadU32(buf, 8)
      case 0 => Connect
      case 1 => Announce
      case 2 => Scrape
      case _ => Error
  }

  /** The action code BEP 15 gives each action (3 is the error action). */
  function Code(a: Action): (c: U32)
    ensures c <= 3
  {
    match a
    case Connect => 0
    case Announce => 1
    case Scrape => 2
    case Error => 3
  }

  /** A request header as a client writes it. */
  function Header(connectionId: U64, action: U32, transactionId: U32): (h: seq<Byte>)
    ensures |h| == HEADER_LEN
  {
    PutU64(connectionId) + PutU32(action) + PutU32(transactionId)
  }

  /** The three header fields sit at offsets 0, 8 and 12, whatever follows the header. */
  lemma HeaderFields(connectionId: U64, action: U32, transactionId: U32, rest: seq<Byte>)
    ensures var buf := Header(connectionId, action, transactionId) + rest;
      ReadU64(buf, 0) == connectionId && ReadU32(buf, 8) == action && ReadU32(buf, 12) == transactionId
  {
    var buf := Header(connectionId, action, transactionId) + rest;
    assert buf[0..8] == PutU64(connectionId);
    assert buf[8..12] == PutU32(action);
    assert buf[12..16] == PutU32(transactionId);
    ReadPutU64(buf, 0, connectionId);
    ReadPutU32(buf, 8, action);
    ReadPutU32(buf, 12, transactionId);
  }

  /** Any datagram that cannot hold a header is an Error, never a failure. */
  lemma ShortIsError(buf: seq<Byte>)
    requires |buf| < HEADER_LEN
    ensures Classify(buf) == Error
  {
  }

  /** A header carrying an action's code classifies as that action; any tail is ignored. */
  lemma {:induction false} ClassifyHeader(a: Action, connectionId: U64, transactionId: U32, rest: seq<Byte>)
    ensures Classify(Header(connectionId, Code(a), transactionId) + rest) == a
  {
    HeaderFields(connectionId, Code(a), transactionId, rest);
  }

  /** Every code above 2 in a full header classifies as Error. */
  lemma {:induction false} ClassifyUnknownCode(code: U32, connectionId: U64, transactionId: U32, rest: seq<Byte>)
    requires code > 2
    ensures Classify(Header(connectionId, code, transactionId) + rest) == Error
  {
    HeaderFields(connectionId, code, transactionId, rest);
  }

  /**
   Classification looks only at the length class and bytes 8..12: two
   datagrams that agree on those classify alike, whatever their other bytes.
   */
  lemma ClassifyDependsOnlyOnActionField(buf: seq<Byte>, other: seq<Byte>)
    requires (|buf| < HEADER_LEN) == (|other| < HEADER_LEN)
    requires |buf| >= HEADER_LEN ==> buf[8..12] == other[8..12]
    ensures Classify(buf) == Classify(other)
  {
  }

  /** The header of the unit tests: connection id 0x41727101980, transaction id 123. */
  lemma ClassifyExamples()
    ensures Classify(Header(0x41727101980, 0, 123)) == Connect
    ensures Classify(Header(0x41727101980, 1, 123)) == Announce
    ensures Classify(Header(0x41727101980, 2, 123)) == Scrape
    ensures Classify(Header(0x41727101980, 3, 123)) == Error
    ensures Classify([]) == Error
  {
  }
}
