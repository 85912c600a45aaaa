/**
 * The invitation a list is shared with: a gossip topic and the peers to reach
 * it through, written with postcard and then as lowercase unpadded base 32
 * text. Parsing accepts either case.
 */
module Tickets {
  import opened Results
  import opened Wire
  import opened Postcard
  import Base32

  /** Bytes in a topic id. */
  const TOPIC_LEN: nat := 32

  /** How to reach a peer; its inner structure is kept opaque, as its serialized bytes. */
  datatype PeerSource = PeerSource(descriptor: Bytes)

  /** `Ticket { topic, peers }`; `topic` is a 32-byte `TopicId`. */
  datatype Ticket = Ticket(topic: Bytes, peers: seq<PeerSource>)

  datatype TicketError = Decoding(cause: Base32.DecodeError) | Deserializing

  /** What the Rust types can hold: a 32-byte topic and lengths that fit a 64-bit `usize`. */
  predicate Representable(t: Ticket) {
    && |t.topic| == TOPIC_LEN
    && |t.peers| < 0x1_0000_0000_0000_0000
    && forall i :: 0 <= i < |t.peers| ==> |t.peers[i].descriptor| < 0x1_0000_0000_0000_0000
  }

  /** The peers one after the other, each a length-prefixed byte string. */
  function EncPeers(ps: seq<PeerSource>): Bytes {
    if ps == [] then [] else EncBytes(ps[0].descriptor) + EncPeers(ps[1..])
  }

  /** `Ticket::to_bytes`: the topic's raw bytes, the number of peers, then the peers. */
  function ToBytes(t: Ticket): (r: Bytes)
    ensures |r| > |t.topic| && r[..|t.topic|] == t.topic
    ensures |r| >= |t.topic| + |Varint(|t.peers|)|
    ensures r[|t.topic|..|t.topic| + |Varint(|t.peers|)|] == Varint(|t.peers|)
    ensures r[|t.topic| + |Varint(|t.peers|)|..] == EncPeers(t.peers)
  {
    t.topic + Varint(|t.peers|) + EncPeers(t.peers)
  }

  /** Reads `n` peers from the front of `s`. */
  function TakePeers(s: Bytes, n: nat): (r: Option<(seq<PeerSource>, Bytes)>)
    ensures r.Some? ==> |r.value.0| == n
    decreases n
  {
    if n == 0 then Some(([], s))
    else match TakeBytes(s)
      case None => None
      case Some((d, s1)) =>
        match TakePeers(s1, n - 1)
        case None => None
        case Some((ps, s2)) => Some(([PeerSource(d)] + ps, s2))
  }

  /** `Ticket::from_bytes`: decodes the front of the bytes and ignores what follows. */
  function FromBytes(b: Bytes): (r: Result<Ticket, TicketError>)
    ensures r.Ok? ==> |r.value.topic| == TOPIC_LEN
    ensures r.Err? ==> r.error == Deserializing
  {
    match TakeFixed(b, TOPIC_LEN)
    case None => Err(Deserializing)
    case Some((topic, s1)) =>
      match TakeVarint(s1)
      case None => Err(Deserializing)
      case Some((n, s2)) =>
        match TakePeers(s2, n as nat)
        case None => Err(Deserializing)
        case Some((ps, _)) => Ok(Ticket(topic, ps))
  }

  lemma {:induction false} PeersRoundTrip(ps: seq<PeerSource>, rest: Bytes)
    requires forall i :: 0 <= i < |ps| ==> |ps[i].descriptor| < 0x1_0000_0000_0000_0000
    ensures TakePeers(EncPeers(ps) + rest, |ps|) == Some((ps, rest))
  {
    if ps != [] {
      var tail := EncPeers(ps[1..]) + rest;
      assert EncPeers(ps) + rest == EncBytes(ps[0].descriptor) + tail;
      BytesRoundTrip(ps[0].descriptor, tail);
      PeersRoundTrip(ps[1..], rest);
      assert [ps[0]] + ps[1..] == ps;
    } else {
      assert EncPeers(ps) + rest == rest;
    }
  }

  /** Reading back the bytes of a ticket, whatever follows them, gives the ticket. */
  lemma BytesRoundTripTicket(t: Ticket, rest: Bytes)
    requires Representable(t)
    ensures FromBytes(ToBytes(t) + rest) == Ok(t)
  {
    var s2 := EncPeers(t.peers) + rest;
    var s1 := Varint(|t.peers|) + s2;
    assert ToBytes(t) + rest == t.topic + s1;
    assert TakeFixed(ToBytes(t) + rest, TOPIC_LEN) == Some((t.topic, s1));
    VarintRoundTrip(|t.peers| as u64, s2);
    PeersRoundTrip(t.peers, rest);
  }

  /** `make_ascii_lowercase`: only `A`-`Z` change. */
  function Lowercase(s: string): (r: string)
    ensures |r| == |s|
    ensures forall i :: 0 <= i < |s| ==> r[i] == if 'A' <= s[i] <= 'Z' then (s[i] as int + 32) as char else s[i]
  {
    seq(|s|, i requires 0 <= i < |s| => if 'A' <= s[i] <= 'Z' then (s[i] as int + 32) as char else s[i])
  }

  /** `to_ascii_uppercase`: only `a`-`z` change. */
  function Uppercase(s: string): (r: string)
    ensures |r| == |s|
    ensures forall i :: 0 <= i < |s| ==> r[i] == if 'a' <= s[i] <= 'z' then (s[i] as int - 32) as char else s[i]
  {
    seq(|s|, i requires 0 <= i < |s| => if 'a' <= s[i] <= 'z' then (s[i] as int - 32) as char else s[i])
  }

  /** Each case mapping leaves no letter of the other case, and uppercasing forgets an earlier lowercasing. */
  lemma CaseMapping(s: string)
    ensures forall i :: 0 <= i < |s| ==> !('A' <= Lowercase(s)[i] <= 'Z')
    ensures forall i :: 0 <= i < |s| ==> !('a' <= Uppercase(s)[i] <= 'z')
    ensures Uppercase(Lowercase(s)) == Uppercase(s)
    ensures Lowercase(Uppercase(s)) == Lowercase(s)
  {
  }

  /** The characters a ticket's text form is made of: lowercase letters and `2`-`7`. */
  predicate IsTicketChar(c: char) {
    'a' <= c <= 'z' || '2' <= c <= '7'
  }

  /** `Display for Ticket`: base 32 of the bytes, without padding, in lowercase. */
  function Display(t: Ticket): (text: string)
    ensures forall i :: 0 <= i < |text| ==> IsTicketChar(text[i])
  {
    Lowercase(Base32.Encode(ToBytes(t)))
  }

  /** `FromStr for Ticket`: uppercase, decode base 32, then read the bytes. */
  function FromStr(s: string): (r: Result<Ticket, TicketError>)
    ensures r.Ok? ==> |r.value.topic| == TOPIC_LEN
    ensures r.Ok? ==> exists b :: Base32.Encode(b) == Uppercase(s) && FromBytes(b) == r
    ensures (5 * |s|) % 8 >= 5 ==> r == Err(Decoding(Base32.InvalidLength))
    ensures (5 * |s|) % 8 < 5 && (exists i :: 0 <= i < |s| && !Base32.IsSymbol(Uppercase(s)[i])) ==>
      r == Err(Decoding(Base32.InvalidSymbol))
  {
    match Base32.Decode(Uppercase(s))
    case Err(e) => Err(Decoding(e))
    case Ok(b) =>
      Base32.EncodeDecode(Uppercase(s));
      FromBytes(b)
  }

  /** Uppercasing undoes lowercasing on base 32 text. */
  lemma UppercaseLowercase(s: string)
    requires forall i :: 0 <= i < |s| ==> Base32.IsSymbol(s[i])
    ensures Uppercase(Lowercase(s)) == s
  {
  }

  /** The parse does not depend on the case of the letters it is given. */
  lemma FromStrIgnoresCase(s: string)
    ensures FromStr(Lowercase(s)) == FromStr(s)
    ensures FromStr(Uppercase(s)) == FromStr(s)
  {
    assert Uppercase(Lowercase(s)) == Uppercase(s);
    assert Uppercase(Uppercase(s)) == Uppercase(s);
  }

  /** Parsing the text form of a ticket gives the ticket back. */
  lemma TextRoundTrip(t: Ticket)
    requires Representable(t)
    ensures FromStr(Display(t)) == Ok(t)
  {
    var enc := Base32.Encode(ToBytes(t));
    UppercaseLowercase(enc);
    Base32.DecodeEncode(ToBytes(t));
    BytesRoundTripTicket(t, []);
    assert ToBytes(t) + [] == ToBytes(t);
  }
}
