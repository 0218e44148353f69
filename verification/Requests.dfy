/**
  What the worker sends (bt/worker.go): the two handshakes, and the requests for pieces that
  an accepted extended handshake starts beside the message loop. The bencode encoder is a
  parameter.
 */
module Requests {
  import opened Bytes
  import opened Results
  import opened Krpc
  import opened Framing
  import opened Metadata

  type Encoder = Fields -> seq<Byte>

  const MSG_REQUEST := 0
  const REQUEST_BUFFER := 1024

  // ---------- handshakes ----------

  const HANDSHAKE_PREFIX: seq<Byte> := [
    19, 66, 105, 116, 84, 111, 114, 114, 101, 110, 116, 32, 112, 114,
    111, 116, 111, 99, 111, 108, 0, 0, 0, 0, 0, 16, 0, 1]

  predicate HandshakeAccepted(next: seq<Byte>)
    requires |next| == 68
  {
    HANDSHAKE_PREFIX[..20] == next[..20] && next[25] & 0x10 != 0
  }

  /** A handshake of BEP 3, by the name "BitTorrent protocol", with the extension bit of BEP 10 set. */
  predicate Answers(next: seq<Byte>)
    requires |next| == 68
  {
    && next[..20] == [0x13, 0x42, 0x69, 0x74, 0x54, 0x6f, 0x72, 0x72, 0x65, 0x6e, 0x74,
                      0x20, 0x70, 0x72, 0x6f, 0x74, 0x6f, 0x63, 0x6f, 0x6c]
    && next[25] & 0x10 != 0
  }

  lemma PrefixParts()
    ensures |HANDSHAKE_PREFIX| == 28 && HANDSHAKE_PREFIX[20..] == [0, 0, 0, 0, 0, 16, 0, 1]
    ensures HANDSHAKE_PREFIX[..20]
            == [0x13, 0x42, 0x69, 0x74, 0x54, 0x6f, 0x72, 0x72, 0x65, 0x6e, 0x74,
                0x20, 0x70, 0x72, 0x6f, 0x74, 0x6f, 0x63, 0x6f, 0x6c]
  {
  }

  /** Exactly such an answer is accepted. */
  lemma AcceptedIff(next: seq<Byte>)
    requires |next| == 68
    ensures HandshakeAccepted(next) <==> Answers(next)
  {
    PrefixParts();
    hide HANDSHAKE_PREFIX;
  }

  /** What `copy` leaves in n zero bytes. */
  function Fitted(xs: seq<Byte>, n: nat): (ys: seq<Byte>)
    ensures |ys| == n && (|xs| == n ==> ys == xs)
  {
    if |xs| >= n then xs[..n] else xs + seq(n - |xs|, _ => 0)
  }

  function HandshakeBytes(infohash: seq<Byte>, id: seq<Byte>): (data: seq<Byte>)
    ensures |data| == 68
  {
    HANDSHAKE_PREFIX + Fitted(infohash, 20) + Fitted(id, 20)
  }

  /** The handshake is one of BEP 3 with the extension bit; the torrent and the id can be read off it. */
  lemma HandshakeReads(infohash: seq<Byte>, id: seq<Byte>)
    requires |infohash| == 20 && |id| == 20
    ensures var data := HandshakeBytes(infohash, id);
            && Answers(data) && HandshakeAccepted(data)
            && data[20..28] == [0, 0, 0, 0, 0, 16, 0, 1] && data[28..48] == infohash && data[48..] == id
  {
    var data := HandshakeBytes(infohash, id);
    PrefixParts();
    hide HANDSHAKE_PREFIX;
    assert data[..28] == HANDSHAKE_PREFIX;
    assert data[..20] == HANDSHAKE_PREFIX[..20] && data[20..28] == data[..28][20..];
    assert data[25] == data[20..28][5] == 16;
  }

  function ExtHandshakeBody(encode: Encoder): (body: seq<Byte>) {
    [MSG_EXTENDED, 0] + encode(map["m" := Dict(map["ut_metadata" := Int(1)])])
  }

  /** The extended handshake is one to its reader, and asks for ut_metadata under id 1. */
  lemma ExtHandshakeReads(encode: Encoder, decode: Decoder)
    requires var dict: Fields := map["m" := Dict(map["ut_metadata" := Int(1)])];
             decode(encode(dict)) == Decoded(dict, |encode(dict)|)
    ensures var body := ExtHandshakeBody(encode);
            && |body| >= 2 && body[0] == 20 && body[1] == 0 && decode(body[2..]).Decoded?
            && var dict := decode(body[2..]).dict;
            && "m" in dict && dict["m"].Dict? && Holds(dict["m"].fields, "ut_metadata", 1)
  {
    assert ExtHandshakeBody(encode)[2..] == encode(map["m" := Dict(map["ut_metadata" := Int(1)])]);
  }

  // ---------- requests ----------

  function RequestFields(i: int): (dict: Fields) {
    map["msg_type" := Int(MSG_REQUEST), "piece" := Int(i)]
  }

  function RequestBody(encode: Encoder, ut: int, i: int): (body: seq<Byte>) {
    [MSG_EXTENDED, LowByte(ut)] + encode(RequestFields(i))
  }

  /** The bodies that ask for pieces 0 to total - 1. */
  function RequestBodies(encode: Encoder, ut: int, total: nat): (bodies: seq<seq<Byte>>)
    ensures |bodies| == total
  {
    seq(total, i => RequestBody(encode, ut, i))
  }

  /** A request that fits the buffer it is written to; slicing past its end panics. */
  predicate FitsBuffer(encode: Encoder, i: int) {
    |encode(RequestFields(i))| + 2 <= 1024
  }

  predicate IsRequest(decode: Decoder, body: seq<Byte>, ut: int, i: int) {
    && |body| >= 2 && body[0] == 20 && body[1] as int == ut % 256
    && decode(body[2..]).Decoded?
    && Holds(decode(body[2..]).dict, "msg_type", 0) && Holds(decode(body[2..]).dict, "piece", i)
  }

  /** The peer reads one request for every piece, in order, under the id it announced, and nothing else. */
  lemma PeerReadsRequests(encode: Encoder, decode: Decoder, ut: int, total: nat)
    requires forall i :: 0 <= i < total ==> FitsBuffer(encode, i)
    requires forall i :: 0 <= i < total ==>
               decode(encode(RequestFields(i))) == Decoded(RequestFields(i), |encode(RequestFields(i))|)
    ensures var got := Bodies(Stream(RequestBodies(encode, ut, total)));
            |got| == total && forall i :: 0 <= i < total ==> IsRequest(decode, got[i], ut, i)
  {
    hide LowByte, Frame, HasFrame, FirstBody, AfterFrame;
    var bodies := RequestBodies(encode, ut, total);
    LowByteValue(ut);
    forall i | 0 <= i < total
      ensures |bodies[i]| < TWO_32 && IsRequest(decode, bodies[i], ut, i)
    {
      assert FitsBuffer(encode, i);
      assert bodies[i][2..] == encode(RequestFields(i));
    }
    FramingRoundTrip(bodies);
  }

  // ---------- when requests are started ----------

  /** One call of `requestPieces`. */
  datatype Request = Request(ut: int, total: int)

  /** The message id the peer wants for ut_metadata. */
  function UtMetadata(decode: Decoder, payload: seq<Byte>): (r: Result<int>) {
    match decode(payload)
    case BadDict => Err
    case Decoded(dict, _) =>
      var m :- GetMap(dict, "m");
      GetInt(m, "ut_metadata")
  }

  /** What a message starts: requests for all pieces if it is the handshake that creates them. */
  function StartedBy(decode: Decoder, s: Session, body: seq<Byte>): (rs: seq<Request>)
    ensures |rs| <= 1
  {
    var e := Read(decode, body);
    if s.NoPieces? && e.Handshake? && e.size.Ok? && TotalPieces(e.size.value) >= 0 then
      [Request(UtMetadata(decode, body[2..]).Extract(), TotalPieces(e.size.value))]
    else []
  }

  /** All requests started over a run of message bodies. */
  function Started(decode: Decoder, bodies: seq<seq<Byte>>): (rs: seq<Request>) {
    if |bodies| == 0 then [] else
      var before := bodies[..|bodies| - 1];
      Started(decode, before)
      + match Run(decode, before)
        case Running(s) => StartedBy(decode, s, bodies[|bodies| - 1])
        case _ => []
  }

  /** An extended handshake whose dictionary names this id for ut_metadata. */
  predicate NamesId(decode: Decoder, body: seq<Byte>, ut: int) {
    && |body| >= 2 && body[0] == 20 && body[1] == 0 && decode(body[2..]).Decoded?
    && var dict := decode(body[2..]).dict;
    && "m" in dict && dict["m"].Dict? && Holds(dict["m"].fields, "ut_metadata", ut)
  }

  ghost predicate Announces(decode: Decoder, bodies: seq<seq<Byte>>, ut: int) {
    exists k :: 0 <= k < |bodies| && NamesId(decode, bodies[k], ut)
  }

  lemma AnnouncesMore(decode: Decoder, bodies: seq<seq<Byte>>, body: seq<Byte>, ut: int)
    requires Announces(decode, bodies, ut)
    ensures Announces(decode, bodies + [body], ut)
  {
    var k :| 0 <= k < |bodies| && NamesId(decode, bodies[k], ut);
    assert (bodies + [body])[k] == bodies[k];
  }

  lemma DoneSize(decode: Decoder, bodies: seq<seq<Byte>>, size: int)
    requires |bodies| > 0 && Run(decode, bodies).Done?
    requires Announced(decode, bodies[..|bodies| - 1]) == Ok(size)
    ensures |Run(decode, bodies).out| == size
  {
    var k := Soundness(decode, bodies);
    AnnouncedOnce(decode, bodies, k);
    AnnouncedOnce(decode, bodies, |bodies| - 1);
  }

  /**
    Requests are started at most once in a run: not before the pieces are known, and then for
    exactly those pieces, under the id of a handshake that was received; a run that completes
    has asked for every block of its result.
   */
  lemma {:induction false} StartedOnce(decode: Decoder, bodies: seq<seq<Byte>>)
    ensures var rs := Started(decode, bodies);
            && |rs| <= 1 && (|rs| == 1 ==> Announces(decode, bodies, rs[0].ut))
            && match Run(decode, bodies)
               case Running(NoPieces) => rs == []
               case Running(Pieces(_, pieces)) => |rs| == 1 && rs[0].total == |pieces|
               case Done(out) => |rs| == 1 && rs[0].total == TotalPieces(|out|)
               case _ => true
  {
    hide NamesId, UtMetadata;
    if |bodies| > 0 {
      var before, body := bodies[..|bodies| - 1], bodies[|bodies| - 1];
      StartedOnce(decode, before);
      assert bodies == before + [body];
      if |Started(decode, before)| == 1 {
        AnnouncesMore(decode, before, body, Started(decode, before)[0].ut);
      }
      if Run(decode, before).Running? {
        StartStep(decode, before, body);
      }
    }
  }

  lemma StartStep(decode: Decoder, before: seq<seq<Byte>>, body: seq<Byte>)
    requires Run(decode, before).Running?
    ensures var s, st := Run(decode, before).session, Run(decode, before + [body]);
            var rs := StartedBy(decode, s, body);
            && (|rs| == 1 ==> s.NoPieces? && Announces(decode, before + [body], rs[0].ut))
            && (s.NoPieces? ==> !st.Done? && (st.Running? && st.session.Pieces? <==> |rs| == 1))
            && (s.NoPieces? && |rs| == 1 ==> rs[0].total == |st.session.pieces|)
            && (s.Pieces? && st.Running? ==> st.session.Pieces? && |st.session.pieces| == |s.pieces|)
            && (s.Pieces? && st.Done? ==> |s.pieces| == TotalPieces(|st.out|))
  {
    var bodies := before + [body];
    assert bodies[..|before|] == before && bodies[|before|] == body;
    ReadShape(decode, body);
    if |StartedBy(decode, Run(decode, before).session, body)| == 1 {
      assert NamesId(decode, bodies[|before|], StartedBy(decode, Run(decode, before).session, body)[0].ut);
    }
    var s := Run(decode, before).session;
    if s.Pieces? && Run(decode, bodies).Done? {
      RunConsistent(decode, before);
      DoneSize(decode, bodies, s.size);
    }
  }

  ghost predicate KnowsPieces(decode: Decoder, bodies: seq<seq<Byte>>, k: nat)
    requires k <= |bodies|
  {
    Run(decode, bodies[..k]).Running? && Run(decode, bodies[..k]).session.Pieces?
  }

  lemma KnowsMore(decode: Decoder, bodies: seq<seq<Byte>>)
    requires |bodies| > 0
    ensures var before := bodies[..|bodies| - 1];
            forall k :: 0 <= k < |bodies| ==> (KnowsPieces(decode, bodies, k) <==> KnowsPieces(decode, before, k))
    ensures KnowsPieces(decode, bodies, |bodies|) <==>
              Run(decode, bodies).Running? && Run(decode, bodies).session.Pieces?
  {
    hide Run;
    var before := bodies[..|bodies| - 1];
    forall k | 0 <= k < |bodies|
      ensures KnowsPieces(decode, bodies, k) <==> KnowsPieces(decode, before, k)
    {
      assert bodies[..k] == before[..k];
    }
    assert bodies[..|bodies|] == bodies;
  }

  lemma StartedLast(decode: Decoder, bodies: seq<seq<Byte>>)
    requires |bodies| > 0
    ensures var before := bodies[..|bodies| - 1];
            && Started(decode, bodies)
               == Started(decode, before)
                  + (if Run(decode, before).Running?
                     then StartedBy(decode, Run(decode, before).session, bodies[|bodies| - 1]) else [])
            && (!Run(decode, before).Running? ==> Run(decode, bodies) == Run(decode, before))
  {
    hide StartedBy, Receive;
  }

  lemma StartedMore(decode: Decoder, bodies: seq<seq<Byte>>)
    requires |bodies| > 0
    ensures Started(decode, bodies) != [] <==>
              Started(decode, bodies[..|bodies| - 1]) != []
              || (Run(decode, bodies).Running? && Run(decode, bodies).session.Pieces?)
  {
    hide Run, Started, StartedBy, Announces;
    var before := bodies[..|bodies| - 1];
    StartedLast(decode, bodies);
    StartedOnce(decode, before);
    assert bodies == before + [bodies[|bodies| - 1]];
    if Run(decode, before).Running? {
      StartStep(decode, before, bodies[|bodies| - 1]);
    }
  }

  /** They are started in exactly the runs in which the pieces became known at some point. */
  lemma {:induction false} StartedIff(decode: Decoder, bodies: seq<seq<Byte>>)
    ensures Started(decode, bodies) != [] <==> exists k :: 0 <= k <= |bodies| && KnowsPieces(decode, bodies, k)
  {
    if |bodies| == 0 {
      assert bodies[..0] == [];
    } else {
      hide Run, Started, KnowsPieces;
      StartedIff(decode, bodies[..|bodies| - 1]);
      KnowsMore(decode, bodies);
      StartedMore(decode, bodies);
    }
  }
}
