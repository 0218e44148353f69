/**
  The metadata worker as the program runs it (bt/worker.go): a byte stream, a buffer that
  messages are copied through, and a slice of pieces filled in place.
 */
module Worker {
  import opened Bytes
  import opened Results
  import opened Codec
  import opened Krpc
  import opened Framing
  import opened Metadata
  import opened Requests

  /** A connection: the bytes still to come from the peer, and those sent to it. */
  class Conn {
    var input: seq<Byte>
    var output: seq<Byte>
  }

  /** The part of bytes.Buffer in use. */
  class Buffer {
    var data: seq<Byte>

    constructor ()
      ensures data == []
    {
      data := [];
    }

    method Next(n: nat) returns (xs: seq<Byte>)
      modifies this
      ensures var k := if n <= |old(data)| then n else |old(data)|;
              xs == old(data)[..k] && data == old(data)[k..]
    {
      var k := if n <= |data| then n else |data|;
      xs, data := data[..k], data[k..];
    }

    method ReadByte() returns (r: Result<Byte>)
      modifies this
      ensures if |old(data)| == 0 then r.Err? && data == []
              else r == Ok(old(data)[0]) && data == old(data)[1..]
    {
      if |data| == 0 {
        return Err;
      }
      r, data := Ok(data[0]), data[1..];
    }

    method ReadAll() returns (xs: seq<Byte>)
      modifies this
      ensures xs == old(data) && data == []
    {
      xs, data := data, [];
    }

    method Reset()
      modifies this
      ensures data == []
    {
      data := [];
    }
  }

  /** Copies size bytes from the connection to the buffer, or what there is of them. */
  method Read(conn: Conn, size: nat, data: Buffer) returns (ok: bool)
    modifies conn, data
    ensures ok == (|old(conn.input)| >= size)
    ensures var k := if ok then size else |old(conn.input)|;
            && conn.input == old(conn.input)[k..] && data.data == old(data.data) + old(conn.input)[..k]
    ensures conn.output == old(conn.output)
  {
    ok := |conn.input| >= size;
    var k := if ok then size else |conn.input|;
    data.data := data.data + conn.input[..k];
    conn.input := conn.input[k..];
  }

  /**
    Reads one frame: with an empty buffer, the body of the first frame of the input ends up
    in the buffer; without a whole frame there, the read fails.
   */
  method ReadMessage(conn: Conn, data: Buffer) returns (r: Result<nat>)
    modifies conn, data
    ensures old(data.data) == [] && HasFrame(old(conn.input)) ==>
              && r == Ok(|FirstBody(old(conn.input))|)
              && data.data == FirstBody(old(conn.input))
              && conn.input == AfterFrame(old(conn.input))
    ensures old(data.data) == [] && !HasFrame(old(conn.input)) ==> r.Err?
    ensures conn.output == old(conn.output)
  {
    hide BigEndian;
    var ok := Read(conn, 4, data);
    if !ok {
      return Err;
    }
    var header := data.Next(4);
    assert old(data.data) == [] ==> header == old(conn.input)[..4];
    var length := Bytes2Int(header);
    if length.Err? {
      return Err;
    }
    FourBytes(header);
    if length.value == 0 {
      return Ok(0);
    }
    ok := Read(conn, length.value, data);
    return if ok then Ok(length.value) else Err;
  }

  lemma FourBytes(header: seq<Byte>)
    requires |header| <= 4
    ensures BigEndian(header) < TWO_32
  {
    BigEndianBound(header);
    Pow2Of64();
    Pow2Monotone(8 * |header|, 32);
  }

  method SendMessage(conn: Conn, data: seq<Byte>)
    modifies conn
    ensures conn.output == old(conn.output) + Frame(data) && conn.input == old(conn.input)
  {
    var length := Int32(|data|);
    var buffer := Int32Bytes(length);
    conn.output := conn.output + (buffer + data);
  }

  /** `copy` into a part of an array, up to the shorter of the two lengths. */
  method Copy(dst: array<Byte>, lo: nat, hi: nat, src: seq<Byte>)
    requires lo <= hi <= dst.Length
    modifies dst
    ensures forall i :: 0 <= i < dst.Length ==>
              dst[i] == if lo <= i < hi && i - lo < |src| then src[i - lo] else old(dst[i])
  {
    var k := if |src| < hi - lo then |src| else hi - lo;
    forall i | 0 <= i < k {
      dst[lo + i] := src[i];
    }
  }

  method SendHandshake(conn: Conn, infohash: seq<Byte>, id: seq<Byte>)
    modifies conn
    ensures conn.output == old(conn.output) + HandshakeBytes(infohash, id) && conn.input == old(conn.input)
  {
    hide HANDSHAKE_PREFIX, HandshakeBytes;
    PrefixLength();
    var data := new Byte[68](_ => 0);
    Copy(data, 0, 28, HANDSHAKE_PREFIX);
    Copy(data, 28, 48, infohash);
    Copy(data, 48, 68, id);
    assert data[..28] == HANDSHAKE_PREFIX;
    assert data[28..48] == Fitted(infohash, 20);
    assert data[48..68] == Fitted(id, 20);
    HandshakeParts(data[..], infohash, id);
    conn.output := conn.output + data[..];
  }

  lemma PrefixLength()
    ensures |HANDSHAKE_PREFIX| == 28
  {
  }

  lemma HandshakeParts(data: seq<Byte>, infohash: seq<Byte>, id: seq<Byte>)
    requires |data| == 68 && data[..28] == HANDSHAKE_PREFIX
    requires data[28..48] == Fitted(infohash, 20) && data[48..68] == Fitted(id, 20)
    ensures data == HandshakeBytes(infohash, id)
  {
    hide HANDSHAKE_PREFIX, Fitted;
    assert data == data[..28] + data[28..48] + data[48..68];
  }

  method SendExtHandshake(conn: Conn, encode: Encoder)
    modifies conn
    ensures conn.output == old(conn.output) + Frame(ExtHandshakeBody(encode)) && conn.input == old(conn.input)
  {
    var m := encode(map["m" := Dict(map["ut_metadata" := Int(1)])]);
    SendMessage(conn, [MSG_EXTENDED, 0] + m);
  }

  /**
    Asks for every piece out of one buffer; stops, in a panic, at the first request that does
    not fit the buffer.
   */
  method RequestPieces(conn: Conn, ut: int, total: nat, encode: Encoder) returns (sent: nat)
    modifies conn
    ensures sent <= total && (forall i :: 0 <= i < sent ==> FitsBuffer(encode, i))
    ensures sent < total ==> !FitsBuffer(encode, sent)
    ensures conn.output == old(conn.output) + Stream(RequestBodies(encode, ut, sent)) && conn.input == old(conn.input)
  {
    hide Frame, LowByte, RequestBodies, Stream;
    NoRequests(encode, ut);
    var buffer := new Byte[REQUEST_BUFFER](_ => 0);
    sent := 0;
    while sent < total
      invariant sent <= total && forall i :: 0 <= i < sent ==> FitsBuffer(encode, i)
      invariant conn.output == old(conn.output) + Stream(RequestBodies(encode, ut, sent))
      invariant conn.input == old(conn.input)
    {
      buffer[0], buffer[1] := MSG_EXTENDED, LowByte(ut);
      var msg := encode(map["msg_type" := Int(MSG_REQUEST), "piece" := Int(sent)]);
      var length := |msg| + 2;
      if length > buffer.Length {
        return;
      }
      Copy(buffer, 2, length, msg);
      assert buffer[..length] == buffer[..2] + buffer[2..length] == RequestBody(encode, ut, sent);
      SendMessage(conn, buffer[..length]);
      OneMoreRequest(encode, ut, sent);
      sent := sent + 1;
    }
  }

  lemma NoRequests(encode: Encoder, ut: int)
    ensures Stream(RequestBodies(encode, ut, 0)) == []
  {
  }

  lemma OneMoreRequest(encode: Encoder, ut: int, i: nat)
    ensures Stream(RequestBodies(encode, ut, i + 1))
            == Stream(RequestBodies(encode, ut, i)) + Frame(RequestBody(encode, ut, i))
  {
    StreamSnoc(RequestBodies(encode, ut, i), RequestBody(encode, ut, i));
    assert RequestBodies(encode, ut, i) + [RequestBody(encode, ut, i)] == RequestBodies(encode, ut, i + 1);
  }

  /** `sendMessage` for one body after the other. */
  method SendAll(conn: Conn, bodies: seq<seq<Byte>>)
    requires conn.output == []
    modifies conn
    ensures conn.output == Stream(bodies)
  {
    hide Frame;
    var i := 0;
    while i < |bodies|
      invariant 0 <= i <= |bodies| && conn.output == Stream(bodies[..i])
    {
      StreamSnoc(bodies[..i], bodies[i]);
      assert bodies[..i] + [bodies[i]] == bodies[..i + 1];
      SendMessage(conn, bodies[i]);
      i := i + 1;
    }
    assert bodies[..i] == bodies;
  }

  /** `readMessage` until it fails, emptying the buffer after each message. */
  method ReadMessages(conn: Conn) returns (got: seq<seq<Byte>>)
    modifies conn
    ensures got == Bodies(old(conn.input))
  {
    hide HasFrame, FirstBody, AfterFrame;
    var data := new Buffer();
    got := [];
    while true
      invariant data.data == [] && got + Bodies(conn.input) == Bodies(old(conn.input))
      decreases |conn.input|
    {
      var r := ReadMessage(conn, data);
      if r.Err? {
        break;
      }
      var body := data.ReadAll();
      got := got + [body];
    }
  }

  /** Any messages sent at one end of a wire are read at the other. */
  method Relay(bodies: seq<seq<Byte>>) returns (got: seq<seq<Byte>>)
    requires forall i :: 0 <= i < |bodies| ==> |bodies[i]| < TWO_32
    ensures got == bodies
  {
    var a, b := new Conn, new Conn;
    a.output := [];
    SendAll(a, bodies);
    b.input := a.output;
    got := ReadMessages(b);
    FramingRoundTrip(bodies);
  }

  lemma {:induction false} StreamSnoc(bodies: seq<seq<Byte>>, body: seq<Byte>)
    ensures Stream(bodies + [body]) == Stream(bodies) + Frame(body)
  {
    if |bodies| == 0 {
      assert (bodies + [body])[1..] == [];
      assert Stream([]) == [];
    } else {
      assert (bodies + [body])[1..] == bodies[1..] + [body];
      StreamSnoc(bodies[1..], body);
    }
  }

  // ---------- fetching ----------

  /** Checks if all pieces are complete. */
  method AllFilled(pieces: array<seq<Byte>>) returns (b: bool)
    ensures b == IsDone(pieces[..])
  {
    var i := 0;
    while i < pieces.Length
      invariant 0 <= i <= pieces.Length
      invariant forall k :: 0 <= k < i ==> |pieces[k]| > 0
    {
      if |pieces[i]| == 0 {
        assert pieces[..][i] == pieces[i];
        return false;
      }
      i := i + 1;
    }
    return true;
  }

  ghost function SessionOf(pieces: array?<seq<Byte>>, size: int): (s: Session)
    reads pieces
  {
    if pieces == null then NoPieces else Pieces(size, pieces[..])
  }

  datatype Verdict = Continue | End(st: State)

  /** The end of the loop body: checks a data message and stores its payload. */
  method StorePiece(
    pieces: array<seq<Byte>>, size: int, total: int, piece: int, payload: seq<Byte>, index: int)
    returns (v: Verdict)
    requires total == TotalPieces(size)
    modifies pieces
    ensures var st := Store(Pieces(size, old(pieces[..])), piece, |payload| - index, payload, index);
            if v.End? then v.st == st && !st.Running? else st == Running(Pieces(size, pieces[..]))
  {
    var pieceLen := |payload| - index;
    if total > 1 && piece != total - 1 && pieceLen != BLOCK_SIZE {
      return End(Failed);
    }
    if piece == total - 1 && pieceLen != Remainder(size) {
      return End(Failed);
    }
    if !(0 <= piece < pieces.Length) || !(0 <= index <= |payload|) {
      return End(Panicked);
    }
    pieces[piece] := payload[index..];
    var done := AllFilled(pieces);
    assert pieces[..] == old(pieces[..])[piece := payload[index..]];
    return if done then End(Done(Join(pieces[..]))) else Continue;
  }

  lemma {:induction false} EndedRunStays(decode: Decoder, xs: seq<seq<Byte>>, ys: seq<seq<Byte>>)
    requires !Run(decode, xs).Running?
    ensures Run(decode, xs + ys) == Run(decode, xs)
  {
    if |ys| == 0 {
      assert xs + ys == xs;
    } else {
      assert (xs + ys)[..|xs + ys| - 1] == xs + ys[..|ys| - 1];
      EndedRunStays(decode, xs, ys[..|ys| - 1]);
    }
  }

  /** Reads the ut_metadata id and the size out of an extended handshake. */
  method GetUTMetaSize(decode: Decoder, payload: seq<Byte>) returns (r: Result<(int, int)>)
    ensures r.Ok? <==> MetaSize(decode, payload).Ok?
    ensures r.Ok? ==> Ok(r.value.0) == UtMetadata(decode, payload) && Ok(r.value.1) == MetaSize(decode, payload)
  {
    match decode(payload) {
      case BadDict => return Err;
      case Decoded(dict, _) =>
        var m := GetMap(dict, "m");
        if m.Err? {
          return Err;
        }
        var ut := GetInt(m.value, "ut_metadata");
        var size := GetInt(dict, "metadata_size");
        if ut.Err? || size.Err? || size.value > MAX_METADATA_SIZE {
          return Err;
        }
        return Ok((ut.value, size.value));
    }
  }

  /** One message body out of the buffer, which is empty again unless the run has ended. */
  method Dispatch(decode: Decoder, data: Buffer, pieces0: array?<seq<Byte>>, size0: int, total0: int)
    returns (v: Verdict, pieces: array?<seq<Byte>>, size: int, total: int, started: seq<Request>)
    requires |data.data| > 0
    requires pieces0 != null ==> total0 == TotalPieces(size0)
    modifies data, pieces0
    ensures pieces != null ==> total == TotalPieces(size)
    ensures pieces == pieces0 || fresh(pieces)
    ensures v.Continue? ==>
              && data.data == []
              && Receive(decode, old(SessionOf(pieces0, size0)), old(data.data)) == Running(SessionOf(pieces, size))
    ensures v.End? ==>
              !v.st.Running? && v.st == Receive(decode, old(SessionOf(pieces0, size0)), old(data.data))
    ensures started == StartedBy(decode, old(SessionOf(pieces0, size0)), old(data.data))
  {
    pieces, size, total, started := pieces0, size0, total0, [];
    v := Continue;
    ghost var body := data.data;
    var msgType := data.ReadByte();
    if msgType.value != MSG_EXTENDED {
      data.Reset();
      return;
    }
    var extendedID := data.ReadByte();
    if extendedID.Err? {
      v := End(Failed);
      return;
    }
    var payload := data.ReadAll();
    assert payload == body[2..];
    if extendedID.value == 0 {
      if pieces != null {
        v := End(Failed);
        return;
      }
      var r := GetUTMetaSize(decode, payload);
      if r.Err? {
        v := End(Failed);
        return;
      }
      var (ut, announced) := r.value;
      size := announced;
      total := Quotient(size);
      if Remainder(size) != 0 {
        total := total + 1;
      }
      if total < 0 {
        v := End(Panicked);
        return;
      }
      pieces := new seq<Byte>[total](_ => []);
      assert pieces[..] == seq(total, _ => []);
      started := [Request(ut, total)];
      return;
    }
    if pieces == null {
      v := End(Failed);
      return;
    }
    v := OnExtended(decode, pieces, size, total, payload);
  }

  /** An extended message once the pieces are known. */
  method OnExtended(decode: Decoder, pieces: array<seq<Byte>>, size: int, total: int, payload: seq<Byte>)
    returns (v: Verdict)
    requires total == TotalPieces(size)
    modifies pieces
    ensures var e := ReadExtended(decode, payload);
            var s := Pieces(size, old(pieces[..]));
            var st := if e.Idle? then Running(s) else if !e.Data? then Failed
                      else Store(s, e.piece, e.length, e.payload, e.end);
            if v.End? then v.st == st && !st.Running? else st == Running(Pieces(size, pieces[..]))
  {
    var decoded := decode(payload);
    if decoded.BadDict? {
      return End(Failed);
    }
    var mt := GetInt(decoded.dict, "msg_type");
    if mt.Err? {
      return End(Failed);
    }
    if mt.value != MSG_DATA {
      return Continue;
    }
    var piece := GetInt(decoded.dict, "piece");
    if piece.Err? {
      return End(Failed);
    }
    v := StorePiece(pieces, size, total, piece.value, payload, decoded.end);
  }

  /** What a run over all the input amounts to: one still waiting ends in a read error. */
  function Finish(st: State): (r: State) {
    if st.Running? then Failed else st
  }

  /**
    The message loop: the outcome is that of the machine on the frames of the input, the
    requests started are those of `Started`, and the loop itself sends nothing.
   */
  method FetchLoop(conn: Conn, data: Buffer, decode: Decoder) returns (st: State, started: seq<Request>)
    requires data.data == []
    modifies conn, data
    ensures st == Finish(Run(decode, Bodies(old(conn.input))))
    ensures started == Started(decode, Bodies(old(conn.input)))
    ensures conn.output == old(conn.output)
  {
    hide HasFrame, FirstBody, AfterFrame, Receive, StartedBy;
    var pieces: array?<seq<Byte>>, size, total := null, 0, 0;
    ghost var input := conn.input;
    ghost var seen: seq<seq<Byte>> := [];
    started := [];
    while true
      invariant data.data == [] && (pieces == null || fresh(pieces)) && conn.output == old(conn.output)
      invariant started == Started(decode, seen)
      invariant pieces != null ==> total == TotalPieces(size)
      invariant Run(decode, seen) == Running(SessionOf(pieces, size))
      invariant seen + Bodies(conn.input) == Bodies(input)
      decreases |conn.input|
    {
      ghost var rest := conn.input;
      var length := ReadMessage(conn, data);
      if length.Err? {
        assert seen == Bodies(input);
        return Failed, started;
      }
      ghost var body := FirstBody(rest);
      Snoc(decode, seen, body, Bodies(input), Bodies(conn.input));
      seen := seen + [body];
      if length.value == 0 {
        EmptyBody(decode, SessionOf(pieces, size));
        continue;
      }
      var v, more;
      v, pieces, size, total, more := Dispatch(decode, data, pieces, size, total);
      started := started + more;
      if v.End? {
        EndedRunStays(decode, seen, Bodies(conn.input));
        EndedStartsNoMore(decode, seen, Bodies(conn.input));
        return v.st, started;
      }
    }
  }

  lemma {:induction false} EndedStartsNoMore(decode: Decoder, xs: seq<seq<Byte>>, ys: seq<seq<Byte>>)
    requires !Run(decode, xs).Running?
    ensures Started(decode, xs + ys) == Started(decode, xs)
  {
    if |ys| == 0 {
      assert xs + ys == xs;
    } else {
      assert (xs + ys)[..|xs + ys| - 1] == xs + ys[..|ys| - 1];
      EndedStartsNoMore(decode, xs, ys[..|ys| - 1]);
      EndedRunStays(decode, xs, ys[..|ys| - 1]);
    }
  }

  lemma EmptyBody(decode: Decoder, s: Session)
    ensures Receive(decode, s, []) == Running(s) && StartedBy(decode, s, []) == []
  {
  }

  lemma Snoc(decode: Decoder, seen: seq<seq<Byte>>, body: seq<Byte>, all: seq<seq<Byte>>, rest: seq<seq<Byte>>)
    requires Run(decode, seen).Running? && all == seen + ([body] + rest)
    ensures Run(decode, seen + [body]) == Receive(decode, Run(decode, seen).session, body)
    ensures Started(decode, seen + [body])
            == Started(decode, seen) + StartedBy(decode, Run(decode, seen).session, body)
    ensures all == seen + [body] + rest
  {
    assert (seen + [body])[..|seen|] == seen;
  }

  // ---------- the peer handshake ----------

  /** The result of a fetch as a function of everything the peer sends. */
  function FetchResult(decode: Decoder, input: seq<Byte>): (st: State) {
    if |input| < 68 || !HandshakeAccepted(input[..68]) then Failed
    else Finish(Run(decode, Bodies(input[68..])))
  }

  /** The requests a fetch starts, as a function of everything the peer sends. */
  function FetchStarts(decode: Decoder, input: seq<Byte>): (rs: seq<Request>) {
    if |input| < 68 || !HandshakeAccepted(input[..68]) then [] else Started(decode, Bodies(input[68..]))
  }

  /**
    A fetch sends its handshake, and after the right answer its extended one; the requests it
    starts are the only other messages on the connection.
   */
  method FetchMetadata(conn: Conn, decode: Decoder, encode: Encoder, infohash: seq<Byte>, id: seq<Byte>)
    returns (st: State, started: seq<Request>)
    modifies conn
    ensures st == FetchResult(decode, old(conn.input)) && started == FetchStarts(decode, old(conn.input))
    ensures conn.output
            == old(conn.output) + HandshakeBytes(infohash, id)
               + if |old(conn.input)| >= 68 && HandshakeAccepted(old(conn.input)[..68])
                 then Frame(ExtHandshakeBody(encode)) else []
  {
    hide Frame, HandshakeBytes, HandshakeAccepted;
    var data := new Buffer();
    SendHandshake(conn, infohash, id);
    var ok := Read(conn, 68, data);
    if !ok {
      return Failed, [];
    }
    var next := data.Next(68);
    assert next == old(conn.input)[..68];
    if !HandshakeAccepted(next) {
      return Failed, [];
    }
    SendExtHandshake(conn, encode);
    st, started := FetchLoop(conn, data, decode);
  }

  /** The peer's handshake has come and is the right one. */
  predicate Answered(input: seq<Byte>) {
    |input| >= 68 && Answers(input[..68])
  }

  /** The message bodies that follow it. */
  function Messages(input: seq<Byte>): (bodies: seq<seq<Byte>>) {
    if |input| < 68 then [] else Bodies(input[68..])
  }

  lemma FetchByMessages(decode: Decoder, input: seq<Byte>)
    ensures FetchResult(decode, input)
            == if Answered(input) then Finish(Run(decode, Messages(input))) else Failed
    ensures FetchStarts(decode, input)
            == if Answered(input) then Started(decode, Messages(input)) else []
  {
    hide HandshakeAccepted, Answers;
    if |input| >= 68 {
      AcceptedIff(input[..68]);
    }
  }

  /**
    A fetch that returns metadata had the right answer from its peer, and the metadata is what
    the messages up to some point announced and carried.
   */
  lemma FetchSound(decode: Decoder, input: seq<Byte>) returns (k: nat)
    requires FetchResult(decode, input).Done?
    ensures Answered(input) && k <= |Messages(input)|
    ensures Reassembled(decode, Messages(input)[..k], FetchResult(decode, input).out)
  {
    hide Answered, FetchResult, Messages, Reassembled;
    FetchByMessages(decode, input);
    k := Soundness(decode, Messages(input));
  }

  /**
    How a fetch ends otherwise. It is an error without the right answer, at a body that fails
    the run, and when the input ends before the last block; it is a panic at a body that
    panics.
   */
  lemma FetchEndsIff(decode: Decoder, input: seq<Byte>)
    ensures var bodies, r := Messages(input), FetchResult(decode, input);
            && (r == Failed <==> !Answered(input) || Run(decode, bodies).Running?
                                 || exists k :: 0 <= k < |bodies| && FailsAt(decode, bodies, k))
            && (r == Panicked <==> Answered(input) && exists k :: 0 <= k < |bodies| && PanicsAt(decode, bodies, k))
            && !r.Running?
  {
    hide Answered, FetchResult, Messages, FailsAt, PanicsAt;
    FetchByMessages(decode, input);
    RunFailsIff(decode, Messages(input));
    RunPanicsIff(decode, Messages(input));
  }

  /** A fetch starts requests exactly if a handshake made the pieces known, and then once. */
  lemma FetchStartsIff(decode: Decoder, input: seq<Byte>)
    ensures var bodies, rs := Messages(input), FetchStarts(decode, input);
            && |rs| <= 1
            && (|rs| == 1 <==> Answered(input) && exists k :: 0 <= k <= |bodies| && KnowsPieces(decode, bodies, k))
  {
    hide Answered, FetchStarts, Messages, KnowsPieces;
    FetchByMessages(decode, input);
    StartedOnce(decode, Messages(input));
    StartedIff(decode, Messages(input));
  }

  /**
    End to end: a peer that answers the handshake and then sends frames with the blocks of
    m, in any order and with anything harmless between them, makes the fetch return m, and is
    asked for all of them once.
   */
  lemma FetchReturnsMetadata(
    decode: Decoder, m: seq<Byte>, answer: seq<Byte>,
    pre: seq<seq<Byte>>, hello: seq<Byte>, bodies: seq<seq<Byte>>, tail: seq<Byte>)
    requires |answer| == 68 && HandshakeAccepted(answer)
    requires 0 < |m| && |m| % BLOCK_SIZE != 0
    requires Prelude(pre, decode) && Metadata.Read(decode, hello) == Handshake(Ok(|m|))
    requires forall i :: 0 <= i < |bodies| ==> Honest(decode, m, bodies[i])
    requires Complete(m, Delivered(decode, bodies))
    requires var all := pre + [hello] + bodies; forall i :: 0 <= i < |all| ==> |all[i]| < TWO_32
    ensures var input := answer + Stream(pre + [hello] + bodies) + tail;
            && FetchResult(decode, input) == Done(m)
            && |FetchStarts(decode, input)| == 1 && FetchStarts(decode, input)[0].total == TotalPieces(|m|)
  {
    hide Honest, Prelude, Frame, HasFrame, FirstBody, AfterFrame, HandshakeAccepted, Metadata.Read, Started;
    var all := pre + [hello] + bodies;
    var input := answer + Stream(all) + tail;
    assert input[..68] == answer && input[68..] == Stream(all) + tail;
    ReadFrames(all, tail);
    Completeness(decode, m, pre, hello, bodies);
    EndedRunStays(decode, all, Bodies(tail));
    StartedOnce(decode, Bodies(input[68..]));
  }
}
