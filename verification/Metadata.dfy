/**
  The metadata download as a state machine over message bodies (bt/worker.go, BEP 9 and
  BEP 10): one extended handshake announces a size, data messages fill numbered pieces in
  any order, and the pieces are joined when none is empty.
 */
module Metadata {
  import opened Bytes
  import opened Results
  import opened Krpc

  const BLOCK_SIZE: int := 16384
  const MAX_METADATA_SIZE: int := BLOCK_SIZE * 1000
  const MSG_DATA := 1
  const MSG_EXTENDED: Byte := 20

  /** Go's integer division and remainder by a block, which truncate towards zero. */
  function Quotient(a: int): (q: int) {
    if a >= 0 then a / BLOCK_SIZE else -((-a) / BLOCK_SIZE)
  }

  function Remainder(a: int): (r: int) {
    a - BLOCK_SIZE * Quotient(a)
  }

  function TotalPieces(size: int): (n: int) {
    Quotient(size) + if Remainder(size) != 0 then 1 else 0
  }

  /** What has been agreed with the peer; an unfilled piece is empty. */
  datatype Session = NoPieces | Pieces(size: int, pieces: seq<seq<Byte>>)

  /** `Failed` is a returned error, `Panicked` the nil result of a recovered panic. */
  datatype State = Running(session: Session) | Done(out: seq<Byte>) | Failed | Panicked

  // ---------- reading a body ----------

  datatype Event =
    | Idle
    | Broken
    | Handshake(size: Result<int>)
    | Data(piece: int, length: int, payload: seq<Byte>, end: int)

  function MetaSize(decode: Decoder, payload: seq<Byte>): (r: Result<int>) {
    match decode(payload)
    case BadDict => Err
    case Decoded(dict, _) =>
      var m :- GetMap(dict, "m");
      var _ :- GetInt(m, "ut_metadata");
      var size :- GetInt(dict, "metadata_size");
      if size > MAX_METADATA_SIZE then Err else Ok(size)
  }

  /** An extended message other than the handshake. */
  function ReadExtended(decode: Decoder, payload: seq<Byte>): (e: Event) {
    match decode(payload)
    case BadDict => Broken
    case Decoded(dict, end) =>
      match GetInt(dict, "msg_type")
      case Err => Broken
      case Ok(mt) =>
        if mt != MSG_DATA then Idle else
        match GetInt(dict, "piece")
        case Err => Broken
        case Ok(piece) => Data(piece, |payload| - end, payload, end)
  }

  /** What one message body means, keepalives being empty bodies. */
  function Read(decode: Decoder, body: seq<Byte>): (e: Event) {
    if |body| == 0 || body[0] != MSG_EXTENDED then Idle
    else if |body| == 1 then Broken
    else if body[1] == 0 then Handshake(MetaSize(decode, body[2..]))
    else ReadExtended(decode, body[2..])
  }

  predicate IsExtendedMessage(body: seq<Byte>) {
    |body| >= 2 && body[0] == MSG_EXTENDED && body[1] != 0
  }

  predicate Holds(dict: Fields, key: string, n: int) {
    key in dict && dict[key] == Int(n)
  }

  /** A data message with a piece number, its payload ending the body after the dictionary. */
  predicate IsDataFor(decode: Decoder, body: seq<Byte>, piece: int) {
    && |body| >= 2 && body[0] == 20 && body[1] != 0 && decode(body[2..]).Decoded?
    && Holds(decode(body[2..]).dict, "msg_type", 1) && Holds(decode(body[2..]).dict, "piece", piece)
  }

  /** A data message of BEP 9, and only that, is read as one; its payload starts after the dictionary. */
  lemma DataMessageIff(decode: Decoder, body: seq<Byte>, piece: int)
    ensures (exists length, payload, end :: Read(decode, body) == Data(piece, length, payload, end))
            <==> IsDataFor(decode, body, piece)
    ensures Read(decode, body).Data? ==>
              && Read(decode, body).payload == body[2..]
              && Read(decode, body).length == |body| - 2 - decode(body[2..]).end
              && Read(decode, body).end == decode(body[2..]).end
  {
    if IsDataFor(decode, body, piece) {
      var payload := body[2..];
      var end := decode(payload).end;
      assert Read(decode, body) == Data(piece, |payload| - end, payload, end);
    }
  }

  /** A handshake of BEP 10 that names ut_metadata and, as BEP 9 has it, a size within the limit. */
  predicate IsHello(decode: Decoder, body: seq<Byte>, size: int) {
    && |body| >= 2 && body[0] == 20 && body[1] == 0 && decode(body[2..]).Decoded?
    && var dict := decode(body[2..]).dict;
    && Holds(dict, "metadata_size", size) && size <= 16384000
    && "m" in dict && dict["m"].Dict?
    && "ut_metadata" in dict["m"].fields && dict["m"].fields["ut_metadata"].Int?
  }

  lemma HandshakeIff(decode: Decoder, body: seq<Byte>, size: int)
    ensures Read(decode, body) == Handshake(Ok(size)) <==> IsHello(decode, body, size)
  {
  }

  /** Keepalives, other message types and extended messages other than data are passed over. */
  lemma IdleIff(decode: Decoder, body: seq<Byte>)
    ensures Read(decode, body) == Idle <==>
              || body == [] || body[0] != 20
              || (|body| >= 2 && body[1] != 0 && decode(body[2..]).Decoded?
                  && exists mt :: mt != 1 && Holds(decode(body[2..]).dict, "msg_type", mt))
  {
    if Read(decode, body) == Idle && IsExtendedMessage(body) {
      var mt := GetInt(decode(body[2..]).dict, "msg_type").value;
      assert mt != 1 && Holds(decode(body[2..]).dict, "msg_type", mt);
    }
  }

  // ---------- the machine ----------

  function Join(pieces: seq<seq<Byte>>): (out: seq<Byte>) {
    if |pieces| == 0 then [] else pieces[0] + Join(pieces[1..])
  }

  predicate IsDone(pieces: seq<seq<Byte>>) {
    forall i :: 0 <= i < |pieces| ==> |pieces[i]| > 0
  }

  /** The two length checks on a data message, as they are written. */
  predicate WrongLength(size: int, total: int, piece: int, length: int) {
    || (total > 1 && piece != total - 1 && length != BLOCK_SIZE)
    || (piece == total - 1 && length != Remainder(size))
  }

  function Store(s: Session, piece: int, length: int, payload: seq<Byte>, end: int): (st: State)
    requires s.Pieces?
  {
    if WrongLength(s.size, TotalPieces(s.size), piece, length) then Failed
    else if !(0 <= piece < |s.pieces|) || !(0 <= end <= |payload|) then Panicked
    else
      var pieces := s.pieces[piece := payload[end..]];
      if IsDone(pieces) then Done(Join(pieces)) else Running(s.(pieces := pieces))
  }

  function Receive(decode: Decoder, s: Session, body: seq<Byte>): (st: State) {
    if s.NoPieces? && IsExtendedMessage(body) then Failed else
    match Read(decode, body)
    case Idle => Running(s)
    case Broken => Failed
    case Handshake(size) =>
      if s.Pieces? || size.Err? then Failed
      else if TotalPieces(size.value) < 0 then Panicked
      else Running(Pieces(size.value, seq(TotalPieces(size.value), _ => [])))
    case Data(piece, length, payload, end) => Store(s, piece, length, payload, end)
  }

  /** The state after a run of message bodies; a run that has ended ignores the rest. */
  function Run(decode: Decoder, bodies: seq<seq<Byte>>): (st: State) {
    if |bodies| == 0 then Running(NoPieces) else
      var st := Run(decode, bodies[..|bodies| - 1]);
      if st.Running? then Receive(decode, st.session, bodies[|bodies| - 1]) else st
  }

  // ---------- what the messages said, without the machine ----------

  /** The size announced by the first extended handshake among the bodies. */
  function Announced(decode: Decoder, bodies: seq<seq<Byte>>): (r: Result<int>) {
    if |bodies| == 0 then Err else
      var before := Announced(decode, bodies[..|bodies| - 1]);
      var e := Read(decode, bodies[|bodies| - 1]);
      if before.Err? && e.Handshake? then e.size else before
  }

  /** The payload of the last data message for a piece, empty if there was none. */
  function LastPayload(decode: Decoder, bodies: seq<seq<Byte>>, i: int): (p: seq<Byte>) {
    if |bodies| == 0 then [] else
      var e := Read(decode, bodies[|bodies| - 1]);
      if e.Data? && e.piece == i && 0 <= e.end <= |e.payload| then e.payload[e.end..]
      else LastPayload(decode, bodies[..|bodies| - 1], i)
  }

  /** Length a stored piece must have. */
  function PieceLength(size: int, i: int): (n: int) {
    if i == TotalPieces(size) - 1 then Remainder(size) else BLOCK_SIZE
  }

  /** The session holds, for the announced size, the last payload of every piece. */
  ghost predicate Consistent(decode: Decoder, bodies: seq<seq<Byte>>, s: Session) {
    match s
    case NoPieces =>
      && Announced(decode, bodies).Err?
      && forall i :: LastPayload(decode, bodies, i) == []
    case Pieces(size, pieces) =>
      && Announced(decode, bodies) == Ok(size)
      && size <= MAX_METADATA_SIZE
      && |pieces| == TotalPieces(size)
      && forall i :: 0 <= i < |pieces| ==> PieceFits(decode, bodies, size, pieces, i)
  }

  ghost predicate PieceFits(decode: Decoder, bodies: seq<seq<Byte>>, size: int, pieces: seq<seq<Byte>>, i: int)
    requires 0 <= i < |pieces|
  {
    && pieces[i] == LastPayload(decode, bodies, i)
    && (|pieces[i]| > 0 ==> |pieces[i]| == PieceLength(size, i))
  }

  // ---------- soundness ----------

  lemma ReadShape(decode: Decoder, body: seq<Byte>)
    ensures var e := Read(decode, body);
            && (e.Data? ==> IsExtendedMessage(body) && e.length == |e.payload| - e.end)
            && (e.Handshake? && e.size.Ok? ==> e.size.value <= MAX_METADATA_SIZE)
  {
  }

  lemma StoreKeeps(decode: Decoder, bodies: seq<seq<Byte>>, s: Session)
    requires |bodies| > 0 && s.Pieces? && Consistent(decode, bodies[..|bodies| - 1], s)
    requires Read(decode, bodies[|bodies| - 1]).Data?
    ensures var e := Read(decode, bodies[|bodies| - 1]);
            var st := Store(s, e.piece, e.length, e.payload, e.end);
            && (st.Running? ==> Consistent(decode, bodies, st.session))
            && (st.Done? ==> exists pieces ::
                 Consistent(decode, bodies, Pieces(s.size, pieces)) && IsDone(pieces) && |pieces| > 0
                 && st.out == Join(pieces))
  {
    var body := bodies[|bodies| - 1];
    var e := Read(decode, body);
    ReadShape(decode, body);
    if Store(s, e.piece, e.length, e.payload, e.end).Running? || Store(s, e.piece, e.length, e.payload, e.end).Done? {
      var pieces := s.pieces[e.piece := e.payload[e.end..]];
      forall i | 0 <= i < |pieces|
        ensures PieceFits(decode, bodies, s.size, pieces, i)
      {
        assert PieceFits(decode, bodies[..|bodies| - 1], s.size, s.pieces, i);
      }
      assert Consistent(decode, bodies, Pieces(s.size, pieces));
    }
  }

  /** In every run that is still going, the session is what the messages said. */
  lemma {:induction false} RunConsistent(decode: Decoder, bodies: seq<seq<Byte>>)
    requires Run(decode, bodies).Running?
    ensures Consistent(decode, bodies, Run(decode, bodies).session)
  {
    if |bodies| > 0 {
      var before, body := bodies[..|bodies| - 1], bodies[|bodies| - 1];
      var s := Run(decode, before).session;
      RunConsistent(decode, before);
      var e := Read(decode, body);
      ReadShape(decode, body);
      match e {
        case Data(_, _, _, _) => StoreKeeps(decode, bodies, s);
        case Handshake(_) => NoPiecesYet(decode, bodies);
        case _ => SilentStep(decode, bodies, s);
      }
    }
  }

  lemma SilentStep(decode: Decoder, bodies: seq<seq<Byte>>, s: Session)
    requires |bodies| > 0 && Consistent(decode, bodies[..|bodies| - 1], s)
    requires !Read(decode, bodies[|bodies| - 1]).Data? && !Read(decode, bodies[|bodies| - 1]).Handshake?
    ensures Consistent(decode, bodies, s)
  {
    if s.Pieces? {
      forall i | 0 <= i < |s.pieces|
        ensures PieceFits(decode, bodies, s.size, s.pieces, i)
      {
        assert PieceFits(decode, bodies[..|bodies| - 1], s.size, s.pieces, i);
      }
    }
  }

  lemma NoPiecesYet(decode: Decoder, bodies: seq<seq<Byte>>)
    requires |bodies| > 0 && Consistent(decode, bodies[..|bodies| - 1], NoPieces)
    requires var e := Read(decode, bodies[|bodies| - 1]);
             e.Handshake? && e.size.Ok? && e.size.value <= MAX_METADATA_SIZE && TotalPieces(e.size.value) >= 0
    ensures var size := Read(decode, bodies[|bodies| - 1]).size.value;
            Consistent(decode, bodies, Pieces(size, seq(TotalPieces(size), _ => [])))
  {
    var size := Read(decode, bodies[|bodies| - 1]).size.value;
    var pieces := seq<seq<Byte>>(TotalPieces(size), _ => []);
    forall i | 0 <= i < |pieces|
      ensures PieceFits(decode, bodies, size, pieces, i)
    {
      assert LastPayload(decode, bodies[..|bodies| - 1], i) == [];
    }
  }

  /** Joined blocks: total length, and where each block lands. */
  lemma {:induction false} JoinBlocks(pieces: seq<seq<Byte>>, last: int)
    requires |pieces| > 0 && |pieces[|pieces| - 1]| == last
    requires forall i :: 0 <= i < |pieces| - 1 ==> |pieces[i]| == BLOCK_SIZE
    ensures |Join(pieces)| == BLOCK_SIZE * (|pieces| - 1) + last
    ensures forall i :: 0 <= i < |pieces| ==> BlockAt(Join(pieces), i, pieces[i])
  {
    if |pieces| == 1 {
      assert Join(pieces[1..]) == [];
      assert Join(pieces) == pieces[0];
    } else {
      var rest := pieces[1..];
      JoinBlocks(rest, last);
      forall i | 0 <= i < |pieces|
        ensures BlockAt(Join(pieces), i, pieces[i])
      {
        if i > 0 {
          assert BlockAt(Join(rest), i - 1, rest[i - 1]);
          ShiftBlock(pieces[0], Join(rest), i, pieces[i]);
        }
      }
    }
  }

  ghost predicate BlockAt(out: seq<Byte>, i: nat, block: seq<Byte>) {
    && BLOCK_SIZE * i + |block| <= |out|
    && out[BLOCK_SIZE * i..BLOCK_SIZE * i + |block|] == block
  }

  lemma ShiftBlock(first: seq<Byte>, rest: seq<Byte>, i: nat, block: seq<Byte>)
    requires |first| == BLOCK_SIZE && i > 0 && BlockAt(rest, i - 1, block)
    ensures BlockAt(first + rest, i, block)
  {
    var j := BLOCK_SIZE * (i - 1);
    assert (first + rest)[BLOCK_SIZE + j..BLOCK_SIZE + j + |block|] == rest[j..j + |block|];
  }

  /** The result a finished run must have, in terms of the messages alone. */
  ghost predicate Reassembled(decode: Decoder, bodies: seq<seq<Byte>>, out: seq<Byte>) {
    && Announced(decode, bodies) == Ok(|out|)
    && 0 < |out| <= MAX_METADATA_SIZE && |out| % BLOCK_SIZE != 0
    && forall i :: 0 <= i < TotalPieces(|out|) ==>
         BlockAt(out, i, LastPayload(decode, bodies, i))
         && |LastPayload(decode, bodies, i)| == PieceLength(|out|, i)
  }

  lemma DoneIsReassembled(decode: Decoder, bodies: seq<seq<Byte>>, size: int, pieces: seq<seq<Byte>>)
    requires Consistent(decode, bodies, Pieces(size, pieces)) && IsDone(pieces) && |pieces| > 0
    ensures Reassembled(decode, bodies, Join(pieces))
  {
    hide Remainder, TotalPieces, LastPayload, Announced, Join, BlockAt;
    var n := |pieces|;
    forall i | 0 <= i < n
      ensures |pieces[i]| == PieceLength(size, i) && pieces[i] == LastPayload(decode, bodies, i)
    {
      assert PieceFits(decode, bodies, size, pieces, i);
    }
    assert |pieces[n - 1]| == Remainder(size);
    JoinBlocks(pieces, Remainder(size));
    SizeFromPieces(size);
  }

  /** A last piece that is not empty makes the size positive and no multiple of the block size. */
  lemma SizeFromPieces(size: int)
    requires TotalPieces(size) > 0 && Remainder(size) > 0
    ensures size == BLOCK_SIZE * (TotalPieces(size) - 1) + Remainder(size) > 0
    ensures size % BLOCK_SIZE != 0
  {
  }

  lemma LastMessageCompletes(decode: Decoder, bodies: seq<seq<Byte>>)
    requires |bodies| > 0 && Run(decode, bodies[..|bodies| - 1]).Running? && Run(decode, bodies).Done?
    ensures Reassembled(decode, bodies, Run(decode, bodies).out)
  {
    hide Consistent, Store, Reassembled, Join;
    var before := bodies[..|bodies| - 1];
    var s := Run(decode, before).session;
    RunConsistent(decode, before);
    StoreKeeps(decode, bodies, s);
    var pieces :| Consistent(decode, bodies, Pieces(s.size, pieces)) && IsDone(pieces)
                  && |pieces| > 0 && Run(decode, bodies).out == Join(pieces);
    DoneIsReassembled(decode, bodies, s.size, pieces);
  }

  /**
    Soundness: whenever a run completes, it does so at some message k, and the output has
    exactly the announced size, within the limit, with the last payload of every piece in
    its place.
   */
  lemma {:induction false} Soundness(decode: Decoder, bodies: seq<seq<Byte>>) returns (k: nat)
    requires Run(decode, bodies).Done?
    ensures 0 < k <= |bodies| && Run(decode, bodies[..k - 1]).Running?
    ensures Run(decode, bodies[..k]) == Run(decode, bodies)
    ensures Reassembled(decode, bodies[..k], Run(decode, bodies).out)
  {
    var before := bodies[..|bodies| - 1];
    var st := Run(decode, before);
    assert bodies[..|bodies|] == bodies;
    if st.Running? {
      k := |bodies|;
      LastMessageCompletes(decode, bodies);
    } else {
      k := Soundness(decode, before);
      assert before[..k] == bodies[..k] && before[..k - 1] == bodies[..k - 1];
    }
  }

  /** A piece that has been filled stays filled for the rest of the run. */
  lemma FilledStaysFilled(decode: Decoder, bodies: seq<seq<Byte>>, body: seq<Byte>, i: nat)
    requires Run(decode, bodies).Running? && Run(decode, bodies).session.Pieces?
    requires Run(decode, bodies + [body]).Running?
    requires i < |Run(decode, bodies).session.pieces| && |Run(decode, bodies).session.pieces[i]| > 0
    ensures var s := Run(decode, bodies + [body]).session;
            s.Pieces? && i < |s.pieces| && |s.pieces[i]| > 0
  {
    assert (bodies + [body])[..|bodies|] == bodies;
    var s := Run(decode, bodies).session;
    RunConsistent(decode, bodies);
    ReadShape(decode, body);
    assert PieceFits(decode, bodies, s.size, s.pieces, i);
  }

  // ---------- completeness ----------

  /** Block i of a piece of metadata. */
  function Block(m: seq<Byte>, i: int): (b: seq<Byte>)
    requires 0 <= i && BLOCK_SIZE * i < |m|
  {
    m[BLOCK_SIZE * i..if BLOCK_SIZE * (i + 1) <= |m| then BLOCK_SIZE * (i + 1) else |m|]
  }

  /** A data message that carries a block of m, whatever its header looks like. */
  predicate Carries(m: seq<Byte>, e: Event) {
    && e.Data? && 0 <= e.piece && BLOCK_SIZE * e.piece < |m|
    && 0 <= e.end <= |e.payload| && e.length == |e.payload| - e.end
    && e.payload[e.end..] == Block(m, e.piece)
  }

  /** A message an honest peer may send: one that says nothing here, or a block of m. */
  predicate Honest(decode: Decoder, m: seq<Byte>, body: seq<Byte>) {
    Read(decode, body).Idle? || Carries(m, Read(decode, body))
  }

  /** The pieces for which a data message has arrived. */
  function Delivered(decode: Decoder, bodies: seq<seq<Byte>>): (d: set<int>) {
    if |bodies| == 0 then {} else
      var e := Read(decode, bodies[|bodies| - 1]);
      Delivered(decode, bodies[..|bodies| - 1]) + if e.Data? then {e.piece} else {}
  }

  predicate Complete(m: seq<Byte>, d: set<int>) {
    forall i :: 0 <= i < TotalPieces(|m|) ==> i in d
  }

  /** The pieces of m with those not delivered left empty. */
  function Filled(m: seq<Byte>, d: set<int>): (pieces: seq<seq<Byte>>)
    ensures |pieces| == TotalPieces(|m|)
  {
    seq(TotalPieces(|m|), i requires 0 <= i < TotalPieces(|m|) => if i in d then Block(m, i) else [])
  }

  /** Messages before the handshake that do not end the run. */
  predicate Prelude(bodies: seq<seq<Byte>>, decode: Decoder) {
    forall i :: 0 <= i < |bodies| ==> Read(decode, bodies[i]).Idle? && !IsExtendedMessage(bodies[i])
  }

  lemma {:induction false} PreludeIsIdle(decode: Decoder, pre: seq<seq<Byte>>)
    requires Prelude(pre, decode)
    ensures Run(decode, pre) == Running(NoPieces)
  {
    if |pre| > 0 {
      PreludeIsIdle(decode, pre[..|pre| - 1]);
    }
  }

  lemma AfterHandshake(decode: Decoder, m: seq<Byte>, pre: seq<seq<Byte>>, hello: seq<Byte>)
    requires Prelude(pre, decode) && Read(decode, hello) == Handshake(Ok(|m|))
    ensures Run(decode, pre + [hello]) == Running(Pieces(|m|, Filled(m, {})))
  {
    PreludeIsIdle(decode, pre);
    assert (pre + [hello])[..|pre|] == pre;
    assert Filled(m, {}) == seq<seq<Byte>>(TotalPieces(|m|), _ => []);
  }

  lemma BlockLength(m: seq<Byte>, i: int)
    requires 0 <= i < TotalPieces(|m|)
    ensures BLOCK_SIZE * i < |m| && |Block(m, i)| > 0
    ensures i != TotalPieces(|m|) - 1 ==> |Block(m, i)| == BLOCK_SIZE
    ensures i == TotalPieces(|m|) - 1 ==>
              |Block(m, i)| == if |m| % BLOCK_SIZE == 0 then BLOCK_SIZE else |m| % BLOCK_SIZE
  {
  }

  lemma FilledGrows(m: seq<Byte>, d: set<int>, i: int)
    requires 0 <= i < TotalPieces(|m|)
    ensures BLOCK_SIZE * i < |m| && Filled(m, d)[i := Block(m, i)] == Filled(m, d + {i})
  {
    BlockLength(m, i);
  }

  lemma FilledDone(m: seq<Byte>, d: set<int>)
    ensures IsDone(Filled(m, d)) <==> Complete(m, d)
  {
    forall i | 0 <= i < TotalPieces(|m|)
      ensures |Filled(m, d)[i]| > 0 <==> i in d
    {
      BlockLength(m, i);
    }
  }

  /** The blocks of m, joined in order, are m. */
  lemma JoinRestores(m: seq<Byte>, d: set<int>)
    requires Complete(m, d) && |m| > 0
    ensures Join(Filled(m, d)) == m
  {
    var pieces := Filled(m, d);
    var n := |pieces|;
    forall i | 0 <= i < n
      ensures pieces[i] == Block(m, i)
    {
    }
    BlockLength(m, n - 1);
    forall i | 0 <= i < n - 1
      ensures |pieces[i]| == BLOCK_SIZE
    {
      BlockLength(m, i);
    }
    JoinBlocks(pieces, |pieces[n - 1]|);
    SameBlocks(m, Join(pieces), pieces);
  }

  lemma SameBlocks(m: seq<Byte>, out: seq<Byte>, pieces: seq<seq<Byte>>)
    requires |out| == |m| && |pieces| == TotalPieces(|m|)
    requires forall i :: 0 <= i < |pieces| ==> BLOCK_SIZE * i < |m| && pieces[i] == Block(m, i)
    requires forall i :: 0 <= i < |pieces| ==> BlockAt(out, i, pieces[i])
    ensures out == m
  {
    forall k | 0 <= k < |m|
      ensures out[k] == m[k]
    {
      var i := k / BLOCK_SIZE;
      assert BlockAt(out, i, pieces[i]);
      var j := k - BLOCK_SIZE * i;
      assert out[BLOCK_SIZE * i..BLOCK_SIZE * i + |pieces[i]|][j] == Block(m, i)[j];
    }
  }

  /** The state an honest delivery leads to, when the last block is a partial one. */
  function Expected(m: seq<Byte>, d: set<int>): (st: State) {
    if Complete(m, d) then Done(m) else Running(Pieces(|m|, Filled(m, d)))
  }

  lemma HonestStep(decode: Decoder, m: seq<Byte>, d: set<int>, body: seq<Byte>)
    requires 0 < |m| && |m| % BLOCK_SIZE != 0 && Honest(decode, m, body) && !Complete(m, d)
    ensures var e := Read(decode, body);
            Receive(decode, Pieces(|m|, Filled(m, d)), body)
            == Expected(m, d + if e.Data? then {e.piece} else {})
  {
    var e := Read(decode, body);
    if e.Data? {
      BlockLength(m, e.piece);
      FilledGrows(m, d, e.piece);
      FilledDone(m, d + {e.piece});
      if Complete(m, d + {e.piece}) {
        JoinRestores(m, d + {e.piece});
      }
    } else {
      assert d + {} == d;
    }
  }

  /**
    Completeness and order independence: blocks of m delivered in any order, repeated or
    mixed with other messages, finish the run exactly when the last missing one arrives,
    and the result is m.
   */
  lemma {:induction false} Completeness(
    decode: Decoder, m: seq<Byte>, pre: seq<seq<Byte>>, hello: seq<Byte>, bodies: seq<seq<Byte>>)
    requires 0 < |m| && |m| % BLOCK_SIZE != 0
    requires Prelude(pre, decode) && Read(decode, hello) == Handshake(Ok(|m|))
    requires forall i :: 0 <= i < |bodies| ==> Honest(decode, m, bodies[i])
    ensures Run(decode, pre + [hello] + bodies) == Expected(m, Delivered(decode, bodies))
  {
    var start := pre + [hello];
    if |bodies| == 0 {
      assert start + bodies == start;
      AfterHandshake(decode, m, pre, hello);
      BlockLength(m, 0);
      assert 0 !in Delivered(decode, bodies);
    } else {
      var before, body := bodies[..|bodies| - 1], bodies[|bodies| - 1];
      assert (start + bodies)[..|start + bodies| - 1] == start + before;
      Completeness(decode, m, pre, hello, before);
      var d := Delivered(decode, before);
      if !Complete(m, d) {
        HonestStep(decode, m, d, body);
      }
    }
  }

  /** With a full last block the machine waits until that block arrives, and then fails. */
  lemma {:induction false} FullLastBlock(
    decode: Decoder, m: seq<Byte>, pre: seq<seq<Byte>>, hello: seq<Byte>, bodies: seq<seq<Byte>>)
    requires 0 < |m| && |m| % BLOCK_SIZE == 0
    requires Prelude(pre, decode) && Read(decode, hello) == Handshake(Ok(|m|))
    requires forall i :: 0 <= i < |bodies| ==> Honest(decode, m, bodies[i])
    ensures var d := Delivered(decode, bodies);
            Run(decode, pre + [hello] + bodies)
            == if TotalPieces(|m|) - 1 in d then Failed else Running(Pieces(|m|, Filled(m, d)))
  {
    var start := pre + [hello];
    if |bodies| == 0 {
      assert start + bodies == start;
      AfterHandshake(decode, m, pre, hello);
    } else {
      var before, body := bodies[..|bodies| - 1], bodies[|bodies| - 1];
      assert (start + bodies)[..|start + bodies| - 1] == start + before;
      FullLastBlock(decode, m, pre, hello, before);
      var d := Delivered(decode, before);
      if TotalPieces(|m|) - 1 !in d {
        FullLastBlockStep(decode, m, d, body);
      }
    }
  }

  lemma FullLastBlockStep(decode: Decoder, m: seq<Byte>, d: set<int>, body: seq<Byte>)
    requires 0 < |m| && |m| % BLOCK_SIZE == 0 && Honest(decode, m, body)
    requires TotalPieces(|m|) - 1 !in d
    ensures var e := Read(decode, body);
            var d' := d + if e.Data? then {e.piece} else {};
            Receive(decode, Pieces(|m|, Filled(m, d)), body)
            == if TotalPieces(|m|) - 1 in d' then Failed else Running(Pieces(|m|, Filled(m, d')))
  {
    var e := Read(decode, body);
    if e.Data? {
      BlockLength(m, e.piece);
      FilledGrows(m, d, e.piece);
      FilledDone(m, d + {e.piece});
    } else {
      assert d + {} == d;
    }
  }

  /** Honest, full delivery ends in m exactly when the size is not a multiple of the block size. */
  lemma FetchesIffPartialLastBlock(
    decode: Decoder, m: seq<Byte>, pre: seq<seq<Byte>>, hello: seq<Byte>, bodies: seq<seq<Byte>>)
    requires 0 < |m| && Prelude(pre, decode) && Read(decode, hello) == Handshake(Ok(|m|))
    requires forall i :: 0 <= i < |bodies| ==> Honest(decode, m, bodies[i])
    requires Complete(m, Delivered(decode, bodies))
    ensures Run(decode, pre + [hello] + bodies) == Done(m) <==> |m| % BLOCK_SIZE != 0
  {
    if |m| % BLOCK_SIZE != 0 {
      Completeness(decode, m, pre, hello, bodies);
    } else {
      FullLastBlock(decode, m, pre, hello, bodies);
    }
  }

  /** Whatever is sent, no run completes for a size that is not positive or has a full last block. */
  lemma NeverCompletes(decode: Decoder, bodies: seq<seq<Byte>>, size: int)
    requires Announced(decode, bodies) == Ok(size)
    requires size <= 0 || size % BLOCK_SIZE == 0
    ensures !Run(decode, bodies).Done?
  {
    if Run(decode, bodies).Done? {
      var k := Soundness(decode, bodies);
      AnnouncedOnce(decode, bodies, k);
    }
  }

  /** How many extended handshakes are among the bodies. */
  function Handshakes(decode: Decoder, bodies: seq<seq<Byte>>): (c: nat) {
    if |bodies| == 0 then 0 else
      Handshakes(decode, bodies[..|bodies| - 1]) + if Read(decode, bodies[|bodies| - 1]).Handshake? then 1 else 0
  }

  /**
    The handshake is accepted once: a run that goes on has seen one if the pieces are known
    and none otherwise, and a further one ends it.
   */
  lemma {:induction false} HandshakeOnce(decode: Decoder, bodies: seq<seq<Byte>>, body: seq<Byte>)
    requires Run(decode, bodies).Running?
    ensures Handshakes(decode, bodies) == if Run(decode, bodies).session.Pieces? then 1 else 0
    ensures Run(decode, bodies).session.Pieces? && Read(decode, body).Handshake? ==>
              Run(decode, bodies + [body]) == Failed
  {
    assert (bodies + [body])[..|bodies|] == bodies;
    if |bodies| > 0 {
      HandshakeOnce(decode, bodies[..|bodies| - 1], bodies[|bodies| - 1]);
    }
  }

  // ---------- how a run ends ----------

  /** How many blocks of 16384 bytes a size takes, and what is left for the last; Go truncates. */
  function PieceCount(size: int): (n: int) {
    if size >= 0 then (size + 16383) / 16384
    else (if -size % 16384 == 0 then 0 else 1) - (-size) / 16384
  }

  function LastLength(size: int): (n: int) {
    if size >= 0 then size % 16384 else -(-size % 16384)
  }

  lemma SizesByValue(size: int)
    ensures TotalPieces(size) == PieceCount(size) && Remainder(size) == LastLength(size)
  {
  }

  /** A payload of the right length: a full block, but for the last piece. */
  predicate GoodLength(size: int, piece: int, length: int) {
    if piece == PieceCount(size) - 1 then length == LastLength(size) else length == 16384 || PieceCount(size) <= 1
  }

  /** A body that makes Go index or allocate out of range, in the session it meets. */
  ghost predicate Panics(decode: Decoder, s: Session, body: seq<Byte>) {
    match s
    case NoPieces => exists size :: IsHello(decode, body, size) && (size == -16384 || size <= -32768)
    case Pieces(size, pieces) =>
      exists piece :: IsDataFor(decode, body, piece)
        && var end := decode(body[2..]).end;
        && GoodLength(size, piece, |body| - 2 - end)
        && !(0 <= piece < |pieces| && 0 <= end <= |body| - 2)
  }

  /** A body that ends the fetch with an error, in the session it meets. */
  ghost predicate Fails(decode: Decoder, s: Session, body: seq<Byte>) {
    && |body| > 0 && body[0] == 20
    && (|body| >= 2 ==>
          if body[1] == 0 then s.Pieces? || !exists size :: IsHello(decode, body, size)
          else s.NoPieces? || decode(body[2..]).BadDict?
               || (!exists mt :: Holds(decode(body[2..]).dict, "msg_type", mt))
               || (Holds(decode(body[2..]).dict, "msg_type", 1)
                   && !exists piece :: IsDataFor(decode, body, piece)
                        && GoodLength(s.size, piece, |body| - 2 - decode(body[2..]).end)))
  }

  /** What data for a piece leads to, once the pieces are known. */
  lemma StoreEnds(decode: Decoder, s: Session, body: seq<Byte>, piece: int)
    requires s.Pieces? && IsDataFor(decode, body, piece)
    ensures var end := decode(body[2..]).end;
            var good := GoodLength(s.size, piece, |body| - 2 - end);
            && (Receive(decode, s, body) == Failed <==> !good)
            && (Receive(decode, s, body) == Panicked <==>
                  good && !(0 <= piece < |s.pieces| && 0 <= end <= |body| - 2))
  {
    hide IsDone, Join;
    SizesByValue(s.size);
    DataMessageIff(decode, body, piece);
    assert Read(decode, body).piece == piece;
  }

  lemma OnePiece(decode: Decoder, body: seq<Byte>, i: int, j: int)
    requires IsDataFor(decode, body, i) && IsDataFor(decode, body, j)
    ensures i == j
  {
  }

  lemma OneSize(decode: Decoder, body: seq<Byte>, i: int, j: int)
    requires IsHello(decode, body, i) && IsHello(decode, body, j)
    ensures i == j
  {
  }

  lemma HelloEnds(decode: Decoder, s: Session, body: seq<Byte>, size: int)
    requires IsHello(decode, body, size)
    ensures Receive(decode, s, body) == Failed <==> s.Pieces?
    ensures Receive(decode, s, body) == Panicked <==> s.NoPieces? && (size == -16384 || size <= -32768)
  {
    HandshakeIff(decode, body, size);
    SizesByValue(size);
  }

  /** Any other body fails the fetch or changes nothing. */
  lemma OtherEnds(decode: Decoder, s: Session, body: seq<Byte>)
    requires !exists size :: IsHello(decode, body, size)
    requires s.NoPieces? || !exists piece :: IsDataFor(decode, body, piece)
    ensures Receive(decode, s, body) != Panicked
    ensures Receive(decode, s, body) == Failed <==> Fails(decode, s, body)
  {
    hide Store;
    ReadNames(decode, body);
    if s.Pieces? && |body| >= 2 && body[0] == 20 && body[1] != 0 && decode(body[2..]).Decoded? {
      var dict := decode(body[2..]).dict;
      assert GetInt(dict, "msg_type").Ok? ==> Holds(dict, "msg_type", GetInt(dict, "msg_type").value);
    }
  }

  /** The size and the piece that are read are those in the body. */
  lemma ReadNames(decode: Decoder, body: seq<Byte>)
    ensures var e := Read(decode, body);
            && (e.Data? ==> IsDataFor(decode, body, e.piece))
            && (e.Handshake? && e.size.Ok? ==> IsHello(decode, body, e.size.value))
  {
    var e := Read(decode, body);
    if e.Handshake? && e.size.Ok? {
      HandshakeIff(decode, body, e.size.value);
    }
  }

  lemma ReceiveEndsIff(decode: Decoder, s: Session, body: seq<Byte>)
    ensures Receive(decode, s, body) == Panicked <==> Panics(decode, s, body)
    ensures Receive(decode, s, body) == Failed <==> Fails(decode, s, body)
  {
    hide Receive, GoodLength;
    if size :| IsHello(decode, body, size) {
      HelloEnds(decode, s, body, size);
      forall k | IsHello(decode, body, k)
        ensures k == size
      {
        OneSize(decode, body, k, size);
      }
    } else if s.Pieces? && exists piece :: IsDataFor(decode, body, piece) {
      var piece :| IsDataFor(decode, body, piece);
      StoreEnds(decode, s, body, piece);
      forall k | IsDataFor(decode, body, k)
        ensures k == piece
      {
        OnePiece(decode, body, k, piece);
      }
    } else {
      OtherEnds(decode, s, body);
    }
  }

  ghost predicate PanicsAt(decode: Decoder, bodies: seq<seq<Byte>>, k: nat)
    requires k < |bodies|
  {
    Run(decode, bodies[..k]).Running? && Panics(decode, Run(decode, bodies[..k]).session, bodies[k])
  }

  ghost predicate FailsAt(decode: Decoder, bodies: seq<seq<Byte>>, k: nat)
    requires k < |bodies|
  {
    Run(decode, bodies[..k]).Running? && Fails(decode, Run(decode, bodies[..k]).session, bodies[k])
  }

  /** Where a run ended, if it has. */
  lemma {:induction false} EndsAt(decode: Decoder, bodies: seq<seq<Byte>>, k: nat)
    requires k < |bodies| && Run(decode, bodies[..k]).Running?
    requires !Receive(decode, Run(decode, bodies[..k]).session, bodies[k]).Running?
    ensures Run(decode, bodies) == Receive(decode, Run(decode, bodies[..k]).session, bodies[k])
  {
    var before := bodies[..|bodies| - 1];
    if k < |bodies| - 1 {
      assert before[..k] == bodies[..k];
      EndsAt(decode, before, k);
    }
  }

  lemma {:induction false} EndedAt(decode: Decoder, bodies: seq<seq<Byte>>) returns (k: nat)
    requires !Run(decode, bodies).Running?
    ensures k < |bodies| && Run(decode, bodies[..k]).Running?
    ensures Run(decode, bodies) == Receive(decode, Run(decode, bodies[..k]).session, bodies[k])
  {
    var before := bodies[..|bodies| - 1];
    if Run(decode, before).Running? {
      k := |bodies| - 1;
    } else {
      k := EndedAt(decode, before);
      assert before[..k] == bodies[..k];
    }
  }

  /** A run ends without a result and without an error exactly at a body of the first kind. */
  lemma RunPanicsIff(decode: Decoder, bodies: seq<seq<Byte>>)
    ensures Run(decode, bodies) == Panicked <==>
              exists k :: 0 <= k < |bodies| && PanicsAt(decode, bodies, k)
  {
    hide Run, Receive, Panics, Fails;
    if Run(decode, bodies) == Panicked {
      var k := EndedAt(decode, bodies);
      ReceiveEndsIff(decode, Run(decode, bodies[..k]).session, bodies[k]);
      assert PanicsAt(decode, bodies, k);
    } else if k :| 0 <= k < |bodies| && PanicsAt(decode, bodies, k) {
      ReceiveEndsIff(decode, Run(decode, bodies[..k]).session, bodies[k]);
      EndsAt(decode, bodies, k);
    }
  }

  /** And with an error exactly at one of the second. */
  lemma RunFailsIff(decode: Decoder, bodies: seq<seq<Byte>>)
    ensures Run(decode, bodies) == Failed <==>
              exists k :: 0 <= k < |bodies| && FailsAt(decode, bodies, k)
  {
    hide Run, Receive, Panics, Fails;
    if Run(decode, bodies) == Failed {
      var k := EndedAt(decode, bodies);
      ReceiveEndsIff(decode, Run(decode, bodies[..k]).session, bodies[k]);
      assert FailsAt(decode, bodies, k);
    } else if k :| 0 <= k < |bodies| && FailsAt(decode, bodies, k) {
      ReceiveEndsIff(decode, Run(decode, bodies[..k]).session, bodies[k]);
      EndsAt(decode, bodies, k);
    }
  }

  /** For instance, a full block for a piece past the last one. */
  lemma PieceOutOfRangePanics(
    decode: Decoder, pre: seq<seq<Byte>>, hello: seq<Byte>, m: seq<Byte>, body: seq<Byte>, piece: int)
    requires Prelude(pre, decode) && IsHello(decode, hello, |m|) && |m| > 16384
    requires IsDataFor(decode, body, piece) && 16384 * piece >= |m| && |body| - 2 - decode(body[2..]).end == 16384
    ensures Run(decode, pre + [hello, body]) == Panicked
  {
    hide IsHello, IsDataFor, Receive;
    HandshakeIff(decode, hello, |m|);
    AfterHandshake(decode, m, pre, hello);
    assert (pre + [hello, body])[..|pre| + 1] == pre + [hello];
    SizesByValue(|m|);
    StoreEnds(decode, Run(decode, pre + [hello]).session, body, piece);
  }

  /** The first size announced is never replaced. */
  lemma {:induction false} AnnouncedOnce(decode: Decoder, bodies: seq<seq<Byte>>, k: nat)
    requires k <= |bodies| && Announced(decode, bodies[..k]).Ok?
    ensures Announced(decode, bodies) == Announced(decode, bodies[..k])
  {
    if k == |bodies| {
      assert bodies[..k] == bodies;
    } else {
      var before := bodies[..|bodies| - 1];
      assert before[..k] == bodies[..k];
      AnnouncedOnce(decode, before, k);
    }
  }
}
