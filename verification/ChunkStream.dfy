/**
 Chunked streaming: short pretokens wait in a buffer, long ones are encoded in
 overlapping chunks, and the buffer is flushed before each long one.
 */
module ChunkStream {
  import opened Prelude
  import opened Bpe
  import opened BpeCuts
  import opened ByteLevel
  import opened ChunkPlan
  import opened Overlap
  import opened MemoEntries
  import opened MemoEncoder
  import opened WorkerPool

  /** Text between added tokens, already cut into pretokens, or an added token's id. */
  datatype Piece = Segment(pretokens: seq<seq<Byte>>) | AddedToken(id: Token)

  function OnePiece(model: ByteModel, piece: Piece): seq<Token> {
    if piece.Segment? then EncodeEach(model, piece.pretokens) else [piece.id]
  }

  /** The unchunked encoding of the pieces. */
  function PieceIds(model: ByteModel, pieces: seq<Piece>): seq<Token> {
    if pieces == [] then []
    else
      PieceIds(model, pieces[..|pieces| - 1]) + OnePiece(model, pieces[|pieces| - 1])
  }

  /** The encoding of the stream splits between any two pieces. */
  lemma {:induction false} PiecesConcat(model: ByteModel, a: seq<Piece>, b: seq<Piece>)
    ensures PieceIds(model, a + b) == PieceIds(model, a) + PieceIds(model, b)
  {
    hide OnePiece;
    if b == [] {
      assert a + b == a;
    } else {
      var n := |b| - 1;
      assert (a + b)[..|a + b| - 1] == a + b[..n] && (a + b)[|a + b| - 1] == b[n];
      PiecesConcat(model, a, b[..n]);
      Reassociate(PieceIds(model, a), PieceIds(model, b[..n]), OnePiece(model, b[n]));
    }
  }

  /** An added token contributes exactly its id, a segment the encodings of its pretokens. */
  lemma PieceGives(model: ByteModel, piece: Piece)
    ensures piece.AddedToken? ==> PieceIds(model, [piece]) == [piece.id]
    ensures piece.Segment? ==> PieceIds(model, [piece]) == EncodeEach(model, piece.pretokens)
  {
    hide EncodeEach;
    var one := [piece];
    assert one[..0] == [] && PieceIds(model, one[..0]) == [];
    assert PieceIds(model, one) == [] + OnePiece(model, piece);
  }

  /** An added token's id stands right after the ids of the pieces before it. */
  lemma AddedTokenInPlace(model: ByteModel, pieces: seq<Piece>, k: nat)
    requires k < |pieces| && pieces[k].AddedToken?
    ensures |PieceIds(model, pieces[..k])| < |PieceIds(model, pieces)|
    ensures PieceIds(model, pieces)[|PieceIds(model, pieces[..k])|] == pieces[k].id
  {
    hide PieceIds;
    var before, after := pieces[..k], pieces[k + 1..];
    assert pieces == before + ([pieces[k]] + after);
    PiecesConcat(model, before, [pieces[k]] + after);
    PiecesConcat(model, [pieces[k]], after);
    PieceGives(model, pieces[k]);
  }

  /** Room the pretokens can take. */
  function StreamCost(texts: seq<seq<Byte>>, chunkSize: nat, omega: nat): nat {
    if texts == [] then 0
    else TaskRoom(|texts[0]|, chunkSize, omega) + StreamCost(texts[1..], chunkSize, omega)
  }

  function PieceCost(piece: Piece, chunkSize: nat, omega: nat): nat {
    if piece.Segment? then StreamCost(piece.pretokens, chunkSize, omega) else 0
  }

  function PiecesCost(pieces: seq<Piece>, chunkSize: nat, omega: nat): nat {
    if pieces == [] then 0
    else PieceCost(pieces[0], chunkSize, omega) + PiecesCost(pieces[1..], chunkSize, omega)
  }

  /** A pretoken the stream can encode. */
  ghost predicate Encodes(model: ByteModel, omega: nat, text: seq<Byte>) {
    JobFits(ByteJob(model, text, omega), model)
  }

  /** Long pretokens are encoded only under a chunk size of at least two overlaps. */
  predicate ChunkSizeFits(omega: nat, chunkSize: nat, usizeMax: nat) {
    2 * omega <= usizeMax && 2 * omega <= chunkSize
  }

  /** Where a stream with an unusable chunk size stops: before its first long pretoken. */
  ghost predicate StoppedAt(texts: seq<seq<Byte>>, chunkSize: nat, k: nat) {
    k < |texts| && |texts[k]| > chunkSize && forall j :: 0 <= j < k ==> |texts[j]| <= chunkSize
  }

  /** Emit the waiting short pretokens. */
  method FlushShort(pool: EncoderPool, ghost model: ByteModel, short: seq<seq<Byte>>, out: Output, ghost extra: nat)
    requires pool.Ready(model, Cost(short) + extra) && out.Valid()
    requires forall i :: 0 <= i < |short| ==> SpellsBytes(model.v, model.base, short[i])
    modifies pool.Repr(), out
    ensures pool.Ready(model, extra) && out.Valid() && out.Ids() == old(out.Ids()) + EncodeEach(model, short)
  {
    hide EncoderPool.Ready, EncoderPool.Repr, SpellsBytes, EncodeEach;
    if short == [] {
      EachEmpty(model);
      NoCost();
      return;
    }
    pool.EncodeBatch(model, short, out, extra);
  }

  lemma NoCost()
    ensures Cost([]) == 0
  {
  }

  /** Encode one long pretoken, in as many calls as its reconciliation takes. */
  method EncodeLong(pool: EncoderPool, ghost model: ByteModel, v: Vocab, text: seq<Byte>, omega: nat, chunkSize: nat,
                    usizeMax: nat,
                    out: Output, ghost extra: nat) returns (r: Result<(), ChunkError>)
    requires Encodes(model, omega, text) && v == model.v && out.Valid() && |text| > chunkSize
    requires pool.Ready(model, TaskRoom(|text|, chunkSize, omega) + extra)
    modifies pool.Repr(), out
    ensures r.Ok? <==> ChunkSizeFits(omega, chunkSize, usizeMax)
    ensures r.Ok? ==> pool.Ready(model, extra) && out.Valid() && out.Ids() == old(out.Ids()) + Uncached(model, text)
    ensures r.Err? ==> out.Valid() && out.Ids() == old(out.Ids())
  {
    hide EncoderPool.Ready, SpellsBytes, Uncached, Sound, TaskRoom;
    ghost var job := ByteJob(model, text, omega);
    var begun := BeginTask(text, omega, chunkSize, usizeMax, job);
    if begun.Err? {
      return Err(begun.error);
    }
    var ids := RunTask(pool, model, v, text, job, begun.value, TaskRoom(|text|, chunkSize, omega), extra);
    out.Append(ids);
    r := Ok(());
  }

  /** What the stream still owes for the pretokens seen so far. */
  ghost predicate Pending(model: ByteModel, texts: seq<seq<Byte>>, i: nat, short: seq<seq<Byte>>, done: seq<Token>) {
    && i <= |texts| && |short| < PRETOKEN_CHUNK
    && (forall k :: 0 <= k < |short| ==> SpellsBytes(model.v, model.base, short[k]))
    && done + EncodeEach(model, short) == EncodeEach(model, texts[..i])
  }

  lemma PendingGrows(model: ByteModel, texts: seq<seq<Byte>>, i: nat, short: seq<seq<Byte>>, done: seq<Token>)
    requires Pending(model, texts, i, short, done) && i < |texts| && SpellsBytes(model.v, model.base, texts[i])
    ensures done + EncodeEach(model, short + [texts[i]]) == EncodeEach(model, texts[..i + 1])
    ensures |short| + 1 < PRETOKEN_CHUNK ==> Pending(model, texts, i + 1, short + [texts[i]], done)
    ensures Cost(short + [texts[i]]) == Cost(short) + |texts[i]| + 1
  {
    hide SpellsBytes, Uncached, EncodeEach;
    var more := short + [texts[i]];
    EachStep(model, texts, i);
    EachStep(model, more, |short|);
    assert more[..|short| + 1] == more && more[..|short|] == short;
    Reassociate(done, EncodeEach(model, short), Uncached(model, texts[i]));
    CostConcat(short, [texts[i]]);
    CostOne(model, texts[i]);
  }

  lemma StreamCostStep(texts: seq<seq<Byte>>, i: nat, chunkSize: nat, omega: nat)
    requires i < |texts|
    ensures StreamCost(texts[i..], chunkSize, omega)
            == TaskRoom(|texts[i]|, chunkSize, omega) + StreamCost(texts[i + 1..], chunkSize, omega)
    ensures |texts[i]| <= chunkSize ==>
              StreamCost(texts[i..], chunkSize, omega) == |texts[i]| + 1 + StreamCost(texts[i + 1..], chunkSize, omega)
  {
    assert texts[i..][1..] == texts[i + 1..];
  }

  /** Take one pretoken: buffer it, or flush the buffer and encode it in chunks. */
  method TakePretoken(pool: EncoderPool, ghost model: ByteModel, v: Vocab, texts: seq<seq<Byte>>, i: nat, omega: nat,
                      chunkSize: nat, usizeMax: nat,
                      short: seq<seq<Byte>>, out: Output, ghost before: seq<Token>, ghost done: seq<Token>,
                      ghost extra: nat)
    returns (r: Result<seq<seq<Byte>>, ChunkError>, ghost done': seq<Token>)
    requires i < |texts| && Encodes(model, omega, texts[i]) && v == model.v && out.Valid()
    requires Pending(model, texts, i, short, done) && out.Ids() == before + done
    requires pool.Ready(model, Cost(short) + StreamCost(texts[i..], chunkSize, omega) + extra)
    modifies pool.Repr(), out
    ensures r.Ok? <==> |texts[i]| <= chunkSize || ChunkSizeFits(omega, chunkSize, usizeMax)
    ensures out.Valid() && out.Ids() == before + done'
    ensures r.Ok? ==> Pending(model, texts, i + 1, r.value, done')
                      && pool.Ready(model, Cost(r.value) + StreamCost(texts[i + 1..], chunkSize, omega) + extra)
    ensures r.Err? ==> done' == EncodeEach(model, texts[..i])
  {
    hide EncoderPool.Ready, EncoderPool.Repr, EncodeEach, Uncached, StreamCost, Pending, TaskRoom, Cost, SpellsBytes,
         Sound;
    ghost var later := StreamCost(texts[i + 1..], chunkSize, omega) + extra;
    StreamCostStep(texts, i, chunkSize, omega);
    PendingSpells(model, texts, i, short, done);
    NoCost();
    if |texts[i]| <= chunkSize {
      PendingGrows(model, texts, i, short, done);
      done' := done;
      var more := short + [texts[i]];
      if |more| == PRETOKEN_CHUNK {
        FlushShort(pool, model, more, out, later);
        Reassociate(before, done, EncodeEach(model, more));
        done' := EncodeEach(model, texts[..i + 1]);
        NothingPending(model, texts, i + 1);
        more := [];
      }
      r := Ok(more);
    } else {
      ghost var cost := TaskRoom(|texts[i]|, chunkSize, omega);
      FlushShort(pool, model, short, out, cost + later);
      Reassociate(before, done, EncodeEach(model, short));
      done' := EncodeEach(model, texts[..i]);
      var encoded := EncodeLong(pool, model, v, texts[i], omega, chunkSize, usizeMax, out, later);
      if encoded.Err? {
        return Err(encoded.error), done';
      }
      EachStep(model, texts, i);
      Reassociate(before, done', Uncached(model, texts[i]));
      done' := EncodeEach(model, texts[..i + 1]);
      NothingPending(model, texts, i + 1);
      r := Ok([]);
    }
  }

  lemma PendingSpells(model: ByteModel, texts: seq<seq<Byte>>, i: nat, short: seq<seq<Byte>>, done: seq<Token>)
    requires Pending(model, texts, i, short, done)
    ensures |short| < PRETOKEN_CHUNK && forall k :: 0 <= k < |short| ==> SpellsBytes(model.v, model.base, short[k])
    ensures done + EncodeEach(model, short) == EncodeEach(model, texts[..i])
  {
  }

  lemma NothingPending(model: ByteModel, texts: seq<seq<Byte>>, i: nat)
    requires i <= |texts|
    ensures Pending(model, texts, i, [], EncodeEach(model, texts[..i]))
  {
    EachEmpty(model);
  }

  /**
   Encode one segment's pretokens. The output grows by their uncached encodings in order;
   when the chunk size is unusable it stops before the first long pretoken, with
   everything before that already emitted.
   */
  method EncodeSegment(pool: EncoderPool, ghost model: ByteModel, v: Vocab, texts: seq<seq<Byte>>, omega: nat,
                       chunkSize: nat, usizeMax: nat,
                       out: Output, ghost extra: nat) returns (r: Result<(), ChunkError>)
    requires v == model.v && out.Valid() && forall i :: 0 <= i < |texts| ==> Encodes(model, omega, texts[i])
    requires pool.Ready(model, StreamCost(texts, chunkSize, omega) + extra)
    modifies pool.Repr(), out
    ensures r.Ok? <==>
              ChunkSizeFits(omega, chunkSize, usizeMax) || forall i :: 0 <= i < |texts| ==> |texts[i]| <= chunkSize
    ensures out.Valid()
    ensures r.Ok? ==> pool.Ready(model, extra) && out.Ids() == old(out.Ids()) + EncodeEach(model, texts)
    ensures r.Err? ==> exists k: nat ::
              StoppedAt(texts, chunkSize, k) && out.Ids() == old(out.Ids()) + EncodeEach(model, texts[..k])
  {
    hide EncoderPool.Ready, EncoderPool.Repr, EncodeEach, StreamCost, Pending, Encodes, Cost, ChunkSizeFits;
    ghost var before, done: seq<Token> := out.Ids(), [];
    var short: seq<seq<Byte>> := [];
    EachEmpty(model);
    NoCost();
    NothingPending(model, texts, 0);
    assert texts[..0] == [] && texts[0..] == texts;
    for i := 0 to |texts|
      invariant out.Valid() && out.Ids() == before + done && Pending(model, texts, i, short, done)
      invariant pool.Ready(model, Cost(short) + StreamCost(texts[i..], chunkSize, omega) + extra)
      invariant ChunkSizeFits(omega, chunkSize, usizeMax) || forall j :: 0 <= j < i ==> |texts[j]| <= chunkSize
    {
      var taken;
      taken, done :=
        TakePretoken(pool, model, v, texts, i, omega, chunkSize, usizeMax, short, out, before, done, extra);
      if taken.Err? {
        assert StoppedAt(texts, chunkSize, i);
        return Err(taken.error);
      }
      short := taken.value;
    }
    PendingSpells(model, texts, |texts|, short, done);
    ghost var rest := StreamCost(texts[|texts|..], chunkSize, omega) + extra;
    FlushShort(pool, model, short, out, rest);
    Reassociate(before, done, EncodeEach(model, short));
    assert texts[..|texts|] == texts;
    LessRoom(pool, model, rest, extra);
    r := Ok(());
  }

  // ------------------------------------------------------------------
  // The whole stream
  // ------------------------------------------------------------------

  ghost predicate PieceFits(model: ByteModel, omega: nat, piece: Piece) {
    piece.Segment? ==> forall i :: 0 <= i < |piece.pretokens| ==> Encodes(model, omega, piece.pretokens[i])
  }

  lemma PiecesStep(model: ByteModel, pieces: seq<Piece>, k: nat, chunkSize: nat, omega: nat)
    requires k < |pieces|
    ensures PieceIds(model, pieces[..k + 1]) == PieceIds(model, pieces[..k]) + OnePiece(model, pieces[k])
    ensures PiecesCost(pieces[k..], chunkSize, omega)
            == PieceCost(pieces[k], chunkSize, omega) + PiecesCost(pieces[k + 1..], chunkSize, omega)
  {
    hide EncodeEach, StreamCost;
    assert pieces[..k + 1][..k] == pieces[..k];
    assert pieces[k..][1..] == pieces[k + 1..];
  }

  lemma NoPieces(model: ByteModel)
    ensures PieceIds(model, []) == []
  {
  }

  /** No pretoken of the piece has to be chunked. */
  predicate ShortPiece(piece: Piece, chunkSize: nat) {
    piece.Segment? ==> forall i :: 0 <= i < |piece.pretokens| ==> |piece.pretokens[i]| <= chunkSize
  }

  /** Piece `k` holds the first long pretoken, at its position `j`. */
  ghost predicate StreamStopsAt(pieces: seq<Piece>, chunkSize: nat, k: nat, j: nat) {
    && k < |pieces| && pieces[k].Segment? && StoppedAt(pieces[k].pretokens, chunkSize, j)
    && forall i :: 0 <= i < k ==> ShortPiece(pieces[i], chunkSize)
  }

  /** Take one piece: encode a segment, or emit an added token. */
  method TakePiece(pool: EncoderPool, ghost model: ByteModel, v: Vocab, piece: Piece, omega: nat, chunkSize: nat,
                   usizeMax: nat, out: Output, ghost extra: nat) returns (r: Result<(), ChunkError>)
    requires v == model.v && out.Valid() && PieceFits(model, omega, piece)
    requires pool.Ready(model, PieceCost(piece, chunkSize, omega) + extra)
    modifies pool.Repr(), out
    ensures r.Ok? <==> ChunkSizeFits(omega, chunkSize, usizeMax) || ShortPiece(piece, chunkSize)
    ensures out.Valid()
    ensures r.Ok? ==> pool.Ready(model, extra) && out.Ids() == old(out.Ids()) + OnePiece(model, piece)
    ensures r.Err? ==> piece.Segment? && exists j: nat ::
              StoppedAt(piece.pretokens, chunkSize, j)
              && out.Ids() == old(out.Ids()) + EncodeEach(model, piece.pretokens[..j])
  {
    hide EncoderPool.Ready, EncoderPool.Repr, EncodeEach, StreamCost, Encodes, ChunkSizeFits;
    match piece {
      case Segment(pretokens) =>
        r := EncodeSegment(pool, model, v, pretokens, omega, chunkSize, usizeMax, out, extra);
      case AddedToken(id) =>
        out.Append([id]);
        r := Ok(());
    }
  }

  /** The ids are what comes before the first long pretoken of the stream. */
  ghost predicate EmittedUpToLong(model: ByteModel, pieces: seq<Piece>, chunkSize: nat, ids: seq<Token>) {
    exists k: nat, j: nat ::
      StreamStopsAt(pieces, chunkSize, k, j)
      && ids == PieceIds(model, pieces[..k]) + EncodeEach(model, pieces[k].pretokens[..j])
  }

  lemma StopsInPiece(model: ByteModel, pieces: seq<Piece>, chunkSize: nat, k: nat, before: seq<Token>,
                     ids: seq<Token>) returns (emitted: seq<Token>)
    requires k < |pieces| && pieces[k].Segment? && forall i :: 0 <= i < k ==> ShortPiece(pieces[i], chunkSize)
    requires exists j: nat ::
               StoppedAt(pieces[k].pretokens, chunkSize, j)
               && ids == before + PieceIds(model, pieces[..k]) + EncodeEach(model, pieces[k].pretokens[..j])
    ensures EmittedUpToLong(model, pieces, chunkSize, emitted) && ids == before + emitted
  {
    hide ShortPiece, PieceIds, EncodeEach;
    var j: nat :|
      StoppedAt(pieces[k].pretokens, chunkSize, j)
      && ids == before + PieceIds(model, pieces[..k]) + EncodeEach(model, pieces[k].pretokens[..j]);
    assert StreamStopsAt(pieces, chunkSize, k, j);
    emitted := PieceIds(model, pieces[..k]) + EncodeEach(model, pieces[k].pretokens[..j]);
    Reassociate(before, PieceIds(model, pieces[..k]), EncodeEach(model, pieces[k].pretokens[..j]));
  }

  /**
   Chunked streaming of a whole input is its unchunked encoding, added tokens in place. It
   fails exactly when a long pretoken meets an unusable chunk size, and has then emitted
   everything before the first long pretoken.
   */
  method EncodeChunkedStreaming(pool: EncoderPool, ghost model: ByteModel, v: Vocab, pieces: seq<Piece>, omega: nat,
                                chunkSize: nat, usizeMax: nat,
                                out: Output, ghost extra: nat) returns (r: Result<(), ChunkError>)
    requires v == model.v && out.Valid() && forall k :: 0 <= k < |pieces| ==> PieceFits(model, omega, pieces[k])
    requires pool.Ready(model, PiecesCost(pieces, chunkSize, omega) + extra)
    modifies pool.Repr(), out
    ensures r.Ok? <==>
              || ChunkSizeFits(omega, chunkSize, usizeMax)
              || forall k :: 0 <= k < |pieces| ==> ShortPiece(pieces[k], chunkSize)
    ensures out.Valid()
    ensures r.Ok? ==> pool.Ready(model, extra) && out.Ids() == old(out.Ids()) + PieceIds(model, pieces)
    ensures r.Ok? ==> forall k :: 0 <= k < |pieces| && pieces[k].AddedToken? ==>
              var at := |old(out.Ids())| + |PieceIds(model, pieces[..k])|;
              at < |out.Ids()| && out.Ids()[at] == pieces[k].id
    ensures r.Err? ==> exists ids ::
              EmittedUpToLong(model, pieces, chunkSize, ids) && out.Ids() == old(out.Ids()) + ids
  {
    hide EncoderPool.Ready, EncoderPool.Repr, EncodeEach, PiecesCost, PieceIds, PieceCost, PieceFits, ChunkSizeFits,
         OnePiece, ShortPiece, EmittedUpToLong, StoppedAt;
    ghost var before := out.Ids();
    NoPieces(model);
    assert pieces[..0] == [] && pieces[0..] == pieces;
    for k := 0 to |pieces|
      invariant out.Valid() && out.Ids() == before + PieceIds(model, pieces[..k])
      invariant pool.Ready(model, PiecesCost(pieces[k..], chunkSize, omega) + extra)
      invariant ChunkSizeFits(omega, chunkSize, usizeMax)
                || forall i :: 0 <= i < k ==> ShortPiece(pieces[i], chunkSize)
    {
      PiecesStep(model, pieces, k, chunkSize, omega);
      ghost var later := PiecesCost(pieces[k + 1..], chunkSize, omega) + extra;
      var taken := TakePiece(pool, model, v, pieces[k], omega, chunkSize, usizeMax, out, later);
      if taken.Err? {
        ghost var emitted := StopsInPiece(model, pieces, chunkSize, k, before, out.Ids());
        return Err(taken.error);
      }
      Reassociate(before, PieceIds(model, pieces[..k]), OnePiece(model, pieces[k]));
    }
    assert pieces[..|pieces|] == pieces;
    LessRoom(pool, model, PiecesCost(pieces[|pieces|..], chunkSize, omega) + extra, extra);
    forall k | 0 <= k < |pieces| && pieces[k].AddedToken?
      ensures var at := |before| + |PieceIds(model, pieces[..k])|;
              at < |out.Ids()| && out.Ids()[at] == pieces[k].id
    {
      AddedTokenInPlace(model, pieces, k);
    }
    r := Ok(());
  }
}
