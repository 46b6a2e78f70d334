/** Printer plans (crates/mb-printer-core/src/protocol.rs, `Action` and `Plan`) and the physical writes
    they stand for. */
module Plan {
  import opened Bytes

  datatype Boundary = Start | End

  datatype ResponseValidation =
    | AnyNotification | PhomemoNotification | BrotherStatus32
    | BrotherObjbrnet | BrotherWifiScan | BrotherSystemReport

  datatype Action =
    | JobBoundary(kind: Boundary)
    | SubscribeNotifications
    | CommandWrite(name: string, bytes: seq<byte>, atomic: bool)
    | RasterWrite(raster: seq<byte>, logicalChunk: nat, delayMs: nat)
    | Delay(milliseconds: nat)
    | WaitForResponse(timeoutMs: nat, fallbackDelayMs: nat, validation: ResponseValidation)
    | CollectResponse(collectTimeoutMs: nat, idleTimeoutMs: nat, maximumBytes: nat,
                      collectValidation: ResponseValidation)

  datatype WriteKind = Command | Raster

  /** One physical write. */
  datatype Piece = Piece(kind: WriteKind, bytes: seq<byte>)

  /** `slice::chunks`. */
  function Chunks(bytes: seq<byte>, n: nat): (r: seq<seq<byte>>)
    requires n > 0
    decreases |bytes|
  {
    if bytes == [] then []
    else if |bytes| <= n then [bytes]
    else [bytes[..n]] + Chunks(bytes[n..], n)
  }

  function AsPieces(chunks: seq<seq<byte>>): (r: seq<Piece>) {
    if chunks == [] then [] else [Piece(Raster, chunks[0])] + AsPieces(chunks[1..])
  }

  function RasterPieces(logicals: seq<seq<byte>>, limit: nat): (r: seq<Piece>)
    requires limit > 0
  {
    if logicals == [] then [] else AsPieces(Chunks(logicals[0], limit)) + RasterPieces(logicals[1..], limit)
  }

  /** The physical writes of one action when the transport's payload limit is `limit`. */
  function PiecesOf(a: Action, limit: nat): (r: seq<Piece>)
    requires limit > 0 && (a.RasterWrite? ==> a.logicalChunk > 0)
  {
    match a
    case CommandWrite(_, bytes, _) => [Piece(Command, bytes)]
    case RasterWrite(raster, chunk, _) => RasterPieces(Chunks(raster, chunk), limit)
    case _ => []
  }

  predicate Chunked(actions: seq<Action>) {
    forall i :: 0 <= i < |actions| && actions[i].RasterWrite? ==> actions[i].logicalChunk > 0
  }

  predicate Positive(limits: seq<nat>) {
    forall i :: 0 <= i < |limits| ==> limits[i] > 0
  }

  /** All physical writes of a plan; `limits[i]` is the payload limit in force at action `i`. */
  function Flatten(actions: seq<Action>, limits: seq<nat>): (r: seq<Piece>)
    requires |limits| == |actions| && Chunked(actions) && Positive(limits)
  {
    if actions == [] then [] else PiecesOf(actions[0], limits[0]) + Flatten(actions[1..], limits[1..])
  }

  function Sent(pieces: seq<Piece>): (r: seq<byte>) {
    if pieces == [] then [] else pieces[0].bytes + Sent(pieces[1..])
  }

  /** The byte stream a plan sends, whatever the payload limits are. */
  function Stream(actions: seq<Action>): (r: seq<byte>) {
    if actions == [] then []
    else (match actions[0]
          case CommandWrite(_, bytes, _) => bytes
          case RasterWrite(raster, _, _) => raster
          case _ => []) + Stream(actions[1..])
  }

  lemma {:induction false} FlattenConcat(a: seq<Action>, la: seq<nat>, b: seq<Action>, lb: seq<nat>)
    requires |la| == |a| && |lb| == |b| && Chunked(a) && Chunked(b) && Positive(la) && Positive(lb)
    ensures Chunked(a + b) && Positive(la + lb)
    ensures Flatten(a + b, la + lb) == Flatten(a, la) + Flatten(b, lb)
  {
    hide PiecesOf;
    if a == [] {
      assert a + b == b && la + lb == lb;
    } else {
      assert (a + b)[1..] == a[1..] + b && (la + lb)[1..] == la[1..] + lb;
      FlattenConcat(a[1..], la[1..], b, lb);
      ConcatAssoc(PiecesOf(a[0], la[0]), Flatten(a[1..], la[1..]), Flatten(b, lb));
    }
  }

  lemma {:induction false} SentConcat(a: seq<Piece>, b: seq<Piece>)
    ensures Sent(a + b) == Sent(a) + Sent(b)
  {
    if a == [] {
      assert a + b == b;
    } else {
      assert (a + b)[1..] == a[1..] + b;
      SentConcat(a[1..], b);
      ConcatAssoc(a[0].bytes, Sent(a[1..]), Sent(b));
    }
  }

  lemma {:induction false} ChunksWhole(bytes: seq<byte>, n: nat)
    requires n > 0
    ensures Sent(AsPieces(Chunks(bytes, n))) == bytes
    ensures forall i :: 0 <= i < |Chunks(bytes, n)| ==> 0 < |Chunks(bytes, n)[i]| <= n
    decreases |bytes|
  {
    if 0 < |bytes| <= n {
      assert Sent([Piece(Raster, bytes)]) == bytes + [];
    } else if |bytes| > n {
      ChunksWhole(bytes[n..], n);
      var rest := Chunks(bytes[n..], n);
      assert Chunks(bytes, n)[1..] == rest;
      assert AsPieces(Chunks(bytes, n))[1..] == AsPieces(rest);
      assert bytes[..n] + bytes[n..] == bytes;
    }
  }

  lemma {:induction false} RasterWhole(logicals: seq<seq<byte>>, limit: nat)
    requires limit > 0
    ensures Sent(RasterPieces(logicals, limit)) == Sent(AsPieces(logicals))
  {
    if logicals != [] {
      ChunksWhole(logicals[0], limit);
      SentConcat(AsPieces(Chunks(logicals[0], limit)), RasterPieces(logicals[1..], limit));
      RasterWhole(logicals[1..], limit);
      assert AsPieces(logicals)[1..] == AsPieces(logicals[1..]);
    }
  }

  /** Chunking and the negotiated payload limits never change the bytes a plan sends. */
  lemma {:induction false} FlattenStream(actions: seq<Action>, limits: seq<nat>)
    requires |limits| == |actions| && Chunked(actions) && Positive(limits)
    ensures Sent(Flatten(actions, limits)) == Stream(actions)
  {
    if actions != [] {
      var p := PiecesOf(actions[0], limits[0]);
      SentConcat(p, Flatten(actions[1..], limits[1..]));
      FlattenStream(actions[1..], limits[1..]);
      match actions[0]
      case RasterWrite(raster, chunk, _) =>
        RasterWhole(Chunks(raster, chunk), limits[0]);
        ChunksWhole(raster, chunk);
      case CommandWrite(_, bytes, _) =>
        assert Sent(p) == bytes + [];
      case _ =>
    }
  }

  lemma {:induction false} RasterPiecesBound(logicals: seq<seq<byte>>, limit: nat, chunk: nat)
    requires limit > 0 && forall i :: 0 <= i < |logicals| ==> |logicals[i]| <= chunk
    ensures forall p :: p in RasterPieces(logicals, limit) ==> 0 < |p.bytes| <= limit && |p.bytes| <= chunk
  {
    if logicals != [] {
      ChunksWhole(logicals[0], limit);
      ChunksBound(logicals[0], limit);
      PiecesAre(Chunks(logicals[0], limit));
      RasterPiecesBound(logicals[1..], limit, chunk);
    }
  }

  lemma {:induction false} ChunksBound(bytes: seq<byte>, n: nat)
    requires n > 0
    ensures forall i :: 0 <= i < |Chunks(bytes, n)| ==> |Chunks(bytes, n)[i]| <= |bytes|
    decreases |bytes|
  {
    if |bytes| > n {
      ChunksBound(bytes[n..], n);
    }
  }

  lemma {:induction false} PiecesAre(chunks: seq<seq<byte>>)
    ensures |AsPieces(chunks)| == |chunks|
    ensures forall i :: 0 <= i < |chunks| ==> AsPieces(chunks)[i] == Piece(Raster, chunks[i])
  {
    if chunks != [] {
      PiecesAre(chunks[1..]);
    }
  }

  /** Every chunk but the last is as long as allowed. */
  lemma {:induction false} ChunksFull(bytes: seq<byte>, n: nat)
    requires n > 0
    ensures forall i :: 0 <= i < |Chunks(bytes, n)| - 1 ==> |Chunks(bytes, n)[i]| == n
    decreases |bytes|
  {
    if |bytes| > n {
      ChunksFull(bytes[n..], n);
    }
  }

  /** No physical write of a raster exceeds the payload limit in force or the plan's logical chunk, and
      none is empty. */
  lemma RasterPieceSize(a: Action, limit: nat)
    requires limit > 0 && a.RasterWrite? && a.logicalChunk > 0
    ensures forall p :: p in PiecesOf(a, limit) ==> 0 < |p.bytes| <= limit && |p.bytes| <= a.logicalChunk
  {
    ChunksWhole(a.raster, a.logicalChunk);
    RasterPiecesBound(Chunks(a.raster, a.logicalChunk), limit, a.logicalChunk);
  }
}
