/** The byte accounting of the write queue in uv_lwip/uv_lwip.c, on values. */
module WriteQueue {
  import opened Bytes

  /** uvl_write_t: the buffers of one request and how far they have got. */
  datatype Req = Req(bufs: seq<seq<byte>>, sentBufs: nat, sent: nat, pending: nat, totalSent: nat, totalLen: nat)

  function NewReq(bufs: seq<seq<byte>>): Req {
    Req(bufs, 0, 0, 0, 0, |Flat(bufs)|)
  }

  /** All buffers have been passed. */
  predicate Complete(r: Req) { r.sentBufs == |r.bufs| }

  /** The counters of one request agree with its buffers. */
  predicate ReqOk(r: Req) {
    && |r.bufs| >= 1 && r.sentBufs <= |r.bufs| && r.totalLen == |Flat(r.bufs)|
    && (if Complete(r) then r.sent == 0 else r.sent <= |r.bufs[r.sentBufs]|)
    && r.totalSent == |Flat(r.bufs[..r.sentBufs])| + r.sent
  }

  function Less(a: nat, b: nat): nat { if a <= b then 0 else a - b }

  /** The share of one request: it starts `rest`, of which `out` bytes are written and `acked` acknowledged. */
  predicate Share(r: Req, rest: seq<byte>, out: nat, acked: nat) {
    var n := r.totalLen;
    && ReqOk(r) && n <= |rest| && rest[..n] == Flat(r.bufs)
    && r.totalSent == Min(out, n) && r.pending == Min(out, n) - Min(acked, n)
  }

  /** `rest` is what the queued requests ask for, end to end; tcp_write has accepted the first `out`
      bytes of it and the peer has acknowledged the first `acked`. Each request counts as sent and as
      pending exactly its own share of those bytes. */
  predicate Balanced(q: seq<Req>, rest: seq<byte>, out: nat, acked: nat) {
    && acked <= out <= |rest|
    && if q == [] then rest == []
       else
         var n := q[0].totalLen;
         Share(q[0], rest, out, acked) && Balanced(q[1..], rest[n..], Less(out, n), Less(acked, n))
  }

  // ---- one request ----

  lemma {:induction false} FlatPrefix(bufs: seq<seq<byte>>, k: nat)
    requires k <= |bufs|
    ensures |Flat(bufs[..k])| <= |Flat(bufs)| && Flat(bufs)[..|Flat(bufs[..k])|] == Flat(bufs[..k])
  {
    if k < |bufs| {
      FlatPrefix(bufs[..|bufs| - 1], k);
      assert bufs[..|bufs| - 1][..k] == bufs[..k];
    } else {
      assert bufs[..k] == bufs;
    }
  }

  lemma {:induction false} ReqBounds(r: Req)
    requires ReqOk(r)
    ensures r.totalSent <= r.totalLen && (Complete(r) ==> r.totalSent == r.totalLen)
  {
    FlatPrefix(r.bufs, r.sentBufs);
    if Complete(r) {
      assert r.bufs[..r.sentBufs] == r.bufs;
    } else {
      FlatNext(r.bufs, r.sentBufs);
      FlatPrefix(r.bufs, r.sentBufs + 1);
    }
  }

  /** w more bytes fit in the current buffer. */
  predicate Room(r: Req, w: nat) {
    r.sentBufs < |r.bufs| && r.sent + w <= |r.bufs[r.sentBufs]|
  }

  function Piece(r: Req, w: nat): seq<byte>
    requires Room(r, w)
  {
    r.bufs[r.sentBufs][r.sent..r.sent + w]
  }

  function Wrote(r: Req, w: nat): Req {
    r.(sent := r.sent + w, pending := r.pending + w, totalSent := r.totalSent + w)
  }

  function NextBuf(r: Req): Req { r.(sent := 0, sentBufs := r.sentBufs + 1) }

  /** The next piece of the current buffer is the next piece of the request. */
  lemma {:induction false} PieceOfFlat(r: Req, w: nat)
    requires ReqOk(r) && Room(r, w)
    ensures r.totalSent + w <= r.totalLen && Flat(r.bufs)[r.totalSent..r.totalSent + w] == Piece(r, w)
  {
    FlatNext(r.bufs, r.sentBufs);
    FlatPrefix(r.bufs, r.sentBufs + 1);
    var before, buf := Flat(r.bufs[..r.sentBufs]), r.bufs[r.sentBufs];
    SliceInside(Flat(r.bufs), before, buf, r.sent, w);
  }

  lemma {:induction false} SliceInside(all: seq<byte>, before: seq<byte>, buf: seq<byte>, s: nat, w: nat)
    requires |before| + |buf| <= |all| && all[..|before| + |buf|] == before + buf && s + w <= |buf|
    ensures all[|before| + s..|before| + s + w] == buf[s..s + w]
  {
    var x, y := all[|before| + s..|before| + s + w], buf[s..s + w];
    forall i | 0 <= i < w ensures x[i] == y[i] {
      assert x[i] == all[..|before| + |buf|][|before| + s + i];
    }
  }

  // ---- writing ----

  /** The request uvl_imp_write_to_tcp works on: the first one with buffers left. */
  predicate Current(q: seq<Req>, c: nat) {
    c < |q| && !Complete(q[c]) && forall i :: 0 <= i < c ==> Complete(q[i])
  }

  lemma {:induction false} CurrentTail(q: seq<Req>, c: nat)
    requires Current(q, c) && c > 0
    ensures Complete(q[0]) && Current(q[1..], c - 1) && q[1..][c - 1] == q[c]
  {
  }

  lemma {:induction false} StillCurrent(q: seq<Req>, c: nat, w: nat)
    requires Current(q, c)
    ensures Current(q[c := Wrote(q[c], w)], c)
  {
  }

  lemma {:induction false} AppendTail(q: seq<Req>, r: Req)
    requires q != []
    ensures (q + [r])[1..] == q[1..] + [r] && (q + [r])[0] == q[0]
  {
  }

  lemma {:induction false} CutSum(a: seq<byte>, b: seq<byte>, n: nat)
    requires n <= |a|
    ensures (a + b)[n..] == a[n..] + b && (a + b)[..n] == a[..n]
  {
  }

  /** uvl_write puts a request at the end: nothing else moves. */
  lemma {:induction false} AppendBalanced(q: seq<Req>, rest: seq<byte>, out: nat, acked: nat, bufs: seq<seq<byte>>)
    requires Balanced(q, rest, out, acked) && |bufs| >= 1
    ensures Balanced(q + [NewReq(bufs)], rest + Flat(bufs), out, acked)
  {
    var q' := q + [NewReq(bufs)];
    if q == [] {
      assert bufs[..0] == [];
      assert rest + Flat(bufs) == Flat(bufs);
      assert q'[1..] == [] && Flat(bufs)[|Flat(bufs)|..] == [];
    } else {
      var n := q[0].totalLen;
      AppendBalanced(q[1..], rest[n..], Less(out, n), Less(acked, n), bufs);
      AppendTail(q, NewReq(bufs));
      CutSum(rest, Flat(bufs), n);
    }
  }

  /** Writing a piece of the current buffer keeps every counter right. */
  lemma {:induction false} WriteBalanced(q: seq<Req>, rest: seq<byte>, out: nat, acked: nat, c: nat, w: nat)
    requires Balanced(q, rest, out, acked) && Current(q, c) && Room(q[c], w) && w > 0
    ensures out + w <= |rest| && Balanced(q[c := Wrote(q[c], w)], rest, out + w, acked)
  {
    if c == 0 {
      WriteHead(q, rest, out, acked, w);
    } else {
      var n, t, r := q[0].totalLen, q[1..], Wrote(q[c], w);
      CurrentTail(q, c);
      CompleteHead(q[0], rest, out, acked, w);
      WriteBalanced(t, rest[n..], out - n, Less(acked, n), c - 1, w);
      WriteOntoHead(q, rest, out, acked, c, w, r);
    }
  }

  /** The head of the queue is complete, and the tail has been written. */
  lemma {:induction false} WriteOntoHead(q: seq<Req>, rest: seq<byte>, out: nat, acked: nat, c: nat, w: nat, r: Req)
    requires 0 < c < |q| && Share(q[0], rest, out, acked) && Complete(q[0])
    requires acked <= out && out + w <= |rest| && q[0].totalLen <= out
    requires var n := q[0].totalLen; Balanced(q[1..][c - 1 := r], rest[n..], out - n + w, Less(acked, n))
    ensures Balanced(q[c := r], rest, out + w, acked)
  {
    WritePrepend(q[0], q[1..][c - 1 := r], rest, out, acked, w);
    UpdateTail(q, c, r);
  }

  /** The bytes tcp_write is given are the next bytes of the whole stream. */
  lemma {:induction false} WritesNextBytes(q: seq<Req>, rest: seq<byte>, out: nat, acked: nat, c: nat, w: nat)
    requires Balanced(q, rest, out, acked) && Current(q, c) && Room(q[c], w) && w > 0
    ensures out + w <= |rest| && rest[out..out + w] == Piece(q[c], w)
  {
    if c == 0 {
      WriteHead(q, rest, out, acked, w);
    } else {
      var n := q[0].totalLen;
      CurrentTail(q, c);
      CompleteHead(q[0], rest, out, acked, w);
      WritesNextBytes(q[1..], rest[n..], out - n, Less(acked, n), c - 1, w);
    }
  }

  lemma {:induction false} Prepend(r: Req, t: seq<Req>, rest: seq<byte>, out: nat, acked: nat)
    requires Share(r, rest, out, acked) && acked <= out <= |rest|
    requires Balanced(t, rest[r.totalLen..], Less(out, r.totalLen), Less(acked, r.totalLen))
    ensures Balanced([r] + t, rest, out, acked)
  {
    assert ([r] + t)[1..] == t;
  }

  lemma {:induction false} UpdateTail(q: seq<Req>, c: nat, r: Req)
    requires 0 < c < |q|
    ensures q[c := r] == [q[0]] + q[1..][c - 1 := r]
  {
  }

  lemma {:induction false} WritePrepend(r: Req, t: seq<Req>, rest: seq<byte>, out: nat, acked: nat, w: nat)
    requires Share(r, rest, out, acked) && Complete(r) && acked <= out && out + w <= |rest| && r.totalLen <= out
    requires Balanced(t, rest[r.totalLen..], out - r.totalLen + w, Less(acked, r.totalLen))
    ensures Balanced([r] + t, rest, out + w, acked)
  {
    CompleteHead(r, rest, out, acked, w);
    Prepend(r, t, rest, out + w, acked);
  }

  /** A complete request does not notice bytes written after it. */
  lemma {:induction false} CompleteHead(r: Req, rest: seq<byte>, out: nat, acked: nat, w: nat)
    requires Share(r, rest, out, acked) && Complete(r)
    ensures var n := r.totalLen; n <= out && Share(r, rest, out + w, acked)
    ensures var n := r.totalLen; out + w <= |rest| ==> rest[out..out + w] == rest[n..][out - n..out - n + w]
  {
    ReqBounds(r);
  }

  lemma {:induction false} WriteHead(q: seq<Req>, rest: seq<byte>, out: nat, acked: nat, w: nat)
    requires Balanced(q, rest, out, acked) && Current(q, 0) && Room(q[0], w) && w > 0
    ensures out + w <= |rest| && rest[out..out + w] == Piece(q[0], w)
    ensures Balanced(q[0 := Wrote(q[0], w)], rest, out + w, acked)
  {
    var n := q[0].totalLen;
    PieceOfFlat(q[0], w);
    assert rest[..n][out..out + w] == rest[out..out + w];
    assert q[0 := Wrote(q[0], w)][1..] == q[1..];
  }

  /** Passing to the next buffer moves no bytes. */
  lemma {:induction false} NextBufBalanced(q: seq<Req>, rest: seq<byte>, out: nat, acked: nat, c: nat)
    requires Balanced(q, rest, out, acked) && Current(q, c) && Room(q[c], 0) && q[c].sent == |q[c].bufs[q[c].sentBufs]|
    ensures Balanced(q[c := NextBuf(q[c])], rest, out, acked)
  {
    var n, q' := q[0].totalLen, q[c := NextBuf(q[c])];
    if c == 0 {
      FlatNext(q[0].bufs, q[0].sentBufs);
      assert q'[1..] == q[1..];
    } else {
      CurrentTail(q, c);
      NextBufBalanced(q[1..], rest[n..], Less(out, n), Less(acked, n), c - 1);
      assert q'[1..] == q[1..][c - 1 := NextBuf(q[c])];
    }
  }

  predicate AllComplete(q: seq<Req>, n: nat) { n <= |q| && forall i :: 0 <= i < n ==> Complete(q[i]) }

  /** When every request is complete, every byte has been given to TCP. */
  lemma {:induction false} CompleteIsAll(q: seq<Req>, rest: seq<byte>, out: nat, acked: nat)
    requires Balanced(q, rest, out, acked) && AllComplete(q, |q|)
    ensures out == |rest|
  {
    if q != [] {
      var n := q[0].totalLen;
      ReqBounds(q[0]);
      CompleteIsAll(q[1..], rest[n..], Less(out, n), Less(acked, n));
    }
  }

  // ---- acknowledgements ----

  function PendingSum(q: seq<Req>): nat {
    if q == [] then 0 else q[0].pending + PendingSum(q[1..])
  }

  /** The loop of uvl_client_sent_func: take from the oldest request first. */
  function Ack(q: seq<Req>, len: nat): (r: seq<Req>)
    ensures |r| == |q|
  {
    if q == [] then []
    else
      var sub := Min(q[0].pending, len);
      [q[0].(pending := q[0].pending - sub)] + Ack(q[1..], len - sub)
  }

  /** Everything written and not acknowledged is pending somewhere in the queue, so the loop that
      spreads an acknowledgement never runs off its end. */
  lemma {:induction false} PendingIsOutstanding(q: seq<Req>, rest: seq<byte>, out: nat, acked: nat)
    requires Balanced(q, rest, out, acked)
    ensures PendingSum(q) == out - acked
  {
    if q != [] {
      var n := q[0].totalLen;
      PendingIsOutstanding(q[1..], rest[n..], Less(out, n), Less(acked, n));
    }
  }

  /** Any acknowledgement of bytes that are out is absorbed, oldest request first. */
  lemma {:induction false} AckBalanced(q: seq<Req>, rest: seq<byte>, out: nat, acked: nat, len: nat)
    requires Balanced(q, rest, out, acked) && acked + len <= out
    ensures Balanced(Ack(q, len), rest, out, acked + len)
  {
    if q != [] {
      var r, t := q[0], q[1..];
      var n, sub := r.totalLen, Min(r.pending, len);
      AckHead(r, rest, out, acked, len);
      AckBalanced(t, rest[n..], Less(out, n), Less(acked, n), len - sub);
      AckOntoHead(q, rest, out, acked, len);
    }
  }

  /** The head of the queue takes its part of the acknowledgement, and the tail has taken the rest. */
  lemma {:induction false} AckOntoHead(q: seq<Req>, rest: seq<byte>, out: nat, acked: nat, len: nat)
    requires q != [] && Share(q[0], rest, out, acked) && acked + len <= out <= |rest|
    requires var n, left := q[0].totalLen, len - Min(q[0].pending, len);
      Balanced(Ack(q[1..], left), rest[n..], Less(out, n), Less(acked, n) + left)
    ensures Balanced(Ack(q, len), rest, out, acked + len)
  {
    AckPrepend(q[0], Ack(q[1..], len - Min(q[0].pending, len)), rest, out, acked, len);
    AckCons(q, len);
  }

  lemma {:induction false} AckCons(q: seq<Req>, len: nat)
    requires q != []
    ensures var r, sub := q[0], Min(q[0].pending, len);
      Ack(q, len) == [r.(pending := r.pending - sub)] + Ack(q[1..], len - sub)
  {
  }

  lemma {:induction false} AckHead(r: Req, rest: seq<byte>, out: nat, acked: nat, len: nat)
    requires Share(r, rest, out, acked) && acked + len <= out
    ensures var n, sub := r.totalLen, Min(r.pending, len);
      && Share(r.(pending := r.pending - sub), rest, out, acked + len)
      && Less(acked + len, n) == Less(acked, n) + (len - sub) <= Less(out, n)
  {
    assert ReqOk(r.(pending := r.pending - Min(r.pending, len)));
  }

  lemma {:induction false} AckPrepend(r: Req, t: seq<Req>, rest: seq<byte>, out: nat, acked: nat, len: nat)
    requires Share(r, rest, out, acked) && acked + len <= out <= |rest|
    requires var n := r.totalLen; Balanced(t, rest[n..], Less(out, n), Less(acked, n) + (len - Min(r.pending, len)))
    ensures Balanced([r.(pending := r.pending - Min(r.pending, len))] + t, rest, out, acked + len)
  {
    AckHead(r, rest, out, acked, len);
    Prepend(r.(pending := r.pending - Min(r.pending, len)), t, rest, out, acked + len);
  }

  /** Where request i starts in the stream of the queued requests. */
  function Start(q: seq<Req>, i: nat): nat
    requires i <= |q|
  {
    if i == 0 then 0 else q[0].totalLen + Start(q[1..], i - 1)
  }

  /** Each request counts as sent and as pending its own bytes among those written and not acknowledged. */
  lemma {:induction false} ShareAt(q: seq<Req>, rest: seq<byte>, out: nat, acked: nat, i: nat)
    requires Balanced(q, rest, out, acked) && i < |q|
    ensures var n, o := q[i].totalLen, Start(q, i);
      && q[i].totalSent == Min(Less(out, o), n)
      && q[i].pending == Min(Less(out, o), n) - Min(Less(acked, o), n)
  {
    if i > 0 {
      var n := q[0].totalLen;
      ShareAt(q[1..], rest[n..], Less(out, n), Less(acked, n), i - 1);
      assert q[1..][i - 1] == q[i];
    }
  }

  // ---- completion ----

  /** The test that lets the oldest request go. */
  predicate Done(r: Req) { r.totalSent == r.totalLen && r.pending == 0 }

  /** It holds exactly when every byte of the request has been acknowledged. */
  lemma {:induction false} DoneIffAcknowledged(q: seq<Req>, rest: seq<byte>, out: nat, acked: nat)
    requires Balanced(q, rest, out, acked) && q != []
    ensures Done(q[0]) <==> q[0].totalLen <= acked
    ensures Done(q[0]) ==> Balanced(q[1..], rest[q[0].totalLen..], out - q[0].totalLen, acked - q[0].totalLen)
  {
    assert Done(q[0]) ==> q[0].totalLen <= acked;
  }
}
