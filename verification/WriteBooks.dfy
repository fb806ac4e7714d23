/** What a connection of uv_lwip/uv_lwip.c has promised and done, over its whole life. */
module WriteBooks {
  import opened Bytes
  import opened WriteQueue

  /** The status a write callback is called with: 0 or UV_ECANCELED. */
  datatype Status = Ok | Canceled

  /** `payloads` are the contents of all requests ever made, in order; callback k answers request k.
      `given` is what tcp_write has accepted, of which the peer has acknowledged `acked` bytes. */
  datatype Books = Books(payloads: seq<seq<byte>>, statuses: seq<Status>, given: seq<byte>, acked: nat, canceled: bool)

  /** Where the oldest unanswered request starts. */
  function Base(b: Books): nat
    requires |b.statuses| <= |b.payloads|
  {
    |Flat(b.payloads[..|b.statuses|])|
  }

  /** The unanswered requests are the queued ones, and what was given to TCP is a prefix of what was asked. */
  predicate Matched(b: Books, q: seq<Req>) {
    && |b.statuses| + |q| == |b.payloads|
    && (forall i :: 0 <= i < |q| ==> ReqOk(q[i]) && Flat(q[i].bufs) == b.payloads[|b.statuses| + i])
    && b.acked <= |b.given| <= |Flat(b.payloads)| && b.given == Flat(b.payloads)[..|b.given|]
  }

  /** A request is reported as written only if all bytes up to its last one have been acknowledged. */
  predicate Truthful(b: Books) {
    forall k :: 0 <= k < |b.statuses| <= |b.payloads| && b.statuses[k] == Ok ==>
      b.payloads[k] == [] || |Flat(b.payloads[..k + 1])| <= b.acked
  }

  /** Until the requests are cancelled the counters are exact; afterwards nothing is written any more. */
  predicate Counted(b: Books, q: seq<Req>) {
    if b.canceled then forall i :: 0 <= i < |q| ==> q[i].totalSent == 0
    else |b.statuses| <= |b.payloads| && Exact(q, Flat(b.payloads), Base(b), |b.given|, b.acked)
  }

  predicate Exact(q: seq<Req>, all: seq<byte>, base: nat, out: nat, acked: nat) {
    base <= acked <= out <= |all| && Balanced(q, all[base..], out - base, acked - base)
  }

  /** No request is started before the ones ahead of it are complete. */
  predicate Ordered(q: seq<Req>) {
    forall i, j :: 0 <= i < j < |q| && q[j].sentBufs > 0 ==> Complete(q[i])
  }

  predicate Consistent(b: Books, q: seq<Req>) {
    Matched(b, q) && Truthful(b) && Counted(b, q) && Ordered(q)
  }

  /** Consistent, behind a quantifier so that code on the heap need not look inside. */
  ghost predicate Kept(b: Books, q: seq<Req>) {
    forall x :: SameBooks(x, b) ==> Consistent(x, q)
  }

  predicate SameBooks(x: Books, b: Books) { x == b }

  lemma {:induction false} KeptIffConsistent(b: Books, q: seq<Req>)
    ensures Kept(b, q) <==> Consistent(b, q)
  {
    assert SameBooks(b, b);
  }

  // ---- each move keeps the books ----

  function Asked(b: Books, bufs: seq<seq<byte>>): Books { b.(payloads := b.payloads + [Flat(bufs)]) }

  lemma {:induction false} FlatSnoc(p: seq<seq<byte>>, x: seq<byte>)
    ensures Flat(p + [x]) == Flat(p) + x
    ensures forall k :: 0 <= k <= |p| ==> (p + [x])[..k] == p[..k]
  {
    assert (p + [x])[..|p|] == p;
  }

  lemma {:induction false} AskMatched(b: Books, q: seq<Req>, bufs: seq<seq<byte>>)
    requires Matched(b, q) && |bufs| >= 1
    ensures Matched(Asked(b, bufs), q + [NewReq(bufs)])
  {
    FlatSnoc(b.payloads, Flat(bufs));
    assert bufs[..0] == [];
    assert ReqOk(NewReq(bufs));
  }

  lemma {:induction false} AskTruthful(b: Books, x: seq<byte>)
    requires Truthful(b) && |b.statuses| <= |b.payloads|
    ensures Truthful(b.(payloads := b.payloads + [x]))
  {
    FlatSnoc(b.payloads, x);
  }

  lemma {:induction false} AskExact(q: seq<Req>, all: seq<byte>, base: nat, out: nat, acked: nat, bufs: seq<seq<byte>>)
    requires Exact(q, all, base, out, acked) && |bufs| >= 1
    ensures Exact(q + [NewReq(bufs)], all + Flat(bufs), base, out, acked)
  {
    AppendBalanced(q, all[base..], out - base, acked - base, bufs);
    ExactTail(q + [NewReq(bufs)], all, Flat(bufs), base, out, acked);
  }

  lemma {:induction false} ExactTail(q: seq<Req>, all: seq<byte>, x: seq<byte>, base: nat, out: nat, acked: nat)
    requires base <= acked <= out <= |all| && Balanced(q, all[base..] + x, out - base, acked - base)
    ensures Exact(q, all + x, base, out, acked)
  {
    TailOfSum(all, x, base);
  }

  lemma {:induction false} TailOfSum(s: seq<byte>, t: seq<byte>, base: nat)
    requires base <= |s|
    ensures (s + t)[base..] == s[base..] + t
  {
  }

  lemma {:induction false} AskConsistent(b: Books, q: seq<Req>, bufs: seq<seq<byte>>)
    requires Consistent(b, q) && |bufs| >= 1
    ensures Consistent(Asked(b, bufs), q + [NewReq(bufs)])
  {
    AskMatched(b, q, bufs);
    AskTruthful(b, Flat(bufs));
    if !b.canceled {
      AskExact(q, Flat(b.payloads), Base(b), |b.given|, b.acked, bufs);
      FlatSnoc(b.payloads, Flat(bufs));
    }
  }

  function Gave(b: Books, r: Req, w: nat): Books
    requires Room(r, w)
  {
    b.(given := b.given + Piece(r, w))
  }

  /** tcp_write is always given the next bytes of the stream. */
  lemma {:induction false} GiveConsistent(b: Books, q: seq<Req>, c: nat, w: nat)
    requires Consistent(b, q) && !b.canceled && Current(q, c) && Room(q[c], w) && w > 0
    ensures Consistent(Gave(b, q[c], w), q[c := Wrote(q[c], w)])
  {
    GiveExact(q, Flat(b.payloads), Base(b), |b.given|, b.acked, c, w);
    GiveMatched(b, q, c, w);
  }

  lemma {:induction false} GiveMatched(b: Books, q: seq<Req>, c: nat, w: nat)
    requires Matched(b, q) && Current(q, c) && Room(q[c], w) && |b.given| + w <= |Flat(b.payloads)|
    requires b.given + Piece(q[c], w) == Flat(b.payloads)[..|b.given| + w]
    ensures Matched(Gave(b, q[c], w), q[c := Wrote(q[c], w)])
  {
    assert ReqOk(Wrote(q[c], w));
  }

  lemma {:induction false} GiveExact(q: seq<Req>, all: seq<byte>, base: nat, out: nat, acked: nat, c: nat, w: nat)
    requires Exact(q, all, base, out, acked) && Current(q, c) && Room(q[c], w) && w > 0
    ensures Exact(q[c := Wrote(q[c], w)], all, base, out + w, acked)
    ensures all[..out] + Piece(q[c], w) == all[..out + w]
  {
    var rest, o, a := all[base..], out - base, acked - base;
    WritesNextBytes(q, rest, o, a, c, w);
    WriteBalanced(q, rest, o, a, c, w);
    SliceOfTail(all, base, out, w);
  }

  lemma {:induction false} SliceOfTail(s: seq<byte>, base: nat, n: nat, w: nat)
    requires base <= n && n + w <= |s|
    ensures s[base..][n - base..n - base + w] == s[n..n + w] && s[..n] + s[n..n + w] == s[..n + w]
  {
  }

  lemma {:induction false} NextConsistent(b: Books, q: seq<Req>, c: nat)
    requires Consistent(b, q) && !b.canceled && Current(q, c) && Room(q[c], 0) &&
      q[c].sent == |q[c].bufs[q[c].sentBufs]|
    ensures Consistent(b, q[c := NextBuf(q[c])])
  {
    NextExact(q, Flat(b.payloads), Base(b), |b.given|, b.acked, c);
    NextMatched(b, q, c);
    NextOrdered(q, c);
  }

  lemma {:induction false} NextExact(q: seq<Req>, all: seq<byte>, base: nat, out: nat, acked: nat, c: nat)
    requires Exact(q, all, base, out, acked) && Current(q, c) && Room(q[c], 0)
    requires q[c].sent == |q[c].bufs[q[c].sentBufs]|
    ensures Exact(q[c := NextBuf(q[c])], all, base, out, acked)
  {
    NextBufBalanced(q, all[base..], out - base, acked - base, c);
  }

  lemma {:induction false} NextOrdered(q: seq<Req>, c: nat)
    requires Ordered(q) && Current(q, c) && Room(q[c], 0)
    ensures Ordered(q[c := NextBuf(q[c])])
  {
  }

  lemma {:induction false} NextMatched(b: Books, q: seq<Req>, c: nat)
    requires Matched(b, q) && c < |q| && Room(q[c], 0) && q[c].sent == |q[c].bufs[q[c].sentBufs]|
    ensures Matched(b, q[c := NextBuf(q[c])])
  {
    FlatNext(q[c].bufs, q[c].sentBufs);
    assert ReqOk(NextBuf(q[c]));
  }

  lemma {:induction false} AckKeeps(q: seq<Req>, len: nat, i: nat)
    requires i < |q|
    ensures Ack(q, len)[i] == q[i].(pending := Ack(q, len)[i].pending)
  {
    var sub := Min(q[0].pending, len);
    if i > 0 { AckKeeps(q[1..], len - sub, i - 1); }
  }

  function Acked(b: Books, len: nat): Books { b.(acked := b.acked + len) }

  lemma {:induction false} AckMatched(b: Books, q: seq<Req>, len: nat)
    requires Matched(b, q) && b.acked + len <= |b.given|
    ensures Matched(Acked(b, len), Ack(q, len))
  {
    forall i | 0 <= i < |q| ensures ReqOk(Ack(q, len)[i]) && Ack(q, len)[i].bufs == q[i].bufs {
      AckKeeps(q, len, i);
      assert ReqOk(q[i]);
    }
  }

  /** An acknowledgement of bytes that are out finds them all in the queue. */
  lemma {:induction false} AckConsistent(b: Books, q: seq<Req>, len: nat)
    requires Consistent(b, q) && !b.canceled && b.acked + len <= |b.given|
    ensures len <= PendingSum(q) && Consistent(Acked(b, len), Ack(q, len))
  {
    PendingExact(q, Flat(b.payloads), Base(b), |b.given|, b.acked);
    AckExact(q, Flat(b.payloads), Base(b), |b.given|, b.acked, len);
    AckMatched(b, q, len);
    AckOrdered(q, len);
  }

  lemma {:induction false} AckOrdered(q: seq<Req>, len: nat)
    requires Ordered(q)
    ensures Ordered(Ack(q, len))
  {
    forall i | 0 <= i < |q| ensures Ack(q, len)[i].bufs == q[i].bufs && Ack(q, len)[i].sentBufs == q[i].sentBufs {
      AckKeeps(q, len, i);
    }
  }

  lemma {:induction false} AckExact(q: seq<Req>, all: seq<byte>, base: nat, out: nat, acked: nat, len: nat)
    requires Exact(q, all, base, out, acked) && acked + len <= out
    ensures Exact(Ack(q, len), all, base, out, acked + len)
  {
    var rest := all[base..];
    AckBalanced(q, rest, out - base, acked - base, len);
    assert Balanced(Ack(q, len), rest, out - base, acked - base + len);
  }

  lemma {:induction false} PendingExact(q: seq<Req>, all: seq<byte>, base: nat, out: nat, acked: nat)
    requires Exact(q, all, base, out, acked)
    ensures PendingSum(q) == out - acked
  {
    PendingIsOutstanding(q, all[base..], out - base, acked - base);
  }

  /** Request number k counts as sent what has been given to TCP of its bytes, and as pending what of
      that is not acknowledged. */
  predicate CountsItsBytes(b: Books, k: nat, sent: nat, pending: nat) {
    k < |b.payloads| &&
    var start, n := |Flat(b.payloads[..k])|, |b.payloads[k]|;
    sent == Min(Less(|b.given|, start), n) && pending == sent - Min(Less(b.acked, start), n)
  }

  lemma {:induction false} StartsAt(b: Books, q: seq<Req>, i: nat)
    requires Matched(b, q) && i <= |q|
    ensures |Flat(b.payloads[..|b.statuses| + i])| == Base(b) + Start(q, i)
    decreases i
  {
    if i > 0 {
      StartsAt(b, q, i - 1);
      FlatNext(b.payloads, |b.statuses| + i - 1);
      StartNext(q, i - 1);
    }
  }

  lemma {:induction false} StartNext(q: seq<Req>, i: nat)
    requires i < |q|
    ensures Start(q, i + 1) == Start(q, i) + q[i].totalLen
  {
    if i > 0 { StartNext(q[1..], i - 1); }
  }

  lemma {:induction false} ShareOf(b: Books, q: seq<Req>, i: nat)
    requires Consistent(b, q) && !b.canceled && i < |q|
    ensures CountsItsBytes(b, |b.statuses| + i, q[i].totalSent, q[i].pending)
  {
    StartsAt(b, q, i);
    var base := Base(b);
    ShareAt(q, Flat(b.payloads)[base..], |b.given| - base, b.acked - base, i);
    assert ReqOk(q[i]) && Flat(q[i].bufs) == b.payloads[|b.statuses| + i];
  }

  function Answered(b: Books, s: Status): Books { b.(statuses := b.statuses + [s]) }

  /** Answering the oldest request. */
  lemma {:induction false} AnswerMatched(b: Books, q: seq<Req>, s: Status)
    requires Matched(b, q) && q != []
    ensures Matched(Answered(b, s), q[1..])
  {
  }

  lemma {:induction false} BaseNext(b: Books, q: seq<Req>)
    requires Matched(b, q) && q != []
    ensures Flat(b.payloads[..|b.statuses| + 1]) == Flat(b.payloads[..|b.statuses|]) + b.payloads[|b.statuses|]
    ensures |b.payloads[|b.statuses|]| == q[0].totalLen
  {
    FlatNext(b.payloads, |b.statuses|);
    assert Flat(q[0].bufs) == b.payloads[|b.statuses| + 0];
  }

  lemma {:induction false} AnswerTruthful(b: Books, s: Status)
    requires Truthful(b) && |b.statuses| < |b.payloads|
    requires s == Ok ==> b.payloads[|b.statuses|] == [] || |Flat(b.payloads[..|b.statuses| + 1])| <= b.acked
    ensures Truthful(Answered(b, s))
  {
  }

  lemma {:induction false} DoneExact(q: seq<Req>, all: seq<byte>, base: nat, out: nat, acked: nat)
    requires Exact(q, all, base, out, acked) && q != [] && Done(q[0])
    ensures Exact(q[1..], all, base + q[0].totalLen, out, acked)
  {
    DoneIffAcknowledged(q, all[base..], out - base, acked - base);
    assert all[base..][q[0].totalLen..] == all[base + q[0].totalLen..];
  }

  /** The oldest request is reported as written once its counters say so. */
  lemma {:induction false} DoneConsistent(b: Books, q: seq<Req>)
    requires Consistent(b, q) && q != [] && Done(q[0])
    ensures Consistent(Answered(b, Ok), q[1..])
  {
    AnswerMatched(b, q, Ok);
    BaseNext(b, q);
    if !b.canceled {
      DoneExact(q, Flat(b.payloads), Base(b), |b.given|, b.acked);
    }
    AnswerTruthful(b, Ok);
  }

  /** What is left while the requests are being cancelled. */
  predicate Canceling(b: Books, q: seq<Req>) { b.canceled && Matched(b, q) && Truthful(b) }

  lemma {:induction false} CancelConsistent(b: Books, q: seq<Req>)
    requires Canceling(b, q)
    ensures q == [] ==> Consistent(b, q)
    ensures q != [] ==> Canceling(Answered(b, Canceled), q[1..])
  {
    if q != [] {
      AnswerMatched(b, q, Canceled);
      AnswerTruthful(b, Canceled);
    }
  }
}
