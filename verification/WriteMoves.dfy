/** The moves on the books, as the connection object uses them. */
module WriteMoves {
  import opened Bytes
  import opened WriteQueue
  import opened WriteBooks

  lemma {:induction false} Ask(b: Books, q: seq<Req>, bufs: seq<seq<byte>>)
    requires Kept(b, q) && |bufs| >= 1
    ensures Kept(Asked(b, bufs), q + [NewReq(bufs)])
  {
    KeptIffConsistent(b, q);
    AskConsistent(b, q, bufs);
    KeptIffConsistent(Asked(b, bufs), q + [NewReq(bufs)]);
  }

  lemma {:induction false} Give(b: Books, q: seq<Req>, c: nat, w: nat)
    requires Kept(b, q) && !b.canceled && Current(q, c) && Room(q[c], w) && w > 0
    ensures Kept(Gave(b, q[c], w), q[c := Wrote(q[c], w)])
  {
    KeptIffConsistent(b, q);
    GiveConsistent(b, q, c, w);
    KeptIffConsistent(Gave(b, q[c], w), q[c := Wrote(q[c], w)]);
  }

  lemma {:induction false} Inside(b: Books, q: seq<Req>, c: nat)
    requires Kept(b, q) && Current(q, c)
    ensures Room(q[c], 0)
  {
    KeptIffConsistent(b, q);
    assert ReqOk(q[c]);
  }

  lemma {:induction false} Everything(b: Books, q: seq<Req>)
    requires Kept(b, q) && !b.canceled && AllComplete(q, |q|)
    ensures b.given == Flat(b.payloads)
  {
    KeptIffConsistent(b, q);
    CompleteIsAll(q, Flat(b.payloads)[Base(b)..], |b.given| - Base(b), b.acked - Base(b));
  }

  lemma {:induction false} ShareKept(b: Books, q: seq<Req>, i: nat)
    requires Kept(b, q) && !b.canceled && i < |q|
    ensures CountsItsBytes(b, |b.statuses| + i, q[i].totalSent, q[i].pending)
  {
    KeptIffConsistent(b, q);
    ShareOf(b, q, i);
  }

  lemma {:induction false} Prefix(b: Books, q: seq<Req>)
    requires Kept(b, q)
    ensures |b.statuses| + |q| == |b.payloads| && b.given <= Flat(b.payloads) && Truthful(b)
  {
    KeptIffConsistent(b, q);
  }

  lemma {:induction false} GivenFits(b: Books, q: seq<Req>)
    requires Kept(b, q)
    ensures b.acked <= |b.given| <= |Flat(b.payloads)|
  {
    KeptIffConsistent(b, q);
  }

  /** Once everything is acknowledged, every request that is left can be answered. */
  lemma {:induction false} AllAnswerable(b: Books, q: seq<Req>)
    requires Kept(b, q) && !b.canceled && b.acked == |Flat(b.payloads)|
    ensures forall i :: 0 <= i < |q| ==> Done(q[i])
  {
    forall i | 0 <= i < |q| ensures Done(q[i]) {
      Answerable(b, q, i);
    }
  }

  lemma {:induction false} Answerable(b: Books, q: seq<Req>, i: nat)
    requires Kept(b, q) && !b.canceled && b.acked == |Flat(b.payloads)| && i < |q|
    ensures Done(q[i])
  {
    var k := |b.statuses| + i;
    GivenFits(b, q);
    ShareKept(b, q, i);
    Length(b, q, i);
    EndsBy(b.payloads, k);
  }

  lemma {:induction false} Length(b: Books, q: seq<Req>, i: nat)
    requires Kept(b, q) && i < |q|
    ensures |b.statuses| + i < |b.payloads| && q[i].totalLen == |b.payloads[|b.statuses| + i]|
  {
    KeptIffConsistent(b, q);
    assert ReqOk(q[i]) && Flat(q[i].bufs) == b.payloads[|b.statuses| + i];
  }

  lemma {:induction false} EndsBy(payloads: seq<seq<byte>>, k: nat)
    requires k < |payloads|
    ensures |Flat(payloads[..k])| + |payloads[k]| <= |Flat(payloads)|
  {
    FlatNext(payloads, k);
    FlatPrefix(payloads, k + 1);
  }

  lemma {:induction false} Within(b: Books, q: seq<Req>, c: nat)
    requires Kept(b, q) && c < |q|
    ensures q[c].sentBufs <= |q[c].bufs|
  {
    KeptIffConsistent(b, q);
    assert ReqOk(q[c]);
  }

  /** The requests behind the one being written have not been started. */
  lemma {:induction false} Behind(b: Books, q: seq<Req>, c: nat)
    requires Kept(b, q) && Current(q, c)
    ensures forall j :: c < j < |q| ==> q[j].sentBufs == 0 < |q[j].bufs|
  {
    KeptIffConsistent(b, q);
    forall j | c < j < |q| ensures q[j].sentBufs == 0 < |q[j].bufs| { assert ReqOk(q[j]); }
  }

  lemma {:induction false} Next(b: Books, q: seq<Req>, c: nat)
    requires Kept(b, q) && !b.canceled && Current(q, c) && Room(q[c], 0) && q[c].sent == |q[c].bufs[q[c].sentBufs]|
    ensures Kept(b, q[c := NextBuf(q[c])])
  {
    KeptIffConsistent(b, q);
    NextConsistent(b, q, c);
    KeptIffConsistent(b, q[c := NextBuf(q[c])]);
  }

  lemma {:induction false} Acknowledge(b: Books, q: seq<Req>, len: nat)
    requires Kept(b, q) && !b.canceled && b.acked + len <= |b.given|
    ensures len <= PendingSum(q) && Kept(Acked(b, len), Ack(q, len))
  {
    KeptIffConsistent(b, q);
    AckConsistent(b, q, len);
    KeptIffConsistent(Acked(b, len), Ack(q, len));
  }

  lemma {:induction false} Finish(b: Books, q: seq<Req>)
    requires Kept(b, q) && q != [] && Done(q[0])
    ensures Kept(Answered(b, Ok), q[1..])
  {
    KeptIffConsistent(b, q);
    DoneConsistent(b, q);
    KeptIffConsistent(Answered(b, Ok), q[1..]);
  }

  /** Canceling, again behind a quantifier. */
  ghost predicate Abandoned(b: Books, q: seq<Req>) {
    forall x :: SameBooks(x, b) ==> Canceling(x, q)
  }

  lemma {:induction false} AbandonedIffCanceling(b: Books, q: seq<Req>)
    ensures Abandoned(b, q) <==> Canceling(b, q)
  {
    assert SameBooks(b, b);
  }

  lemma {:induction false} StartCancel(b: Books, q: seq<Req>)
    requires Kept(b, q)
    ensures Abandoned(b.(canceled := true), q)
  {
    KeptIffConsistent(b, q);
    AbandonedIffCanceling(b.(canceled := true), q);
  }

  lemma {:induction false} Cancel(b: Books, q: seq<Req>)
    requires Abandoned(b, q) && q != []
    ensures Abandoned(Answered(b, Canceled), q[1..])
  {
    AbandonedIffCanceling(b, q);
    CancelConsistent(b, q);
    AbandonedIffCanceling(Answered(b, Canceled), q[1..]);
  }

  lemma {:induction false} EndCancel(b: Books)
    requires Abandoned(b, [])
    ensures Kept(b, [])
  {
    AbandonedIffCanceling(b, []);
    CancelConsistent(b, []);
    KeptIffConsistent(b, []);
  }

  /** i requests have been looked at and turned q into v; the others still get `left` bytes of the len acknowledged. */
  predicate Spreading(q: seq<Req>, v: seq<Req>, len: nat, i: nat, left: nat) {
    && |v| == |q| && i <= |q| && v[i..] == q[i..]
    && left <= PendingSum(q[i..]) && Ack(q, len) == v[..i] + Ack(q[i..], left)
  }

  /** Spreading, behind a quantifier. */
  ghost predicate Spread(q: seq<Req>, v: seq<Req>, len: nat, i: nat, left: nat) {
    forall x :: SameReqs(x, v) ==> Spreading(q, x, len, i, left)
  }

  predicate SameReqs(x: seq<Req>, v: seq<Req>) { x == v }

  lemma {:induction false} SpreadIffSpreading(q: seq<Req>, v: seq<Req>, len: nat, i: nat, left: nat)
    ensures Spread(q, v, len, i, left) <==> Spreading(q, v, len, i, left)
  {
    assert SameReqs(v, v);
  }

  lemma {:induction false} SpreadStart(q: seq<Req>, len: nat)
    requires len <= PendingSum(q)
    ensures Spread(q, q, len, 0, len)
  {
    assert q[0..] == q;
    SpreadIffSpreading(q, q, len, 0, len);
  }

  lemma {:induction false} SpreadNext(q: seq<Req>, v: seq<Req>, len: nat, i: nat, left: nat)
    requires Spread(q, v, len, i, left) && left > 0
    ensures i < |v| && var sub := Min(v[i].pending, left);
      Spread(q, v[i := v[i].(pending := v[i].pending - sub)], len, i + 1, left - sub)
  {
    SpreadIffSpreading(q, v, len, i, left);
    SpreadStep(q, v, len, i, left);
    var sub := Min(v[i].pending, left);
    SpreadIffSpreading(q, v[i := v[i].(pending := v[i].pending - sub)], len, i + 1, left - sub);
  }

  lemma {:induction false} SpreadStep(q: seq<Req>, v: seq<Req>, len: nat, i: nat, left: nat)
    requires Spreading(q, v, len, i, left) && left > 0
    ensures i < |v|
    ensures var sub := Min(v[i].pending, left);
      Spreading(q, v[i := v[i].(pending := v[i].pending - sub)], len, i + 1, left - sub)
  {
    assert i < |v|;
    assert q[i..][1..] == q[i + 1..] && q[i..][0] == q[i] == v[i..][0];
    var sub := Min(v[i].pending, left);
    var r := v[i].(pending := v[i].pending - sub);
    assert v[i := r][..i + 1] == v[..i] + [r];
    assert v[i := r][i + 1..] == v[i..][1..];
    assert Ack(q[i..], left) == [r] + Ack(q[i + 1..], left - sub);
  }

  lemma {:induction false} SpreadEnd(q: seq<Req>, v: seq<Req>, len: nat, i: nat)
    requires Spread(q, v, len, i, 0)
    ensures v == Ack(q, len)
  {
    SpreadIffSpreading(q, v, len, i, 0);
    AckNothing(q[i..]);
    assert v == v[..i] + v[i..];
  }

  lemma {:induction false} AckNothing(q: seq<Req>)
    ensures Ack(q, 0) == q
  {
    if q != [] { AckNothing(q[1..]); }
  }
}
