/** The connection object of uv_lwip/uv_lwip.c: its linked queue of write requests. */
module TcpClient {
  import opened Bytes
  import opened WriteQueue
  import opened WriteBooks
  import WriteMoves

  /** uvl_write_t; `pos` numbers the requests in the order they are made. */
  class WriteReq {
    var bufs: seq<seq<byte>>
    var sentBufs: nat
    var sent: nat
    var pending: nat
    var totalSent: nat
    var totalLen: nat
    var next: WriteReq?
    ghost var pos: nat

    constructor () {
      bufs, sentBufs, sent, pending, totalSent, totalLen, next, pos := [], 0, 0, 0, 0, 0, null, 0;
    }

    ghost function View(): Req
      reads this
    {
      Req(bufs, sentBufs, sent, pending, totalSent, totalLen)
    }
  }

  function Nth(ns: seq<WriteReq>, i: nat): WriteReq? { if i < |ns| then ns[i] else null }

  function Last(ns: seq<WriteReq>): WriteReq? { if ns == [] then null else ns[|ns| - 1] }

  /** ns is the list that starts at ns[0] and ends with a null; its requests are numbered from `first`
      and hold the values q. */
  ghost predicate Linked(ns: seq<WriteReq>, first: nat, q: seq<Req>)
    reads ns
  {
    && |q| == |ns|
    && forall i :: 0 <= i < |ns| ==> ns[i].next == Nth(ns, i + 1) && ns[i].pos == first + i && ns[i].View() == q[i]
  }

  /** The requests the callbacks were made for, in order; those still waiting, with their values; and the books. */
  datatype History = History(calls: seq<WriteReq>, queue: seq<WriteReq>, view: seq<Req>, books: Books)

  /** uvl_tcp_t, as far as writing goes. */
  class Client {
    var curWrite: WriteReq?
    var tailWrite: WriteReq?
    var closed: bool
    /** What tcp_sndbuf reports. */
    var sndbuf: nat
    /** Whether TCP has memory for the k-th tcp_write, and whether the k-th tcp_output succeeds. */
    const takes: nat -> bool
    const puts: nat -> bool
    /** How many of them there have been. */
    var writes: nat
    var outputs: nat
    ghost var h: History
    /** All requests ever made, in order. */
    ghost var issued: seq<WriteReq>

    ghost predicate Valid()
      reads this, h.queue
    {
      && |h.books.statuses| == |h.calls| && issued == h.calls + h.queue && (h.books.canceled ==> closed)
      && Linked(h.queue, |h.calls|, h.view) && Kept(h.books, h.view)
      && curWrite == Nth(h.queue, 0) && tailWrite == Last(h.queue)
    }

    constructor (takes: nat -> bool, puts: nat -> bool)
      ensures Valid() && !closed && issued == [] && h == History([], [], [], Books([], [], [], 0, false))
      ensures this.takes == takes && this.puts == puts
    {
      curWrite, tailWrite, closed, sndbuf, issued := null, null, false, 0, [];
      this.takes, this.puts, writes, outputs := takes, puts, 0, 0;
      h := History([], [], [], Books([], [], [], 0, false));
      KeptIffConsistent(Books([], [], [], 0, false), []);
    }

    /** What Valid means to a caller: callback k was made for request k, the requests without one are the
        queued ones, TCP has been given a prefix of the stream, and success is reported only for
        acknowledged bytes. */
    lemma {:induction false} Promise()
      requires Valid()
      ensures |h.calls| == |h.books.statuses| && |issued| == |h.books.payloads|
      ensures h.calls == issued[..|h.calls|] && h.queue == issued[|h.calls|..]
      ensures h.books.given <= Flat(h.books.payloads) && Truthful(h.books)
    {
      WriteMoves.Prefix(h.books, h.view);
    }

    /** Each queued request counts exactly its own bytes as sent and as pending. */
    lemma {:induction false} QueuedCounts(i: nat)
      requires Valid() && !h.books.canceled && i < |h.queue|
      ensures CountsItsBytes(h.books, |h.calls| + i, h.queue[i].totalSent, h.queue[i].pending)
    {
      WriteMoves.ShareKept(h.books, h.view, i);
      assert h.queue[i].View() == h.view[i];
    }

    /** uvl_accept brings the TCP connection and its send buffer. */
    method Accept(window: nat)
      requires Valid()
      modifies this`sndbuf
      ensures Valid() && sndbuf == window
    {
      WindowIs(window);
    }

    /** Between calls TCP may open its window, or close it. */
    method WindowIs(window: nat)
      requires Valid()
      modifies this`sndbuf
      ensures Valid() && sndbuf == window
    {
      sndbuf := window;
    }

    /** uvl_write */
    method Write(req: WriteReq, bufs: seq<seq<byte>>)
      requires Valid() && req !in h.queue && |bufs| >= 1
      modifies this`curWrite, this`tailWrite, this`h, this`issued, req, h.queue
      ensures Valid() && issued == old(issued) + [req] && h.calls == old(h.calls)
      ensures h.books == Asked(old(h.books), bufs)
    {
      WriteMoves.Ask(h.books, h.view, bufs);
      var tail := tailWrite;
      tailWrite := req;
      if curWrite == null {
        curWrite := req;
      }
      ghost var was := h;
      h := h.(queue := h.queue + [req], view := h.view + [NewReq(bufs)], books := Asked(h.books, bufs));
      issued := issued + [req];
      assert was.calls + was.queue + [req] == was.calls + (was.queue + [req]);
      Enqueue(was.queue, |was.calls|, was.view, tail, req, bufs);
    }

    /** req is the request being written, number c of the queue. */
    ghost predicate Writing(c: nat, req: WriteReq)
      reads this, h.queue
    {
      Valid() && !closed && Current(h.view, c) && h.queue[c] == req
    }

    /** tcp_write takes the next w bytes of the current buffer. */
    method TcpWrite(ghost c: nat, req: WriteReq, w: nat)
      requires Writing(c, req) && 0 < w <= sndbuf && Room(h.view[c], w)
      modifies this`sndbuf, this`h, req
      ensures Writing(c, req) && sndbuf == old(sndbuf) - w
      ensures h ==
        old(h).(view := old(h.view)[c := Wrote(old(h.view[c]), w)], books := Gave(old(h.books), old(h.view[c]), w))
    {
      WriteMoves.Give(h.books, h.view, c, w);
      StillCurrent(h.view, c, w);
      sndbuf := sndbuf - w;
      ghost var was := h;
      h := h.(view := h.view[c := Wrote(h.view[c], w)], books := Gave(h.books, h.view[c], w));
      Count(was.queue, |was.calls|, was.view, c, req, w);
    }

    /** The current buffer has been written: go to the next one. */
    method Advance(ghost c: nat, req: WriteReq)
      requires Writing(c, req) && Room(h.view[c], 0) && h.view[c].sent == |h.view[c].bufs[h.view[c].sentBufs]|
      modifies this`h, req
      ensures Valid() && h == old(h).(view := old(h.view)[c := NextBuf(old(h.view[c]))])
    {
      WriteMoves.Next(h.books, h.view, c);
      ghost var was := h;
      h := h.(view := h.view[c := NextBuf(h.view[c])]);
      Skip(was.queue, |was.calls|, was.view, c, req);
    }

    /** The buffer buf of request c is being written. */
    ghost predicate Filling(c: nat, req: WriteReq, buf: seq<byte>)
      reads this, h.queue
    {
      Writing(c, req) && Room(h.view[c], 0) && h.view[c].bufs[h.view[c].sentBufs] == buf
    }

    /** There have been tcp_writes since w, if any; the last one was refused if TCP is said to be full. */
    predicate Refused(w: nat, full: bool)
      reads this`writes
    {
      w <= writes && (full ==> w < writes && !takes(writes - 1))
    }

    /** One tcp_write of all that the buffer has and the window takes, or none; whether to stop, and why: the
        buffer or the window is used up, or ERR_MEM. */
    method WritePiece(ghost c: nat, req: WriteReq, buf: seq<byte>) returns (stop: bool, full: bool)
      requires Filling(c, req, buf)
      modifies this`sndbuf, this`h, this`writes, req
      ensures Filling(c, req, buf) && Progress(old(h), h, c, false) && Refused(old(writes), full)
      ensures sndbuf + |h.books.given| == old(sndbuf + |h.books.given|)
      ensures !stop ==> old(req.sent) < req.sent
      ensures req.sent == old(req.sent) + (if full then 0 else Min(|buf| - old(req.sent), old(sndbuf)))
      ensures stop && !full && sndbuf != 0 ==> req.sent == |buf|
    {
      var toWrite := Min(|buf| - req.sent, sndbuf);
      if toWrite == 0 {
        return true, false;
      }
      writes := writes + 1;
      if !takes(writes - 1) {
        return true, true;
      }
      TcpWrite(c, req, toWrite);
      stop, full := req.sent >= |buf|, false;
    }

    /** Write the buffer until it or the window is used up, or ERR_MEM. */
    method FillWindow(ghost c: nat, req: WriteReq, buf: seq<byte>) returns (full: bool)
      requires Filling(c, req, buf)
      modifies this`sndbuf, this`h, this`writes, req
      ensures Filling(c, req, buf) && Progress(old(h), h, c, false) && Refused(old(writes), full)
      ensures sndbuf + |h.books.given| == old(sndbuf + |h.books.given|)
      ensures !full && sndbuf != 0 ==> req.sent == |buf|
    {
      var stop;
      stop, full := WritePiece(c, req, buf);
      while !stop
        invariant Filling(c, req, buf) && Progress(old(h), h, c, false) && Refused(old(writes), full)
        invariant sndbuf + |h.books.given| == old(sndbuf + |h.books.given|)
        invariant stop && !full && sndbuf != 0 ==> req.sent == |buf|
        decreases !stop, |buf| - req.sent
      {
        ghost var mid := h;
        stop, full := WritePiece(c, req, buf);
        ProgressAgain(old(h), mid, h, c);
      }
    }

    /** uvl_imp_write_buf_to_tcp; whether to go on with the next buffer. */
    method WriteBuf(ghost c: nat, req: WriteReq) returns (more: bool, full: bool)
      requires Writing(c, req)
      modifies this`sndbuf, this`h, this`writes, req
      ensures Valid() && Progress(old(h), h, c, more) && (!more ==> full || sndbuf == 0) && Refused(old(writes), full)
      ensures sndbuf + |h.books.given| == old(sndbuf + |h.books.given|)
    {
      WriteMoves.Inside(h.books, h.view, c);
      full := FillWindow(c, req, req.bufs[req.sentBufs]);
      if full || sndbuf == 0 {
        return false, full;
      }
      Advance(c, req);
      return true, false;
    }

    /** The requests before the c-th are complete, and req is the c-th, with buffers left, or null. */
    ghost predicate Reached(c: nat, req: WriteReq?)
      reads this, h.queue
    {
      Valid() && if req == null then AllComplete(h.view, |h.view|) else Current(h.view, c) && h.queue[c] == req
    }

    /** The first request that has buffers left. */
    method FindCurrent() returns (req: WriteReq?, ghost c: nat)
      requires Valid()
      ensures Reached(c, req)
    {
      req, c := curWrite, 0;
      while req != null && req.sentBufs >= |req.bufs|
        invariant c <= |h.queue| && req == Nth(h.queue, c) && AllComplete(h.view, c)
        decreases |h.queue| - c
      {
        WriteMoves.Within(h.books, h.view, c);
        req, c := req.next, c + 1;
      }
    }

    /** Write the current buffer and go to the next one, perhaps of the next request. */
    method WriteNext(ghost c: nat, req: WriteReq) returns (next: WriteReq?, ghost c': nat, more: bool, full: bool)
      requires Writing(c, req)
      modifies this`sndbuf, this`h, this`writes, req
      ensures Valid() && Progress(old(h), h, c, more) && (!more ==> full || sndbuf == 0) && Refused(old(writes), full)
      ensures sndbuf + |h.books.given| == old(sndbuf + |h.books.given|)
      ensures more ==> Reached(c', next) && Left(h.view, c') < Left(old(h.view), c)
    {
      WriteMoves.Behind(h.books, h.view, c);
      WriteMoves.Within(h.books, h.view, c);
      more, full := WriteBuf(c, req);
      if more { LeftFurther(old(h.view), h.view, c); }
      next, c' := req, c;
      if more && req.sentBufs == |req.bufs| {
        next, c' := req.next, c + 1;
      }
    }

    /** Go on until the end of the stream, a full window or ERR_MEM. */
    method WriteOn(first: WriteReq?, ghost start: nat) returns (full: bool)
      requires Reached(start, first) && !closed
      modifies this`sndbuf, this`h, this`writes, h.queue
      ensures Valid() && Grown(old(h), h) && (full || sndbuf == 0 || h.books.given == Flat(h.books.payloads))
      ensures Refused(old(writes), full)
      ensures sndbuf + |h.books.given| == old(sndbuf + |h.books.given|)
    {
      var req, more := first, true;
      ghost var c: nat := start;
      full := false;
      while req != null && more
        invariant Valid() && Grown(old(h), h) && sndbuf + |h.books.given| == old(sndbuf + |h.books.given|)
        invariant Refused(old(writes), full) && if more then Reached(c, req) else full || sndbuf == 0
        decreases more, Left(h.view, c)
      {
        ghost var mid, at := h, c;
        req, c, more, full := WriteNext(c, req);
        GrownAgain(old(h), mid, h, at, more);
      }
      if more { WriteMoves.Everything(h.books, h.view); }
    }

    /** uvl_imp_write_to_tcp */
    method WriteToTcp() returns (full: bool)
      requires Valid() && !closed
      modifies this`sndbuf, this`h, this`writes, this`outputs, this`closed, h.queue
      ensures Valid() && Grown(old(h), h) && (full || sndbuf == 0 || h.books.given == Flat(h.books.payloads))
      ensures Refused(old(writes), full) && outputs == old(outputs) + 1 && closed == !puts(old(outputs))
      ensures sndbuf + |h.books.given| == old(sndbuf + |h.books.given|)
    {
      var req, c := FindCurrent();
      full := WriteOn(req, c);
      Output();
    }

    /** tcp_output; a failure closes the connection. */
    method Output()
      requires Valid() && !closed
      modifies this`outputs, this`closed
      ensures Valid() && outputs == old(outputs) + 1 && closed == !puts(old(outputs))
    {
      outputs := outputs + 1;
      if !puts(outputs - 1) {
        closed := true;
      }
    }

    /** uvl_client_sent_func: the peer has acknowledged len bytes; TCP opens its window again. */
    method Sent(len: nat, window: nat)
      requires Valid() && !closed && 0 < len && h.books.acked + len <= |h.books.given|
      modifies this`sndbuf, this`h, h.queue
      ensures Valid() && h == old(h).(view := Ack(old(h.view), len), books := Acked(old(h.books), len)) &&
        sndbuf == window
    {
      WriteMoves.Acknowledge(h.books, h.view, len);
      sndbuf := window;
      ghost var was := h;
      h := h.(view := Ack(h.view, len), books := Acked(h.books, len));
      Spread(was.queue, |was.calls|, was.view, curWrite, len);
    }

    /** Valid, but for the tail pointer of an empty queue. */
    ghost predicate Headed()
      reads this, h.queue
    {
      && |h.books.statuses| == |h.calls| && issued == h.calls + h.queue && (h.books.canceled ==> closed)
      && Linked(h.queue, |h.calls|, h.view) && Kept(h.books, h.view)
      && curWrite == Nth(h.queue, 0) && (h.queue != [] ==> tailWrite == Last(h.queue))
    }

    /** Take the oldest request off the queue and make its callback. */
    method AnswerOne(req: WriteReq)
      requires Headed() && req == curWrite && Done(req.View())
      modifies this`curWrite, this`h
      ensures Headed() && h == Called(old(h), Ok)
    {
      WriteMoves.Finish(h.books, h.view);
      CalledKeeps(h, Ok);
      curWrite := req.next;
      h := Called(h, Ok);
    }

    /** The loop of uvl_async_tcp_write_cb: answer the requests that are written and acknowledged. */
    method AnswerDone() returns (ghost n: nat)
      requires Valid()
      modifies this`curWrite, this`tailWrite, this`h
      ensures Valid() && Served(old(h), h, n, Ok) && (h.view != [] ==> !Done(h.view[0]))
    {
      var req := curWrite;
      n := 0;
      while req != null && req.totalSent == req.totalLen && req.pending == 0
        invariant Headed() && req == curWrite && Served(old(h), h, n, Ok)
        decreases |h.queue|
      {
        ServedNext(old(h), h, n, Ok);
        AnswerOne(req);
        req, n := curWrite, n + 1;
      }
      if curWrite == null {
        tailWrite := null;
      }
    }

    /** The waiting requests are being told, from req on. */
    ghost predicate Canceling(req: WriteReq?)
      reads this, h.queue
    {
      && |h.books.statuses| == |h.calls| && issued == h.calls + h.queue
      && Linked(h.queue, |h.calls|, h.view) && req == Nth(h.queue, 0)
      && WriteMoves.Abandoned(h.books, h.view)
    }

    method CancelOne(req: WriteReq) returns (next: WriteReq?)
      requires Canceling(req)
      modifies this`h
      ensures Canceling(next) && h == Called(old(h), Canceled)
    {
      WriteMoves.Cancel(h.books, h.view);
      CalledKeeps(h, Canceled);
      next := req.next;
      h := Called(h, Canceled);
    }

    method CancelAll(first: WriteReq?)
      requires Canceling(first)
      modifies this`h
      ensures Canceling(null) && Served(old(h), h, |old(h.queue)|, Canceled)
    {
      var req := first;
      ghost var n := 0;
      while req != null
        invariant Canceling(req) && Served(old(h), h, n, Canceled)
        decreases |h.queue|
      {
        ServedNext(old(h), h, n, Canceled);
        req := CancelOne(req);
        n := n + 1;
      }
    }

    /** uvl_cancel_reqs: every waiting request is told, in order. */
    method CancelReqs()
      requires Valid() && closed
      modifies this`curWrite, this`tailWrite, this`h
      ensures Valid() && AllCanceled(old(h), h)
    {
      WriteMoves.StartCancel(h.books, h.view);
      h := h.(books := h.books.(canceled := true));
      CancelAll(curWrite);
      curWrite, tailWrite := null, null;
      WriteMoves.EndCancel(h.books);
    }

    /** uvl_async_tcp_write_cb: answer what is done; then cancel the rest if closed, else write on. */
    method AsyncWrite() returns (full: bool, ghost n: nat, ghost mid: History)
      requires Valid()
      modifies this`curWrite, this`tailWrite, this`closed, this`sndbuf, this`h, this`writes, this`outputs, h.queue
      ensures Valid() && Served(old(h), mid, n, Ok) && (mid.view != [] ==> !Done(mid.view[0]))
      ensures if old(closed) then AllCanceled(mid, h) else Grown(mid, h)
      ensures !old(closed) ==> full || sndbuf == 0 || h.books.given == Flat(h.books.payloads)
      ensures Refused(old(writes), full)
      ensures closed == (old(closed) || (mid.queue != [] && !puts(old(outputs))))
      ensures sndbuf + |h.books.given| == old(sndbuf + |h.books.given|)
    {
      n := AnswerDone();
      mid := h;
      full := false;
      if closed {
        CancelReqs();
        return;
      }
      if curWrite != null {
        full := WriteToTcp();
      } else {
        WriteMoves.Everything(h.books, h.view);
      }
    }

    /** A window wider than what is left takes everything, unless TCP runs out of memory. */
    method WriteOut(window: nat) returns (full: bool, ghost n: nat)
      requires Valid() && !closed && window + |h.books.given| > |Flat(h.books.payloads)|
      modifies this`curWrite, this`tailWrite, this`closed, this`sndbuf, this`h, this`writes, this`outputs, h.queue
      ensures Valid() && Later(old(h), h) && h.books.acked == old(h.books.acked)
      ensures full || h.books.given == Flat(h.books.payloads)
      ensures Refused(old(writes), full) && (closed ==> !puts(old(outputs)))
      ensures n <= |old(h.queue)| && h.queue == old(h.queue)[n..]
    {
      WindowIs(window);
      ghost var mid;
      full, n, mid := AsyncWrite();
      ServedThenGrown(old(h), mid, h, n);
      WriteMoves.GivenFits(h.books, h.view);
    }

    /** When everything is acknowledged, one more turn answers every request. */
    method AnswerRest()
      requires Valid() && !closed && h.books.acked == |Flat(h.books.payloads)|
      modifies this`curWrite, this`tailWrite, this`closed, this`sndbuf, this`h, this`writes, this`outputs, h.queue
      ensures Valid() && Later(old(h), h) && h.queue == [] && h.books.acked == old(h.books.acked) && !closed
    {
      WriteMoves.AllAnswerable(h.books, h.view);
      var _, n, mid := AsyncWrite();
      ServedThenGrown(old(h), mid, h, n);
    }

    method SentAll(len: nat, window: nat)
      requires Valid() && !closed && h.books.acked + len <= |h.books.given|
      modifies this`sndbuf, this`h, h.queue
      ensures Valid() && Later(old(h), h) && h.queue == old(h.queue) && h.books.acked == old(h.books.acked) + len
    {
      if len > 0 {
        Sent(len, window);
      }
    }

    /** The queue is live: whatever is queued, a wide window, a write, an acknowledgement of all that is
        out and another turn answer every request with success, unless TCP runs out of memory or fails. */
    method Drain(window: nat, len: nat) returns (full: bool)
      requires Valid() && !closed && window + |h.books.given| > |Flat(h.books.payloads)|
      requires h.books.acked + len == |Flat(h.books.payloads)|
      modifies this`curWrite, this`tailWrite, this`closed, this`sndbuf, this`h, this`writes, this`outputs, h.queue
      ensures Valid() && Later(old(h), h)
      ensures full || closed || (h.queue == [] && h.books.acked == |Flat(h.books.payloads)|)
      ensures (full ==> exists k :: !takes(k)) && (closed ==> exists k :: !puts(k))
    {
      ghost var n;
      full, n := WriteOut(window);
      if full || closed {
        return;
      }
      ghost var mid := h;
      Finish(len, window);
      LaterAgain(old(h), mid, h);
    }

    /** The peer acknowledges all that is left, and the requests are answered. */
    method Finish(len: nat, window: nat)
      requires Valid() && !closed && h.books.acked + len == |h.books.given| == |Flat(h.books.payloads)|
      modifies this`curWrite, this`tailWrite, this`closed, this`sndbuf, this`h, this`writes, this`outputs, h.queue
      ensures Valid() && Later(old(h), h) && h.queue == [] && h.books.acked == |Flat(h.books.payloads)| && !closed
    {
      SentAll(len, window);
      ghost var mid := h;
      AnswerRest();
      LaterAgain(old(h), mid, h);
    }

    /** uvl_client_freed: TCP has let go of the connection. */
    method Freed()
      requires Valid()
      modifies this`closed
      ensures Valid() && closed
    {
      closed := true;
    }

    /** uvl_tcp_close */
    method Close()
      requires Valid()
      modifies this`curWrite, this`tailWrite, this`h, this`closed
      ensures Valid() && closed && AllCanceled(old(h), h)
    {
      if !closed {
        Freed();
      }
      CancelReqs();
    }
  }

  /** The same requests; the callbacks made in between, if any, reported success. */
  ghost predicate Later(h: History, h': History) {
    && h'.books.payloads == h.books.payloads && h.books.statuses <= h'.books.statuses && h.books.acked <= h'.books.acked
    && forall k :: |h.books.statuses| <= k < |h'.books.statuses| ==> h'.books.statuses[k] == Ok
  }

  lemma {:induction false} LaterAgain(h: History, h1: History, h2: History)
    requires Later(h, h1) && Later(h1, h2)
    ensures Later(h, h2)
  {
    forall k | |h.books.statuses| <= k < |h2.books.statuses| ensures h2.books.statuses[k] == Ok {
      if k < |h1.books.statuses| { assert h2.books.statuses[k] == h1.books.statuses[k]; }
    }
  }

  lemma {:induction false} ServedThenGrown(h: History, mid: History, h': History, n: nat)
    requires Served(h, mid, n, Ok) && Grown(mid, h')
    ensures Later(h, h') && h'.books.acked == h.books.acked && h'.queue == h.queue[n..]
  {
    assert forall k :: 0 <= k < n ==> Times(Ok, n)[k] == Ok;
  }

  /** One request from the first call to its callback. It is answered with success, and all its bytes have
      been acknowledged, unless TCP refuses a write or an output. */
  method Deliver(req: WriteReq, bufs: seq<seq<byte>>, takes: nat -> bool, puts: nat -> bool) returns (c: Client)
    requires |bufs| >= 1
    modifies req
    ensures fresh(c) && c.Valid() && c.issued == [req]
    ensures (forall k :: takes(k) && puts(k)) ==>
      c.h.calls == [req] && c.h.books.statuses == [Ok] && c.h.books.acked == |Flat(bufs)|
  {
    c := new Client(takes, puts);
    var len := TotalLen(bufs);
    c.Accept(len + 1);
    c.Write(req, bufs);
    FlatOne(Flat(bufs));
    NoneCalled(c.h.calls, c.h.queue, req);
    ghost var asked := c.h;
    var full := c.Drain(len + 1, len);
    if c.h.queue == [] { OneAnswered(asked, c.h, req); }
  }

  lemma {:induction false} FlatOne(x: seq<byte>)
    ensures Flat([] + [x]) == x
  {
    FlatSnoc([], x);
  }

  lemma {:induction false} NoneCalled(calls: seq<WriteReq>, queue: seq<WriteReq>, req: WriteReq)
    requires calls == [] && calls + queue == [req]
    ensures queue == [req]
  {
    assert calls + queue == queue;
  }

  lemma {:induction false} OneAnswered(h: History, h': History, req: WriteReq)
    requires Later(h, h') && h.books.statuses == [] && |h'.books.statuses| == |h'.calls|
    requires h'.queue == [] && h'.calls + h'.queue == [req]
    ensures h'.calls == [req] && h'.books.statuses == [Ok]
  {
    assert h'.calls + h'.queue == h'.calls;
  }

  /** The oldest request has been answered. */
  ghost function Called(h: History, s: Status): History
    requires h.queue != [] && |h.view| == |h.queue|
  {
    History(h.calls + [h.queue[0]], h.queue[1..], h.view[1..], Answered(h.books, s))
  }

  lemma {:induction false} CalledKeeps(h: History, s: Status)
    requires h.queue != [] && |h.view| == |h.queue|
    ensures Called(h, s).calls + Called(h, s).queue == h.calls + h.queue
  {
    assert h.queue == [h.queue[0]] + h.queue[1..];
  }

  /** All waiting requests have been answered with UV_ECANCELED, in order. */
  ghost predicate AllCanceled(h: History, h': History) {
    && h'.queue == [] && h'.calls == h.calls + h.queue
    && h'.books == h.books.(canceled := true, statuses := h.books.statuses + Times(Canceled, |h.queue|))
  }

  function Times(s: Status, n: nat): seq<Status> { seq(n, _ => s) }

  /** The n oldest requests have been answered with s. */
  ghost predicate Served(h: History, h': History, n: nat, s: Status) {
    && n <= |h.queue| == |h.view|
    && h' == History(h.calls + h.queue[..n], h.queue[n..], h.view[n..],
        h.books.(statuses := h.books.statuses + Times(s, n)))
  }

  lemma {:induction false} ServedNext(h: History, h': History, n: nat, s: Status)
    requires Served(h, h', n, s)
    ensures h'.queue != [] ==> Served(h, Called(h', s), n + 1, s)
  {
    if h'.queue != [] {
      assert h.queue[..n + 1] == h.queue[..n] + [h.queue[n]];
      assert Times(s, n + 1) == Times(s, n) + [s];
    }
  }

  /** The loop of uvl_client_sent_func. */
  method Spread(ghost ns: seq<WriteReq>, ghost first: nat, ghost q: seq<Req>, cur: WriteReq?, len: nat)
    requires Linked(ns, first, q) && cur == Nth(ns, 0) && len <= PendingSum(q)
    modifies ns
    ensures Linked(ns, first, Ack(q, len))
  {
    WriteMoves.SpreadStart(q, len);
    ghost var i, v, left := SpreadAll(ns, first, q, cur, len);
    WriteMoves.SpreadEnd(q, v, len, i);
  }

  method SpreadAll(ghost ns: seq<WriteReq>, ghost first: nat, ghost q: seq<Req>, cur: WriteReq?, len: nat)
    returns (ghost i: nat, ghost v: seq<Req>, left: nat)
    requires Linked(ns, first, q) && cur == Nth(ns, 0) && WriteMoves.Spread(q, q, len, 0, len)
    modifies ns
    ensures Linked(ns, first, v) && WriteMoves.Spread(q, v, len, i, left) && left == 0
  {
    var req := cur;
    left, i, v := len, 0, q;
    while left > 0
      invariant Linked(ns, first, v) && WriteMoves.Spread(q, v, len, i, left) && req == Nth(ns, i)
      decreases |ns| - i
    {
      req, left, i, v := SpreadOne(ns, first, q, v, len, i, req, left);
    }
  }

  /** Take what request i can account for; it is there as long as something is left. */
  method SpreadOne(ghost ns: seq<WriteReq>, ghost first: nat, ghost q: seq<Req>, ghost v: seq<Req>, ghost len: nat,
                   ghost i: nat, req: WriteReq?, left: nat)
                       returns (next: WriteReq?, left': nat, ghost i': nat, ghost v': seq<Req>)
    requires Linked(ns, first, v) && WriteMoves.Spread(q, v, len, i, left) && req == Nth(ns, i) && left > 0
    modifies ns
    ensures i' == i + 1 <= |ns| && Linked(ns, first, v') && WriteMoves.Spread(q, v', len, i', left') &&
      next == Nth(ns, i')
  {
    WriteMoves.SpreadNext(q, v, len, i, left);
    var sub := Min(req.pending, left);
    next, left', i' := req.next, left - sub, i + 1;
    v' := v[i := v[i].(pending := v[i].pending - sub)];
    Acknowledged(ns, first, v, i, req, sub);
  }

  method Acknowledged(ghost ns: seq<WriteReq>, ghost first: nat, ghost q: seq<Req>, ghost c: nat, req: WriteReq,
    sub: nat)
    requires Linked(ns, first, q) && c < |ns| && req == ns[c] && sub <= req.pending
    modifies req
    ensures Linked(ns, first, q[c := q[c].(pending := q[c].pending - sub)])
  {
    assert forall i :: 0 <= i < |ns| && i != c ==> ns[i] != req;
    req.pending := req.pending - sub;
  }

  /** The requests are the same, and what was given to TCP has grown. */
  predicate Grown(h: History, h': History) {
    h' == h.(view := h'.view, books := h'.books) && Asks(h.books, h'.books)
  }

  /** How many buffers are left from request c on. */
  function Left(q: seq<Req>, c: nat): nat
    decreases |q| - c
  {
    if c >= |q| then 0
    else (if q[c].sentBufs <= |q[c].bufs| then |q[c].bufs| - q[c].sentBufs else 0) + Left(q, c + 1)
  }

  lemma {:induction false} LeftSame(q: seq<Req>, q': seq<Req>, c: nat)
    requires |q| == |q'| && forall j :: c <= j < |q| ==> q[j] == q'[j]
    ensures Left(q, c) == Left(q', c)
    decreases |q| - c
  {
    if c < |q| { LeftSame(q, q', c + 1); }
  }

  lemma {:induction false} LeftFurther(q: seq<Req>, q': seq<Req>, c: nat)
    requires Further(q, q', c, true) && q[c].sentBufs < |q[c].bufs|
    ensures Left(q', c) < Left(q, c) && Left(q', c + 1) < Left(q, c)
  {
    LeftSame(q, q', c + 1);
  }

  /** Request c has moved, by a whole buffer if `more`; what was given to TCP has grown; nothing else. */
  predicate Progress(h: History, h': History, c: nat, more: bool) {
    && h' == h.(view := h'.view, books := h'.books)
    && Asks(h.books, h'.books) && Further(h.view, h'.view, c, more)
  }

  /** Only what was given to TCP may differ, and it grows. */
  predicate Asks(b: Books, b': Books) { b' == b.(given := b'.given) && b.given <= b'.given }

  /** Only request c has moved, and by a whole buffer if `more`. */
  predicate Further(q: seq<Req>, q': seq<Req>, c: nat, more: bool) {
    && |q| == |q'| && c < |q| && q' == q[c := q'[c]] && q'[c].bufs == q[c].bufs
    && q'[c].sentBufs == q[c].sentBufs + (if more then 1 else 0)
  }

  lemma {:induction false} ProgressAgain(h: History, h1: History, h2: History, c: nat)
    requires Progress(h, h1, c, false) && Progress(h1, h2, c, false)
    ensures Progress(h, h2, c, false)
  {
  }

  lemma {:induction false} GrownAgain(h: History, h1: History, h2: History, c: nat, more: bool)
    requires Grown(h, h1) && Progress(h1, h2, c, more)
    ensures Grown(h, h2)
  {
  }

  /** Count w bytes of the current buffer as sent and pending. */
  method Count(ghost ns: seq<WriteReq>, ghost first: nat, ghost q: seq<Req>, ghost c: nat, req: WriteReq, w: nat)
    requires Linked(ns, first, q) && c < |ns| && req == ns[c]
    modifies req
    ensures Linked(ns, first, q[c := Wrote(q[c], w)])
  {
    assert forall i :: 0 <= i < |ns| && i != c ==> ns[i] != req;
    req.sent, req.pending, req.totalSent := req.sent + w, req.pending + w, req.totalSent + w;
  }

  method Skip(ghost ns: seq<WriteReq>, ghost first: nat, ghost q: seq<Req>, ghost c: nat, req: WriteReq)
    requires Linked(ns, first, q) && c < |ns| && req == ns[c]
    modifies req
    ensures Linked(ns, first, q[c := NextBuf(q[c])])
  {
    assert forall i :: 0 <= i < |ns| && i != c ==> ns[i] != req;
    req.sent, req.sentBufs := 0, req.sentBufs + 1;
  }

  /** Fill in the request and hang it behind the tail. */
  method Enqueue(ghost ns: seq<WriteReq>, ghost first: nat, ghost q: seq<Req>, tail: WriteReq?, req: WriteReq,
    bufs: seq<seq<byte>>)
    requires Linked(ns, first, q) && req !in ns && tail == Last(ns)
    modifies req, ns
    ensures Linked(ns + [req], first, q + [NewReq(bufs)])
  {
    FillIn(req, bufs, first + |ns|);
    Hang(ns, first, q, tail, req);
  }

  method FillIn(req: WriteReq, bufs: seq<seq<byte>>, ghost pos: nat)
    modifies req
    ensures req.View() == NewReq(bufs) && req.next == null && req.pos == pos
  {
    req.bufs, req.sentBufs, req.sent, req.pending, req.totalSent := bufs, 0, 0, 0, 0;
    req.next, req.pos := null, pos;
    req.totalLen := TotalLen(bufs);
  }

  method Hang(ghost ns: seq<WriteReq>, ghost first: nat, ghost q: seq<Req>, tail: WriteReq?, req: WriteReq)
    requires Linked(ns, first, q) && req !in ns && tail == Last(ns) && req.next == null && req.pos == first + |ns|
    modifies ns
    ensures Linked(ns + [req], first, q + [req.View()]) && req.View() == old(req.View())
  {
    if tail != null {
      tail.next := req;
    }
  }
}
