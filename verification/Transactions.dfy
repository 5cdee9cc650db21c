/**
 Transaction ids over TCP.  The client numbers its requests with a 16-bit counter and refuses any
 confirmation that carries another number, so an answer that arrives late is not taken for a newer one
 until the counter has come full circle.
 */
module Transactions {
  import opened Bytes
  import opened Crc
  import opened Protocol
  import opened Receiver
  import opened ClientModel
  import opened EndToEnd
  import opened Runs

  const CYCLE := 0x1_0000

  /** The counter after `k` requests. */
  function Counter(k: nat): word {
    if k == 0 then 0 else NextTid(Counter(k - 1))
  }

  lemma NextModular(k: nat)
    ensures (k + 1) % CYCLE == if k % CYCLE == CYCLE - 1 then 0 else k % CYCLE + 1
  {
    var q, m := k / CYCLE, k % CYCLE;
    assert k + 1 == q * CYCLE + (m + 1);
  }

  lemma {:induction false} CounterIsModular(k: nat)
    ensures Counter(k) == k % CYCLE
    decreases k
  {
    if k > 0 {
      CounterIsModular(k - 1);
      NextModular(k - 1);
    }
  }

  /** The transaction id of request number `k`, counted from zero. */
  function TidOfRequest(k: nat): word {
    Counter(k + 1)
  }

  predicate SameTid(j: nat, k: nat) {
    j % CYCLE == k % CYCLE
  }

  lemma TidsAgreeIff(j: nat, k: nat)
    ensures TidOfRequest(j) == TidOfRequest(k) <==> SameTid(j, k)
  {
    hide Counter;
    CounterIsModular(j + 1);
    CounterIsModular(k + 1);
    NextModular(j);
    NextModular(k);
  }

  /** An answer to an earlier request among the last 65535 has another transaction id. */
  lemma RecentTidsDiffer(j: nat, k: nat)
    requires j < k < j + CYCLE
    ensures !SameTid(j, k)
  {
  }

  // ----- answers that arrive late

  /** A message on the stream: the answer `rsp` to request number `index`. */
  datatype Delivery = Delivery(index: nat, rsp: seq<byte>)

  predicate Deliverable(d: Delivery) {
    2 <= |d.rsp| <= 252 && Complete(Confirmation, d.rsp)
  }

  predicate AllDeliverable(ds: seq<Delivery>) {
    forall d :: d in ds ==> Deliverable(d)
  }

  function Wire(slave: byte, ds: seq<Delivery>): seq<byte>
    requires AllDeliverable(ds)
  {
    if ds == [] then []
    else
      assert Deliverable(ds[0]);
      Frame(Tcp, TidOfRequest(ds[0].index), slave, ds[0].rsp) + Wire(slave, ds[1..])
  }

  /**
   Calls number `k`, `k + 1`, ... of a client.  Before its own read ends, call `k + i` finds the bytes `arrivals[i]`
   added to what earlier calls have left on the stream.
   */
  function ClientRun(k: nat, slave: byte, rs: seq<Request>, down: seq<byte>, arrivals: seq<seq<byte>>):
    seq<Result<Outcome>>
    requires |arrivals| == |rs| && forall r :: r in rs ==> !TooMany(r)
    decreases |rs|
  {
    if rs == [] then []
    else
      RequestIsComplete(rs[0]);
      FrameParts(Tcp, TidOfRequest(k), slave, RequestPdu(rs[0]));
      var req := RequestFrame(Tcp, TidOfRequest(k), slave, rs[0]);
      var stream := down + arrivals[0];
      [ClientResult(Tcp, rs[0], req, stream)] +
      ClientRun(k + 1, slave, rs[1..], stream[Receive(Tcp, Confirmation, stream).taken..], arrivals[1..])
  }

  /** The outcome of call `k` when the message it takes is `d`: that answer if the ids agree, else an error. */
  function Expected(k: nat, r: Request, d: Delivery): Result<Outcome>
    requires !TooMany(r) && Deliverable(d)
  {
    if SameTid(d.index, k) then Interpret(r, d.rsp) else Err(BadData)
  }

  lemma OneCall(k: nat, slave: byte, r: Request, d: Delivery, rest: seq<byte>)
    requires !TooMany(r) && Deliverable(d)
    ensures var f := Frame(Tcp, TidOfRequest(d.index), slave, d.rsp);
            var req := RequestFrame(Tcp, TidOfRequest(k), slave, r);
            && Receive(Tcp, Confirmation, f + rest).taken == |f|
            && Tcp.HeaderLength() <= |req|
            && ClientResult(Tcp, r, req, f + rest) == Expected(k, r, d)
  {
    hide Crc16, RequestPdu, Interpret, Complete, CheckIntegrity, SameTid, TidOfRequest;
    var f := Frame(Tcp, TidOfRequest(d.index), slave, d.rsp);
    RequestIsComplete(r);
    FrameParts(Tcp, TidOfRequest(k), slave, RequestPdu(r));
    FrameParts(Tcp, TidOfRequest(d.index), slave, d.rsp);
    FrameIsReceived(Tcp, Confirmation, TidOfRequest(d.index), slave, d.rsp, rest);
    TidsAgreeIff(d.index, k);
    HiLoDetermine(TidOfRequest(d.index), TidOfRequest(k));
  }

  lemma HiLoDetermine(x: word, y: word)
    ensures x == y <==> Hi(x) == Hi(y) && Lo(x) == Lo(y)
  {
    WordOfHiLo(x);
    WordOfHiLo(y);
  }

  /** A call that times out. */
  lemma NoMessage(k: nat, slave: byte, r: Request, stream: seq<byte>)
    requires !TooMany(r) && Receive(Tcp, Confirmation, stream).result == Err(NoAnswer)
    ensures var req := RequestFrame(Tcp, TidOfRequest(k), slave, r);
            && Tcp.HeaderLength() <= |req|
            && ClientResult(Tcp, r, req, stream) == Err(NoAnswer)
  {
    hide RequestPdu, Complete, Receive;
    RequestIsComplete(r);
    FrameParts(Tcp, TidOfRequest(k), slave, RequestPdu(r));
  }

  lemma NothingIsReceived()
    ensures Receive(Tcp, Confirmation, []) == Reception(Err(NoAnswer), 0)
  {
  }

  // ----- how far a run has come

  /** Of the messages on their way to a client, those taken, and the bytes that have arrived of the others. */
  datatype Progress = Progress(taken: nat, bytes: nat)

  function FrameSize(d: Delivery): nat {
    7 + |d.rsp|
  }

  /** The next message has arrived to its last byte. */
  predicate Whole(ds: seq<Delivery>, p: Progress) {
    p.taken < |ds| && FrameSize(ds[p.taken]) <= p.bytes
  }

  /** The next message has arrived in part. */
  predicate Cut(ds: seq<Delivery>, p: Progress) {
    !Whole(ds, p) && 0 < p.bytes
  }

  /** A call takes a message that is there whole; otherwise it waits until its timeout, and takes what there is. */
  function Advance(ds: seq<Delivery>, p: Progress): Progress {
    if Whole(ds, p) then Progress(p.taken + 1, p.bytes - FrameSize(ds[p.taken])) else Progress(p.taken, 0)
  }

  /** When call number `i` of a run reads.  At first there are `down` bytes. */
  function At(ds: seq<Delivery>, down: nat, arrivals: seq<seq<byte>>, i: nat): Progress
    requires i < |arrivals|
  {
    var p := if i == 0 then Progress(0, down) else Advance(ds, At(ds, down, arrivals, i - 1));
    Progress(p.taken, p.bytes + |arrivals[i]|)
  }

  /** What a later call finds is what the calls up to then have left, and what has arrived since. */
  lemma {:induction false} ProgressShifts(ds: seq<Delivery>, down: nat, arrivals: seq<seq<byte>>, i: nat)
    requires i + 1 < |arrivals|
    ensures var p := Advance(ds, At(ds, down, arrivals, 0));
            && p.taken <= |ds|
            && var q := At(ds[p.taken..], p.bytes, arrivals[1..], i);
               At(ds, down, arrivals, i + 1) == Progress(p.taken + q.taken, q.bytes)
    decreases i
  {
    if i > 0 {
      ProgressShifts(ds, down, arrivals, i - 1);
    }
  }

  /** The outcome of call `k`: that of the next message if it is there whole, else a timeout. */
  function Taken(k: nat, r: Request, ds: seq<Delivery>, p: Progress): Result<Outcome>
    requires !TooMany(r) && AllDeliverable(ds)
  {
    if Whole(ds, p) then
      assert ds[p.taken] in ds;
      Expected(k, r, ds[p.taken])
    else Err(NoAnswer)
  }

  lemma PrefixParts(a: seq<byte>, b: seq<byte>, s: seq<byte>, more: seq<byte>)
    requires s + more <= a + b
    ensures |a| <= |s| ==> s == a + s[|a|..] && s[|a|..] + more <= b
    ensures |s| <= |a| ==> s == a[..|s|]
  {
    assert s + more == (a + b)[..|s + more|];
    assert s == (a + b)[..|s|];
    if |a| <= |s| {
      assert s[|a|..] + more == (a + b)[..|s + more|][|a|..];
    }
  }

  /** One call, on the bytes that have arrived of the messages `ds`; `more` will come later. */
  lemma NextCall(k: nat, slave: byte, r: Request, ds: seq<Delivery>, stream: seq<byte>, more: seq<byte>)
    requires !TooMany(r) && AllDeliverable(ds) && stream + more <= Wire(slave, ds)
    ensures var p := Progress(0, |stream|); var q := Advance(ds, p);
            var left := stream[Receive(Tcp, Confirmation, stream).taken..];
            var req := RequestFrame(Tcp, TidOfRequest(k), slave, r);
            && Tcp.HeaderLength() <= |req|
            && ClientResult(Tcp, r, req, stream) == Taken(k, r, ds, p)
            && q.taken <= |ds| && AllDeliverable(ds[q.taken..]) && |left| == q.bytes
            && (!Cut(ds, p) ==> left + more <= Wire(slave, ds[q.taken..]))
  {
    hide Expected, ClientResult, Receive, RequestPdu, Frame, TooMany, Complete, CheckIntegrity;
    if ds != [] {
      var d := ds[0];
      assert d in ds;
      var f, rest := Frame(Tcp, TidOfRequest(d.index), slave, d.rsp), Wire(slave, ds[1..]);
      FrameParts(Tcp, TidOfRequest(d.index), slave, d.rsp);
      PrefixParts(f, rest, stream, more);
      if |f| <= |stream| {
        OneCall(k, slave, r, d, stream[|f|..]);
      } else {
        CutIsNotReceived(Tcp, Confirmation, f, |stream|);
        NoMessage(k, slave, r, stream);
        assert ds[0..] == ds;
      }
    } else {
      NothingIsReceived();
      NoMessage(k, slave, r, stream);
    }
  }

  /**
   Every run, whenever answers arrive, and in whatever parts, up to the first call that has to make do with a part of
   one.  A call that finds nothing times out, and its own answer, arriving later, waits for a later call.  Call `k + i`
   reads the first message on the stream as its answer if and only if that was built for a request whose number is
   congruent to its own modulo 65536, and refuses it otherwise; it times out if only a part is there.
   */
  lemma {:induction false} LateAnswers(k: nat, slave: byte, rs: seq<Request>, ds: seq<Delivery>,
                                       down: seq<byte>, arrivals: seq<seq<byte>>, i: nat)
    requires |arrivals| == |rs| && i < |rs|
    requires AllDeliverable(ds) && down + Concat(arrivals) <= Wire(slave, ds)
    requires forall r :: r in rs ==> !TooMany(r)
    requires forall j :: 0 <= j < i ==> !Cut(ds, At(ds, |down|, arrivals, j))
    ensures rs[i] in rs
    ensures var results := ClientRun(k, slave, rs, down, arrivals);
            |results| == |rs| && results[i] == Taken(k + i, rs[i], ds, At(ds, |down|, arrivals, i))
    decreases |rs|
  {
    hide Taken, ClientResult, Receive, AllDeliverable, RequestPdu, Wire, TooMany, Whole, Cut, Advance;
    var stream, later := down + arrivals[0], Concat(arrivals[1..]);
    assert stream + later == down + Concat(arrivals);
    var p := At(ds, |down|, arrivals, 0);
    var q := Advance(ds, p);
    NextCall(k, slave, rs[0], ds, stream, later);
    var left := stream[Receive(Tcp, Confirmation, stream).taken..];
    RunLength(k + 1, slave, rs[1..], left, arrivals[1..]);
    if i > 0 {
      var ds' := ds[q.taken..];
      forall j: nat | j < i
        ensures Cut(ds, At(ds, |down|, arrivals, j + 1)) == Cut(ds', At(ds', |left|, arrivals[1..], j))
      {
        Shifted(ds, |down|, arrivals, j);
      }
      LateAnswers(k + 1, slave, rs[1..], ds', left, arrivals[1..], i - 1);
      Shifted(ds, |down|, arrivals, i - 1);
      SameTaken(k + i, rs[i], ds, ds', At(ds, |down|, arrivals, i), At(ds', |left|, arrivals[1..], i - 1));
    }
  }

  /** What a call makes of the messages is the same, seen from the start of the run or from its second call. */
  lemma Shifted(ds: seq<Delivery>, down: nat, arrivals: seq<seq<byte>>, i: nat)
    requires i + 1 < |arrivals|
    ensures var p := Advance(ds, At(ds, down, arrivals, 0));
            && p.taken <= |ds|
            && var later, shifted := At(ds, down, arrivals, i + 1), At(ds[p.taken..], p.bytes, arrivals[1..], i);
               && later.bytes == shifted.bytes && later.taken == p.taken + shifted.taken
               && (Whole(ds, later) <==> Whole(ds[p.taken..], shifted))
               && (Cut(ds, later) <==> Cut(ds[p.taken..], shifted))
               && (Whole(ds, later) ==> ds[later.taken] == ds[p.taken..][shifted.taken])
  {
    hide At, Advance, FrameSize;
    ProgressShifts(ds, down, arrivals, i);
  }

  lemma SameTaken(k: nat, r: Request, ds: seq<Delivery>, ds': seq<Delivery>, p: Progress, p': Progress)
    requires !TooMany(r) && AllDeliverable(ds) && AllDeliverable(ds')
    requires Whole(ds, p) <==> Whole(ds', p')
    requires Whole(ds, p) ==> ds[p.taken] == ds'[p'.taken]
    ensures Taken(k, r, ds, p) == Taken(k, r, ds', p')
  {
    hide Expected, TooMany, Deliverable;
  }

  lemma {:induction false} RunLength(k: nat, slave: byte, rs: seq<Request>, down: seq<byte>, arrivals: seq<seq<byte>>)
    requires |arrivals| == |rs| && forall r :: r in rs ==> !TooMany(r)
    ensures |ClientRun(k, slave, rs, down, arrivals)| == |rs|
    decreases |rs|
  {
    hide ClientResult, Receive, RequestPdu, TooMany;
    if rs != [] {
      var stream := down + arrivals[0];
      RunLength(k + 1, slave, rs[1..], stream[Receive(Tcp, Confirmation, stream).taken..], arrivals[1..]);
    }
  }
}
