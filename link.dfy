/** The serial link as an abstract transport, and the exchange interpreter.

    The link is a log of the bytes written, a script of what each one-byte read
    will see, and a flag that makes every write fail. A protocol exchange is a
    sequence of steps (send a frame, await an acknowledgement whose NACK has a
    meaning fixed by the call site, receive raw bytes, poll for a busy device's
    acknowledgement); `Exec` is its meaning and `Port.Execute` performs it. */
module Link {
  import opened Frames

  /** Result codes of `stm32_errors_t`. */
  datatype Status = Ok | Serial | Protocol | InvalidArgument | Rdp

  /** What one single-byte read from the link yields. */
  datatype Event = Byte(value: bv8) | ReadFail

  /** Value view of the link: bytes written so far, replies still to come,
      and whether writes fail. */
  datatype Wire = Wire(sent: seq<bv8>, replies: seq<Event>, writeFails: bool)

  /** The reply script that delivers exactly these bytes. */
  function Events(bytes: seq<bv8>): (r: seq<Event>)
    ensures |r| == |bytes| && forall i :: 0 <= i < |bytes| ==> r[i] == Byte(bytes[i])
  {
    seq(|bytes|, i requires 0 <= i < |bytes| => Byte(bytes[i]))
  }

  /** `k` failed reads in a row. */
  function Failures(k: nat): (r: seq<Event>)
    ensures |r| == k && forall i :: 0 <= i < k ==> r[i] == ReadFail
  {
    seq(k, i => ReadFail)
  }

  /** Outcome of reading from the script: success, the bytes obtained (all of
      them, or those before the failure) and the events left. */
  datatype Taken = Taken(ok: bool, bytes: seq<bv8>, rest: seq<Event>)

  /** Reading `n` bytes: one event per byte; a failed event or the end of the
      script ends the read unsuccessfully. */
  function Take(q: seq<Event>, n: nat): (t: Taken)
    ensures |t.bytes| <= n && |t.rest| <= |q|
    ensures t.ok <==> |t.bytes| == n
    ensures t.ok ==> q == Events(t.bytes) + t.rest
    decreases n
  {
    if n == 0 then Taken(true, [], q)
    else if q == [] then Taken(false, [], [])
    else match q[0]
      case ReadFail => Taken(false, [], q[1..])
      case Byte(b) =>
        var t := Take(q[1..], n - 1);
        Taken(t.ok, [b] + t.bytes, t.rest)
  }

  /** The erase busy-wait: failed reads are retried until a byte arrives.
      If the script runs out the wait ends unsuccessfully. */
  function Poll(q: seq<Event>): (t: Taken)
    ensures t.ok <==> |t.bytes| == 1
    ensures t.ok ==> |t.rest| < |q| && Byte(t.bytes[0]) in q
    ensures !t.ok ==> t.rest == [] && forall i :: 0 <= i < |q| ==> q[i] == ReadFail
  {
    if q == [] then Taken(false, [], [])
    else match q[0]
      case ReadFail => Poll(q[1..])
      case Byte(b) => Taken(true, [b], q[1..])
  }

  /** Reading exactly the scripted bytes succeeds and leaves the rest. */
  lemma {:induction false} TakeEvents(bytes: seq<bv8>, q: seq<Event>)
    ensures Take(Events(bytes) + q, |bytes|) == Taken(true, bytes, q)
  {
    if bytes != [] {
      assert (Events(bytes) + q)[1..] == Events(bytes[1..]) + q;
      TakeEvents(bytes[1..], q);
      assert [bytes[0]] + bytes[1..] == bytes;
    }
  }

  /** The busy-wait skips any number of failed reads and returns the first byte. */
  lemma {:induction false} PollSkipsFailures(k: nat, b: bv8, q: seq<Event>)
    ensures Poll(Failures(k) + [Byte(b)] + q) == Taken(true, [b], q)
  {
    if k == 0 {
      assert Failures(0) + [Byte(b)] + q == [Byte(b)] + q;
    } else {
      assert (Failures(k) + [Byte(b)] + q)[1..] == Failures(k - 1) + [Byte(b)] + q;
      PollSkipsFailures(k - 1, b, q);
    }
  }

  // ---------------------------------------------------------------------------
  // Exchanges

  datatype Step =
    | Send(frame: seq<bv8>)     // write a frame
    | Await(onNack: Status)     // read one byte: ACK continues, NACK means onNack, anything else is Protocol
    | Receive(count: nat)       // read `count` raw bytes into the result
    | AwaitBusy                 // retry reads until a byte arrives; ACK continues, anything else is Protocol
    | Reject(reason: Status)    // end without touching the link

  /** What an exchange produced: its status, the bytes received and the link after it. */
  datatype Run = Run(status: Status, data: seq<bv8>, wire: Wire)

  /** Meaning of an acknowledgement byte at a call site whose NACK means `onNack`. */
  function Classify(reply: bv8, onNack: Status): Status
  {
    if reply == Ack then Ok else if reply == Nack then onNack else Protocol
  }

  function StepOnce(s: Step, w: Wire): Run
  {
    match s
    case Send(frame) =>
      if w.writeFails then Run(Serial, [], w) else Run(Ok, [], w.(sent := w.sent + frame))
    case Await(onNack) =>
      var t := Take(w.replies, 1);
      Run(if t.ok then Classify(t.bytes[0], onNack) else Serial, [], w.(replies := t.rest))
    case Receive(n) =>
      var t := Take(w.replies, n);
      Run(if t.ok then Ok else Serial, t.bytes, w.(replies := t.rest))
    case AwaitBusy =>
      var t := Poll(w.replies);
      Run(if t.ok then Classify(t.bytes[0], Protocol) else Serial, [], w.(replies := t.rest))
    case Reject(reason) =>
      Run(reason, [], w)
  }

  /** Prefixes bytes received earlier to a run's data. */
  function Continue(earlier: seq<bv8>, r: Run): Run
  {
    r.(data := earlier + r.data)
  }

  /** Number of bytes the `Receive` steps ask for. */
  function Received(steps: seq<Step>): nat
  {
    if steps == [] then 0
    else (if steps[0].Receive? then steps[0].count else 0) + Received(steps[1..])
  }

  /** Concatenation of the frames the `Send` steps carry. */
  function SentFrames(steps: seq<Step>): seq<bv8>
  {
    if steps == [] then []
    else (if steps[0].Send? then steps[0].frame else []) + SentFrames(steps[1..])
  }

  /** Steps run in order; the first step that does not end Ok ends the exchange.
      The data is every byte received, including those of a failed read. */
  function Exec(steps: seq<Step>, w: Wire): (r: Run)
    ensures r.wire.writeFails == w.writeFails
    ensures |r.data| <= Received(steps)
    ensures r.status == Ok ==> |r.data| == Received(steps)
    decreases |steps|
  {
    if steps == [] then Run(Ok, [], w)
    else
      var r := StepOnce(steps[0], w);
      if r.status != Ok then r else Continue(r.data, Exec(steps[1..], r.wire))
  }

  // ---------------------------------------------------------------------------
  // Laws of exchanges

  lemma ExecCons(s: Step, rest: seq<Step>, w: Wire)
    ensures Exec([s] + rest, w) ==
      (var r := StepOnce(s, w); if r.status != Ok then r else Continue(r.data, Exec(rest, r.wire)))
  {
    assert ([s] + rest)[0] == s && ([s] + rest)[1..] == rest;
  }

  /** Running two exchanges back to back is running the first and, if it ended
      Ok, the second from where the first left the link. */
  lemma {:induction false} ExecAppend(a: seq<Step>, b: seq<Step>, w: Wire)
    ensures Exec(a + b, w) ==
      (var r := Exec(a, w); if r.status != Ok then r else Continue(r.data, Exec(b, r.wire)))
    decreases |a|
  {
    if a == [] {
      assert a + b == b;
    } else {
      var r := StepOnce(a[0], w);
      assert Exec(a + b, w) == (if r.status != Ok then r else Continue(r.data, Exec(a[1..] + b, r.wire))) by {
        assert a + b == [a[0]] + (a[1..] + b);
        ExecCons(a[0], a[1..] + b, w);
      }
      assert Exec(a, w) == (if r.status != Ok then r else Continue(r.data, Exec(a[1..], r.wire))) by {
        assert a == [a[0]] + a[1..];
        ExecCons(a[0], a[1..], w);
      }
      if r.status == Ok {
        ExecAppend(a[1..], b, r.wire);
        var r1 := Exec(a[1..], r.wire);
        if r1.status == Ok {
          AppendAssoc(r.data, r1.data, Exec(b, r1.wire).data);
        }
      }
    }
  }

  /** A log that extends `p + f` by a prefix of `t` extends `p` by a prefix of `f + t`. */
  lemma PrefixShift(p: seq<bv8>, f: seq<bv8>, x: seq<bv8>, t: seq<bv8>)
    requires p + f <= x && x[|p + f|..] <= t
    ensures p <= x && x[|p|..] <= f + t
  {
    assert x[..|p|] == (p + f)[..|p|] == p;
    assert x[|p|..] == f + x[|p + f|..];
  }

  /** Whatever happens, the link has only been written the leading bytes of the
      exchange's frames, in order; an exchange that ends Ok has written all its frames. */
  lemma {:induction false} ExecWritesPlanFrames(steps: seq<Step>, w: Wire)
    ensures var r := Exec(steps, w);
      w.sent <= r.wire.sent && r.wire.sent[|w.sent|..] <= SentFrames(steps) &&
      (r.status == Ok ==> r.wire.sent == w.sent + SentFrames(steps))
    decreases |steps|
  {
    if steps != [] {
      var s := StepOnce(steps[0], w);
      var f := if steps[0].Send? then steps[0].frame else [];
      assert SentFrames(steps) == f + SentFrames(steps[1..]);
      if s.status != Ok {
        assert s.wire.sent == w.sent;
        assert Exec(steps, w) == s;
        assert s.wire.sent[|w.sent|..] == [];
      } else {
        assert s.wire.sent == w.sent + f;
        ExecWritesPlanFrames(steps[1..], s.wire);
        var r := Exec(steps[1..], s.wire);
        assert Exec(steps, w).wire == r.wire && Exec(steps, w).status == r.status;
        PrefixShift(w.sent, f, r.wire.sent, SentFrames(steps[1..]));
        AppendAssoc(w.sent, f, SentFrames(steps[1..]));
      }
    }
  }

  /** The reply script that completes an exchange: an ACK for every awaited
      acknowledgement and the given bytes for every `Receive`. */
  function AckScript(steps: seq<Step>, data: seq<bv8>): seq<Event>
    requires Received(steps) == |data|
  {
    if steps == [] then []
    else match steps[0]
      case Await(_) => [Byte(Ack)] + AckScript(steps[1..], data)
      case AwaitBusy => [Byte(Ack)] + AckScript(steps[1..], data)
      case Receive(n) => Events(data[..n]) + AckScript(steps[1..], data[n..])
      case _ => AckScript(steps[1..], data)
  }

  predicate NoReject(steps: seq<Step>)
  {
    forall i :: 0 <= i < |steps| ==> !steps[i].Reject?
  }

  lemma AppendAssoc<T>(a: seq<T>, b: seq<T>, c: seq<T>)
    ensures a + b + c == a + (b + c)
  {
  }

  lemma SentFramesCons(s: Step, rest: seq<Step>)
    ensures SentFrames([s] + rest) == (if s.Send? then s.frame else []) + SentFrames(rest)
  {
    assert ([s] + rest)[0] == s && ([s] + rest)[1..] == rest;
  }

  lemma ReceivedCons(s: Step, rest: seq<Step>)
    ensures Received([s] + rest) == (if s.Receive? then s.count else 0) + Received(rest)
  {
    assert ([s] + rest)[0] == s && ([s] + rest)[1..] == rest;
  }

  /** On a working link whose device acknowledges everything, an exchange without
      a `Reject` ends Ok, writes exactly its frames and returns the scripted bytes. */
  lemma {:induction false} ExecCompletes(steps: seq<Step>, data: seq<bv8>, w: Wire, q: seq<Event>)
    requires NoReject(steps) && !w.writeFails && Received(steps) == |data|
    requires w.replies == AckScript(steps, data) + q
    ensures Exec(steps, w) == Run(Ok, data, Wire(w.sent + SentFrames(steps), q, false))
    decreases |steps|
  {
    if steps != [] {
      var s, rest := steps[0], steps[1..];
      assert NoReject(rest) by {
        forall i | 0 <= i < |rest| ensures !rest[i].Reject? { assert rest[i] == steps[i + 1]; }
      }
      assert !s.Reject? by { assert NoReject(steps); }
      assert steps == [s] + rest;
      ReceivedCons(s, rest);
      var n := if s.Receive? then s.count else 0;
      var w' := StepOnce(s, w).wire;
      CompletesHead(s, rest, data, w, q);
      ExecCompletes(rest, data[n..], w', q);
      CompletesTail(s, rest, data, w, q);
    }
  }

  /** The first step of an acknowledged exchange succeeds and leaves the script
      for the rest. */
  lemma CompletesHead(s: Step, rest: seq<Step>, data: seq<bv8>, w: Wire, q: seq<Event>)
    requires !s.Reject? && !w.writeFails && Received([s] + rest) == |data|
    requires w.replies == AckScript([s] + rest, data) + q
    ensures var n := if s.Receive? then s.count else 0;
      n <= |data| && Received(rest) == |data[n..]| &&
      StepOnce(s, w) == Run(Ok, data[..n], Wire(w.sent + (if s.Send? then s.frame else []),
                                               AckScript(rest, data[n..]) + q, false))
  {
    ReceivedCons(s, rest);
    assert ([s] + rest)[0] == s && ([s] + rest)[1..] == rest;
    match s
    case Send(f) =>
      assert w.replies == AckScript(rest, data) + q;
    case Await(_) =>
      AppendAssoc([Byte(Ack)], AckScript(rest, data), q);
      TakeEvents([Ack], AckScript(rest, data) + q);
      assert Events([Ack]) == [Byte(Ack)];
    case AwaitBusy =>
      AppendAssoc([Byte(Ack)], AckScript(rest, data), q);
      PollSkipsFailures(0, Ack, AckScript(rest, data) + q);
      assert Failures(0) + [Byte(Ack)] == [Byte(Ack)];
    case Receive(n) =>
      AppendAssoc(Events(data[..n]), AckScript(rest, data[n..]), q);
      TakeEvents(data[..n], AckScript(rest, data[n..]) + q);
  }

  /** An acknowledged first step followed by a completed rest completes the whole. */
  lemma CompletesTail(s: Step, rest: seq<Step>, data: seq<bv8>, w: Wire, q: seq<Event>)
    requires var n := if s.Receive? then s.count else 0;
      n <= |data| && Received(rest) == |data| - n &&
      StepOnce(s, w) == Run(Ok, data[..n], Wire(w.sent + (if s.Send? then s.frame else []),
                                               AckScript(rest, data[n..]) + q, false)) &&
      Exec(rest, StepOnce(s, w).wire) == Run(Ok, data[n..], Wire(StepOnce(s, w).wire.sent + SentFrames(rest), q, false))
    ensures Exec([s] + rest, w) == Run(Ok, data, Wire(w.sent + SentFrames([s] + rest), q, false))
  {
    var n := if s.Receive? then s.count else 0;
    ExecCons(s, rest, w);
    SentFramesCons(s, rest);
    AppendAssoc(w.sent, if s.Send? then s.frame else [], SentFrames(rest));
    assert data[..n] + data[n..] == data;
  }

  // ---------------------------------------------------------------------------
  // Acknowledged frames

  /** Sends a frame and awaits its acknowledgement, then goes on with `rest`. */
  function Then(frame: seq<bv8>, onNack: Status, rest: seq<Step>): (r: seq<Step>)
    ensures |r| == |rest| + 2 && r[0] == Send(frame) && r[1] == Await(onNack) && r[2..] == rest
  {
    [Send(frame), Await(onNack)] + rest
  }

  /** An exchange that is refused before it starts leaves the link alone. */
  lemma RejectOnly(reason: Status, w: Wire)
    ensures Exec([Reject(reason)], w) == Run(reason, [], w)
  {
    ExecCons(Reject(reason), [], w);
    assert [Reject(reason)] + [] == [Reject(reason)];
  }

  /** An acknowledged frame adds its bytes to the frames and nothing to the
      bytes received. */
  lemma ThenCounts(f: seq<bv8>, m: Status, rest: seq<Step>)
    ensures Received(Then(f, m, rest)) == Received(rest)
    ensures SentFrames(Then(f, m, rest)) == f + SentFrames(rest)
  {
    var s := Then(f, m, rest);
    assert s == [Send(f)] + ([Await(m)] + rest);
    ReceivedCons(Send(f), [Await(m)] + rest);
    ReceivedCons(Await(m), rest);
    SentFramesCons(Send(f), [Await(m)] + rest);
    SentFramesCons(Await(m), rest);
    assert [] + SentFrames(rest) == SentFrames(rest);
  }

  /** Everything that can happen to a frame and its acknowledgement: a failed
      write ends Serial before anything is written; otherwise the frame goes
      out and one byte is read; a failed read is Serial, ACK goes on, NACK is
      the call site's status and any other byte is Protocol. */
  lemma ExecThen(f: seq<bv8>, m: Status, rest: seq<Step>, w: Wire)
    requires m != Ok
    ensures Exec(Then(f, m, rest), w) ==
      if w.writeFails then Run(Serial, [], w)
      else if w.replies == [] then Run(Serial, [], Wire(w.sent + f, [], false))
      else match w.replies[0]
        case ReadFail => Run(Serial, [], Wire(w.sent + f, w.replies[1..], false))
        case Byte(b) =>
          if b == Ack then Exec(rest, Wire(w.sent + f, w.replies[1..], false))
          else Run(Classify(b, m), [], Wire(w.sent + f, w.replies[1..], false))
  {
    var s := Then(f, m, rest);
    assert s == [Send(f)] + ([Await(m)] + rest);
    if w.writeFails {
      ExecCons(Send(f), [Await(m)] + rest, w);
    } else {
      var w1 := w.(sent := w.sent + f);
      assert Exec(s, w) == Exec([Await(m)] + rest, w1) by {
        ExecCons(Send(f), [Await(m)] + rest, w);
      }
      AwaitStep(m, rest, w1);
    }
  }

  lemma AwaitStep(m: Status, rest: seq<Step>, w: Wire)
    requires m != Ok
    ensures Exec([Await(m)] + rest, w) ==
      if w.replies == [] then Run(Serial, [], w.(replies := []))
      else match w.replies[0]
        case ReadFail => Run(Serial, [], w.(replies := w.replies[1..]))
        case Byte(b) =>
          if b == Ack then Exec(rest, w.(replies := w.replies[1..]))
          else Run(Classify(b, m), [], w.(replies := w.replies[1..]))
  {
    ExecCons(Await(m), rest, w);
    if w.replies != [] && w.replies[0].Byte? {
      assert Take(w.replies, 1) == Taken(true, [w.replies[0].value], w.replies[1..]);
      var r := Exec(rest, w.(replies := w.replies[1..]));
      assert [] + r.data == r.data;
    }
  }

  /** An acknowledged frame is written and the exchange goes on. */
  lemma ThenAck(f: seq<bv8>, m: Status, rest: seq<Step>, w: Wire, q: seq<Event>)
    requires !w.writeFails && w.replies == [Byte(Ack)] + q && m != Ok
    ensures Exec(Then(f, m, rest), w) == Exec(rest, Wire(w.sent + f, q, false))
  {
    ExecThen(f, m, rest, w);
    assert w.replies[1..] == q;
  }

  /** A frame answered by anything but ACK ends the exchange: NACK with the call
      site's status, any other byte with Protocol. */
  lemma ThenRefused(f: seq<bv8>, m: Status, rest: seq<Step>, w: Wire, b: bv8, q: seq<Event>)
    requires !w.writeFails && w.replies == [Byte(b)] + q && b != Ack && m != Ok
    ensures Exec(Then(f, m, rest), w) ==
      Run(if b == Nack then m else Protocol, [], Wire(w.sent + f, q, false))
  {
    ExecThen(f, m, rest, w);
    assert w.replies[1..] == q;
  }

  /** Receiving scripted bytes and going on. */
  lemma ReceiveThen(d: seq<bv8>, rest: seq<Step>, w: Wire, q: seq<Event>)
    requires w.replies == Events(d) + q
    ensures Exec([Receive(|d|)] + rest, w) == Continue(d, Exec(rest, w.(replies := q)))
  {
    TakeEvents(d, q);
    ExecCons(Receive(|d|), rest, w);
  }

  /** Receiving a single scripted byte and going on. */
  lemma ReceiveByte(b: bv8, rest: seq<Step>, w: Wire, q: seq<Event>)
    requires w.replies == [Byte(b)] + q
    ensures Exec([Receive(1)] + rest, w) == Continue([b], Exec(rest, w.(replies := q)))
  {
    assert Events([b]) == [Byte(b)];
    ReceiveThen([b], rest, w, q);
  }

  /** Receiving the last bytes of an exchange. */
  lemma ReceiveLast(d: seq<bv8>, w: Wire, q: seq<Event>)
    requires w.replies == Events(d) + q
    ensures Exec([Receive(|d|)], w) == Run(Ok, d, w.(replies := q))
  {
    ReceiveThen(d, [], w, q);
    assert [Receive(|d|)] + [] == [Receive(|d|)];
    assert d + [] == d;
  }

  /** The closing acknowledgement of an exchange. */
  lemma AwaitLast(m: Status, w: Wire, b: bv8, q: seq<Event>)
    requires w.replies == [Byte(b)] + q
    ensures Exec([Await(m)], w) == Run(Classify(b, m), [], w.(replies := q))
  {
    ExecCons(Await(m), [], w);
    assert [Await(m)] + [] == [Await(m)];
    assert w.replies[1..] == q;
  }

  /** A frame whose acknowledgement is polled for: failed reads before the
      reply are skipped; ACK is Ok and any other byte Protocol. */
  lemma SendBusyReply(f: seq<bv8>, w: Wire, k: nat, b: bv8, q: seq<Event>)
    requires !w.writeFails && w.replies == Failures(k) + [Byte(b)] + q
    ensures Exec([Send(f), AwaitBusy], w) ==
      Run(if b == Ack then Ok else Protocol, [], Wire(w.sent + f, q, false))
  {
    var s := [Send(f), AwaitBusy];
    assert s == [Send(f)] + [AwaitBusy] && [AwaitBusy] == [AwaitBusy] + [];
    ExecCons(Send(f), [AwaitBusy], w);
    ExecCons(AwaitBusy, [], w.(sent := w.sent + f));
    PollSkipsFailures(k, b, q);
  }

  // ---------------------------------------------------------------------------
  // The transport

  /** A serial link scripted for one session. */
  class Port {
    var sent: seq<bv8>
    var replies: seq<Event>
    var writeFails: bool

    function State(): Wire
      reads this
    {
      Wire(sent, replies, writeFails)
    }

    constructor (script: seq<Event>, failWrites: bool)
      ensures State() == Wire([], script, failWrites)
    {
      sent, replies, writeFails := [], script, failWrites;
    }

    /** Writes a whole frame, or nothing if the link fails writes. */
    method Write(frame: seq<bv8>) returns (ok: bool)
      modifies this
      ensures ok == !old(writeFails)
      ensures State() == if ok then old(State()).(sent := old(sent) + frame) else old(State())
    {
      ok := !writeFails;
      if ok {
        sent := sent + frame;
      }
    }

    /** Reads `n` bytes one at a time, stopping at the first failed read. */
    method Read(n: nat) returns (ok: bool, bytes: seq<bv8>)
      modifies this
      ensures Taken(ok, bytes, replies) == Take(old(replies), n)
      ensures sent == old(sent) && writeFails == old(writeFails)
    {
      bytes := [];
      var i := 0;
      while i < n
        invariant 0 <= i <= n && |bytes| == i
        invariant sent == old(sent) && writeFails == old(writeFails)
        invariant Take(old(replies), n) == (var t := Take(replies, n - i); Taken(t.ok, bytes + t.bytes, t.rest))
      {
        if replies == [] {
          return false, bytes;
        }
        match replies[0]
        case ReadFail =>
          replies := replies[1..];
          return false, bytes;
        case Byte(b) =>
          assert bytes + ([b] + Take(replies[1..], n - i - 1).bytes) == (bytes + [b]) + Take(replies[1..], n - i - 1).bytes;
          bytes := bytes + [b];
          replies := replies[1..];
          i := i + 1;
      }
      ok := true;
      assert bytes + [] == bytes;
    }

    /** Retries one-byte reads until one succeeds (or the script runs out). */
    method PollByte() returns (ok: bool, b: bv8)
      modifies this
      ensures var t := Poll(old(replies)); ok == t.ok && replies == t.rest && (ok ==> t.bytes == [b])
      ensures sent == old(sent) && writeFails == old(writeFails)
    {
      while replies != [] && replies[0] == ReadFail
        invariant Poll(replies) == Poll(old(replies))
        invariant sent == old(sent) && writeFails == old(writeFails)
        decreases |replies|
      {
        replies := replies[1..];
      }
      if replies == [] {
        return false, 0;
      }
      ok, b := true, replies[0].value;
      replies := replies[1..];
    }

    /** Performs one step of an exchange. */
    method Perform(s: Step) returns (status: Status, data: seq<bv8>)
      modifies this
      ensures Run(status, data, State()) == StepOnce(s, old(State()))
    {
      data := [];
      match s
      case Send(frame) =>
        var ok := Write(frame);
        status := if ok then Ok else Serial;
      case Await(onNack) =>
        var ok, reply := Read(1);
        status := if ok then Classify(reply[0], onNack) else Serial;
      case Receive(n) =>
        var ok;
        ok, data := Read(n);
        status := if ok then Ok else Serial;
      case AwaitBusy =>
        var ok, reply := PollByte();
        status := if ok then Classify(reply, Protocol) else Serial;
      case Reject(reason) =>
        status := reason;
    }

    /** Performs the steps of an exchange in order until one does not end Ok. */
    method Execute(steps: seq<Step>) returns (status: Status, data: seq<bv8>)
      modifies this
      ensures Run(status, data, State()) == Exec(steps, old(State()))
    {
      data := [];
      var i := 0;
      while i < |steps|
        invariant 0 <= i <= |steps|
        invariant Exec(steps, old(State())) == Continue(data, Exec(steps[i..], State()))
      {
        ghost var before := State();
        var s, d := Perform(steps[i]);
        ExecCons(steps[i], steps[i + 1..], before);
        assert steps[i..] == [steps[i]] + steps[i + 1..];
        if s != Ok {
          return s, data + d;
        }
        assert data + (d + Exec(steps[i + 1..], State()).data) == (data + d) + Exec(steps[i + 1..], State()).data;
        data := data + d;
        i := i + 1;
      }
      status := Ok;
      assert data + [] == data;
    }
  }
}
