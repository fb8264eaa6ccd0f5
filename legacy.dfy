/** The older command engine of `trunk/src/stm32.c`. Reads and writes of any
    length are cut into blocks of at most 256 bytes, each a complete
    single-block exchange that re-sends the command; the get and get-id
    replies are checked against the caller's buffer size; and the extended
    erase takes an 8-bit page list. */
module Legacy {
  import opened Frames
  import opened Link
  import Stm32

  /** READ_BLOCK_SIZE and WRITE_BLOCK_SIZE. */
  const BlockSize: nat := 0x100

  /** A sum computed in a `uint32_t`. */
  function Add32(a: u32, b: nat): u32
  {
    (a as int + b) % 0x1_0000_0000
  }

  // ---------------------------------------------------------------------------
  // Blocks

  /** One block of a transfer: its device address, its offset in the caller's
      data and its length. */
  datatype Chunk = Chunk(address: u32, offset: nat, size: nat)

  /** The length of the block that starts `done` bytes into a transfer of
      `total` bytes. */
  function BlockAt(total: nat, done: nat): nat
    requires done < total
  {
    if total - done >= BlockSize then BlockSize else total - done
  }

  /** The blocks the transfer loop goes through once `done` bytes are behind it. */
  function Chunks(start: u32, total: nat, done: nat): (cs: seq<Chunk>)
    requires done <= total
    ensures forall i :: 0 <= i < |cs| ==>
      1 <= cs[i].size <= BlockSize && done <= cs[i].offset && cs[i].offset + cs[i].size <= total
    decreases total - done
  {
    if done == total then []
    else
      var b := BlockAt(total, done);
      [Chunk(Add32(start, done), done, b)] + Chunks(start, total, done + b)
  }

  /** Sum of the block lengths. */
  function Sizes(cs: seq<Chunk>): nat
  {
    if cs == [] then 0 else cs[0].size + Sizes(cs[1..])
  }

  predicate Blocks(cs: seq<Chunk>, total: nat)
  {
    forall i :: 0 <= i < |cs| ==> 1 <= cs[i].size <= BlockSize && cs[i].offset + cs[i].size <= total
  }

  /** Block k starts k * 256 bytes into the transfer, at the device address
      `start + 256 * k` taken modulo 2^32, and is 256 bytes long except the
      last; there are just enough blocks to cover the transfer. */
  lemma {:induction false} ChunksLayout(start: u32, total: nat, done: nat)
    requires done <= total
    ensures var cs := Chunks(start, total, done);
      total - done <= 0x100 * |cs| < total - done + 0x100 &&
      forall i :: 0 <= i < |cs| ==>
        done + 0x100 * i < total &&
        cs[i] == Chunk(Add32(start, done + 0x100 * i), done + 0x100 * i, BlockAt(total, done + 0x100 * i))
    decreases total - done
  {
    if done < total {
      ChunksLayout(start, total, done + BlockAt(total, done));
      ChunksStep(start, total, done);
      if BlockAt(total, done) < 0x100 {
        assert Chunks(start, total, done + BlockAt(total, done)) == [];
      } else {
        ChunksAfterFull(start, total, done, Chunks(start, total, done), Chunks(start, total, done + 0x100));
      }
    }
  }

  /** After a full first block, chunk i of the whole is chunk i - 1 of the rest. */
  lemma ChunksAfterFull(start: u32, total: nat, done: nat, cs: seq<Chunk>, rest: seq<Chunk>)
    requires done + 0x100 <= total && |cs| == |rest| + 1 && cs[1..] == rest
    requires forall i :: 0 <= i < |rest| ==>
      done + 0x100 + 0x100 * i < total &&
      rest[i] == Chunk(Add32(start, done + 0x100 + 0x100 * i), done + 0x100 + 0x100 * i, BlockAt(total, done + 0x100 + 0x100 * i))
    ensures forall i :: 1 <= i < |cs| ==>
      done + 0x100 * i < total &&
      cs[i] == Chunk(Add32(start, done + 0x100 * i), done + 0x100 * i, BlockAt(total, done + 0x100 * i))
  {
    forall i | 1 <= i < |cs|
      ensures done + 0x100 * i < total
      ensures cs[i] == Chunk(Add32(start, done + 0x100 * i), done + 0x100 * i, BlockAt(total, done + 0x100 * i))
    {
      assert cs[i] == rest[i - 1];
      assert done + 0x100 + 0x100 * (i - 1) == done + 0x100 * i;
    }
  }

  /** The block lengths add up to exactly what is left of the transfer. */
  lemma {:induction false} ChunksCover(start: u32, total: nat, done: nat)
    requires done <= total
    ensures Sizes(Chunks(start, total, done)) == total - done
    decreases total - done
  {
    if done < total {
      var b := BlockAt(total, done);
      var cs := Chunks(start, total, done);
      assert cs[1..] == Chunks(start, total, done + b);
      ChunksCover(start, total, done + b);
    }
  }

  /** The transfer loop's next block, and the blocks after it. */
  lemma ChunksStep(start: u32, total: nat, done: nat)
    requires done < total
    ensures var b := BlockAt(total, done); var cs := Chunks(start, total, done);
      cs[0] == Chunk(Add32(start, done), done, b) && cs[1..] == Chunks(start, total, done + b)
  {
  }

  lemma ModuloFour(x: nat, k: nat)
    ensures (x + 0x100 * k) % 0x1_0000_0000 % 4 == x % 4
  {
    var y := x + 0x100 * k;
    var q := y / 0x1_0000_0000;
    assert y == 0x1_0000_0000 * q + y % 0x1_0000_0000;
    assert y % 0x1_0000_0000 == 4 * (0x4000_0000 * (-q) + 0x40 * k) + x;
  }

  /** A word-aligned start keeps every block's address word-aligned, and an
      unaligned one leaves every block unaligned. */
  lemma AlignmentCarries(start: u32, total: nat)
    ensures forall c :: c in Chunks(start, total, 0) ==> c.address % 4 == start % 4
  {
    ChunksLayout(start, total, 0);
    var cs := Chunks(start, total, 0);
    forall c | c in cs
      ensures c.address % 4 == start % 4
    {
      var i :| 0 <= i < |cs| && cs[i] == c;
      ModuloFour(start as nat, i);
    }
  }

  // ---------------------------------------------------------------------------
  // Read

  /** Each block of `stm32_read` is the full single-block read exchange. */
  function ReadSteps(cs: seq<Chunk>): seq<Step>
    requires forall i :: 0 <= i < |cs| ==> 1 <= cs[i].size <= BlockSize
  {
    if cs == [] then []
    else Stm32.ReadExchange(cs[0].address, cs[0].size) + ReadSteps(cs[1..])
  }

  /** `stm32_read` of `total` bytes from `start`. */
  function ReadPlan(start: u32, total: nat): seq<Step>
  {
    ReadSteps(Chunks(start, total, 0))
  }

  lemma ReadExchangeCounts(address: u32, size: int)
    requires 1 <= size <= 0x100
    ensures Received(Stm32.ReadExchange(address, size)) == size
  {
    var tail := Then(LengthFrame(size), Rdp, [Receive(size)]);
    ThenCounts(CommandFrame(OpRead), Rdp, Then(AddressFrame(address), InvalidArgument, tail));
    ThenCounts(AddressFrame(address), InvalidArgument, tail);
    ThenCounts(LengthFrame(size), Rdp, [Receive(size)]);
    ReceivedCons(Receive(size), []);
  }

  lemma ReceivedAppend(a: seq<Step>, b: seq<Step>)
    ensures Received(a + b) == Received(a) + Received(b)
    decreases |a|
  {
    if a != [] {
      var h, t := a[0], a[1..];
      assert a == [h] + t;
      assert a + b == [h] + (t + b);
      ReceivedCons(h, t + b);
      ReceivedCons(h, t);
      ReceivedAppend(t, b);
    } else {
      assert a + b == b;
    }
  }

  lemma {:induction false} ReadStepsCount(cs: seq<Chunk>)
    requires forall i :: 0 <= i < |cs| ==> 1 <= cs[i].size <= BlockSize
    ensures Received(ReadSteps(cs)) == Sizes(cs)
    decreases |cs|
  {
    if cs != [] {
      ReadExchangeCounts(cs[0].address, cs[0].size);
      ReceivedAppend(Stm32.ReadExchange(cs[0].address, cs[0].size), ReadSteps(cs[1..]));
      ReadStepsCount(cs[1..]);
    }
  }

  /** A chunked read asks for exactly `total` bytes, so one that ends Ok has
      delivered every byte; a read of nothing writes nothing. */
  lemma ReadPlanCovers(start: u32, total: nat, w: Wire)
    ensures Received(ReadPlan(start, total)) == total
    ensures Exec(ReadPlan(start, total), w).status == Ok ==> |Exec(ReadPlan(start, total), w).data| == total
    ensures total == 0 ==> Exec(ReadPlan(start, total), w) == Run(Ok, [], w)
  {
    ReadStepsCount(Chunks(start, total, 0));
    ChunksCover(start, total, 0);
  }

  /** The block at `done` is read by the single-block exchange with address
      `start + done` and length min(256, total - done); the rest follows. */
  lemma ReadStepsNext(start: u32, total: nat, done: nat)
    requires done < total
    ensures ReadSteps(Chunks(start, total, done)) ==
      Stm32.ReadExchange(Add32(start, done), BlockAt(total, done)) + ReadSteps(Chunks(start, total, done + BlockAt(total, done)))
  {
    ChunksStep(start, total, done);
  }

  /** What the read loop does once `done` bytes are behind it: the next
      block's exchange and, if that ended Ok, the blocks after it. */
  function ReadFrom(start: u32, total: nat, done: nat, w: Wire): (r: Run)
    requires done <= total
    ensures |r.data| <= total - done
    decreases total - done
  {
    if done == total then Run(Ok, [], w)
    else
      var r := Exec(Stm32.ReadExchange(Add32(start, done), BlockAt(total, done)), w);
      ReadExchangeCounts(Add32(start, done), BlockAt(total, done));
      if r.status != Ok then r
      else Continue(r.data, ReadFrom(start, total, done + BlockAt(total, done), r.wire))
  }

  /** The loop-shaped read is the chunked plan run as one exchange. */
  lemma {:induction false} ReadFromPlan(start: u32, total: nat, done: nat, w: Wire)
    requires done <= total
    ensures ReadFrom(start, total, done, w) == Exec(ReadSteps(Chunks(start, total, done)), w)
    decreases total - done
  {
    if done < total {
      var r := Exec(Stm32.ReadExchange(Add32(start, done), BlockAt(total, done)), w);
      ReadPlanStep(start, total, done, w);
      if r.status == Ok {
        ReadFromPlan(start, total, done + BlockAt(total, done), r.wire);
      }
    }
  }

  /** One block of the plan: its exchange, then the blocks after it if the
      exchange ended Ok. */
  lemma ReadPlanStep(start: u32, total: nat, done: nat, w: Wire)
    requires done < total
    ensures Exec(ReadSteps(Chunks(start, total, done)), w) ==
      var r := Exec(Stm32.ReadExchange(Add32(start, done), BlockAt(total, done)), w);
      if r.status != Ok then r else Continue(r.data, Exec(ReadSteps(Chunks(start, total, done + BlockAt(total, done))), r.wire))
  {
    ReadStepsNext(start, total, done);
    ExecAppend(Stm32.ReadExchange(Add32(start, done), BlockAt(total, done)),
      ReadSteps(Chunks(start, total, done + BlockAt(total, done))), w);
  }

  /** Copies `bytes` into `buf` from `offset` on, as a read into the caller's
      buffer does. */
  method Store(buf: array<bv8>, offset: nat, bytes: seq<bv8>)
    requires offset + |bytes| <= buf.Length
    modifies buf
    ensures buf[..] == old(buf[..])[..offset] + bytes + old(buf[..])[offset + |bytes|..]
  {
    for i := 0 to |bytes|
      invariant forall j :: 0 <= j < buf.Length ==>
        buf[j] == if offset <= j < offset + i then bytes[j - offset] else old(buf[j])
    {
      buf[offset + i] := bytes[i];
    }
    assert buf[..] == old(buf[..])[..offset] + bytes + old(buf[..])[offset + |bytes|..];
  }

  /** Bytes stored right after those already in place extend them. */
  lemma Splice(got: seq<bv8>, o: seq<bv8>, bytes: seq<bv8>)
    requires |got| + |bytes| <= |o|
    ensures var cur := got + o[|got|..];
      cur[..|got|] + bytes + cur[|got| + |bytes|..] == (got + bytes) + o[|got| + |bytes|..]
  {
    var cur := got + o[|got|..];
    assert cur[..|got|] == got;
    assert cur[|got| + |bytes|..] == o[|got| + |bytes|..];
  }

  /** `buf` holds the `got` bytes, then the rest of its original contents `o`. */
  ghost predicate Filled(buf: array<bv8>, got: seq<bv8>, o: seq<bv8>)
    reads buf
  {
    |got| <= |o| == buf.Length && buf[..] == got + o[|got|..]
  }

  /** Stores `bytes` right after the `got` bytes already in `buf`. */
  method StoreNext(buf: array<bv8>, offset: nat, ghost got: seq<bv8>, ghost o: seq<bv8>, bytes: seq<bv8>)
    requires |got| == offset && offset + |bytes| <= |o| && Filled(buf, got, o)
    modifies buf
    ensures Filled(buf, got + bytes, o)
  {
    Store(buf, offset, bytes);
    Splice(got, o, bytes);
  }

  /** One pass of the read loop: the block at `readed` is read into `data`
      at its own offset, after the `got` bytes already stored there. */
  method ReadNext(port: Port, start: u32, total: nat, readed: nat)
    returns (status: Status, received: seq<bv8>)
    requires readed < total
    modifies port
    ensures var b := BlockAt(total, readed);
      |received| <= b && (status == Ok ==> |received| == b) &&
      ReadFrom(start, total, readed, old(port.State())) ==
        if status != Ok then Run(status, received, port.State())
        else Continue(received, ReadFrom(start, total, readed + b, port.State()))
  {
    status, received := port.Execute(Stm32.ReadExchange(Add32(start, readed), BlockAt(total, readed)));
    ReadExchangeCounts(Add32(start, readed), BlockAt(total, readed));
  }

  method Read(port: Port, start: u32, data: array<bv8>, size: u32) returns (status: Status)
    requires size as int <= data.Length
    modifies port, data
    ensures var r := ReadFrom(start, size as nat, 0, old(port.State()));
      status == r.status && port.State() == r.wire && data[..] == r.data + old(data[..])[|r.data|..]
  {
    var total := size as nat;
    var readed := 0;
    ghost var o := data[..];
    ghost var got: seq<bv8> := [];
    ghost var w0 := port.State();
    ghost var cur := w0;
    while readed < total
      invariant readed <= total && |got| == readed && cur == port.State()
      invariant ReadFrom(start, total, 0, w0) == Continue(got, ReadFrom(start, total, readed, cur))
      invariant Filled(data, got, o)
      decreases total - readed
    {
      var received;
      ghost var prev := cur;
      status, received := ReadNext(port, start, total, readed);
      cur := port.State();
      StoreNext(data, readed, got, o, received);
      ContinueStep(ReadFrom(start, total, 0, w0), got, ReadFrom(start, total, readed, prev), status, received,
                   ReadFrom(start, total, readed + BlockAt(total, readed), cur), cur);
      if status != Ok {
        return;
      }
      got := got + received;
      readed := readed + |received|;
    }
    status := Ok;
    ContinueTwice(got, [], ReadFrom(start, total, readed, cur));
  }

  /** One step of a run split as `Continue`: the bytes of the step join the
      bytes gathered before it. */
  lemma ContinueStep(whole: Run, got: seq<bv8>, here: Run, status: Status, received: seq<bv8>, next: Run, w': Wire)
    requires whole == Continue(got, here)
    requires here == if status != Ok then Run(status, received, w') else Continue(received, next)
    ensures status != Ok ==> whole == Run(status, got + received, w')
    ensures status == Ok ==> whole == Continue(got + received, next)
  {
    ContinueTwice(got, received, next);
  }

  lemma ContinueTwice(a: seq<bv8>, b: seq<bv8>, r: Run)
    ensures Continue(a, Continue(b, r)) == Continue(a + b, r)
    ensures Continue(a, Run(r.status, [], r.wire)) == Run(r.status, a, r.wire)
  {
    AppendAssoc(a, b, r.data);
    assert a + [] == a;
  }

  // ---------------------------------------------------------------------------
  // Write

  /** Each block of `stm32_write` first has its address checked for word
      alignment, then is the full single-block write exchange. */
  function WriteSteps(cs: seq<Chunk>, data: seq<bv8>): seq<Step>
    requires Blocks(cs, |data|)
  {
    if cs == [] then []
    else
      var c := cs[0];
      (if c.address % 4 != 0 then [Reject(InvalidArgument)]
       else Stm32.WriteExchange(c.address, data[c.offset..c.offset + c.size]))
      + WriteSteps(cs[1..], data)
  }

  /** `stm32_write` of `data` from `start`. */
  function WritePlan(start: u32, data: seq<bv8>): seq<Step>
  {
    WriteSteps(Chunks(start, |data|, 0), data)
  }

  /** The block at `done`, if its address `start + done` is not word aligned,
      is refused. */
  lemma WriteStepsUnaligned(start: u32, data: seq<bv8>, done: nat)
    requires done < |data| && Add32(start, done) % 4 != 0
    ensures WriteSteps(Chunks(start, |data|, done), data) ==
      [Reject(InvalidArgument)] + WriteSteps(Chunks(start, |data|, done + BlockAt(|data|, done)), data)
  {
    ChunksStep(start, |data|, done);
  }

  /** The block at `done`, if its address `start + done` is word aligned, is
      the single-block write of the next min(256, |data| - done) bytes. */
  lemma WriteStepsAligned(start: u32, data: seq<bv8>, done: nat)
    requires done < |data| && Add32(start, done) % 4 == 0
    ensures WriteSteps(Chunks(start, |data|, done), data) ==
      Stm32.WriteExchange(Add32(start, done), data[done..done + BlockAt(|data|, done)])
      + WriteSteps(Chunks(start, |data|, done + BlockAt(|data|, done)), data)
  {
    ChunksStep(start, |data|, done);
    assert Chunks(start, |data|, done) != [];
    assert Chunks(start, |data|, done)[0].address == Add32(start, done);
  }

  lemma WriteExchangeCounts(address: u32, data: seq<bv8>)
    requires 1 <= |data| <= 0x100
    ensures Received(Stm32.WriteExchange(address, data)) == 0
  {
    var tail := Then(PayloadFrame((|data| - 1) as bv8, data), Protocol, []);
    ThenCounts(CommandFrame(OpWrite), Rdp, Then(AddressFrame(address), InvalidArgument, tail));
    ThenCounts(AddressFrame(address), InvalidArgument, tail);
    ThenCounts(PayloadFrame((|data| - 1) as bv8, data), Protocol, []);
  }

  lemma RejectFirst(reason: Status, rest: seq<Step>, w: Wire)
    requires reason != Ok
    ensures Exec([Reject(reason)] + rest, w) == Run(reason, [], w)
  {
    ExecCons(Reject(reason), rest, w);
  }

  /** What the rest of a write does once `done` bytes are behind it. */
  function WriteFrom(start: u32, data: seq<bv8>, done: nat, w: Wire): Run
    requires done <= |data|
  {
    Exec(WriteSteps(Chunks(start, |data|, done), data), w)
  }

  /** A block whose address is not word aligned is refused before anything
      is written. */
  lemma WriteBlockRefused(start: u32, data: seq<bv8>, done: nat, w: Wire)
    requires done < |data| && Add32(start, done) % 4 != 0
    ensures WriteFrom(start, data, done, w) == Run(InvalidArgument, [], w)
  {
    WriteStepsUnaligned(start, data, done);
    RejectFirst(InvalidArgument, WriteSteps(Chunks(start, |data|, done + BlockAt(|data|, done)), data), w);
  }

  /** An aligned block is the single-block write exchange and, if that ended
      Ok, the blocks after it. */
  lemma WriteBlockSent(start: u32, data: seq<bv8>, done: nat, w: Wire, r: Run)
    requires done < |data| && Add32(start, done) % 4 == 0
    requires r == Exec(Stm32.WriteExchange(Add32(start, done), data[done..done + BlockAt(|data|, done)]), w)
    ensures WriteFrom(start, data, done, w) ==
      if r.status != Ok then r else WriteFrom(start, data, done + BlockAt(|data|, done), r.wire)
  {
    WriteStepsAligned(start, data, done);
    WriteExchangeCounts(Add32(start, done), data[done..done + BlockAt(|data|, done)]);
    SilentThen(Stm32.WriteExchange(Add32(start, done), data[done..done + BlockAt(|data|, done)]),
      WriteSteps(Chunks(start, |data|, done + BlockAt(|data|, done)), data), w);
  }

  /** An exchange that receives nothing hands the link on unchanged in data. */
  lemma SilentThen(x: seq<Step>, rest: seq<Step>, w: Wire)
    requires Received(x) == 0
    ensures Exec(x + rest, w) == (var r := Exec(x, w); if r.status != Ok then r else Exec(rest, r.wire))
  {
    ExecAppend(x, rest, w);
    var r := Exec(x, w);
    if r.status == Ok {
      assert [] + Exec(rest, r.wire).data == Exec(rest, r.wire).data;
    }
  }

  /** One pass of the write loop: the alignment check of the block at
      `writed`, then its exchange. */
  method WriteNext(port: Port, start: u32, data: seq<bv8>, writed: nat) returns (status: Status)
    requires writed < |data|
    modifies port
    ensures status != Ok ==> WriteFrom(start, data, writed, old(port.State())) == Run(status, [], port.State())
    ensures status == Ok ==>
      WriteFrom(start, data, writed, old(port.State())) == WriteFrom(start, data, writed + BlockAt(|data|, writed), port.State())
  {
    if Add32(start, writed) % 4 != 0 {
      WriteBlockRefused(start, data, writed, port.State());
      return InvalidArgument;
    }
    var chunk := data[writed..writed + BlockAt(|data|, writed)];
    var frame := BuildPayloadFrame((|chunk| - 1) as bv8, chunk);
    ghost var before := port.State();
    var received;
    status, received := port.Execute(
      Then(CommandFrame(OpWrite), Rdp, Then(AddressFrame(Add32(start, writed)), InvalidArgument, Then(frame, Protocol, []))));
    WriteBlockSent(start, data, writed, before, Run(status, received, port.State()));
    WriteExchangeCounts(Add32(start, writed), chunk);
  }

  /** Writes `data` from `start`, one block at a time, checking each block's
      address for word alignment before sending its command. */
  method Write(port: Port, start: u32, data: seq<bv8>) returns (status: Status)
    requires |data| < 0x1_0000_0000
    modifies port
    ensures var r := WriteFrom(start, data, 0, old(port.State()));
      status == r.status && port.State() == r.wire
  {
    var writed := 0;
    ghost var w0 := port.State();
    while writed < |data|
      invariant writed <= |data|
      invariant WriteFrom(start, data, 0, w0) == WriteFrom(start, data, writed, port.State())
      decreases |data| - writed
    {
      status := WriteNext(port, start, data, writed);
      if status != Ok {
        return;
      }
      writed := writed + BlockAt(|data|, writed);
    }
    status := Ok;
    WriteDone(start, data, port.State());
  }

  /** Once every block is written nothing is left to send. */
  lemma WriteDone(start: u32, data: seq<bv8>, w: Wire)
    ensures WriteFrom(start, data, |data|, w) == Run(Ok, [], w)
  {
    assert Chunks(start, |data|, |data|) == [];
  }

  lemma NoRejectAppend(a: seq<Step>, b: seq<Step>)
    ensures NoReject(a + b) <==> NoReject(a) && NoReject(b)
  {
    if NoReject(a) && NoReject(b) {
      forall i | 0 <= i < |a + b|
        ensures !(a + b)[i].Reject?
      {
        if i >= |a| {
          assert (a + b)[i] == b[i - |a|];
        }
      }
    }
    if NoReject(a + b) {
      forall i | 0 <= i < |a|
        ensures !a[i].Reject?
      {
        assert (a + b)[i] == a[i];
      }
      forall i | 0 <= i < |b|
        ensures !b[i].Reject?
      {
        assert (a + b)[|a| + i] == b[i];
      }
    }
  }

  lemma WriteExchangeNoReject(address: u32, data: seq<bv8>)
    requires 1 <= |data| <= 0x100
    ensures NoReject(Stm32.WriteExchange(address, data))
  {
    var tail := Then(PayloadFrame((|data| - 1) as bv8, data), Protocol, []);
    var mid := Then(AddressFrame(address), InvalidArgument, tail);
    assert NoReject([]);
    NoRejectAppend([Send(PayloadFrame((|data| - 1) as bv8, data)), Await(Protocol)], []);
    NoRejectAppend([Send(AddressFrame(address)), Await(InvalidArgument)], tail);
    NoRejectAppend([Send(CommandFrame(OpWrite)), Await(Rdp)], mid);
  }

  /** Every block of a write is refused only when its address is not word
      aligned, and the blocks after the first all share its alignment. */
  lemma {:induction false} WriteStepsReject(start: u32, data: seq<bv8>, done: nat)
    requires done <= |data|
    ensures NoReject(WriteSteps(Chunks(start, |data|, done), data)) <==>
      (done == |data| || (Add32(start, done) % 4 == 0 && NoReject(WriteSteps(Chunks(start, |data|, done + BlockAt(|data|, done)), data))))
  {
    if done < |data| {
      if Add32(start, done) % 4 != 0 {
        WriteStepsUnaligned(start, data, done);
        RejectedHead(WriteSteps(Chunks(start, |data|, done + BlockAt(|data|, done)), data));
      } else {
        WriteStepsAligned(start, data, done);
        AcceptedHead(Add32(start, done), data[done..done + BlockAt(|data|, done)],
                     WriteSteps(Chunks(start, |data|, done + BlockAt(|data|, done)), data));
      }
    } else {
      assert Chunks(start, |data|, done) == [];
    }
  }

  lemma RejectedHead(rest: seq<Step>)
    ensures !NoReject([Reject(InvalidArgument)] + rest)
  {
    assert ([Reject(InvalidArgument)] + rest)[0].Reject?;
  }

  lemma AcceptedHead(address: u32, block: seq<bv8>, rest: seq<Step>)
    requires 1 <= |block| <= 0x100
    ensures NoReject(Stm32.WriteExchange(address, block) + rest) <==> NoReject(rest)
  {
    WriteExchangeNoReject(address, block);
    NoRejectAppend(Stm32.WriteExchange(address, block), rest);
  }

  /** The loop never refuses a block of a write whose start is word aligned
      (or that is empty), and refuses an unaligned one. */
  lemma {:induction false} WriteAlignment(start: u32, data: seq<bv8>)
    ensures NoReject(WritePlan(start, data)) <==> (|data| == 0 || start % 4 == 0)
  {
    AlignmentCarries(start, |data|);
    ChunksLayout(start, |data|, 0);
    WriteAlignmentFrom(start, data, 0);
    if |data| > 0 {
      var cs := Chunks(start, |data|, 0);
      assert cs[0] in cs;
    }
  }

  lemma {:induction false} WriteAlignmentFrom(start: u32, data: seq<bv8>, done: nat)
    requires done <= |data|
    requires forall c :: c in Chunks(start, |data|, done) ==> c.address % 4 == start % 4
    ensures NoReject(WriteSteps(Chunks(start, |data|, done), data)) <==> (done == |data| || start % 4 == 0)
    decreases |data| - done
  {
    if done < |data| {
      AlignedTail(start, |data|, done);
      WriteAlignmentFrom(start, data, done + BlockAt(|data|, done));
      RejectChain(start, data, done);
    } else {
      WriteStepsReject(start, data, done);
    }
  }

  /** The refusal of a write from `done` on, given that of the blocks after
      the first: only the alignment of the first block can add one. */
  lemma RejectChain(start: u32, data: seq<bv8>, done: nat)
    requires done < |data| && Add32(start, done) % 4 == start % 4
    requires NoReject(WriteSteps(Chunks(start, |data|, done + BlockAt(|data|, done)), data)) <==>
      (done + BlockAt(|data|, done) == |data| || start % 4 == 0)
    ensures NoReject(WriteSteps(Chunks(start, |data|, done), data)) <==> start % 4 == 0
  {
    WriteStepsReject(start, data, done);
  }

  /** Chunks that all share the start's alignment: the first one, and all
      those after it, do. */
  lemma AlignedTail(start: u32, total: nat, done: nat)
    requires done < total
    requires forall c :: c in Chunks(start, total, done) ==> c.address % 4 == start % 4
    ensures Add32(start, done) % 4 == start % 4
    ensures forall c :: c in Chunks(start, total, done + BlockAt(total, done)) ==> c.address % 4 == start % 4
  {
    ChunksStep(start, total, done);
    var cs := Chunks(start, total, done);
    assert cs[0] in cs;
    forall c | c in cs[1..]
      ensures c.address % 4 == start % 4
    {
      assert c in cs;
    }
  }

  /** A non-empty write from an unaligned start is refused before anything is
      written. */
  lemma WriteUnalignedRejected(start: u32, data: seq<bv8>, w: Wire)
    requires |data| > 0 && start % 4 != 0
    ensures WriteFrom(start, data, 0, w) == Run(InvalidArgument, [], w)
  {
    assert Add32(start, 0) == start;
    WriteBlockRefused(start, data, 0, w);
  }

  // ---------------------------------------------------------------------------
  // Get, get-id and the unchanged commands

  /** `stm32_init` is the same exchange in both engines. */
  method Init(port: Port) returns (status: Status)
    modifies port
    ensures var r := Exec(Stm32.InitExchange(), old(port.State()));
      status == r.status && port.State() == r.wire
  {
    status := Stm32.Init(port);
  }

  /** `stm32_get_prs` is the same exchange in both engines. */
  method GetPrs(port: Port) returns (status: Status, rpdc: bv8, rpec: bv8)
    modifies port
    ensures var r := Exec(Stm32.GetPrsExchange(), old(port.State()));
      status == r.status && port.State() == r.wire &&
      (status == Ok ==> |r.data| == 3) &&
      rpdc == (if |r.data| >= 2 then r.data[1] else 0) &&
      rpec == (if |r.data| >= 3 then r.data[2] else 0)
  {
    status, rpdc, rpec := Stm32.GetPrs(port);
  }

  /** `stm32_get_bootloader_version`: the get exchange, keeping only the
      version byte, which is stored as soon as it arrives. */
  method GetBootloaderVersion(port: Port) returns (status: Status, version: bv8)
    modifies port
    ensures var r := Stm32.GetRun(old(port.State()));
      status == r.status && port.State() == r.wire &&
      version == (if |r.data| >= 2 then r.data[1] else 0)
  {
    version := 0;
    var head;
    status, head := port.Execute(Stm32.GetHead());
    if status != Ok {
      return;
    }
    Stm32.GetHeadCounts();
    var body;
    status, body := port.Execute(Stm32.GetBody(head[0]));
    if |body| >= 1 {
      version := body[0];
    }
  }

  /** `stm32_get_supported_commands` up to the version byte: the count N and
      the version. */
  function SupportedHead(): seq<Step>
  {
    Then(CommandFrame(OpGet), Protocol, [Receive(1)] + [Receive(1)])
  }

  /** The rest once N is known: refused when the caller's buffer is smaller
      than N, otherwise the N opcodes and the closing ACK. */
  function SupportedBody(n: bv8, bufferSize: int): seq<Step>
  {
    if bufferSize < n as int then [Reject(InvalidArgument)]
    else [Receive(n as nat)] + [Await(Protocol)]
  }

  lemma SupportedHeadCounts()
    ensures Received(SupportedHead()) == 2
  {
    ThenCounts(CommandFrame(OpGet), Protocol, [Receive(1)] + [Receive(1)]);
    ReceivedCons(Receive(1), [Receive(1)]);
    ReceivedCons(Receive(1), []);
  }

  function SupportedRun(bufferSize: int, w: Wire): Run
  {
    var r := Exec(SupportedHead(), w);
    if r.status != Ok then r
    else
      SupportedHeadCounts();
      Continue(r.data, Exec(SupportedBody(r.data[0], bufferSize), r.wire))
  }

  /** The bytes a run read after the first `k`: what a reply read into the
      caller's buffer. */
  function After(r: Run, k: nat): seq<bv8>
  {
    if |r.data| <= k then [] else r.data[k..]
  }

  /** A counted reply body: the counted bytes, then the closing ACK. */
  lemma CountedBody(n: nat, w: Wire, r1: Run, r2: Run)
    requires r1 == Exec([Receive(n)], w) && r2 == Exec([Await(Protocol)], r1.wire)
    ensures Exec([Receive(n)] + [Await(Protocol)], w) == if r1.status != Ok then r1 else Run(r2.status, r1.data, r2.wire)
    ensures |r1.data| <= n
  {
    ExecAppend([Receive(n)], [Await(Protocol)], w);
    ReceivedCons(Receive(n), []);
    ReceivedCons(Await(Protocol), []);
    assert r1.data + [] == r1.data;
  }

  /** Reads `n` counted bytes into the front of `buf`, then the closing ACK;
      `count` is how many of them arrived. */
  method ReadCountedInto(port: Port, buf: array<bv8>, n: nat) returns (status: Status, count: nat)
    requires n <= buf.Length
    modifies port, buf
    ensures var r := Exec([Receive(n)] + [Await(Protocol)], old(port.State()));
      status == r.status && port.State() == r.wire && count == |r.data| &&
      |r.data| <= n && buf[..] == r.data + old(buf[..])[|r.data|..]
  {
    ghost var before := port.State();
    var received;
    status, received := port.Execute([Receive(n)]);
    ghost var r1 := Run(status, received, port.State());
    CountedBody(n, before, r1, Exec([Await(Protocol)], r1.wire));
    Store(buf, 0, received);
    assert buf[..] == received + old(buf[..])[|received|..] by {
      assert old(buf[..])[..0] == [];
    }
    count := |received|;
    if status == Ok {
      var ack;
      status, ack := port.Execute([Await(Protocol)]);
    }
  }

  /** Reads the supported opcodes into `commands`, which the caller says
      holds `bufferSize` bytes; `size` is set once all of them arrived. */
  method GetSupportedCommands(port: Port, commands: array<bv8>, bufferSize: int) returns (status: Status, size: bv8)
    requires bufferSize <= commands.Length
    modifies port, commands
    ensures var r := SupportedRun(bufferSize, old(port.State()));
      status == r.status && port.State() == r.wire &&
      |After(r, 2)| <= commands.Length && commands[..] == After(r, 2) + old(commands[..])[|After(r, 2)|..] &&
      size == (if |r.data| >= 2 && |r.data| == 2 + r.data[0] as int && bufferSize >= r.data[0] as int then r.data[0] else 0)
  {
    size := 0;
    var head;
    status, head := port.Execute(SupportedHead());
    if status != Ok {
      assert commands[..] == [] + old(commands[..])[0..];
      return;
    }
    SupportedHeadCounts();
    if bufferSize < head[0] as int {
      RejectOnly(InvalidArgument, port.State());
      assert commands[..] == [] + old(commands[..])[0..];
      return InvalidArgument, 0;
    }
    ghost var before := port.State();
    var count;
    status, count := ReadCountedInto(port, commands, head[0] as nat);
    ghost var body := Exec([Receive(head[0] as nat)] + [Await(Protocol)], before);
    assert (head + body.data)[2..] == body.data;
    if count == head[0] as nat {
      size := head[0];
    }
  }

  /** The rest of `stm32_get_id` once N is known: refused when the caller's
      buffer is smaller than the identifier length, otherwise the identifier
      and the closing ACK. */
  function IdBody(n: bv8, bufferSize: int): seq<Step>
  {
    if bufferSize < Stm32.IdLength(n) then [Reject(InvalidArgument)]
    else [Receive(Stm32.IdLength(n))] + [Await(Protocol)]
  }

  function IdRun(bufferSize: int, w: Wire): Run
  {
    var r := Exec(Stm32.GetIdHead(), w);
    if r.status != Ok then r
    else
      Stm32.GetHeadCounts();
      Continue(r.data, Exec(IdBody(r.data[0], bufferSize), r.wire))
  }

  /** Reads the product identifier into `id`, which the caller says holds
      `bufferSize` bytes; `size` is set once all of it arrived. */
  method GetId(port: Port, id: array<bv8>, bufferSize: int) returns (status: Status, size: bv8)
    requires bufferSize <= id.Length
    modifies port, id
    ensures var r := IdRun(bufferSize, old(port.State()));
      status == r.status && port.State() == r.wire &&
      |After(r, 1)| <= id.Length && id[..] == After(r, 1) + old(id[..])[|After(r, 1)|..] &&
      size == (if |r.data| >= 1 && |r.data| == 1 + Stm32.IdLength(r.data[0]) && bufferSize >= Stm32.IdLength(r.data[0])
               then Stm32.IdLength(r.data[0]) as bv8 else 0)
  {
    size := 0;
    var head;
    status, head := port.Execute(Stm32.GetIdHead());
    if status != Ok {
      assert id[..] == [] + old(id[..])[0..];
      return;
    }
    Stm32.GetHeadCounts();
    var length := Stm32.IdLength(head[0]);
    if bufferSize < length {
      RejectOnly(InvalidArgument, port.State());
      assert id[..] == [] + old(id[..])[0..];
      return InvalidArgument, 0;
    }
    ghost var before := port.State();
    var count;
    status, count := ReadCountedInto(port, id, length);
    ghost var body := Exec([Receive(length)] + [Await(Protocol)], before);
    assert (head + body.data)[1..] == body.data;
    if count == length {
      size := length as bv8;
    }
  }

  /** The head of `stm32_get_supported_commands`: an acknowledged command,
      then the count and the version byte. */
  lemma SupportedHeadReplies(n: bv8, v: bv8, w: Wire, q: seq<Event>)
    requires !w.writeFails && w.replies == [Byte(Ack), Byte(n), Byte(v)] + q
    ensures Exec(SupportedHead(), w) == Run(Ok, [n, v], Wire(w.sent + CommandFrame(OpGet), q, false))
  {
    assert w.replies == [Byte(Ack)] + ([Byte(n)] + ([Byte(v)] + q));
    ThenAck(CommandFrame(OpGet), Protocol, [Receive(1)] + [Receive(1)], w, [Byte(n)] + ([Byte(v)] + q));
    ReceiveTwo(n, v, Wire(w.sent + CommandFrame(OpGet), [Byte(n)] + ([Byte(v)] + q), false), q);
  }

  /** Two single-byte reads in a row. */
  lemma ReceiveTwo(n: bv8, v: bv8, w: Wire, q: seq<Event>)
    requires w.replies == [Byte(n)] + ([Byte(v)] + q)
    ensures Exec([Receive(1)] + [Receive(1)], w) == Run(Ok, [n, v], w.(replies := q))
  {
    ReceiveByte(n, [Receive(1)], w, [Byte(v)] + q);
    assert Events([v]) == [Byte(v)];
    ReceiveLast([v], w.(replies := [Byte(v)] + q), q);
    assert [n] + [v] == [n, v];
  }

  /** A caller buffer smaller than the reported count is refused after the
      count and the version byte have been read, before any opcode. */
  lemma SupportedTooSmall(n: bv8, v: bv8, bufferSize: int, w: Wire, q: seq<Event>)
    requires !w.writeFails && w.replies == [Byte(Ack), Byte(n), Byte(v)] + q && bufferSize < n as int
    ensures SupportedRun(bufferSize, w) == Run(InvalidArgument, [n, v], Wire(w.sent + CommandFrame(OpGet), q, false))
  {
    SupportedHeadReplies(n, v, w, q);
    RejectOnly(InvalidArgument, Wire(w.sent + CommandFrame(OpGet), q, false));
    assert [n, v] + [] == [n, v];
  }

  /** With room for every opcode, the count, the version and the opcodes are
      returned once the closing ACK arrives. */
  lemma SupportedCompletes(v: bv8, commands: seq<bv8>, bufferSize: int, w: Wire, q: seq<Event>)
    requires !w.writeFails && |commands| < 0x100 && |commands| <= bufferSize
    requires w.replies == [Byte(Ack), Byte(|commands| as bv8), Byte(v)] + (Events(commands) + ([Byte(Ack)] + q))
    ensures SupportedRun(bufferSize, w) ==
      Run(Ok, [|commands| as bv8, v] + commands, Wire(w.sent + CommandFrame(OpGet), q, false))
  {
    var q2 := Events(commands) + ([Byte(Ack)] + q);
    var w2 := Wire(w.sent + CommandFrame(OpGet), q2, false);
    SupportedHeadReplies(|commands| as bv8, v, w, q2);
    ByteRoundTrip(|commands|);
    ReceiveThen(commands, [Await(Protocol)], w2, [Byte(Ack)] + q);
    AwaitLast(Protocol, w2.(replies := [Byte(Ack)] + q), Ack, q);
    assert commands + [] == commands;
  }

  /** With a buffer that fits any count, `stm32_get_supported_commands` is
      exactly the get exchange of the newer engine. */
  lemma SupportedMatchesGet(bufferSize: int, w: Wire)
    requires bufferSize >= 0xFF
    ensures SupportedRun(bufferSize, w) == Stm32.GetRun(w)
  {
    assert SupportedHead() == Stm32.GetHead() + [Receive(1)];
    ExecAppend(Stm32.GetHead(), [Receive(1)], w);
    var r := Exec(Stm32.GetHead(), w);
    if r.status == Ok {
      Stm32.GetHeadCounts();
      var n := r.data[0];
      assert Stm32.GetBody(n) == [Receive(1)] + SupportedBody(n, bufferSize);
      ExecAppend([Receive(1)], SupportedBody(n, bufferSize), r.wire);
      var r1 := Exec([Receive(1)], r.wire);
      if r1.status == Ok {
        ContinueTwice(r.data, r1.data, Exec(SupportedBody(n, bufferSize), r1.wire));
      }
    }
  }

  /** A caller buffer smaller than the identifier length is refused right
      after the count byte, before any identifier byte. */
  lemma IdTooSmall(n: bv8, bufferSize: int, w: Wire, q: seq<Event>)
    requires !w.writeFails && w.replies == [Byte(Ack), Byte(n)] + q && bufferSize < Stm32.IdLength(n)
    ensures IdRun(bufferSize, w) == Run(InvalidArgument, [n], Wire(w.sent + CommandFrame(OpGetId), q, false))
  {
    Stm32.CountedHead(OpGetId, n, w, q);
    RejectOnly(InvalidArgument, Wire(w.sent + CommandFrame(OpGetId), q, false));
    assert [n] + [] == [n];
  }

  /** With a buffer that fits any identifier, the trunk get-id is exactly the
      get-id exchange of the newer engine. */
  lemma IdMatchesGetId(bufferSize: int, w: Wire)
    requires bufferSize >= 0xFF
    ensures IdRun(bufferSize, w) == Stm32.GetIdRun(w)
  {
    var r := Exec(Stm32.GetIdHead(), w);
    if r.status == Ok {
      Stm32.GetHeadCounts();
      assert IdBody(r.data[0], bufferSize) == Stm32.GetIdBody(r.data[0]);
    }
  }

  // ---------------------------------------------------------------------------
  // Extended erase (8-bit page list)

  /** `stm32_extended_erase` as written: the command and its ACK (NACK is RDP),
      then one more reply, without the page list ever being written. */
  function EraseExchangeAsWritten(pages: seq<bv8>): seq<Step>
    requires |pages| < 0x100
  {
    if |pages| == 0xFF then [Reject(InvalidArgument)]
    else Then(CommandFrame(OpExtendedErase), Rdp, [Await(Protocol)])
  }

  /** The evidently intended exchange: the page-list frame the function
      builds (the count, the pages, their XOR) is written before its ACK is read. */
  function EraseExchange(pages: seq<bv8>): seq<Step>
    requires |pages| < 0x100
  {
    if |pages| == 0xFF then [Reject(InvalidArgument)]
    else Then(CommandFrame(OpExtendedErase), Rdp, Then(PayloadFrame(|pages| as bv8, pages), Protocol, []))
  }

  /** Erases the listed pages, as written: the page-list frame is built in a
      local buffer and dropped. */
  method ExtendedEraseAsWritten(port: Port, pages: seq<bv8>) returns (status: Status)
    requires |pages| < 0x100
    modifies port
    ensures var r := Exec(EraseExchangeAsWritten(pages), old(port.State()));
      status == r.status && port.State() == r.wire
  {
    if |pages| == 0xFF {
      RejectOnly(InvalidArgument, port.State());
      return InvalidArgument;
    }
    var unsent := BuildPayloadFrame(|pages| as bv8, pages);
    var received;
    status, received := port.Execute(Then(CommandFrame(OpExtendedErase), Rdp, [Await(Protocol)]));
  }

  /** Erases the listed pages, writing the page-list frame after the
      command's ACK and reading its ACK. */
  method ExtendedErase(port: Port, pages: seq<bv8>) returns (status: Status)
    requires |pages| < 0x100
    modifies port
    ensures var r := Exec(EraseExchange(pages), old(port.State()));
      status == r.status && port.State() == r.wire
  {
    if |pages| == 0xFF {
      RejectOnly(InvalidArgument, port.State());
      return InvalidArgument;
    }
    var frame := BuildPayloadFrame(|pages| as bv8, pages);
    var received;
    status, received := port.Execute(Then(CommandFrame(OpExtendedErase), Rdp, Then(frame, Protocol, [])));
  }

  lemma SentFramesAwait(m: Status)
    ensures SentFrames([Await(m)]) == []
  {
    SentFramesCons(Await(m), []);
  }

  /** As written, nothing beyond the two command bytes is ever written, so
      the device never receives the pages to erase. */
  lemma ErasePageListNeverSent(pages: seq<bv8>, w: Wire)
    requires |pages| < 0x100
    ensures var r := Exec(EraseExchangeAsWritten(pages), w);
      w.sent <= r.wire.sent && r.wire.sent[|w.sent|..] <= CommandFrame(OpExtendedErase)
  {
    ExecWritesPlanFrames(EraseExchangeAsWritten(pages), w);
    if |pages| == 0xFF {
      SentFramesCons(Reject(InvalidArgument), []);
    } else {
      ThenCounts(CommandFrame(OpExtendedErase), Rdp, [Await(Protocol)]);
      SentFramesAwait(Protocol);
      assert CommandFrame(OpExtendedErase) + [] == CommandFrame(OpExtendedErase);
    }
  }

  /** The discrepancy on a concrete script: the device acknowledges twice and
      the erase reports success, with only the command written. */
  lemma EraseAcceptedWithoutPageList(pages: seq<bv8>, w: Wire, q: seq<Event>)
    requires |pages| < 0xFF && !w.writeFails && w.replies == [Byte(Ack), Byte(Ack)] + q
    ensures Exec(EraseExchangeAsWritten(pages), w) == Run(Ok, [], Wire(w.sent + CommandFrame(OpExtendedErase), q, false))
  {
    assert w.replies == [Byte(Ack)] + ([Byte(Ack)] + q);
    ThenAck(CommandFrame(OpExtendedErase), Rdp, [Await(Protocol)], w, [Byte(Ack)] + q);
    AwaitLast(Protocol, Wire(w.sent + CommandFrame(OpExtendedErase), [Byte(Ack)] + q, false), Ack, q);
  }

  /** Corrected: an erase that ends Ok has written the command and then the
      whole page-list frame, whose checksum checks. */
  lemma EraseSendsPageList(pages: seq<bv8>, w: Wire)
    requires |pages| < 0x100
    ensures var r := Exec(EraseExchange(pages), w);
      w.sent <= r.wire.sent &&
      (r.status == Ok ==>
        |pages| < 0xFF &&
        r.wire.sent == w.sent + CommandFrame(OpExtendedErase) + PayloadFrame(|pages| as bv8, pages))
    ensures |PayloadFrame(|pages| as bv8, pages)| == |pages| + 2 && XorFold(PayloadFrame(|pages| as bv8, pages)) == 0
  {
    ExecWritesPlanFrames(EraseExchange(pages), w);
    PayloadFrameChecks(|pages| as bv8, pages);
    if |pages| == 0xFF {
      RejectOnly(InvalidArgument, w);
    } else {
      var f := PayloadFrame(|pages| as bv8, pages);
      ThenCounts(CommandFrame(OpExtendedErase), Rdp, Then(f, Protocol, []));
      ThenCounts(f, Protocol, []);
      assert f + [] == f;
      AppendAssoc(w.sent, CommandFrame(OpExtendedErase), f);
    }
  }

  /** Corrected: when the device acknowledges the command and the page list,
      the erase ends Ok with both frames written. */
  lemma EraseCompletes(pages: seq<bv8>, w: Wire, q: seq<Event>)
    requires |pages| < 0xFF && !w.writeFails && w.replies == [Byte(Ack), Byte(Ack)] + q
    ensures Exec(EraseExchange(pages), w) ==
      Run(Ok, [], Wire(w.sent + CommandFrame(OpExtendedErase) + PayloadFrame(|pages| as bv8, pages), q, false))
  {
    assert w.replies == [Byte(Ack)] + ([Byte(Ack)] + q);
    ThenAck(CommandFrame(OpExtendedErase), Rdp, Then(PayloadFrame(|pages| as bv8, pages), Protocol, []), w, [Byte(Ack)] + q);
    ThenAck(PayloadFrame(|pages| as bv8, pages), Protocol, [],
            Wire(w.sent + CommandFrame(OpExtendedErase), [Byte(Ack)] + q, false), q);
  }
}
