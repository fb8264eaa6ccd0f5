/** The command engine of `src/stm32.c`: every bootloader command as an
    exchange of frames and acknowledgements over the link, the argument
    checks made before anything is written, and the methods that perform
    them on a `Port`. A NACK means what the call site says it means: read
    protection, a bad address or a protocol error. */
module Stm32 {
  import opened Frames
  import opened Link

  // ---------------------------------------------------------------------------
  // Exchanges

  /** `stm32_init`: the autobaud byte, answered by ACK; anything else is a
      protocol error. */
  function InitExchange(): seq<Step>
  {
    Then([Autobaud], Protocol, [])
  }

  /** `stm32_get` up to the count byte N. */
  function GetHead(): seq<Step>
  {
    Then(CommandFrame(OpGet), Protocol, [Receive(1)])
  }

  /** The rest of `stm32_get` once N is known: the version byte, N opcodes and
      the closing ACK. */
  function GetBody(n: bv8): seq<Step>
  {
    [Receive(1)] + ([Receive(n as nat)] + [Await(Protocol)])
  }

  /** `stm32_get_prs`: version, protection-disable and protection-enable
      counters, then the closing ACK. */
  function GetPrsExchange(): seq<Step>
  {
    Then(CommandFrame(OpGetRps), Protocol, [Receive(1)] + ([Receive(1)] + ([Receive(1)] + [Await(Protocol)])))
  }

  /** `stm32_get_id` up to the count byte N. */
  function GetIdHead(): seq<Step>
  {
    Then(CommandFrame(OpGetId), Protocol, [Receive(1)])
  }

  /** The identifier length `stm32_get_id` reads for count byte N: N + 1,
      computed in an 8-bit variable. */
  function IdLength(n: bv8): nat
  {
    (n as int + 1) % 0x100
  }

  /** The rest of `stm32_get_id` once N is known. */
  function GetIdBody(n: bv8): seq<Step>
  {
    [Receive(IdLength(n))] + [Await(Protocol)]
  }

  /** `stm32_read` once its size is accepted: command, address, block length,
      then the raw bytes with no closing ACK. */
  function ReadExchange(address: u32, size: int): seq<Step>
    requires 1 <= size <= 0x100
  {
    Then(CommandFrame(OpRead), Rdp,
    Then(AddressFrame(address), InvalidArgument,
    Then(LengthFrame(size), Rdp,
    [Receive(size)])))
  }

  /** `stm32_write` once its arguments are accepted: command, address, then
      one payload frame whose NACK is a protocol error. */
  function WriteExchange(address: u32, data: seq<bv8>): seq<Step>
    requires 1 <= |data| <= 0x100
  {
    Then(CommandFrame(OpWrite), Rdp,
    Then(AddressFrame(address), InvalidArgument,
    Then(PayloadFrame((|data| - 1) as bv8, data), Protocol, [])))
  }

  /** Both extended erases: the command, one frame, then the polled ACK. */
  function EraseShaped(frame: seq<bv8>): seq<Step>
  {
    Then(CommandFrame(OpExtendedErase), Rdp, [Send(frame), AwaitBusy])
  }

  /** `stm32_write_protect` once its page count is accepted. */
  function WriteProtectExchange(pages: seq<bv8>): seq<Step>
    requires 1 <= |pages| <= 0x100
  {
    Then(CommandFrame(OpWriteProtect), Rdp, Then(PayloadFrame((|pages| - 1) as bv8, pages), Protocol, []))
  }

  /** A command that carries no argument and is confirmed by a second ACK once
      the device has done the work. */
  function Confirmed(op: bv8, onNack: Status): seq<Step>
  {
    Then(CommandFrame(op), onNack, [Await(Protocol)])
  }

  // ---------------------------------------------------------------------------
  // Argument checks

  /** `stm32_read` refuses sizes outside 1..256 before writing anything. */
  function ReadPlan(address: u32, size: u16): seq<Step>
  {
    if size == 0 || size > 0x100 then [Reject(InvalidArgument)]
    else ReadExchange(address, size)
  }

  /** `stm32_write` refuses sizes outside 1..256 and unaligned addresses. */
  function WritePlan(address: u32, data: seq<bv8>): seq<Step>
    requires |data| < 0x1_0000
  {
    if |data| == 0 || |data| > 0x100 then [Reject(InvalidArgument)]
    else if address % 4 != 0 then [Reject(InvalidArgument)]
    else WriteExchange(address, data)
  }

  /** `stm32_extended_erase` refuses an empty list and the page counts whose
      count field would be a reserved special-erase code. */
  function ErasePlan(pages: seq<u16>): seq<Step>
    requires |pages| < 0x1_0000
  {
    if |pages| == 0 then [Reject(InvalidArgument)]
    else if |pages| - 1 == EraseMassCode || |pages| - 1 == EraseBank1Code || |pages| - 1 == EraseBank2Code then
      [Reject(InvalidArgument)]
    else EraseShaped(PageListFrame(pages))
  }

  /** `stm32_write_protect` refuses page counts outside 1..256. */
  function WriteProtectPlan(pages: seq<bv8>): seq<Step>
    requires |pages| < 0x1_0000
  {
    if |pages| == 0 || |pages| > 0x100 then [Reject(InvalidArgument)]
    else WriteProtectExchange(pages)
  }

  // ---------------------------------------------------------------------------
  // Two-part exchanges

  lemma GetHeadCounts()
    ensures Received(GetHead()) == 1 && Received(GetIdHead()) == 1
  {
    ThenCounts(CommandFrame(OpGet), Protocol, [Receive(1)]);
    ThenCounts(CommandFrame(OpGetId), Protocol, [Receive(1)]);
  }

  /** `stm32_get`: the head, then the body its count byte calls for. */
  function GetRun(w: Wire): Run
  {
    var r := Exec(GetHead(), w);
    if r.status != Ok then r
    else
      GetHeadCounts();
      Continue(r.data, Exec(GetBody(r.data[0]), r.wire))
  }

  /** `stm32_get_id`: the head, then the body its count byte calls for. */
  function GetIdRun(w: Wire): Run
  {
    var r := Exec(GetIdHead(), w);
    if r.status != Ok then r
    else
      GetHeadCounts();
      Continue(r.data, Exec(GetIdBody(r.data[0]), r.wire))
  }

  // ---------------------------------------------------------------------------
  // Operations

  /** Sends the autobaud byte and checks the reply. */
  method Init(port: Port) returns (status: Status)
    modifies port
    ensures var r := Exec(InitExchange(), old(port.State()));
      status == r.status && port.State() == r.wire
  {
    var data;
    status, data := port.Execute(InitExchange());
  }

  /** Reads the bootloader version and the supported opcodes. The version is
      stored as soon as its byte arrives, so a later failure leaves it set. */
  method Get(port: Port) returns (status: Status, version: bv8, commands: seq<bv8>)
    modifies port
    ensures var r := GetRun(old(port.State()));
      status == r.status && port.State() == r.wire &&
      version == (if |r.data| >= 2 then r.data[1] else 0) &&
      (status == Ok ==> |commands| < 0x100 && r.data == [|commands| as bv8, version] + commands)
  {
    version, commands := 0, [];
    var head;
    status, head := port.Execute(GetHead());
    if status != Ok {
      return;
    }
    GetHeadCounts();
    var body;
    status, body := port.Execute(GetBody(head[0]));
    if |body| >= 1 {
      version := body[0];
    }
    if status == Ok {
      GetBodyCounts(head[0]);
      GetReplyLayout(head, body);
      version, commands := body[0], body[1..];
    }
  }

  /** The count byte of the get reply is the number of opcodes that follow the version. */
  lemma GetReplyLayout(head: seq<bv8>, body: seq<bv8>)
    requires |head| == 1 && |body| == 1 + head[0] as int
    ensures |body[1..]| < 0x100 && head + body == [|body[1..]| as bv8, body[0]] + body[1..]
  {
    ByteValue(head[0]);
    assert head == [head[0]];
  }

  lemma GetBodyCounts(n: bv8)
    ensures Received(GetBody(n)) == 1 + n as int
    ensures Received(GetIdBody(n)) == IdLength(n)
  {
    ReceivedCons(Receive(1), [Receive(n as nat)] + [Await(Protocol)]);
    ReceivedCons(Receive(n as nat), [Await(Protocol)]);
    ReceivedCons(Receive(IdLength(n)), [Await(Protocol)]);
  }

  /** Reads the read-protection counters. Each counter is stored as soon as
      its byte arrives, so a later failure leaves it set. */
  method GetPrs(port: Port) returns (status: Status, rpdc: bv8, rpec: bv8)
    modifies port
    ensures var r := Exec(GetPrsExchange(), old(port.State()));
      status == r.status && port.State() == r.wire &&
      (status == Ok ==> |r.data| == 3) &&
      rpdc == (if |r.data| >= 2 then r.data[1] else 0) &&
      rpec == (if |r.data| >= 3 then r.data[2] else 0)
  {
    var data;
    status, data := port.Execute(GetPrsExchange());
    GetPrsCounts();
    rpdc, rpec := 0, 0;
    if |data| >= 2 {
      rpdc := data[1];
    }
    if |data| >= 3 {
      rpec := data[2];
    }
  }

  lemma GetPrsCounts()
    ensures Received(GetPrsExchange()) == 3
  {
    var tail := [Receive(1)] + ([Receive(1)] + ([Receive(1)] + [Await(Protocol)]));
    ThenCounts(CommandFrame(OpGetRps), Protocol, tail);
    ReceivedCons(Receive(1), [Receive(1)] + ([Receive(1)] + [Await(Protocol)]));
    ReceivedCons(Receive(1), [Receive(1)] + [Await(Protocol)]);
    ReceivedCons(Receive(1), [Await(Protocol)]);
  }

  /** Reads the product identifier. */
  method GetId(port: Port) returns (status: Status, id: seq<bv8>)
    modifies port
    ensures var r := GetIdRun(old(port.State()));
      status == r.status && port.State() == r.wire &&
      (status == Ok ==> |r.data| >= 1 && |id| == IdLength(r.data[0]) && r.data == [r.data[0]] + id)
  {
    id := [];
    var head;
    status, head := port.Execute(GetIdHead());
    if status != Ok {
      return;
    }
    GetHeadCounts();
    status, id := port.Execute(GetIdBody(head[0]));
    if status == Ok {
      GetBodyCounts(head[0]);
      assert head == [head[0]];
    }
  }

  /** Reads one block of 1 to 256 bytes. */
  method Read(port: Port, address: u32, size: u16) returns (status: Status, data: seq<bv8>)
    modifies port
    ensures Run(status, data, port.State()) == Exec(ReadPlan(address, size), old(port.State()))
  {
    if size == 0 || size > 0x100 {
      RejectOnly(InvalidArgument, port.State());
      return InvalidArgument, [];
    }
    status, data := port.Execute(ReadExchange(address, size));
  }

  /** Writes one block of 1 to 256 bytes at a word-aligned address. */
  method Write(port: Port, address: u32, data: seq<bv8>) returns (status: Status)
    requires |data| < 0x1_0000
    modifies port
    ensures var r := Exec(WritePlan(address, data), old(port.State()));
      status == r.status && port.State() == r.wire
  {
    if |data| == 0 || |data| > 0x100 || address % 4 != 0 {
      RejectOnly(InvalidArgument, port.State());
      return InvalidArgument;
    }
    var frame := BuildPayloadFrame((|data| - 1) as bv8, data);
    var received;
    status, received := port.Execute(
      Then(CommandFrame(OpWrite), Rdp, Then(AddressFrame(address), InvalidArgument, Then(frame, Protocol, []))));
  }

  /** Erases the listed pages. */
  method ExtendedErase(port: Port, pages: seq<u16>) returns (status: Status)
    requires |pages| < 0x1_0000
    modifies port
    ensures var r := Exec(ErasePlan(pages), old(port.State()));
      status == r.status && port.State() == r.wire
  {
    if |pages| == 0 || |pages| - 1 == EraseMassCode || |pages| - 1 == EraseBank1Code || |pages| - 1 == EraseBank2Code {
      RejectOnly(InvalidArgument, port.State());
      return InvalidArgument;
    }
    var frame := BuildPageListFrame(pages);
    var received;
    status, received := port.Execute(EraseShaped(frame));
  }

  /** Mass erase, or erase of bank 1 or bank 2. */
  method ExtendedEraseSpecial(port: Port, kind: EraseKind) returns (status: Status)
    modifies port
    ensures var r := Exec(EraseShaped(SpecialEraseFrame(kind)), old(port.State()));
      status == r.status && port.State() == r.wire
  {
    var received;
    status, received := port.Execute(EraseShaped(SpecialEraseFrame(kind)));
  }

  /** Write-protects the listed sectors. */
  method WriteProtect(port: Port, pages: seq<bv8>) returns (status: Status)
    requires |pages| < 0x1_0000
    modifies port
    ensures var r := Exec(WriteProtectPlan(pages), old(port.State()));
      status == r.status && port.State() == r.wire
  {
    if |pages| == 0 || |pages| > 0x100 {
      RejectOnly(InvalidArgument, port.State());
      return InvalidArgument;
    }
    var frame := BuildPayloadFrame((|pages| - 1) as bv8, pages);
    var received;
    status, received := port.Execute(Then(CommandFrame(OpWriteProtect), Rdp, Then(frame, Protocol, [])));
  }

  method WriteUnprotect(port: Port) returns (status: Status)
    modifies port
    ensures var r := Exec(Confirmed(OpWriteUnprotect, Rdp), old(port.State()));
      status == r.status && port.State() == r.wire
  {
    var received;
    status, received := port.Execute(Confirmed(OpWriteUnprotect, Rdp));
  }

  method ReadoutProtect(port: Port) returns (status: Status)
    modifies port
    ensures var r := Exec(Confirmed(OpReadoutProtect, Rdp), old(port.State()));
      status == r.status && port.State() == r.wire
  {
    var received;
    status, received := port.Execute(Confirmed(OpReadoutProtect, Rdp));
  }

  method ReadoutUnprotect(port: Port) returns (status: Status)
    modifies port
    ensures var r := Exec(Confirmed(OpReadoutUnprotect, Protocol), old(port.State()));
      status == r.status && port.State() == r.wire
  {
    var received;
    status, received := port.Execute(Confirmed(OpReadoutUnprotect, Protocol));
  }

  // ---------------------------------------------------------------------------
  // Properties

  /** Every exchange that starts with a command either fails to write it, and
      then ends Serial with the link untouched, or has written the command
      frame before anything else. */
  lemma CommandComesFirst(op: bv8, m: Status, rest: seq<Step>, w: Wire)
    requires m != Ok
    ensures var r := Exec(Then(CommandFrame(op), m, rest), w);
      (w.writeFails ==> r == Run(Serial, [], w)) &&
      (!w.writeFails ==> w.sent + CommandFrame(op) <= r.wire.sent)
  {
    ExecThen(CommandFrame(op), m, rest, w);
    if !w.writeFails && w.replies != [] && w.replies[0] == Byte(Ack) {
      ExecWritesPlanFrames(rest, Wire(w.sent + CommandFrame(op), w.replies[1..], false));
    }
  }

  /** An accepted command never ends as a silent refusal: it is Serial or it
      has written to the link. */
  lemma AcceptedIsNotRefused(op: bv8, m: Status, rest: seq<Step>, w: Wire)
    requires m != Ok
    ensures Exec(Then(CommandFrame(op), m, rest), w) != Run(InvalidArgument, [], w)
  {
    CommandComesFirst(op, m, rest, w);
    var r := Exec(Then(CommandFrame(op), m, rest), w);
    if !w.writeFails {
      assert |r.wire.sent| >= |w.sent| + 2;
    }
  }

  /** `stm32_init` writes 0x7F and is Ok exactly when the reply is ACK; any
      other byte, NACK included, is a protocol error, and a failed write or
      read is Serial. */
  lemma InitOutcome(w: Wire)
    ensures Exec(InitExchange(), w) ==
      if w.writeFails then Run(Serial, [], w)
      else if w.replies == [] then Run(Serial, [], Wire(w.sent + [Autobaud], [], false))
      else if w.replies[0] == ReadFail then Run(Serial, [], Wire(w.sent + [Autobaud], w.replies[1..], false))
      else Run(if w.replies[0].value == Ack then Ok else Protocol, [], Wire(w.sent + [Autobaud], w.replies[1..], false))
  {
    ExecThen([Autobaud], Protocol, [], w);
  }

  /** `stm32_read` refuses without touching the link exactly when the size is
      0 or above 256. */
  lemma ReadRejects(address: u32, size: u16, w: Wire)
    ensures Exec(ReadPlan(address, size), w) == Run(InvalidArgument, [], w) <==> size == 0 || size > 0x100
  {
    if size == 0 || size > 0x100 {
      RejectOnly(InvalidArgument, w);
    } else {
      AcceptedIsNotRefused(OpRead, Rdp, Then(AddressFrame(address), InvalidArgument, Then(LengthFrame(size), Rdp, [Receive(size)])), w);
    }
  }

  /** A read the device acknowledges at every step writes the command, address
      and length frames and returns exactly the `size` bytes that follow. */
  lemma ReadCompletes(address: u32, size: u16, data: seq<bv8>, w: Wire, q: seq<Event>)
    requires 1 <= size <= 0x100 && |data| == size && !w.writeFails
    requires w.replies == [Byte(Ack), Byte(Ack), Byte(Ack)] + Events(data) + q
    ensures Exec(ReadPlan(address, size), w) ==
      Run(Ok, data, Wire(w.sent + CommandFrame(OpRead) + AddressFrame(address) + LengthFrame(size), q, false))
  {
    assert w.replies == [Byte(Ack)] + ([Byte(Ack)] + ([Byte(Ack)] + (Events(data) + q)));
    assert Exec(ReadPlan(address, size), w) ==
      Exec(Then(AddressFrame(address), InvalidArgument, Then(LengthFrame(size), Rdp, [Receive(size)])),
           Wire(w.sent + CommandFrame(OpRead), [Byte(Ack)] + ([Byte(Ack)] + (Events(data) + q)), false)) by {
      ThenAck(CommandFrame(OpRead), Rdp, Then(AddressFrame(address), InvalidArgument, Then(LengthFrame(size), Rdp, [Receive(size)])),
              w, [Byte(Ack)] + ([Byte(Ack)] + (Events(data) + q)));
    }
    ThenAck(AddressFrame(address), InvalidArgument, Then(LengthFrame(size), Rdp, [Receive(size)]),
            Wire(w.sent + CommandFrame(OpRead), [Byte(Ack)] + ([Byte(Ack)] + (Events(data) + q)), false),
            [Byte(Ack)] + (Events(data) + q));
    ThenAck(LengthFrame(size), Rdp, [Receive(size)],
            Wire(w.sent + CommandFrame(OpRead) + AddressFrame(address), [Byte(Ack)] + (Events(data) + q), false),
            Events(data) + q);
    ReceiveLast(data, Wire(w.sent + CommandFrame(OpRead) + AddressFrame(address) + LengthFrame(size), Events(data) + q, false), q);
  }

  /** A read refused at the command or the length frame is RDP when the reply
      is NACK, at the address frame it is INVALID_ARGUMENT; any other byte is a
      protocol error. Nothing is written after the refused frame. */
  lemma ReadRefused(address: u32, size: u16, w: Wire, b: bv8, q: seq<Event>)
    requires 1 <= size <= 0x100 && !w.writeFails && b != Ack
    ensures w.replies == [Byte(b)] + q ==>
      Exec(ReadPlan(address, size), w) ==
      Run(if b == Nack then Rdp else Protocol, [], Wire(w.sent + CommandFrame(OpRead), q, false))
    ensures w.replies == [Byte(Ack), Byte(b)] + q ==>
      Exec(ReadPlan(address, size), w) ==
      Run(if b == Nack then InvalidArgument else Protocol, [], Wire(w.sent + CommandFrame(OpRead) + AddressFrame(address), q, false))
    ensures w.replies == [Byte(Ack), Byte(Ack), Byte(b)] + q ==>
      Exec(ReadPlan(address, size), w) ==
      Run(if b == Nack then Rdp else Protocol, [], Wire(w.sent + CommandFrame(OpRead) + AddressFrame(address) + LengthFrame(size), q, false))
  {
    var c, a, l := CommandFrame(OpRead), AddressFrame(address), LengthFrame(size);
    var r3 := [Receive(size)];
    var r2 := Then(l, Rdp, r3);
    var r1 := Then(a, InvalidArgument, r2);
    var q1 := [Byte(b)] + q;
    var q2 := [Byte(Ack)] + q1;
    if w.replies == [Byte(b)] + q {
      ThenRefused(c, Rdp, r1, w, b, q);
    }
    if w.replies == [Byte(Ack), Byte(b)] + q {
      assert w.replies == [Byte(Ack)] + q1;
      ThenAck(c, Rdp, r1, w, q1);
      ThenRefused(a, InvalidArgument, r2, Wire(w.sent + c, q1, false), b, q);
    }
    if w.replies == [Byte(Ack), Byte(Ack), Byte(b)] + q {
      assert w.replies == [Byte(Ack)] + q2 && q2 == [Byte(Ack)] + q1;
      ThenAck(c, Rdp, r1, w, q2);
      ThenAck(a, InvalidArgument, r2, Wire(w.sent + c, q2, false), q1);
      ThenRefused(l, Rdp, r3, Wire(w.sent + c + a, q1, false), b, q);
    }
  }

  /** `stm32_write` refuses without touching the link exactly when the size is
      0 or above 256 or the address is not a multiple of 4. */
  lemma WriteRejects(address: u32, data: seq<bv8>, w: Wire)
    requires |data| < 0x1_0000
    ensures Exec(WritePlan(address, data), w) == Run(InvalidArgument, [], w) <==>
      |data| == 0 || |data| > 0x100 || address % 4 != 0
  {
    if |data| == 0 || |data| > 0x100 || address % 4 != 0 {
      RejectOnly(InvalidArgument, w);
    } else {
      AcceptedIsNotRefused(OpWrite, Rdp,
        Then(AddressFrame(address), InvalidArgument, Then(PayloadFrame((|data| - 1) as bv8, data), Protocol, [])), w);
    }
  }

  /** A write the device acknowledges writes the command, the address and the
      payload frame `[n-1] + data + [checksum]`, and is Ok exactly when the
      last reply is ACK; NACK to the payload is a protocol error. */
  lemma WriteOutcome(address: u32, data: seq<bv8>, w: Wire, b: bv8, q: seq<Event>)
    requires 1 <= |data| <= 0x100 && address % 4 == 0 && !w.writeFails
    requires w.replies == [Byte(Ack), Byte(Ack), Byte(b)] + q
    ensures Exec(WritePlan(address, data), w) ==
      Run(if b == Ack then Ok else Protocol, [],
          Wire(w.sent + CommandFrame(OpWrite) + AddressFrame(address) + PayloadFrame((|data| - 1) as bv8, data), q, false))
  {
    var c, a, p := CommandFrame(OpWrite), AddressFrame(address), PayloadFrame((|data| - 1) as bv8, data);
    var q1 := [Byte(b)] + q;
    var q2 := [Byte(Ack)] + q1;
    assert w.replies == [Byte(Ack)] + q2;
    ThenAck(c, Rdp, Then(a, InvalidArgument, Then(p, Protocol, [])), w, q2);
    ThenAck(a, InvalidArgument, Then(p, Protocol, []), Wire(w.sent + c, q2, false), q1);
    ExecThen(p, Protocol, [], Wire(w.sent + c + a, q1, false));
  }

  /** A write refused at the command is RDP on NACK and at the address
      INVALID_ARGUMENT; any other byte is a protocol error. */
  lemma WriteRefused(address: u32, data: seq<bv8>, w: Wire, b: bv8, q: seq<Event>)
    requires 1 <= |data| <= 0x100 && address % 4 == 0 && !w.writeFails && b != Ack
    ensures w.replies == [Byte(b)] + q ==>
      Exec(WritePlan(address, data), w) ==
      Run(if b == Nack then Rdp else Protocol, [], Wire(w.sent + CommandFrame(OpWrite), q, false))
    ensures w.replies == [Byte(Ack), Byte(b)] + q ==>
      Exec(WritePlan(address, data), w) ==
      Run(if b == Nack then InvalidArgument else Protocol, [], Wire(w.sent + CommandFrame(OpWrite) + AddressFrame(address), q, false))
  {
    var c, a, p := CommandFrame(OpWrite), AddressFrame(address), PayloadFrame((|data| - 1) as bv8, data);
    var r2 := Then(p, Protocol, []);
    var r1 := Then(a, InvalidArgument, r2);
    var q1 := [Byte(b)] + q;
    if w.replies == [Byte(b)] + q {
      ThenRefused(c, Rdp, r1, w, b, q);
    }
    if w.replies == [Byte(Ack), Byte(b)] + q {
      assert w.replies == [Byte(Ack)] + q1;
      ThenAck(c, Rdp, r1, w, q1);
      ThenRefused(a, InvalidArgument, r2, Wire(w.sent + c, q1, false), b, q);
    }
  }

  /** Outcome of either extended erase: a refused command is RDP on NACK;
      after an acknowledged command the frame is written, failed reads are
      retried, and the reply that finally arrives decides the status. */
  lemma EraseShapedOutcome(frame: seq<bv8>, w: Wire, k: nat, b: bv8, q: seq<Event>)
    requires !w.writeFails
    ensures b != Ack && w.replies == [Byte(b)] + q ==>
      Exec(EraseShaped(frame), w) ==
      Run(if b == Nack then Rdp else Protocol, [], Wire(w.sent + CommandFrame(OpExtendedErase), q, false))
    ensures w.replies == [Byte(Ack)] + Failures(k) + [Byte(b)] + q ==>
      Exec(EraseShaped(frame), w) ==
      Run(if b == Ack then Ok else Protocol, [], Wire(w.sent + CommandFrame(OpExtendedErase) + frame, q, false))
  {
    var c := CommandFrame(OpExtendedErase);
    if b != Ack && w.replies == [Byte(b)] + q {
      ThenRefused(c, Rdp, [Send(frame), AwaitBusy], w, b, q);
    }
    if w.replies == [Byte(Ack)] + Failures(k) + [Byte(b)] + q {
      var q1 := Failures(k) + [Byte(b)] + q;
      assert w.replies == [Byte(Ack)] + q1;
      ThenAck(c, Rdp, [Send(frame), AwaitBusy], w, q1);
      SendBusyReply(frame, Wire(w.sent + c, q1, false), k, b, q);
    }
  }

  /** `stm32_extended_erase` refuses without touching the link exactly when the
      list is empty or its count field would be a reserved special-erase code. */
  lemma EraseRejects(pages: seq<u16>, w: Wire)
    requires |pages| < 0x1_0000
    ensures Exec(ErasePlan(pages), w) == Run(InvalidArgument, [], w) <==>
      |pages| == 0 || |pages| - 1 == EraseMassCode || |pages| - 1 == EraseBank1Code || |pages| - 1 == EraseBank2Code
  {
    if |pages| == 0 || |pages| - 1 == EraseMassCode || |pages| - 1 == EraseBank1Code || |pages| - 1 == EraseBank2Code {
      RejectOnly(InvalidArgument, w);
    } else {
      AcceptedIsNotRefused(OpExtendedErase, Rdp, [Send(PageListFrame(pages)), AwaitBusy], w);
    }
  }

  /** An accepted page erase writes the command and then the page-list frame,
      polls through failed reads, and is Ok exactly when the reply is ACK. */
  lemma EraseOutcome(pages: seq<u16>, w: Wire, k: nat, b: bv8, q: seq<Event>)
    requires 1 <= |pages| <= 0xFFFD && !w.writeFails
    requires w.replies == [Byte(Ack)] + Failures(k) + [Byte(b)] + q
    ensures Exec(ErasePlan(pages), w) ==
      Run(if b == Ack then Ok else Protocol, [],
          Wire(w.sent + CommandFrame(OpExtendedErase) + PageListFrame(pages), q, false))
  {
    EraseShapedOutcome(PageListFrame(pages), w, k, b, q);
  }

  /** A special erase writes the command and then the reserved code of its
      kind, polls through failed reads, and is Ok exactly when the reply is ACK. */
  lemma SpecialEraseOutcome(kind: EraseKind, w: Wire, k: nat, b: bv8, q: seq<Event>)
    requires !w.writeFails
    requires w.replies == [Byte(Ack)] + Failures(k) + [Byte(b)] + q
    ensures Exec(EraseShaped(SpecialEraseFrame(kind)), w) ==
      Run(if b == Ack then Ok else Protocol, [],
          Wire(w.sent + CommandFrame(OpExtendedErase) + SpecialEraseFrame(kind), q, false))
  {
    EraseShapedOutcome(SpecialEraseFrame(kind), w, k, b, q);
  }

  /** `stm32_write_protect` refuses without touching the link exactly when the
      page count is 0 or above 256. */
  lemma WriteProtectRejects(pages: seq<bv8>, w: Wire)
    requires |pages| < 0x1_0000
    ensures Exec(WriteProtectPlan(pages), w) == Run(InvalidArgument, [], w) <==> |pages| == 0 || |pages| > 0x100
  {
    if |pages| == 0 || |pages| > 0x100 {
      RejectOnly(InvalidArgument, w);
    } else {
      AcceptedIsNotRefused(OpWriteProtect, Rdp, Then(PayloadFrame((|pages| - 1) as bv8, pages), Protocol, []), w);
    }
  }

  /** Write protection: NACK to the command is RDP; after it the frame
      `[n-1] + pages + [checksum]` is written and only ACK is Ok. */
  lemma WriteProtectOutcome(pages: seq<bv8>, w: Wire, b: bv8, q: seq<Event>)
    requires 1 <= |pages| <= 0x100 && !w.writeFails
    ensures b != Ack && w.replies == [Byte(b)] + q ==>
      Exec(WriteProtectPlan(pages), w) ==
      Run(if b == Nack then Rdp else Protocol, [], Wire(w.sent + CommandFrame(OpWriteProtect), q, false))
    ensures w.replies == [Byte(Ack), Byte(b)] + q ==>
      Exec(WriteProtectPlan(pages), w) ==
      Run(if b == Ack then Ok else Protocol, [],
          Wire(w.sent + CommandFrame(OpWriteProtect) + PayloadFrame((|pages| - 1) as bv8, pages), q, false))
  {
    var c, p := CommandFrame(OpWriteProtect), PayloadFrame((|pages| - 1) as bv8, pages);
    if b != Ack && w.replies == [Byte(b)] + q {
      ThenRefused(c, Rdp, Then(p, Protocol, []), w, b, q);
    }
    if w.replies == [Byte(Ack), Byte(b)] + q {
      var q1 := [Byte(b)] + q;
      assert w.replies == [Byte(Ack)] + q1;
      ThenAck(c, Rdp, Then(p, Protocol, []), w, q1);
      ExecThen(p, Protocol, [], Wire(w.sent + c, q1, false));
    }
  }

  /** A confirmed command: a refused command is `onNack` on NACK; after an
      acknowledged command only a second ACK is Ok. */
  lemma ConfirmedOutcome(op: bv8, onNack: Status, w: Wire, b: bv8, q: seq<Event>)
    requires onNack != Ok && !w.writeFails
    ensures b != Ack && w.replies == [Byte(b)] + q ==>
      Exec(Confirmed(op, onNack), w) ==
      Run(if b == Nack then onNack else Protocol, [], Wire(w.sent + CommandFrame(op), q, false))
    ensures w.replies == [Byte(Ack), Byte(b)] + q ==>
      Exec(Confirmed(op, onNack), w) ==
      Run(if b == Ack then Ok else Protocol, [], Wire(w.sent + CommandFrame(op), q, false))
  {
    var c := CommandFrame(op);
    if b != Ack && w.replies == [Byte(b)] + q {
      ThenRefused(c, onNack, [Await(Protocol)], w, b, q);
    }
    if w.replies == [Byte(Ack), Byte(b)] + q {
      var q1 := [Byte(b)] + q;
      assert w.replies == [Byte(Ack)] + q1;
      ThenAck(c, onNack, [Await(Protocol)], w, q1);
      AwaitLast(Protocol, Wire(w.sent + c, q1, false), b, q);
    }
  }

  /** `stm32_write_unprotect`: 0x73, NACK to it is RDP, then a second ACK. */
  lemma WriteUnprotectOutcome(w: Wire, b: bv8, q: seq<Event>)
    requires !w.writeFails
    ensures w.replies == [Byte(Nack)] + q ==>
      Exec(Confirmed(OpWriteUnprotect, Rdp), w) == Run(Rdp, [], Wire(w.sent + [0x73, 0x8C], q, false))
    ensures w.replies == [Byte(Ack), Byte(b)] + q ==>
      Exec(Confirmed(OpWriteUnprotect, Rdp), w) ==
      Run(if b == Ack then Ok else Protocol, [], Wire(w.sent + [0x73, 0x8C], q, false))
  {
    ConfirmedOutcome(OpWriteUnprotect, Rdp, w, b, q);
    ConfirmedOutcome(OpWriteUnprotect, Rdp, w, Nack, q);
  }

  /** `stm32_readout_protect`: 0x82, NACK to it is RDP, then a second ACK. */
  lemma ReadoutProtectOutcome(w: Wire, b: bv8, q: seq<Event>)
    requires !w.writeFails
    ensures w.replies == [Byte(Nack)] + q ==>
      Exec(Confirmed(OpReadoutProtect, Rdp), w) == Run(Rdp, [], Wire(w.sent + [0x82, 0x7D], q, false))
    ensures w.replies == [Byte(Ack), Byte(b)] + q ==>
      Exec(Confirmed(OpReadoutProtect, Rdp), w) ==
      Run(if b == Ack then Ok else Protocol, [], Wire(w.sent + [0x82, 0x7D], q, false))
  {
    ConfirmedOutcome(OpReadoutProtect, Rdp, w, b, q);
    ConfirmedOutcome(OpReadoutProtect, Rdp, w, Nack, q);
  }

  /** `stm32_readout_unprotect`: 0x92, where even NACK to the command is a
      protocol error, then a second ACK. */
  lemma ReadoutUnprotectOutcome(w: Wire, b: bv8, q: seq<Event>)
    requires !w.writeFails
    ensures w.replies == [Byte(Nack)] + q ==>
      Exec(Confirmed(OpReadoutUnprotect, Protocol), w) == Run(Protocol, [], Wire(w.sent + [0x92, 0x6D], q, false))
    ensures w.replies == [Byte(Ack), Byte(b)] + q ==>
      Exec(Confirmed(OpReadoutUnprotect, Protocol), w) ==
      Run(if b == Ack then Ok else Protocol, [], Wire(w.sent + [0x92, 0x6D], q, false))
  {
    ConfirmedOutcome(OpReadoutUnprotect, Protocol, w, b, q);
    ConfirmedOutcome(OpReadoutUnprotect, Protocol, w, Nack, q);
  }

  /** `stm32_get`: any reply but ACK to the command, NACK included, is a
      protocol error; otherwise the count byte N, the version and N opcodes
      are returned once the closing ACK arrives. */
  lemma GetOutcome(version: bv8, commands: seq<bv8>, w: Wire, b: bv8, q: seq<Event>)
    requires !w.writeFails && |commands| < 0x100
    ensures b != Ack && w.replies == [Byte(b)] + q ==>
      GetRun(w) == Run(Protocol, [], Wire(w.sent + CommandFrame(OpGet), q, false))
    ensures w.replies == [Byte(Ack), Byte(|commands| as bv8), Byte(version)] + Events(commands) + [Byte(Ack)] + q ==>
      GetRun(w) == Run(Ok, [|commands| as bv8, version] + commands, Wire(w.sent + CommandFrame(OpGet), q, false))
  {
    var c := CommandFrame(OpGet);
    if b != Ack && w.replies == [Byte(b)] + q {
      ThenRefused(c, Protocol, [Receive(1)], w, b, q);
    }
    if w.replies == [Byte(Ack), Byte(|commands| as bv8), Byte(version)] + Events(commands) + [Byte(Ack)] + q {
      GetCompletes(version, commands, w, q);
    }
  }

  lemma GetCompletes(version: bv8, commands: seq<bv8>, w: Wire, q: seq<Event>)
    requires !w.writeFails && |commands| < 0x100
    requires w.replies == [Byte(Ack), Byte(|commands| as bv8), Byte(version)] + Events(commands) + [Byte(Ack)] + q
    ensures GetRun(w) == Run(Ok, [|commands| as bv8, version] + commands, Wire(w.sent + CommandFrame(OpGet), q, false))
  {
    assert w.replies == [Byte(Ack), Byte(|commands| as bv8)] + ([Byte(version)] + Events(commands) + [Byte(Ack)] + q);
    CountedHead(OpGet, |commands| as bv8, w, [Byte(version)] + Events(commands) + [Byte(Ack)] + q);
    GetBodyCompletes(version, commands, Wire(w.sent + CommandFrame(OpGet), [Byte(version)] + Events(commands) + [Byte(Ack)] + q, false), q);
    AppendAssoc([|commands| as bv8], [version], commands);
  }

  /** The head of get and get-id: an acknowledged command and the count byte. */
  lemma CountedHead(op: bv8, n: bv8, w: Wire, q: seq<Event>)
    requires !w.writeFails && w.replies == [Byte(Ack), Byte(n)] + q
    ensures Exec(Then(CommandFrame(op), Protocol, [Receive(1)]), w) == Run(Ok, [n], Wire(w.sent + CommandFrame(op), q, false))
  {
    var q1 := Events([n]) + q;
    assert w.replies == [Byte(Ack)] + q1;
    ThenAck(CommandFrame(op), Protocol, [Receive(1)], w, q1);
    ReceiveLast([n], Wire(w.sent + CommandFrame(op), q1, false), q);
  }

  lemma GetBodyCompletes(version: bv8, commands: seq<bv8>, w: Wire, q: seq<Event>)
    requires |commands| < 0x100 && w.replies == [Byte(version)] + Events(commands) + [Byte(Ack)] + q
    ensures Exec(GetBody(|commands| as bv8), w) == Run(Ok, [version] + commands, w.(replies := q))
  {
    var q4 := [Byte(Ack)] + q;
    var q3 := Events(commands) + q4;
    assert w.replies == Events([version]) + q3;
    ByteRoundTrip(|commands|);
    assert GetBody(|commands| as bv8) == [Receive(|[version]|)] + ([Receive(|commands|)] + [Await(Protocol)]);
    ReceiveThen([version], [Receive(|commands|)] + [Await(Protocol)], w, q3);
    ReceiveThen(commands, [Await(Protocol)], w.(replies := q3), q4);
    AwaitLast(Protocol, w.(replies := q4), Ack, q);
    assert commands + [] == commands;
  }

  /** `stm32_get_prs`: any reply but ACK to the command is a protocol error;
      otherwise the version and the two protection counters are returned once
      the closing ACK arrives. */
  lemma GetPrsOutcome(version: bv8, rpdc: bv8, rpec: bv8, w: Wire, b: bv8, q: seq<Event>)
    requires !w.writeFails
    ensures b != Ack && w.replies == [Byte(b)] + q ==>
      Exec(GetPrsExchange(), w) == Run(Protocol, [], Wire(w.sent + CommandFrame(OpGetRps), q, false))
    ensures w.replies == [Byte(Ack), Byte(version), Byte(rpdc), Byte(rpec), Byte(Ack)] + q ==>
      Exec(GetPrsExchange(), w) == Run(Ok, [version, rpdc, rpec], Wire(w.sent + CommandFrame(OpGetRps), q, false))
  {
    var c := CommandFrame(OpGetRps);
    var tail := [Receive(1)] + ([Receive(1)] + ([Receive(1)] + [Await(Protocol)]));
    if b != Ack && w.replies == [Byte(b)] + q {
      ThenRefused(c, Protocol, tail, w, b, q);
    }
    if w.replies == [Byte(Ack), Byte(version), Byte(rpdc), Byte(rpec), Byte(Ack)] + q {
      var q1 := [Byte(version)] + ([Byte(rpdc)] + ([Byte(rpec)] + ([Byte(Ack)] + q)));
      assert w.replies == [Byte(Ack)] + q1;
      ThenAck(c, Protocol, tail, w, q1);
      PrsCounters(version, rpdc, rpec, Wire(w.sent + c, q1, false), q);
    }
  }

  lemma PrsCounters(version: bv8, rpdc: bv8, rpec: bv8, w: Wire, q: seq<Event>)
    requires w.replies == [Byte(version)] + ([Byte(rpdc)] + ([Byte(rpec)] + ([Byte(Ack)] + q)))
    ensures Exec([Receive(1)] + ([Receive(1)] + ([Receive(1)] + [Await(Protocol)])), w) ==
      Run(Ok, [version, rpdc, rpec], w.(replies := q))
  {
    var q4 := [Byte(Ack)] + q;
    var q3 := [Byte(rpec)] + q4;
    var q2 := [Byte(rpdc)] + q3;
    var last := Run(Ok, [], w.(replies := q));
    assert Exec([Await(Protocol)], w.(replies := q4)) == last by {
      AwaitLast(Protocol, w.(replies := q4), Ack, q);
    }
    assert Exec([Receive(1)] + [Await(Protocol)], w.(replies := q3)) == Continue([rpec], last) by {
      ReceiveByte(rpec, [Await(Protocol)], w.(replies := q3), q4);
    }
    assert Exec([Receive(1)] + ([Receive(1)] + [Await(Protocol)]), w.(replies := q2)) == Continue([rpdc], Continue([rpec], last)) by {
      ReceiveByte(rpdc, [Receive(1)] + [Await(Protocol)], w.(replies := q2), q3);
    }
    ReceiveByte(version, [Receive(1)] + ([Receive(1)] + [Await(Protocol)]), w, q2);
    ThreeBytes(version, rpdc, rpec);
  }

  lemma ThreeBytes(a: bv8, b: bv8, c: bv8)
    ensures [a] + ([b] + ([c] + [])) == [a, b, c]
  {
    assert [c] + [] == [c];
    assert [b] + [c] == [b, c];
  }

  /** `stm32_get_id`: any reply but ACK to the command is a protocol error;
      otherwise the count byte N and N + 1 identifier bytes (counted in 8 bits)
      are returned once the closing ACK arrives. */
  lemma GetIdOutcome(n: bv8, id: seq<bv8>, w: Wire, b: bv8, q: seq<Event>)
    requires !w.writeFails && |id| == IdLength(n)
    ensures b != Ack && w.replies == [Byte(b)] + q ==>
      GetIdRun(w) == Run(Protocol, [], Wire(w.sent + CommandFrame(OpGetId), q, false))
    ensures w.replies == [Byte(Ack), Byte(n)] + Events(id) + [Byte(Ack)] + q ==>
      GetIdRun(w) == Run(Ok, [n] + id, Wire(w.sent + CommandFrame(OpGetId), q, false))
  {
    var c := CommandFrame(OpGetId);
    if b != Ack && w.replies == [Byte(b)] + q {
      ThenRefused(c, Protocol, [Receive(1)], w, b, q);
    }
    if w.replies == [Byte(Ack), Byte(n)] + Events(id) + [Byte(Ack)] + q {
      var q3 := [Byte(Ack)] + q;
      var q2 := Events(id) + q3;
      assert w.replies == [Byte(Ack), Byte(n)] + q2;
      CountedHead(OpGetId, n, w, q2);
      var w2 := Wire(w.sent + c, q2, false);
      ReceiveThen(id, [Await(Protocol)], w2, q3);
      AwaitLast(Protocol, w2.(replies := q3), Ack, q);
      assert id + [] == id;
    }
  }

  /** A count byte of 0xFF makes `stm32_get_id` read no identifier bytes at all:
      N + 1 wraps to 0 in its 8-bit length. */
  lemma GetIdLengthWraps(w: Wire, q: seq<Event>)
    requires !w.writeFails && w.replies == [Byte(Ack), Byte(0xFF), Byte(Ack)] + q
    ensures GetIdRun(w) == Run(Ok, [0xFF], Wire(w.sent + CommandFrame(OpGetId), q, false))
  {
    assert IdLength(0xFF) == 0;
    assert w.replies == [Byte(Ack), Byte(0xFF)] + Events([]) + [Byte(Ack)] + q;
    GetIdOutcome(0xFF, [], w, Ack, q);
  }
}
