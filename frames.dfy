/** Frame codec of the STM32 system-memory bootloader USART protocol:
    the wire constants and the byte layouts of every frame the host sends.
    Frames are pure functions of their inputs; the loops that fill a local
    buffer and fold a checksum are methods proved equal to those functions. */
module Frames {

  /** C `uint16_t` and `uint32_t` as subsets of the integers. */
  type u16 = x: int | 0 <= x < 0x1_0000
  type u32 = x: int | 0 <= x < 0x1_0000_0000

  // Fixed wire values of the protocol.
  const Autobaud: bv8 := 0x7F
  const Ack: bv8 := 0x79
  const Nack: bv8 := 0x1F

  // Command opcodes.
  const OpGet: bv8 := 0x00
  const OpGetRps: bv8 := 0x01
  const OpGetId: bv8 := 0x02
  const OpRead: bv8 := 0x11
  const OpWrite: bv8 := 0x31
  const OpExtendedErase: bv8 := 0x44
  const OpWriteProtect: bv8 := 0x63
  const OpWriteUnprotect: bv8 := 0x73
  const OpReadoutProtect: bv8 := 0x82
  const OpReadoutUnprotect: bv8 := 0x92

  // Reserved 16-bit page counts of the extended erase that request a special erase.
  const EraseMassCode: u16 := 0xFFFF
  const EraseBank1Code: u16 := 0xFFFE
  const EraseBank2Code: u16 := 0xFFFD

  /** The three special erases, in the order of `stm32_erase_type_t`. */
  datatype EraseKind = Mass | Bank1 | Bank2

  function SpecialCode(kind: EraseKind): (c: u16)
    ensures c == EraseMassCode || c == EraseBank1Code || c == EraseBank2Code
    ensures kind == Mass ==> c == EraseMassCode
    ensures kind == Bank1 ==> c == EraseBank1Code
    ensures kind == Bank2 ==> c == EraseBank2Code
  {
    match kind
    case Mass => EraseMassCode
    case Bank1 => EraseBank1Code
    case Bank2 => EraseBank2Code
  }

  /** XOR of all bytes, folded from the left as the checksum loops do. */
  function XorFold(s: seq<bv8>): bv8
  {
    if s == [] then 0 else XorFold(s[..|s| - 1]) ^ s[|s| - 1]
  }

  /** High and low byte of a 16-bit value (big-endian order on the wire). */
  function Hi(x: u16): bv8 { (x / 0x100) as bv8 }
  function Lo(x: u16): bv8 { (x % 0x100) as bv8 }

  /** Command frame: the opcode and its ones' complement. */
  function CommandFrame(op: bv8): seq<bv8>
  {
    [op, op ^ 0xFF]
  }

  /** The four big-endian bytes of a 32-bit address. */
  function AddressBytes(address: u32): seq<bv8>
  {
    [ (address / 0x100_0000) as bv8,
      (address / 0x1_0000 % 0x100) as bv8,
      (address / 0x100 % 0x100) as bv8,
      (address % 0x100) as bv8 ]
  }

  /** Address frame: the big-endian address followed by the XOR of its bytes. */
  function AddressFrame(address: u32): seq<bv8>
  {
    var b := AddressBytes(address);
    b + [b[0] ^ b[1] ^ b[2] ^ b[3]]
  }

  /** Length frame of a transfer of `count` bytes: `count - 1` and its complement. */
  function LengthFrame(count: int): seq<bv8>
    requires 1 <= count <= 0x100
  {
    var n := (count - 1) as bv8;
    [n, n ^ 0xFF]
  }

  /** Payload frame: a length byte, the data, then the XOR of the length byte and the data. */
  function PayloadFrame(lengthByte: bv8, data: seq<bv8>): seq<bv8>
  {
    [lengthByte] + data + [XorFold([lengthByte] + data)]
  }

  /** Big-endian bytes of a sequence of 16-bit page numbers. */
  function PageBytes(pages: seq<u16>): (r: seq<bv8>)
    ensures |r| == 2 * |pages|
  {
    if pages == [] then []
    else PageBytes(pages[..|pages| - 1]) + [Hi(pages[|pages| - 1]), Lo(pages[|pages| - 1])]
  }

  /** Page-list frame of the extended erase: the big-endian count minus one,
      every page big-endian, then the XOR of all those bytes. */
  function PageListFrame(pages: seq<u16>): seq<bv8>
    requires 1 <= |pages| <= 0x1_0000
  {
    var count: u16 := |pages| - 1;
    var body := [Hi(count), Lo(count)] + PageBytes(pages);
    body + [XorFold(body)]
  }

  /** Special-erase frame: the big-endian reserved code and the XOR of its two bytes. */
  function SpecialEraseFrame(kind: EraseKind): seq<bv8>
  {
    var code := SpecialCode(kind);
    [Hi(code), Lo(code), Hi(code) ^ Lo(code)]
  }

  /** Value of four big-endian bytes. */
  function BigEndian32(b: seq<bv8>): int
    requires |b| == 4
  {
    b[0] as int * 0x100_0000 + b[1] as int * 0x1_0000 + b[2] as int * 0x100 + b[3] as int
  }

  // ---------------------------------------------------------------------------
  // Checksum algebra

  lemma {:induction false} XorFoldAppend(a: seq<bv8>, b: seq<bv8>)
    ensures XorFold(a + b) == XorFold(a) ^ XorFold(b)
    decreases |b|
  {
    if b == [] {
      assert a + b == a;
    } else {
      var b' := b[..|b| - 1];
      assert (a + b)[..|a + b| - 1] == a + b';
      XorFoldAppend(a, b');
    }
  }

  lemma XorFoldSingle(x: bv8)
    ensures XorFold([x]) == x
  {
    assert [x][..0] == [];
  }

  lemma XorFoldPair(x: bv8, y: bv8)
    ensures XorFold([x, y]) == x ^ y
  {
    assert [x, y][..1] == [x];
    XorFoldSingle(x);
  }

  lemma ByteRoundTrip(x: int)
    requires 0 <= x < 0x100
    ensures (x as bv8) as int == x
  {
    if x < 0x10 { } else if x < 0x20 { } else if x < 0x40 { } else if x < 0x80 { } else { }
  }

  lemma ByteValue(b: bv8)
    ensures 0 <= b as int < 0x100 && (b as int) as bv8 == b
  {
  }

  /** Changing one byte by the mask `m` changes the XOR of the whole sequence by `m`. */
  lemma XorFoldUpdate(s: seq<bv8>, i: nat, m: bv8)
    requires i < |s|
    ensures XorFold(s[i := s[i] ^ m]) == XorFold(s) ^ m
  {
    var t := s[i := s[i] ^ m];
    assert s == s[..i] + [s[i]] + s[i + 1..];
    assert t == s[..i] + [s[i] ^ m] + s[i + 1..];
    XorFoldAppend(s[..i] + [s[i]], s[i + 1..]);
    XorFoldAppend(s[..i], [s[i]]);
    XorFoldAppend(s[..i] + [s[i] ^ m], s[i + 1..]);
    XorFoldAppend(s[..i], [s[i] ^ m]);
    XorFoldSingle(s[i]);
    XorFoldSingle(s[i] ^ m);
  }

  /** A payload frame checks: the XOR over the whole frame, checksum included, is zero. */
  lemma PayloadFrameChecks(lengthByte: bv8, data: seq<bv8>)
    ensures |PayloadFrame(lengthByte, data)| == |data| + 2
    ensures XorFold(PayloadFrame(lengthByte, data)) == 0
  {
    var body := [lengthByte] + data;
    XorFoldAppend(body, [XorFold(body)]);
    XorFoldSingle(XorFold(body));
  }

  /** Any nonzero error pattern confined to one byte of a frame that checks
      (in particular any single flipped bit) makes the frame fail its check. */
  lemma CorruptionDetected(frame: seq<bv8>, i: nat, m: bv8)
    requires XorFold(frame) == 0 && i < |frame| && m != 0
    ensures XorFold(frame[i := frame[i] ^ m]) != 0
  {
    XorFoldUpdate(frame, i, m);
  }

  lemma SingleBitFlipDetected(lengthByte: bv8, data: seq<bv8>, i: nat, bit: nat)
    requires i < |data| + 2 && bit < 8
    ensures var f := PayloadFrame(lengthByte, data);
            XorFold(f[i := f[i] ^ ((1 as bv8) << bit)]) != 0
  {
    PayloadFrameChecks(lengthByte, data);
    var m := (1 as bv8) << bit;
    assert m != 0 by {
      assert bit == 0 || bit == 1 || bit == 2 || bit == 3 || bit == 4 || bit == 5 || bit == 6 || bit == 7;
    }
    CorruptionDetected(PayloadFrame(lengthByte, data), i, m);
  }

  // ---------------------------------------------------------------------------
  // Frame layouts decode back to what they encode

  /** The command frame carries the opcode and a complement that checks. */
  lemma CommandFrameChecks(op: bv8)
    ensures |CommandFrame(op)| == 2 && CommandFrame(op)[0] == op
    ensures CommandFrame(op)[0] ^ CommandFrame(op)[1] == 0xFF
  {
  }

  lemma DivideByBytes(a: int)
    requires 0 <= a
    ensures a / 0x1_0000 == (a / 0x100) / 0x100
    ensures a / 0x100_0000 == (a / 0x1_0000) / 0x100
  {
    var q1 := a / 0x100;
    var q2 := q1 / 0x100;
    assert a == q2 * 0x1_0000 + (q1 % 0x100) * 0x100 + a % 0x100;
    var q3 := q2 / 0x100;
    assert a == q3 * 0x100_0000 + (q2 % 0x100) * 0x1_0000 + (q1 % 0x100) * 0x100 + a % 0x100;
  }

  /** The four address bytes are the big-endian digits of the address. */
  lemma AddressBytesDecode(address: u32)
    ensures BigEndian32(AddressBytes(address)) == address
  {
    var a := address;
    DivideByBytes(a);
    var q1 := a / 0x100;
    var q2 := q1 / 0x100;
    var q3 := q2 / 0x100;
    assert a == q1 * 0x100 + a % 0x100;
    assert q1 == q2 * 0x100 + q1 % 0x100;
    assert q2 == q3 * 0x100 + q2 % 0x100;
    ByteRoundTrip(q3);
    ByteRoundTrip(q2 % 0x100);
    ByteRoundTrip(q1 % 0x100);
    ByteRoundTrip(a % 0x100);
  }

  /** The address frame is the big-endian address plus an XOR checksum that checks. */
  lemma AddressFrameDecodes(address: u32)
    ensures |AddressFrame(address)| == 5
    ensures BigEndian32(AddressFrame(address)[..4]) == address
    ensures XorFold(AddressFrame(address)) == 0
  {
    var b := AddressBytes(address);
    assert AddressFrame(address)[..4] == b;
    AddressBytesDecode(address);
    FourByteChecksum(b);
  }

  lemma FourByteChecksum(b: seq<bv8>)
    requires |b| == 4
    ensures XorFold(b + [b[0] ^ b[1] ^ b[2] ^ b[3]]) == 0
  {
    var c := b[0] ^ b[1] ^ b[2] ^ b[3];
    assert b == [b[0], b[1]] + [b[2], b[3]];
    XorFoldAppend([b[0], b[1]], [b[2], b[3]]);
    XorFoldPair(b[0], b[1]);
    XorFoldPair(b[2], b[3]);
    XorFoldAppend(b, [c]);
    XorFoldSingle(c);
  }

  /** The length frame encodes `count - 1`, so every count from 1 to 256 gets its
      own length byte, and the second byte is its complement. */
  lemma LengthFrameDecodes(count: int)
    requires 1 <= count <= 0x100
    ensures |LengthFrame(count)| == 2
    ensures LengthFrame(count)[0] as int + 1 == count
    ensures LengthFrame(count)[0] ^ LengthFrame(count)[1] == 0xFF
  {
    ByteRoundTrip(count - 1);
  }

  lemma HiLoDecodes(x: u16)
    ensures Hi(x) as int * 0x100 + Lo(x) as int == x
  {
    ByteRoundTrip(x / 0x100);
    ByteRoundTrip(x % 0x100);
  }

  lemma PageBytesStep(pages: seq<u16>, i: nat)
    requires i < |pages|
    ensures PageBytes(pages[..i + 1]) == PageBytes(pages[..i]) + [Hi(pages[i]), Lo(pages[i])]
  {
    assert pages[..i + 1][..i] == pages[..i];
  }

  /** Byte `2i` and `2i + 1` of the page bytes are page `i`, big-endian. */
  lemma {:induction false} PageBytesAt(pages: seq<u16>, i: nat)
    requires i < |pages|
    ensures PageBytes(pages)[2 * i] == Hi(pages[i]) && PageBytes(pages)[2 * i + 1] == Lo(pages[i])
  {
    var n := |pages|;
    if i < n - 1 {
      PageBytesAt(pages[..n - 1], i);
    }
  }

  /** Byte layout of the page-list frame: count, page bytes, checksum. */
  lemma PageListFrameLayout(pages: seq<u16>)
    requires 1 <= |pages| <= 0x1_0000
    ensures var f := PageListFrame(pages);
      |f| == 2 * |pages| + 3 &&
      f[0] == Hi(|pages| - 1) && f[1] == Lo(|pages| - 1) &&
      (forall i :: 0 <= i < |pages| ==> f[2 * i + 2] == Hi(pages[i]) && f[2 * i + 3] == Lo(pages[i]))
  {
    var count: u16 := |pages| - 1;
    var body := [Hi(count), Lo(count)] + PageBytes(pages);
    assert PageListFrame(pages) == body + [XorFold(body)];
    forall i | 0 <= i < |pages|
      ensures body[2 * i + 2] == Hi(pages[i]) && body[2 * i + 3] == Lo(pages[i])
    {
      PageBytesAt(pages, i);
    }
  }

  /** The checksum byte makes the XOR of the whole page-list frame zero. */
  lemma PageListFrameChecks(pages: seq<u16>)
    requires 1 <= |pages| <= 0x1_0000
    ensures XorFold(PageListFrame(pages)) == 0
  {
    var count: u16 := |pages| - 1;
    var body := [Hi(count), Lo(count)] + PageBytes(pages);
    XorFoldAppend(body, [XorFold(body)]);
    XorFoldSingle(XorFold(body));
  }

  /** The page-list frame decodes to the page count and every page, in order,
      and its checksum checks. */
  lemma PageListFrameDecodes(pages: seq<u16>)
    requires 1 <= |pages| <= 0x1_0000
    ensures var f := PageListFrame(pages);
      |f| == 2 * |pages| + 3 &&
      f[0] as int * 0x100 + f[1] as int + 1 == |pages| &&
      (forall i :: 0 <= i < |pages| ==> f[2 * i + 2] as int * 0x100 + f[2 * i + 3] as int == pages[i]) &&
      XorFold(f) == 0
  {
    PageListFrameLayout(pages);
    PageListFrameChecks(pages);
    HiLoDecodes(|pages| - 1);
    forall i | 0 <= i < |pages|
      ensures Hi(pages[i]) as int * 0x100 + Lo(pages[i]) as int == pages[i]
    {
      HiLoDecodes(pages[i]);
    }
  }

  /** Every page count the extended erase accepts is sent as a count field
      that differs from the three reserved special-erase codes. */
  lemma PageCountIsNeverSpecial(pages: seq<u16>)
    requires 1 <= |pages| < 0x1_0000
    requires |pages| - 1 != EraseMassCode && |pages| - 1 != EraseBank1Code && |pages| - 1 != EraseBank2Code
    ensures forall kind :: PageListFrame(pages)[..2] != SpecialEraseFrame(kind)[..2]
  {
    var count: u16 := |pages| - 1;
    var f := PageListFrame(pages);
    assert f[..2] == [Hi(count), Lo(count)];
    HiLoDecodes(count);
    forall kind ensures f[..2] != SpecialEraseFrame(kind)[..2] {
      var code := SpecialCode(kind);
      assert SpecialEraseFrame(kind)[..2] == [Hi(code), Lo(code)];
      HiLoDecodes(code);
    }
  }

  /** The special-erase frame carries its reserved code and checks. */
  lemma SpecialEraseFrameDecodes(kind: EraseKind)
    ensures var f := SpecialEraseFrame(kind);
      |f| == 3 && f[0] as int * 0x100 + f[1] as int == SpecialCode(kind) && XorFold(f) == 0
  {
    var f := SpecialEraseFrame(kind);
    HiLoDecodes(SpecialCode(kind));
    assert f == [f[0], f[1]] + [f[2]];
    XorFoldAppend([f[0], f[1]], [f[2]]);
    XorFoldPair(f[0], f[1]);
    XorFoldSingle(f[2]);
  }

  // ---------------------------------------------------------------------------
  // Buffer-filling loops

  /** Fills a local buffer with the length byte, the data and the running
      checksum, as the write and write-protect operations do. */
  method BuildPayloadFrame(lengthByte: bv8, data: seq<bv8>) returns (frame: seq<bv8>)
    ensures frame == PayloadFrame(lengthByte, data)
  {
    var buffer := new bv8[|data| + 2];
    buffer[0] := lengthByte;
    var checksum := lengthByte;
    XorFoldSingle(lengthByte);
    var i := 0;
    while i < |data|
      invariant 0 <= i <= |data|
      invariant buffer[0] == lengthByte
      invariant buffer[1..i + 1] == data[..i]
      invariant checksum == XorFold([lengthByte] + data[..i])
    {
      buffer[i + 1] := data[i];
      assert ([lengthByte] + data[..i + 1])[..i + 1] == [lengthByte] + data[..i];
      checksum := checksum ^ data[i];
      i := i + 1;
    }
    buffer[i + 1] := checksum;
    assert data[..i] == data;
    frame := buffer[..];
    assert frame == [buffer[0]] + buffer[1..i + 1] + [buffer[i + 1]];
  }

  /** One page more in the frame under construction, and in its checksum. */
  lemma PageListStep(head: seq<bv8>, pages: seq<u16>, i: nat)
    requires i < |pages|
    ensures var f := head + PageBytes(pages[..i]);
      head + PageBytes(pages[..i + 1]) == f + [Hi(pages[i]), Lo(pages[i])] &&
      XorFold(f + [Hi(pages[i]), Lo(pages[i])]) == XorFold(f) ^ Hi(pages[i]) ^ Lo(pages[i])
  {
    var f := head + PageBytes(pages[..i]);
    PageBytesStep(pages, i);
    XorFoldAppend(f, [Hi(pages[i]), Lo(pages[i])]);
    XorFoldPair(Hi(pages[i]), Lo(pages[i]));
  }

  /** Emits the page count and then every page, big-endian, folding each byte
      into the checksum, as the extended erase does. */
  method BuildPageListFrame(pages: seq<u16>) returns (frame: seq<bv8>)
    requires 1 <= |pages| <= 0x1_0000
    ensures frame == PageListFrame(pages)
  {
    var count: u16 := |pages| - 1;
    var head := [Hi(count), Lo(count)];
    var checksum := Hi(count) ^ Lo(count);
    XorFoldPair(Hi(count), Lo(count));
    frame := head;
    var i := 0;
    while i < |pages|
      invariant 0 <= i <= |pages|
      invariant frame == head + PageBytes(pages[..i])
      invariant checksum == XorFold(frame)
    {
      PageListStep(head, pages, i);
      frame := frame + [Hi(pages[i]), Lo(pages[i])];
      checksum := checksum ^ Hi(pages[i]) ^ Lo(pages[i]);
      i := i + 1;
    }
    assert pages[..i] == pages;
    frame := frame + [checksum];
  }
}
