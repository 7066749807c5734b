/** Framing of the GDB remote serial protocol (gdbstub.c, fromhex .. put_packet_binary, gdb_read_byte). */
module GdbPackets {
  import opened Prelude

  const MAX_PACKET_LENGTH := 4096

  type Data = seq<byte>

  const DOLLAR: byte := 0x24
  const HASH: byte := 0x23
  const PLUS: byte := 0x2b
  const MINUS: byte := 0x2d

  function FromHex(v: byte): (d: nat)
    ensures d < 16
  {
    if 0x30 <= v <= 0x39 then v - 0x30
    else if 0x41 <= v <= 0x46 then v - 0x41 + 10
    else if 0x61 <= v <= 0x66 then v - 0x61 + 10
    else 0
  }

  function ToHex(v: nat): (c: byte)
    requires v < 16
  {
    if v < 10 then v + 0x30 else v - 10 + 0x61
  }

  lemma HexDigit(v: nat)
    requires v < 16
    ensures FromHex(ToHex(v)) == v && ToHex(v) != HASH
  {
  }

  /** Two hex digits for each byte. */
  function Hex(mem: Data): (s: Data)
    ensures |s| == 2 * |mem|
  {
    if mem == [] then []
    else var n := |mem| - 1; Hex(mem[..n]) + [ToHex(mem[n] / 16), ToHex(mem[n] % 16)]
  }

  /** memtohex. */
  method MemToHex(mem: Data) returns (buf: Data)
    ensures buf == Hex(mem)
  {
    buf := [];
    var i := 0;
    while i < |mem|
      invariant 0 <= i <= |mem| && buf == Hex(mem[..i])
    {
      assert mem[..i + 1][..i] == mem[..i];
      buf := buf + [ToHex(mem[i] / 16), ToHex(mem[i] % 16)];
      i := i + 1;
    }
    assert mem[..i] == mem;
  }

  /** hextomem: undoes memtohex. */
  method HexToMem(buf: Data, len: nat, ghost mem: Data) returns (r: Data)
    requires 2 * len <= |buf|
    ensures |r| == len && forall i | 0 <= i < len :: r[i] == 16 * FromHex(buf[2 * i]) + FromHex(buf[2 * i + 1])
    ensures buf == Hex(mem) && len == |mem| ==> r == mem
  {
    r := [];
    var i := 0;
    while i < len
      invariant 0 <= i <= len && |r| == i
      invariant forall j | 0 <= j < i :: r[j] == 16 * FromHex(buf[2 * j]) + FromHex(buf[2 * j + 1])
    {
      r := r + [16 * FromHex(buf[2 * i]) + FromHex(buf[2 * i + 1])];
      i := i + 1;
    }
    if buf == Hex(mem) && len == |mem| {
      forall j | 0 <= j < len ensures r[j] == mem[j] {
        HexAt(mem, j);
      }
    }
  }

  lemma {:induction false} HexAt(mem: Data, j: nat)
    requires j < |mem|
    ensures Hex(mem)[2 * j] == ToHex(mem[j] / 16) && Hex(mem)[2 * j + 1] == ToHex(mem[j] % 16)
    ensures 16 * FromHex(Hex(mem)[2 * j]) + FromHex(Hex(mem)[2 * j + 1]) == mem[j]
  {
    var n := |mem| - 1;
    if j < n {
      HexAt(mem[..n], j);
    }
    HexDigit(mem[j] / 16);
    HexDigit(mem[j] % 16);
  }

  function Sum(d: Data): nat {
    if d == [] then 0 else Sum(d[..|d| - 1]) + d[|d| - 1]
  }

  /** A packet as put_packet_binary prints it. */
  function Frame(d: Data): Data {
    [DOLLAR] + d + [HASH] + [ToHex(Sum(d) / 16 % 16), ToHex(Sum(d) % 16)]
  }

  /** put_packet_binary: what goes into last_packet, whose size is sufficient. */
  method PutPacketBinary(buf: Data) returns (packet: Data)
    requires |buf| <= MAX_PACKET_LENGTH
    ensures packet == Frame(buf) && |packet| <= MAX_PACKET_LENGTH + 4
  {
    packet := [DOLLAR] + buf;
    var csum: nat, i: nat := 0, 0;
    while i < |buf|
      invariant 0 <= i <= |buf| && csum == Sum(buf[..i])
    {
      assert buf[..i + 1][..i] == buf[..i];
      csum := csum + buf[i];
      i := i + 1;
    }
    assert buf[..i] == buf;
    packet := packet + [HASH] + [ToHex(csum / 16 % 16), ToHex(csum % 16)];
  }

  datatype State = Idle | GetLine | Checksum1 | Checksum2

  /** The state of the parser: line is what line_buf holds. */
  datatype Parser = Parser(state: State, line: Data, csum: nat)

  datatype Event = Nack | Ack(packet: Data)

  /** The switch of gdb_read_byte: the next state, and what is answered and delivered. */
  function Next(p: Parser, ch: byte): (r: (Parser, seq<Event>))
    ensures |p.line| <= MAX_PACKET_LENGTH - 1 ==> |r.0.line| <= MAX_PACKET_LENGTH - 1
  {
    match p.state
    case Idle => (if ch == DOLLAR then p.(line := [], state := GetLine) else p, [])
    case GetLine =>
      if ch == HASH then (p.(state := Checksum1), [])
      else if |p.line| >= MAX_PACKET_LENGTH - 1 then (p.(state := Idle), [])
      else (p.(line := p.line + [ch]), [])
    case Checksum1 => (p.(csum := 16 * FromHex(ch), state := Checksum2), [])
    case Checksum2 =>
      var csum := p.csum + FromHex(ch);
      (p.(csum := csum, state := Idle), if csum == Sum(p.line) % 256 then [Ack(p.line)] else [Nack])
  }

  /** A run of bytes through the parser. */
  function Feed(p: Parser, bytes: Data): (r: (Parser, seq<Event>)) {
    if bytes == [] then (p, [])
    else
      var n := |bytes| - 1;
      var before := Feed(p, bytes[..n]);
      var last := Next(before.0, bytes[n]);
      (last.0, before.1 + last.1)
  }

  lemma FeedOne(p: Parser, bytes: Data, ch: byte)
    ensures Feed(p, bytes + [ch]) == (Next(Feed(p, bytes).0, ch).0, Feed(p, bytes).1 + Next(Feed(p, bytes).0, ch).1)
  {
    assert (bytes + [ch])[..|bytes|] == bytes;
  }

  /** Whatever comes in, the line buffer does not overflow. */
  lemma {:induction false} NoOverflow(p: Parser, bytes: Data)
    requires |p.line| <= MAX_PACKET_LENGTH - 1
    ensures |Feed(p, bytes).0.line| <= MAX_PACKET_LENGTH - 1
  {
    if bytes != [] {
      NoOverflow(p, bytes[..|bytes| - 1]);
    }
  }

  lemma {:induction false} FeedPayload(p: Parser, d: Data)
    requires p.state == Idle && |d| <= MAX_PACKET_LENGTH - 1 && HASH !in d
    ensures Feed(p, [DOLLAR] + d) == (Parser(GetLine, d, p.csum), [])
  {
    if d == [] {
      assert [DOLLAR] + d == [] + [DOLLAR];
      FeedOne(p, [], DOLLAR);
      assert Feed(p, []).1 + Next(p, DOLLAR).1 == [];
    } else {
      var n := |d| - 1;
      FeedPayload(p, d[..n]);
      assert [DOLLAR] + d == [DOLLAR] + d[..n] + [d[n]];
      FeedOne(p, [DOLLAR] + d[..n], d[n]);
      assert d[..n] + [d[n]] == d;
    }
  }

  /** A packet with any two checksum characters: it is delivered unchanged and acknowledged if and only
      if these stand for the sum of its bytes; otherwise it is refused. */
  lemma Framing(p: Parser, d: Data, c1: byte, c2: byte)
    requires p.state == Idle && |d| <= MAX_PACKET_LENGTH - 1 && HASH !in d
    ensures var r := Feed(p, [DOLLAR] + d + [HASH] + [c1] + [c2]);
            && r.0.state == Idle
            && r.1 == if 16 * FromHex(c1) + FromHex(c2) == Sum(d) % 256 then [Ack(d)] else [Nack]
  {
    FeedPayload(p, d);
    FeedOne(p, [DOLLAR] + d, HASH);
    FeedOne(p, [DOLLAR] + d + [HASH], c1);
    FeedOne(p, [DOLLAR] + d + [HASH] + [c1], c2);
  }

  lemma Nibbles(n: nat)
    ensures 16 * FromHex(ToHex(n / 16 % 16)) + FromHex(ToHex(n % 16)) == n % 256
  {
    HexDigit(n / 16 % 16);
    HexDigit(n % 16);
    TwoDigits(n);
  }

  lemma TwoDigits(n: nat)
    ensures 16 * (n / 16 % 16) + n % 16 == n % 256
  {
    var q, r := n / 256, n % 256;
    assert n == 256 * q + r;
    assert n / 16 == 16 * q + r / 16;
  }

  /** What put_packet_binary prints is delivered as it was. */
  lemma RoundTrip(p: Parser, d: Data)
    requires p.state == Idle && |d| <= MAX_PACKET_LENGTH - 1 && HASH !in d
    ensures Feed(p, Frame(d)).0.state == Idle && Feed(p, Frame(d)).1 == [Ack(d)]
  {
    var c1, c2 := ToHex(Sum(d) / 16 % 16), ToHex(Sum(d) % 16);
    Framing(p, d, c1, c2);
    Nibbles(Sum(d));
    assert Frame(d) == [DOLLAR] + d + [HASH] + [c1] + [c2];
  }

  class Gdb {
    var state: State
    var lineBuf: array<byte>
    var lineBufIndex: nat
    var lineCsum: nat
    var lastPacket: Data
    var running: bool
    /** What has been written to the client, and what gdb_handle_packet has been given. */
    var out: Data
    var delivered: seq<Data>
    /** The answer of gdb_handle_packet to a packet, if it has one. */
    const handler: Data -> Option<Data>

    constructor (handler: Data -> Option<Data>)
      requires forall d: Data | handler(d).Some? :: |handler(d).value| <= MAX_PACKET_LENGTH
      ensures Valid() && fresh(lineBuf) && state == Idle && lastPacket == [] && !running && out == [] && delivered == []
      ensures this.handler == handler
    {
      this.handler, state, lineBuf, lineBufIndex, lineCsum := handler, Idle, new byte[MAX_PACKET_LENGTH](_ => 0), 0, 0;
      lastPacket, running, out, delivered := [], false, [], [];
    }

    ghost predicate Valid()
      reads this
    {
      lineBuf.Length == MAX_PACKET_LENGTH && lineBufIndex <= MAX_PACKET_LENGTH - 1
      && forall d: Data | handler(d).Some? :: |handler(d).value| <= MAX_PACKET_LENGTH
    }

    ghost function Parsing(): Parser
      requires Valid()
      reads this, lineBuf
    {
      Parser(state, lineBuf[..lineBufIndex], lineCsum)
    }

    /** What the parser makes of a byte: the answer, and the packet for gdb_handle_packet. */
    ghost predicate Answered(events: seq<Event>, out0: Data, delivered0: seq<Data>)
      reads this
    {
      if events == [] then out == out0 && delivered == delivered0 && lastPacket == []
      else match events[0]
           case Nack => out == out0 + [MINUS] && delivered == delivered0 && lastPacket == []
           case Ack(d) =>
             && delivered == delivered0 + [d]
             && lastPacket == (if handler(d).Some? then Frame(handler(d).value) else [])
             && out == out0 + [PLUS] + lastPacket
    }

    /** gdb_read_byte. */
    method ReadByte(ch: byte)
      requires Valid()
      modifies this, lineBuf
      ensures Valid() && lineBuf == old(lineBuf)
      ensures old(lastPacket) != [] && ch != DOLLAR ==>
                && Parsing() == old(Parsing()) && delivered == old(delivered) && running == old(running)
                && lastPacket == (if ch == PLUS then [] else old(lastPacket))
                && out == old(out) + if ch == MINUS then old(lastPacket) else []
      ensures (old(lastPacket) == [] || ch == DOLLAR) && old(running) ==>
                !running && Parsing() == old(Parsing()) && delivered == old(delivered) && out == old(out)
                  && lastPacket == []
      ensures (old(lastPacket) == [] || ch == DOLLAR) && !old(running) ==>
                && !running && Parsing() == Next(old(Parsing()), ch).0
                && Answered(Next(old(Parsing()), ch).1, old(out), old(delivered))
    {
      if lastPacket != [] {
        if ch == MINUS {
          out := out + lastPacket;
        }
        if ch == PLUS || ch == DOLLAR {
          lastPacket := [];
        }
        if ch != DOLLAR {
          return;
        }
      }
      if running {
        running := false;
        return;
      }
      match state {
        case Idle =>
          if ch == DOLLAR {
            lineBufIndex := 0;
            state := GetLine;
          }
        case GetLine =>
          if ch == HASH {
            state := Checksum1;
          } else if lineBufIndex >= lineBuf.Length - 1 {
            state := Idle;
          } else {
            lineBuf[lineBufIndex] := ch;
            lineBufIndex := lineBufIndex + 1;
          }
        case Checksum1 =>
          lineBuf[lineBufIndex] := 0;
          lineCsum := 16 * FromHex(ch);
          state := Checksum2;
        case Checksum2 =>
          CheckPacket(ch);
      }
    }

    /** The end of a packet. */
    method CheckPacket(ch: byte)
      requires Valid() && state == Checksum2 && lastPacket == [] && !running
      modifies this
      ensures Valid() && lineBuf == old(lineBuf) && !running && Parsing() == Next(old(Parsing()), ch).0
      ensures Answered(Next(old(Parsing()), ch).1, old(out), old(delivered))
    {
      lineCsum := lineCsum + FromHex(ch);
      var csum: nat, i: nat := 0, 0;
      while i < lineBufIndex
        invariant 0 <= i <= lineBufIndex && csum == Sum(lineBuf[..i])
        invariant Valid() && lineBuf == old(lineBuf) && unchanged(`lineBufIndex) && unchanged(`state)
                  && unchanged(`out) && unchanged(`delivered)
        invariant unchanged(`lastPacket) && unchanged(`running) && lineCsum == old(lineCsum) + FromHex(ch)
      {
        assert lineBuf[..i + 1][..i] == lineBuf[..i];
        csum := csum + lineBuf[i];
        i := i + 1;
      }
      state := Idle;
      if lineCsum != csum % 256 {
        out := out + [MINUS];
      } else {
        out := out + [PLUS];
        Handle(lineBuf[..lineBufIndex]);
      }
    }

    /** gdb_handle_packet, of which only the delivery and the answer matter here. */
    method Handle(packet: Data)
      requires Valid() && lastPacket == []
      modifies `delivered, `lastPacket, `out
      ensures Valid() && delivered == old(delivered) + [packet]
      ensures lastPacket == (if handler(packet).Some? then Frame(handler(packet).value) else [])
              && out == old(out) + lastPacket
    {
      delivered := delivered + [packet];
      var answer := handler(packet);
      if answer.Some? {
        lastPacket := PutPacketBinary(answer.value);
        out := out + lastPacket;
      }
    }

    /** A packet comes in while the parser is idle and the guest is stopped, whether or not the answer
        to the packet before has been acknowledged. */
    method ReceivePacket(d: Data, c1: byte, c2: byte)
      requires Valid() && state == Idle && !running && |d| <= MAX_PACKET_LENGTH - 1 && HASH !in d
      modifies this, lineBuf
      ensures Valid() && state == Idle && !running
      ensures Answered(if 16 * FromHex(c1) + FromHex(c2) == Sum(d) % 256 then [Ack(d)] else [Nack],
                       old(out), old(delivered))
    {
      var bytes := [DOLLAR] + d + [HASH] + [c1];
      ghost var p := Parsing();
      var k := 0;
      Quiet(p, d, c1);
      while k < |bytes|
        invariant 0 <= k <= |bytes| && Valid() && lineBuf == old(lineBuf) && !running
        invariant Parsing() == Feed(p, bytes[..k]).0 && out == old(out) && delivered == old(delivered)
        invariant k > 0 ==> lastPacket == []
      {
        assert bytes[..k + 1] == bytes[..k] + [bytes[k]];
        FeedOne(p, bytes[..k], bytes[k]);
        QuietPrefix(p, bytes, k + 1);
        ReadByte(bytes[k]);
        k := k + 1;
      }
      assert bytes[..k] == bytes;
      FeedOne(p, bytes, c2);
      Framing(p, d, c1, c2);
      ReadByte(c2);
    }
  }

  /** Nothing is answered before the last byte of a packet. */
  lemma Quiet(p: Parser, d: Data, c1: byte)
    requires p.state == Idle && |d| <= MAX_PACKET_LENGTH - 1 && HASH !in d
    ensures Feed(p, [DOLLAR] + d + [HASH] + [c1]).1 == []
  {
    FeedPayload(p, d);
    FeedOne(p, [DOLLAR] + d, HASH);
    FeedOne(p, [DOLLAR] + d + [HASH], c1);
  }

  lemma {:induction false} QuietPrefix(p: Parser, bytes: Data, k: nat)
    requires k <= |bytes| && Feed(p, bytes).1 == []
    ensures Feed(p, bytes[..k]).1 == []
    decreases |bytes| - k
  {
    if k < |bytes| {
      QuietPrefix(p, bytes, k + 1);
      assert bytes[..k + 1] == bytes[..k] + [bytes[k]];
      FeedOne(p, bytes[..k], bytes[k]);
    } else {
      assert bytes[..k] == bytes;
    }
  }
}
