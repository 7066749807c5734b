/** The stream of RAM pages of a live migration: its bytes (arch_init.c, save_page_header and the
    puts of ram_save_page and save_xbzrle_page) and what the receiver does with it (load_xbzrle,
    host_from_stream_offset, ram_load). */
module RamWire {
  import opened Prelude
  import opened ByteOrder

  const PAGE_SIZE := 4096
  const FLAG_COMPRESS := 0x02
  const FLAG_PAGE := 0x08
  const FLAG_EOS := 0x10
  const FLAG_CONTINUE := 0x20
  const FLAG_XBZRLE := 0x40
  const ENCODING_XBZRLE: byte := 1

  type Bytes = seq<byte>

  type Page = p: Bytes | |p| == PAGE_SIZE witness seq(PAGE_SIZE, _ => 0)

  function ZeroPage(): Page {
    seq(PAGE_SIZE, _ => 0)
  }

  /** Where a page belongs: its number within a block, and the name of the block unless it is the
      block of the page before. */
  datatype Header = Header(offset: nat, id: Option<Bytes>)

  datatype Record =
    | Fill(header: Header, value: byte)
    | Raw(header: Header, page: Page)
    | Patch(header: Header, delta: Bytes)
    | Eos

  function Kind(r: Record): nat {
    match r
    case Fill(_, _) => FLAG_COMPRESS
    case Raw(_, _) => FLAG_PAGE
    case Patch(_, _) => FLAG_XBZRLE
    case Eos => FLAG_EOS
  }

  function Word(r: Record): nat {
    if r.Eos? then FLAG_EOS
    else r.header.offset * PAGE_SIZE + Kind(r) + if r.header.id.None? then FLAG_CONTINUE else 0
  }

  function Name(r: Record): (b: Bytes)
    requires r.Eos? || r.header.id.None? || |r.header.id.value| < 256
  {
    if r.Eos? || r.header.id.None? then [] else [|r.header.id.value|] + r.header.id.value
  }

  function Payload(r: Record): (b: Bytes)
    requires r.Patch? ==> |r.delta| <= PAGE_SIZE
  {
    match r
    case Fill(_, value) => [value]
    case Raw(_, page) => page
    case Patch(_, delta) => [ENCODING_XBZRLE] + Be(|delta|, 2) + delta
    case Eos => []
  }

  /** Records that the sender can print. */
  ghost predicate Sendable(r: Record) {
    && (!r.Eos? ==> r.header.offset < 0x10_0000_0000_0000 && (r.header.id.Some? ==> |r.header.id.value| < 256))
    && (r.Patch? ==> |r.delta| <= PAGE_SIZE)
  }

  function Print(r: Record): (b: Bytes)
    requires Sendable(r)
    ensures |b| >= 8
  {
    Be(Word(r), 8) + Name(r) + Payload(r)
  }

  /** The header that b starts with, and its length. */
  function ParseHeader(b: Bytes, offset: nat, continues: bool): (r: Option<(Header, nat)>)
    ensures r.Some? ==> r.value.1 <= |b|
  {
    if continues then Some((Header(offset, None), 0))
    else if |b| == 0 || 1 + b[0] as int > |b| then None
    else Some((Header(offset, Some(b[1..1 + b[0] as int])), 1 + b[0] as int))
  }

  /** The record whose payload b starts with, and the length of the payload. */
  function ParsePayload(b: Bytes, kind: nat, header: Header): (r: Option<(Record, nat)>)
    ensures r.Some? ==> 0 < r.value.1 <= |b|
  {
    if kind == FLAG_COMPRESS then
      if 1 <= |b| then Some((Fill(header, b[0]), 1)) else None
    else if kind == FLAG_PAGE then
      if PAGE_SIZE <= |b| then Some((Raw(header, b[..PAGE_SIZE]), PAGE_SIZE)) else None
    else if kind == FLAG_XBZRLE then
      if |b| < 3 || b[0] != ENCODING_XBZRLE then None else
      var n := FromBe(b[1..3]);
      if n > PAGE_SIZE || 3 + n > |b| then None else Some((Patch(header, b[3..3 + n]), 3 + n))
    else
      None
  }

  /** One turn of the loop of ram_load: the record at the front of the stream and its length. */
  function Parse(b: Bytes): (r: Option<(Record, nat)>)
    ensures r.Some? ==> 0 < r.value.1 <= |b|
  {
    if |b| < 8 then None else
    var r := ParseWord(b[8..], FromBe(b[..8]));
    if r.None? then None else Some((r.value.0, 8 + r.value.1))
  }

  /** The record whose word has been read and whose name and payload b starts with. */
  function ParseWord(b: Bytes, word: nat): (r: Option<(Record, nat)>)
    ensures r.Some? ==> r.value.1 <= |b|
  {
    var offset, flags := word / PAGE_SIZE, word % PAGE_SIZE;
    var continues := flags / FLAG_CONTINUE % 2 == 1;
    var kind := if continues then flags - FLAG_CONTINUE else flags;
    if kind == FLAG_EOS then Some((Eos, 0)) else
    var h := ParseHeader(b, offset, continues);
    if h.None? then None else
    var p := ParsePayload(b[h.value.1..], kind, h.value.0);
    if p.None? then None else Some((p.value.0, h.value.1 + p.value.1))
  }

  lemma WordParts(r: Record)
    requires Sendable(r)
    ensures Word(r) < Pow256(8)
    ensures var flags := Word(r) % PAGE_SIZE;
            && (r.Eos? ==> flags == FLAG_EOS && flags / FLAG_CONTINUE % 2 == 0)
            && (!r.Eos? ==> Word(r) / PAGE_SIZE == r.header.offset
                            && flags == Kind(r) + (if r.header.id.None? then FLAG_CONTINUE else 0)
                            && (flags / FLAG_CONTINUE % 2 == 1 <==> r.header.id.None?))
  {
    assert Pow256(2) == 65536;
    assert Pow256(4) == 256 * Pow256(3) == 65536 * Pow256(2);
    assert Pow256(6) == 256 * Pow256(5) == 65536 * Pow256(4);
    assert Pow256(8) == 256 * Pow256(7) == 65536 * Pow256(6);
  }

  /** What the sender prints is what the receiver reads, whatever follows. */
  lemma PrintParse(r: Record, rest: Bytes)
    requires Sendable(r)
    ensures Parse(Print(r) + rest) == Some((r, |Print(r)|))
  {
    Unfold(Be(Word(r), 8), Name(r), Payload(r), rest);
    WordParts(r);
    BeRoundTrip(Word(r), 8);
    ParseWordPrint(r, rest);
  }

  lemma Unfold(word: Bytes, name: Bytes, payload: Bytes, rest: Bytes)
    ensures (word + name + payload + rest)[..|word|] == word
    ensures (word + name + payload + rest)[|word|..] == name + payload + rest
  {
  }

  lemma ParseWordPrint(r: Record, rest: Bytes)
    requires Sendable(r)
    ensures ParseWord(Name(r) + Payload(r) + rest, Word(r)) == Some((r, |Name(r)| + |Payload(r)|))
  {
    WordParts(r);
    if !r.Eos? {
      var b := Name(r) + Payload(r) + rest;
      assert b == Name(r) + (Payload(r) + rest);
      HeaderParse(r, Payload(r) + rest);
      assert b[|Name(r)|..] == Payload(r) + rest;
      PayloadParse(r, rest);
    }
  }

  lemma HeaderParse(r: Record, rest: Bytes)
    requires Sendable(r) && !r.Eos?
    ensures ParseHeader(Name(r) + rest, r.header.offset, r.header.id.None?) == Some((r.header, |Name(r)|))
  {
    var b := Name(r) + rest;
    if r.header.id.Some? {
      assert b[1..1 + |r.header.id.value|] == r.header.id.value;
    }
  }

  lemma PayloadParse(r: Record, rest: Bytes)
    requires Sendable(r) && !r.Eos?
    ensures ParsePayload(Payload(r) + rest, Kind(r), r.header) == Some((r, |Payload(r)|))
  {
    var b := Payload(r) + rest;
    match r {
      case Fill(_, _) =>
      case Raw(_, page) =>
        assert b[..PAGE_SIZE] == page;
      case Patch(_, delta) =>
        PatchSlices(ENCODING_XBZRLE, Be(|delta|, 2), delta, rest);
        assert |delta| < Pow256(2) by {
          assert Pow256(2) == 256 * Pow256(1);
        }
        BeRoundTrip(|delta|, 2);
    }
  }

  lemma PatchSlices(e: byte, n: Bytes, delta: Bytes, rest: Bytes)
    requires |n| == 2
    ensures var b := [e] + n + delta + rest;
            b[0] == e && b[1..3] == n && b[3..3 + |delta|] == delta
  {
  }
}
