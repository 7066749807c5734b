/** The receiving side of RAM migration (arch_init.c, load_xbzrle .. ram_load). */
module RamLoader {
  import opened Prelude
  import opened Xbzrle
  import opened RamWire

  /** A RAM block of the destination: its name and its maximal length in pages. */
  datatype Target = Target(id: Bytes, max: nat)

  /** The RAM of the destination, block by block, and the block that CONTINUE refers to. */
  datatype Loader = Loader(targets: seq<Target>, ram: seq<seq<Page>>, current: Option<nat>) {

    ghost predicate Ok() {
      && |ram| == |targets|
      && (forall d | 0 <= d < |ram| :: |ram[d]| == targets[d].max)
      && (current.Some? ==> current.value < |targets|)
    }
  }

  /** The search of host_from_stream_offset for a block of that name that has the page. */
  function FindFrom(targets: seq<Target>, id: Bytes, offset: nat, k: nat): (r: Option<nat>)
    requires k <= |targets|
    ensures r.Some? ==> k <= r.value < |targets| && targets[r.value].id == id && targets[r.value].max > offset
    ensures r.None? ==> forall d | k <= d < |targets| :: !(targets[d].id == id && targets[d].max > offset)
    decreases |targets| - k
  {
    if k == |targets| then None
    else if targets[k].id == id && targets[k].max > offset then Some(k)
    else FindFrom(targets, id, offset, k + 1)
  }

  /** host_from_stream_offset: the block that holds the page. */
  function Locate(l: Loader, h: Header): (r: Option<nat>)
    requires l.Ok()
    ensures r.Some? ==> r.value < |l.targets| && h.offset < l.targets[r.value].max
  {
    match h.id
    case None => if l.current.Some? && l.targets[l.current.value].max > h.offset then l.current else None
    case Some(id) => FindFrom(l.targets, id, h.offset, 0)
  }

  /** The page that record r leaves where page was; None when the delta is malformed. */
  function NewPage(r: Record, page: Page): (p: Option<Page>)
    requires !r.Eos?
  {
    match r
    case Fill(_, value) => Some(seq(PAGE_SIZE, _ => value))
    case Raw(_, new_) => Some(new_)
    case Patch(_, delta) =>
      (match Decode(delta, page)
       case None => None
       case Some(p) => Some(p))
  }

  function SetPage(ram: seq<seq<Page>>, d: nat, i: nat, page: Page): (r: seq<seq<Page>>)
    requires d < |ram| && i < |ram[d]|
  {
    var block: seq<Page> := ram[d];
    ram[d := block[i := page]]
  }

  /** What one record does to the destination; None is a load error. */
  function Apply(l: Loader, r: Record): (l': Option<Loader>)
    requires l.Ok()
    ensures l'.Some? ==> l'.value.Ok() && l'.value.targets == l.targets
  {
    if r.Eos? then Some(l) else
    match Locate(l, r.header)
    case None => None
    case Some(d) =>
      match NewPage(r, l.ram[d][r.header.offset])
      case None => None
      case Some(p) => Some(l.(ram := SetPage(l.ram, d, r.header.offset, p), current := Some(d)))
  }

  /** What ram_load does for one record: a delta goes through xbzrle_decode_buffer. */
  method LoadRecord(l: Loader, r: Record) returns (l': Option<Loader>)
    requires l.Ok()
    ensures l' == Apply(l, r)
  {
    if r.Eos? {
      return Some(l);
    }
    var d := Locate(l, r.header);
    if d.None? {
      return None;
    }
    var page: Page;
    match r {
      case Fill(_, value) =>
        page := seq(PAGE_SIZE, _ => value);
      case Raw(_, new_) =>
        page := new_;
      case Patch(_, delta) =>
        var ok, decoded := XbzrleDecodeBuffer(delta, l.ram[d.value][r.header.offset]);
        if !ok {
          return None;
        }
        page := decoded;
    }
    l' := Some(l.(ram := SetPage(l.ram, d.value, r.header.offset, page), current := d));
  }

  function ApplyAll(l: Loader, rs: seq<Record>): (l': Option<Loader>)
    requires l.Ok()
    ensures l'.Some? ==> l'.value.Ok() && l'.value.targets == l.targets
    decreases |rs|
  {
    if rs == [] then Some(l) else
    match Apply(l, rs[0])
    case None => None
    case Some(l1) => ApplyAll(l1, rs[1..])
  }

  /** Records that follow are applied to what the first ones leave. */
  lemma {:induction false} ApplyBoth(l: Loader, rs: seq<Record>, more: seq<Record>)
    requires l.Ok()
    ensures ApplyAll(l, rs + more) == match ApplyAll(l, rs) case None => None case Some(l') => ApplyAll(l', more)
    decreases |rs|
  {
    if rs == [] {
      assert rs + more == more;
    } else {
      assert (rs + more)[0] == rs[0] && (rs + more)[1..] == rs[1..] + more;
      if Apply(l, rs[0]).Some? {
        ApplyBoth(Apply(l, rs[0]).value, rs[1..], more);
      }
    }
  }

  function Flatten(bs: seq<Bytes>): Bytes {
    if bs == [] then [] else bs[0] + Flatten(bs[1..])
  }

  lemma {:induction false} FlattenAppend(bs: seq<Bytes>, b: Bytes)
    ensures Flatten(bs + [b]) == Flatten(bs) + b
  {
    if bs == [] {
      assert bs + [b] == [b];
    } else {
      assert (bs + [b])[0] == bs[0] && (bs + [b])[1..] == bs[1..] + [b];
      FlattenAppend(bs[1..], b);
    }
  }

  ghost predicate AllSendable(rs: seq<Record>) {
    forall r | r in rs :: Sendable(r)
  }

  ghost function PrintAll(rs: seq<Record>): Bytes
    requires AllSendable(rs)
  {
    Flatten(seq(|rs|, k requires 0 <= k < |rs| => Print(rs[k])))
  }

  lemma PrintAllAppend(rs: seq<Record>, r: Record)
    requires Sendable(r) && AllSendable(rs)
    ensures AllSendable(rs + [r]) && PrintAll(rs + [r]) == PrintAll(rs) + Print(r)
  {
    var rs' := rs + [r];
    var bs := seq(|rs|, k requires 0 <= k < |rs| => Print(rs[k]));
    assert seq(|rs'|, k requires 0 <= k < |rs'| => Print(rs'[k])) == bs + [Print(r)];
    FlattenAppend(bs, Print(r));
  }

  /** Whatever bytes follow, wire is the print of the records. */
  ghost predicate Prints(wire: Bytes, rs: seq<Record>, rest: Bytes) {
    AllSendable(rs) && wire + rest == PrintAll(rs) + rest
  }

  /** Whatever records follow, after rs they find final. */
  ghost predicate Becomes(l: Loader, rs: seq<Record>, final: Loader, more: seq<Record>) {
    l.Ok() && final.Ok() && ApplyAll(l, rs + more) == ApplyAll(final, more)
  }

  /** wire holds the records rs, which turn l into final. */
  ghost predicate Carries(wire: Bytes, rs: seq<Record>, l: Loader, final: Loader) {
    l.Ok() && (forall rest: Bytes :: Prints(wire, rs, rest))
      && (forall more: seq<Record> :: Becomes(l, rs, final, more))
  }

  lemma CarriesMeans(wire: Bytes, rs: seq<Record>, l: Loader, final: Loader)
    requires Carries(wire, rs, l, final)
    ensures l.Ok() && final.Ok() && AllSendable(rs) && wire == PrintAll(rs) && ApplyAll(l, rs) == Some(final)
  {
    assert Prints(wire, rs, []) && Becomes(l, rs, final, []);
    assert wire + [] == wire && PrintAll(rs) + [] == PrintAll(rs) && rs + [] == rs;
  }

  lemma CarriesThat(wire: Bytes, rs: seq<Record>, l: Loader, final: Loader)
    requires l.Ok() && AllSendable(rs) && wire == PrintAll(rs) && ApplyAll(l, rs) == Some(final)
    ensures Carries(wire, rs, l, final)
  {
    forall more: seq<Record> ensures Becomes(l, rs, final, more) {
      ApplyBoth(l, rs, more);
    }
    forall rest: Bytes ensures Prints(wire, rs, rest) {
    }
  }

  lemma CarriesOn(wire: Bytes, rs: seq<Record>, l: Loader, final: Loader, r: Record)
    requires Carries(wire, rs, l, final) && final.Ok() && Sendable(r) && Apply(final, r).Some?
    ensures Carries(wire + Print(r), rs + [r], l, Apply(final, r).value)
  {
    CarriesMeans(wire, rs, l, final);
    PrintAllAppend(rs, r);
    ApplyBoth(l, rs, [r]);
    assert [r][1..] == [];
    CarriesThat(wire + Print(r), rs + [r], l, Apply(final, r).value);
  }

  /** The bytes of a list of records are read back record by record. */
  lemma ParseFirst(rs: seq<Record>)
    requires rs != [] && AllSendable(rs)
    ensures Parse(PrintAll(rs)) == Some((rs[0], |Print(rs[0])|))
    ensures PrintAll(rs)[|Print(rs[0])|..] == PrintAll(rs[1..])
  {
    var rest := rs[1..];
    var bs := seq(|rs|, k requires 0 <= k < |rs| => Print(rs[k]));
    assert seq(|rest|, k requires 0 <= k < |rest| => Print(rest[k])) == bs[1..];
    PrintParse(rs[0], PrintAll(rest));
  }

  /** ram_load: the destination after the next section of a stream, and what is left of the stream;
      None when it reports an error. */
  function Load(l: Loader, stream: Bytes): (r: Option<(Loader, Bytes)>)
    requires l.Ok()
    ensures r.Some? ==> r.value.0.Ok() && r.value.0.targets == l.targets && |r.value.1| < |stream|
    decreases |stream|
  {
    match Parse(stream)
    case None => None
    case Some((r, n)) =>
      match Apply(l, r)
      case None => None
      case Some(l') => if r.Eos? then Some((l', stream[n..])) else Load(l', stream[n..])
  }

  /** The loop of ram_load, on any stream. */
  method RamLoad(l0: Loader, stream: Bytes) returns (ok: bool, l: Loader, rest: Bytes)
    requires l0.Ok()
    ensures ok == Load(l0, stream).Some? && (ok ==> Load(l0, stream).value == (l, rest))
  {
    l, rest, ok := l0, stream, true;
    var eos := false;
    while !eos
      invariant ok && l.Ok()
      invariant if eos then Load(l0, stream) == Some((l, rest)) else Load(l0, stream) == Load(l, rest)
      decreases !eos, |rest|
    {
      match Parse(rest) {
        case None =>
          return false, l, rest;
        case Some((r, n)) =>
          var loaded := LoadRecord(l, r);
          if loaded.None? {
            return false, l, rest;
          }
          l, rest, eos := loaded.value, rest[n..], r.Eos?;
      }
    }
  }

  /** The length of the first section of a list of records. */
  ghost function Section(rs: seq<Record>): (n: nat)
    requires Eos in rs
    ensures 0 < n <= |rs| && rs[n - 1] == Eos && Eos !in rs[..n - 1]
  {
    if rs[0] == Eos then 1 else 1 + Section(rs[1..])
  }

  /** The section of a list of records that does not begin with its end. */
  lemma SectionTail(rs: seq<Record>)
    requires Eos in rs && rs[0] != Eos
    ensures Eos in rs[1..]
    ensures var n, m := Section(rs), Section(rs[1..]);
            n == 1 + m && rs[..n] == [rs[0]] + rs[1..][..m] && rs[n..] == rs[1..][m..]
  {
    assert rs == [rs[0]] + rs[1..];
    CutTail(rs, Section(rs[1..]));
  }

  lemma CutTail(rs: seq<Record>, m: nat)
    requires m < |rs|
    ensures rs[..1 + m] == [rs[0]] + rs[1..][..m] && rs[1 + m..] == rs[1..][m..]
  {
  }

  /** ram_load on printed records. */
  lemma LoadOne(l: Loader, rs: seq<Record>)
    requires l.Ok() && AllSendable(rs) && rs != []
    ensures Load(l, PrintAll(rs)) == match Apply(l, rs[0])
                                     case None => None
                                     case Some(l') => if rs[0] == Eos then Some((l', PrintAll(rs[1..])))
                                          else Load(l', PrintAll(rs[1..]))
  {
    ParseFirst(rs);
  }

  /** The section rs[..n] has been loaded. */
  ghost predicate Loads(l: Loader, rs: seq<Record>, n: nat)
    requires l.Ok() && AllSendable(rs) && n <= |rs|
  {
    match ApplyAll(l, rs[..n])
    case None => Load(l, PrintAll(rs)).None? && ApplyAll(l, rs).None?
    case Some(l') => Load(l, PrintAll(rs)) == Some((l', PrintAll(rs[n..]))) && ApplyAll(l', rs[n..]) == ApplyAll(l, rs)
  }

  /** Loading printed records is applying those of the first section, and leaves the others printed; it
      fails exactly when one of them cannot be applied. */
  lemma {:induction false} LoadPrinted(l: Loader, rs: seq<Record>)
    requires l.Ok() && AllSendable(rs) && Eos in rs
    ensures Loads(l, rs, Section(rs))
    decreases |rs|
  {
    LoadOne(l, rs);
    if rs[0] == Eos {
      assert rs[..1] == [Eos] && [Eos][1..] == [];
      assert ApplyAll(l, rs[..1]) == Some(l);
    } else {
      SectionTail(rs);
      ApplyFirst(l, rs[0], rs[1..][..Section(rs[1..])]);
      if Apply(l, rs[0]).Some? {
        LoadPrinted(Apply(l, rs[0]).value, rs[1..]);
      }
    }
  }

  lemma ApplyFirst(l: Loader, r: Record, rs: seq<Record>)
    requires l.Ok()
    ensures ApplyAll(l, [r] + rs) == match Apply(l, r) case None => None case Some(l') => ApplyAll(l', rs)
  {
    assert ([r] + rs)[1..] == rs;
  }

  /** A section of what is on the wire is loaded without an error, and the rest is on the wire still. */
  lemma Received(wire: Bytes, rs: seq<Record>, l: Loader, final: Loader)
    requires Carries(wire, rs, l, final) && Ended(rs) && wire != []
    ensures Eos in rs && Ended(rs[Section(rs)..])
    ensures match Load(l, wire)
            case None => false
            case Some((l', wire')) => Carries(wire', rs[Section(rs)..], l', final)
  {
    NothingCarried(wire, rs, l, final);
    assert rs[|rs| - 1] == Eos;
    CarriesMeans(wire, rs, l, final);
    LoadPrinted(l, rs);
    var loaded := Load(l, wire).value;
    CarriesThat(loaded.1, rs[Section(rs)..], loaded.0, final);
  }

  /** Every section ends. */
  ghost predicate Ended(rs: seq<Record>) {
    rs == [] || rs[|rs| - 1] == Eos
  }

  /** The receiver has nothing to read when, and only when, all records are loaded. */
  lemma NothingCarried(wire: Bytes, rs: seq<Record>, l: Loader, final: Loader)
    requires Carries(wire, rs, l, final)
    ensures wire == [] <==> rs == []
    ensures rs == [] ==> l == final
  {
    CarriesMeans(wire, rs, l, final);
    if rs != [] {
      ParseFirst(rs);
    }
  }
}
