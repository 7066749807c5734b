/** XOR based zero run length encoding of a changed page (migration/xbzrle.c), with the small
    uleb128 numbers of util/cutils.c. */
module Xbzrle {
  import opened Prelude
  import opened Words

  function UlebEncode(n: nat): (b: seq<byte>)
    requires n <= 0x3fff
    ensures 1 <= |b| <= 2
  {
    if n < 0x80 then [n] else [n % 0x80 + 0x80, n / 0x80]
  }

  /** The number at position i and the bytes it takes; None when it exceeds 14 bits. */
  function UlebDecode(b: seq<byte>, i: nat): (r: Option<(nat, nat)>)
    requires i + 1 < |b|
    ensures r.Some? ==> 1 <= r.value.1 <= 2
  {
    if b[i] < 0x80 then Some((b[i], 1))
    else if b[i + 1] >= 0x80 then None
    else Some((b[i] as int - 0x80 + b[i + 1] as int * 0x80, 2))
  }

  lemma UlebRoundTrip(b: seq<byte>, i: nat, n: nat)
    requires n <= 0x3fff && i + 1 < |b| && i + |UlebEncode(n)| <= |b|
    requires b[i..i + |UlebEncode(n)|] == UlebEncode(n)
    ensures UlebDecode(b, i) == Some((n, |UlebEncode(n)|))
  {
    assert b[i] == b[i..i + |UlebEncode(n)|][0];
    assert |UlebEncode(n)| == 2 ==> b[i + 1] == b[i..i + 2][1];
  }

  /** One zero run and one nonzero run at position i of src, applied to page at position d. */
  function DecodeRun(src: seq<byte>, i: nat, page: seq<byte>, d: nat): (r: Option<(nat, nat, seq<byte>)>)
    requires i < |src| && d <= |page|
    ensures r.Some? ==> i < r.value.0 <= |src| && r.value.1 <= |page| == |r.value.2|
  {
    if |src| - i < 2 then None else
    var zrun := UlebDecode(src, i);
    if zrun.None? || (i > 0 && zrun.value.0 == 0) then None else
    var i1, d1 := i + zrun.value.1, d + zrun.value.0;
    if d1 > |page| || |src| - i1 < 2 then None else
    var nzrun := UlebDecode(src, i1);
    if nzrun.None? || nzrun.value.0 == 0 then None else
    var i2, n := i1 + nzrun.value.1, nzrun.value.0;
    if d1 + n > |page| || i2 + n > |src| then None else
    Some((i2 + n, d1 + n, page[..d1] + src[i2..i2 + n] + page[d1 + n..]))
  }

  /** xbzrle_decode_buffer as a function: the page it leaves, None when it reports an error. */
  function DecodeFrom(src: seq<byte>, i: nat, page: seq<byte>, d: nat): (r: Option<seq<byte>>)
    requires i <= |src| && d <= |page|
    ensures r.Some? ==> |r.value| == |page|
    decreases |src| - i
  {
    if i == |src| then Some(page) else
    match DecodeRun(src, i, page, d)
    case None => None
    case Some((i', d', page')) => DecodeFrom(src, i', page', d')
  }

  function Decode(src: seq<byte>, page: seq<byte>): (r: Option<seq<byte>>)
    ensures r.Some? ==> |r.value| == |page|
  {
    DecodeFrom(src, 0, page, 0)
  }

  /** xbzrle_decode_buffer, updating the page as it goes. */
  method XbzrleDecodeBuffer(src: seq<byte>, page0: seq<byte>) returns (ok: bool, page: seq<byte>)
    ensures ok == Decode(src, page0).Some? && |page| == |page0|
    ensures ok ==> page == Decode(src, page0).value
  {
    var i, d := 0, 0;
    page := page0;
    while i < |src|
      invariant 0 <= i <= |src| && 0 <= d <= |page| == |page0|
      invariant DecodeFrom(src, i, page, d) == Decode(src, page0)
    {
      match DecodeRun(src, i, page, d) {
        case None =>
          return false, page;
        case Some((i', d', page')) =>
          i, d, page := i', d', page';
      }
    }
    ok := true;
  }

  datatype Encoding = Unchanged | Overflow | Delta(bytes: seq<byte>)

  /** Whatever follows out, decoding it all from page `from` gets past out with `page` patched up
      to position i. */
  ghost predicate Reaches(out: seq<byte>, from: seq<byte>, i: nat, page: seq<byte>)
    requires i <= |page| == |from|
  {
    forall rest: seq<byte> ::
      DecodeFrom(out + rest, 0, from, 0) == DecodeFrom(out + rest, |out|, page, i)
  }

  /** The page when the first i bytes have been replaced. */
  function Patched(old_: seq<byte>, new_: seq<byte>, i: nat): (p: seq<byte>)
    requires i <= |old_| == |new_|
    ensures |p| == |new_|
  {
    new_[..i] + old_[i..]
  }

  /** The pair of runs for a stretch [i, j) that is equal and a stretch [j, k) that is not. */
  function Runs(new_: seq<byte>, i: nat, j: nat, k: nat): (b: seq<byte>)
    requires i <= j < k <= |new_| <= 0x3fff
  {
    UlebEncode(j - i) + UlebEncode(k - j) + new_[j..k]
  }

  lemma Slices(out: seq<byte>, z: seq<byte>, n: seq<byte>, data: seq<byte>, rest: seq<byte>)
    ensures var src := out + (z + n + data) + rest;
            var i1 := |out| + |z|;
            var i2 := i1 + |n|;
            && |src| == i2 + |data| + |rest| && |out + (z + n + data)| == i2 + |data|
            && src[|out|..i1] == z && src[i1..i2] == n && src[i2..i2 + |data|] == data
  {
  }

  lemma RunsDecode(out: seq<byte>, page: seq<byte>, new_: seq<byte>, i: nat, j: nat, k: nat, rest: seq<byte>)
    requires i <= j < k <= |new_| == |page| <= 0x3fff
    requires out == [] || j > i
    ensures DecodeRun(out + Runs(new_, i, j, k) + rest, |out|, page, i)
         == Some((|out + Runs(new_, i, j, k)|, k, page[..j] + new_[j..k] + page[k..]))
  {
    var src := out + Runs(new_, i, j, k) + rest;
    Slices(out, UlebEncode(j - i), UlebEncode(k - j), new_[j..k], rest);
    RunsDecodeAt(src, |out|, page, new_, i, j, k);
  }

  lemma RunsDecodeAt(src: seq<byte>, i0: nat, page: seq<byte>, new_: seq<byte>, i: nat, j: nat, k: nat)
    requires i <= j < k <= |new_| == |page| <= 0x3fff && (i0 == 0 || j > i)
    requires var i1 := i0 + |UlebEncode(j - i)|;
             var i2 := i1 + |UlebEncode(k - j)|;
             && i2 + (k - j) <= |src|
             && src[i0..i1] == UlebEncode(j - i) && src[i1..i2] == UlebEncode(k - j)
             && src[i2..i2 + (k - j)] == new_[j..k]
    ensures DecodeRun(src, i0, page, i)
         == Some((i0 + |UlebEncode(j - i)| + |UlebEncode(k - j)| + (k - j), k, page[..j] + new_[j..k] + page[k..]))
  {
    var zlen, nlen := |UlebEncode(j - i)|, |UlebEncode(k - j)|;
    UlebRoundTrip(src, i0, j - i);
    UlebRoundTrip(src, i0 + zlen, k - j);
    RunAt(src, i0, page, i, j - i, zlen, k - j, nlen);
  }

  lemma RunAt(src: seq<byte>, i: nat, page: seq<byte>, d: nat, zrun: nat, zlen: nat, nzrun: nat, nlen: nat)
    requires i + 1 < |src| && d <= |page| && UlebDecode(src, i) == Some((zrun, zlen))
    requires i + zlen + 1 < |src| && UlebDecode(src, i + zlen) == Some((nzrun, nlen))
    requires (i == 0 || zrun > 0) && nzrun > 0
    requires d + zrun + nzrun <= |page| && i + zlen + nlen + nzrun <= |src|
    ensures var i2, d1 := i + zlen + nlen, d + zrun;
            DecodeRun(src, i, page, d)
            == Some((i2 + nzrun, d1 + nzrun, page[..d1] + src[i2..i2 + nzrun] + page[d1 + nzrun..]))
  {
  }

  lemma PatchedNext(old_: seq<byte>, new_: seq<byte>, i: nat, j: nat, k: nat)
    requires i <= j < k <= |new_| == |old_| && forall m | i <= m < j :: old_[m] == new_[m]
    ensures var page := Patched(old_, new_, i);
            page[..j] + new_[j..k] + page[k..] == Patched(old_, new_, k)
  {
    var page := Patched(old_, new_, i);
    assert page[..j] == new_[..i] + old_[i..j];
    assert new_[..j] == new_[..i] + new_[i..j];
    assert old_[i..j] == new_[i..j];
    assert new_[..j] + new_[j..k] == new_[..k];
    assert page[k..] == old_[k..];
  }

  lemma ReachesOver(out: seq<byte>, runs: seq<byte>, from: seq<byte>, page: seq<byte>, i: nat, rest: seq<byte>)
    requires i <= |page| == |from| && Reaches(out, from, i, page)
    ensures DecodeFrom(out + runs + rest, 0, from, 0) == DecodeFrom(out + runs + rest, |out|, page, i)
  {
    assert out + runs + rest == out + (runs + rest);
  }

  /** Emitting one pair of runs. */
  lemma ReachesNext(out: seq<byte>, old_: seq<byte>, new_: seq<byte>, i: nat, j: nat, k: nat)
    requires |old_| == |new_| <= 0x3fff && i <= j < k <= |new_|
    requires forall m | i <= m < j :: old_[m] == new_[m]
    requires out == [] || j > i
    requires Reaches(out, old_, i, Patched(old_, new_, i))
    ensures Reaches(out + Runs(new_, i, j, k), old_, k, Patched(old_, new_, k))
  {
    var runs := Runs(new_, i, j, k);
    var out' := out + runs;
    var page := Patched(old_, new_, i);
    PatchedNext(old_, new_, i, j, k);
    forall rest: seq<byte>
      ensures DecodeFrom(out' + rest, 0, old_, 0) == DecodeFrom(out' + rest, |out'|, Patched(old_, new_, k), k)
    {
      RunsDecode(out, page, new_, i, j, k, rest);
      ReachesOver(out, runs, old_, page, i, rest);
    }
  }

  /** j ends the longest stretch of equal bytes that starts at i. */
  ghost predicate EqualTo(a: seq<byte>, b: seq<byte>, i: nat, j: nat)
    requires |a| == |b|
  {
    i <= j <= |a| && (forall m | i <= m < j :: a[m] == b[m]) && (j < |a| ==> a[j] != b[j])
  }

  /** k ends the longest stretch of differing bytes that starts at j. */
  ghost predicate DiffersTo(a: seq<byte>, b: seq<byte>, j: nat, k: nat)
    requires |a| == |b|
  {
    && j <= k <= |a|
    && (forall m | j <= m < k :: a[m] != b[m])
    && (k < |a| ==> a[k] == b[k])
  }

  /** The zero run loops of xbzrle_encode_buffer: bytes up to a word boundary, then words, then
      the bytes of the word that differs. */
  method EqualRun(a: seq<byte>, b: seq<byte>, start: nat) returns (i: nat)
    requires |a| == |b| && |a| % WORD == 0 && start <= |a|
    ensures EqualTo(a, b, start, i)
  {
    i := start;
    var res := (|a| - i) % WORD;
    ghost var words := (|a| - i) / WORD;
    while res != 0 && a[i] == b[i]
      invariant start <= i <= |a| && 0 <= res && |a| - i == WORD * words + res && words >= 0
      invariant forall m | start <= m < i :: a[m] == b[m]
    {
      i := i + 1;
      res := res - 1;
    }
    if res == 0 {
      while i < |a| && a[i..i + WORD] == b[i..i + WORD]
        invariant start <= i <= |a| && |a| - i == WORD * words && words >= 0
        invariant forall m | start <= m < i :: a[m] == b[m]
      {
        SameWord(a, b, i);
        i := i + WORD;
        words := words - 1;
      }
      while i < |a| && a[i] == b[i]
        invariant start <= i <= |a|
        invariant forall m | start <= m < i :: a[m] == b[m]
      {
        i := i + 1;
      }
    }
  }

  lemma SameWord(a: seq<byte>, b: seq<byte>, i: nat)
    requires |a| == |b| && i + WORD <= |a| && a[i..i + WORD] == b[i..i + WORD]
    ensures forall m | i <= m < i + WORD :: a[m] == b[m]
  {
    forall m | i <= m < i + WORD
      ensures a[m] == b[m]
    {
      assert a[m] == a[i..i + WORD][m - i];
      assert b[m] == b[i..i + WORD][m - i];
    }
  }

  /** The nonzero run loops of xbzrle_encode_buffer. */
  method DifferRun(a: seq<byte>, b: seq<byte>, start: nat) returns (i: nat)
    requires |a| == |b| && |a| % WORD == 0 && start < |a| && a[start] != b[start]
    ensures DiffersTo(a, b, start, i) && start < i
  {
    i := start;
    var res := (|a| - i) % WORD;
    ghost var words := (|a| - i) / WORD;
    while res != 0 && a[i] != b[i]
      invariant start <= i <= |a| && 0 <= res && |a| - i == WORD * words + res && words >= 0
      invariant forall m | start <= m < i :: a[m] != b[m]
    {
      i := i + 1;
      res := res - 1;
    }
    if res == 0 {
      while i < |a|
        invariant start <= i <= |a| && |a| - i == WORD * words && words >= 0
        invariant forall m | start <= m < i :: a[m] != b[m]
      {
        WordTest(a, b, i);
        if HasZeroByte(Word(a, i) ^ Word(b, i)) {
          ghost var end :| i <= end < i + WORD && a[end] == b[end];
          while a[i] != b[i]
            invariant start <= i <= end
            invariant forall m | start <= m < i :: a[m] != b[m]
            decreases end - i
          {
            i := i + 1;
          }
          break;
        } else {
          i := i + WORD;
          words := words - 1;
        }
      }
    }
  }

  /** Where the next differing byte is, from i on. */
  ghost function NextDiffering(a: seq<byte>, b: seq<byte>, i: nat): (j: nat)
    requires i <= |a| == |b|
    ensures EqualTo(a, b, i, j)
    decreases |a| - i
  {
    if i == |a| || a[i] != b[i] then i else NextDiffering(a, b, i + 1)
  }

  /** Where the next equal byte is, from j on. */
  ghost function NextEqual(a: seq<byte>, b: seq<byte>, j: nat): (k: nat)
    requires j <= |a| == |b|
    ensures DiffersTo(a, b, j, k)
    decreases |a| - j
  {
    if j == |a| || a[j] == b[j] then j else NextEqual(a, b, j + 1)
  }

  /** The encoding of what differs from i on: a pair of runs for each stretch. */
  ghost function RunsFrom(old_: seq<byte>, new_: seq<byte>, i: nat): (b: seq<byte>)
    requires i <= |old_| == |new_| <= 0x3fff
    decreases |new_| - i
  {
    var j := NextDiffering(old_, new_, i);
    if j == |new_| then []
    else var k := NextEqual(old_, new_, j); Runs(new_, i, j, k) + RunsFrom(old_, new_, k)
  }

  /** How much room the encoder wants: two more bytes if the pages end alike. */
  ghost function Room(old_: seq<byte>, new_: seq<byte>, i: nat): nat
    requires i <= |old_| == |new_| <= 0x3fff
  {
    |RunsFrom(old_, new_, i)| + if i < |new_| && old_[|new_| - 1] == new_[|new_| - 1] then 2 else 0
  }

  /** What the first loop of the encoder leaves to be done from i on. */
  lemma RoomLeft(old_: seq<byte>, new_: seq<byte>, i: nat, j: nat)
    requires i < |old_| == |new_| <= 0x3fff && EqualTo(old_, new_, i, j)
    ensures Room(old_, new_, i) >= 2
    ensures j == |new_| ==> RunsFrom(old_, new_, i) == [] && Room(old_, new_, i) == 2
    ensures j < |new_| ==> Room(old_, new_, i) >= |UlebEncode(j - i)| + 2
  {
    assert NextDiffering(old_, new_, i) == j;
  }

  /** From i on, one pair of runs is needed for [i, k), and then what is needed from k on. */
  lemma RoomStep(old_: seq<byte>, new_: seq<byte>, i: nat, j: nat, k: nat)
    requires |old_| == |new_| <= 0x3fff && i <= j < k <= |new_|
    requires EqualTo(old_, new_, i, j) && DiffersTo(old_, new_, j, k)
    ensures RunsFrom(old_, new_, i) == Runs(new_, i, j, k) + RunsFrom(old_, new_, k)
    ensures Room(old_, new_, i) == |Runs(new_, i, j, k)| + Room(old_, new_, k)
    ensures |Runs(new_, i, j, k)| == |UlebEncode(j - i)| + |UlebEncode(k - j)| + (k - j)
  {
    assert NextDiffering(old_, new_, i) == j && NextEqual(old_, new_, j) == k;
  }

  /** out is the encoding of what differs before i. */
  ghost predicate Encoded(out: seq<byte>, old_: seq<byte>, new_: seq<byte>, i: nat)
    requires i <= |old_| == |new_| <= 0x3fff
  {
    && RunsFrom(old_, new_, 0) == out + RunsFrom(old_, new_, i)
    && Room(old_, new_, 0) == |out| + Room(old_, new_, i)
    && Reaches(out, old_, i, Patched(old_, new_, i))
  }

  lemma EncodedNone(old_: seq<byte>, new_: seq<byte>)
    requires |old_| == |new_| <= 0x3fff
    ensures Encoded([], old_, new_, 0)
  {
    assert Patched(old_, new_, 0) == old_;
  }

  lemma EncodedNext(out: seq<byte>, old_: seq<byte>, new_: seq<byte>, i: nat, j: nat, k: nat)
    requires |old_| == |new_| <= 0x3fff && i <= j < k <= |new_| && (out == [] || j > i)
    requires EqualTo(old_, new_, i, j) && DiffersTo(old_, new_, j, k) && Encoded(out, old_, new_, i)
    ensures Encoded(out + Runs(new_, i, j, k), old_, new_, k)
    ensures Room(old_, new_, 0) >= |out + Runs(new_, i, j, k)|
    ensures |Runs(new_, i, j, k)| == |UlebEncode(j - i)| + |UlebEncode(k - j)| + (k - j)
  {
    ReachesNext(out, old_, new_, i, j, k);
    RoomStep(old_, new_, i, j, k);
    Regroup(out, Runs(new_, i, j, k), RunsFrom(old_, new_, k));
  }

  lemma Regroup(a: seq<byte>, b: seq<byte>, c: seq<byte>)
    ensures a + (b + c) == a + b + c && |a + b| == |a| + |b|
  {
  }

  /** The encoding is complete when nothing differs from i on. */
  lemma EncodedAll(out: seq<byte>, old_: seq<byte>, new_: seq<byte>, i: nat)
    requires i <= |old_| == |new_| <= 0x3fff && Encoded(out, old_, new_, i) && EqualTo(old_, new_, i, |new_|)
    ensures out == RunsFrom(old_, new_, 0) && Decode(out, old_) == Some(new_)
    ensures Room(old_, new_, 0) == |out| + if i < |new_| then 2 else 0
  {
    if i < |new_| {
      RoomLeft(old_, new_, i, |new_|);
    }
    LastZeroRun(out, old_, new_, i);
  }

  /** One turn of the loop of xbzrle_encode_buffer, which gets to k and adds a pair of runs; nothing is
      added for the equal bytes at the end. When it is full there is no room. */
  method EncodeRuns(old_: seq<byte>, new_: seq<byte>, dlen: nat, i: nat, out: seq<byte>)
    returns (full: bool, k: nat, out': seq<byte>)
    requires |old_| == |new_| <= 0x3fff && |new_| % WORD == 0 && i < |new_| && |out| <= dlen
    requires Encoded(out, old_, new_, i) && (out == [] <==> i == 0) && (i > 0 ==> old_[i] == new_[i])
    ensures full ==> Room(old_, new_, 0) > dlen
    ensures !full ==> i < k <= |new_| && |out'| <= dlen
    ensures !full && out' == out ==> k == |new_| && EqualTo(old_, new_, i, k) && |out| + 2 <= dlen
    ensures !full && out' != out ==>
              out' != [] && old_ != new_ && Encoded(out', old_, new_, k) && (k < |new_| ==> old_[k] == new_[k])
  {
    out', k := out, i;
    ghost var next := NextDiffering(old_, new_, i);
    RoomLeft(old_, new_, i, next);
    if |out| + 2 > dlen {
      return true, k, out';
    }
    var j := EqualRun(old_, new_, i);
    assert j == next;
    if j == |new_| {
      return false, j, out';
    }
    if |out| + |UlebEncode(j - i)| + 2 > dlen {
      return true, k, out';
    }
    k := DifferRun(old_, new_, j);
    EncodedNext(out, old_, new_, i, j, k);
    if |out| + |UlebEncode(j - i)| + |UlebEncode(k - j)| + (k - j) > dlen {
      return true, k, out';
    }
    full, out' := false, out + Runs(new_, i, j, k);
  }

  /** xbzrle_encode_buffer: a delta holds the pairs of runs and decodes, from the old page, to the new
      one; it is given up exactly when there is not enough room. */
  method XbzrleEncodeBuffer(old_: seq<byte>, new_: seq<byte>, dlen: nat) returns (r: Encoding)
    requires |old_| == |new_| <= 0x3fff && |new_| % WORD == 0
    ensures r.Overflow? <==> Room(old_, new_, 0) > dlen
    ensures r.Unchanged? <==> Room(old_, new_, 0) <= dlen && old_ == new_
    ensures r.Delta? ==> r.bytes == RunsFrom(old_, new_, 0) && r.bytes != [] && Decode(r.bytes, old_) == Some(new_)
  {
    var i, out := 0, [];
    EncodedNone(old_, new_);
    while i < |new_|
      invariant 0 <= i <= |new_| && |out| <= dlen && Encoded(out, old_, new_, i)
      invariant (out == [] <==> i == 0) && (i > 0 ==> old_ != new_) && (0 < i < |new_| ==> old_[i] == new_[i])
    {
      var full, k, out' := EncodeRuns(old_, new_, dlen, i, out);
      if full {
        return Overflow;
      }
      if out' == out {
        EncodedAll(out, old_, new_, i);
        return if i == 0 then Unchanged else Delta(out);
      }
      i, out := k, out';
    }
    EncodedAll(out, old_, new_, i);
    return if i == 0 then Unchanged else Delta(out);
  }

  /** The last stretch of equal bytes needs no run. */
  lemma LastZeroRun(out: seq<byte>, old_: seq<byte>, new_: seq<byte>, i: nat)
    requires i <= |old_| == |new_| && old_[i..] == new_[i..]
    requires Reaches(out, old_, i, Patched(old_, new_, i))
    ensures Decode(out, old_) == Some(new_)
  {
    assert out + [] == out;
    assert DecodeFrom(out + [], 0, old_, 0) == DecodeFrom(out + [], |out|, Patched(old_, new_, i), i);
    assert Patched(old_, new_, i) == new_;
  }
}
