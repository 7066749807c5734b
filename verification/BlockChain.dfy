/** Backing chains: allocation queries and commit (block.c, bdrv_co_get_block_status,
    bdrv_is_allocated_above, bdrv_commit). */
module BlockChain {
  import opened Prelude

  /** The contents of a sector. */
  type Sector = seq<byte>

  /** Which sectors an image of the chain has allocated; its length is that of the map. Asked about a
      sector its driver fails, or reports a run from there no longer than the status says. */
  datatype Image = Image(present: seq<bool>, status: nat -> Option<nat>) {

    /** Past its end an image has nothing allocated. */
    predicate Has(s: nat) {
      s < |present| && present[s]
    }

    /** The driver is asked only about sectors of the image. */
    predicate Fails(s: nat) {
      s < |present| && status(s).None?
    }
  }

  function Min(x: int, y: int): int {
    if x < y then x else y
  }

  /** bdrv_is_allocated: whether the image has sector s allocated, and n sectors from there that are
      alike; None when the driver fails. The driver may report a shorter run than there is, but not an
      empty one. */
  method IsAllocated(image: Image, s: nat, nbSectors: nat) returns (r: Option<bool>, n: nat)
    requires nbSectors > 0
    ensures r == if image.Fails(s) then None else Some(image.Has(s))
    ensures n <= nbSectors && (n == 0 <==> r.None? || s >= |image.present|) && (n > 0 ==> s + n <= |image.present|)
    ensures forall k: nat | s <= k < s + n :: r == Some(image.Has(k))
  {
    if s >= |image.present| {
      return Some(false), 0;
    }
    if image.status(s).None? {
      return None, 0;
    }
    var limit, here := Min(nbSectors, |image.present| - s), image.present[s];
    r, n := Some(here), 1;
    while n < limit && image.present[s + n] == here && n < image.status(s).value
      invariant 1 <= n <= limit
      invariant forall k: nat | s <= k < s + n :: image.Has(k) == here
      decreases limit - n
    {
      n := n + 1;
    }
  }

  /** Some of the images from first on, but before the base, has sector s. */
  ghost predicate HasAbove(chain: seq<Image>, base: nat, s: nat) {
    exists i: nat :: i < base && i < |chain| && chain[i].Has(s)
  }

  /** The driver of an image above the base fails, and no image above that one has sector s. */
  ghost predicate FailsAbove(chain: seq<Image>, base: nat, s: nat) {
    exists i: nat :: i < base && i < |chain| && chain[i].Fails(s) && forall j: nat | j < i :: !chain[j].Has(s)
  }

  /** bdrv_is_allocated_above: the images of the chain from the top down to, but not with, the base
      (base == |chain| when there is none). All n sectors from s on are allocated in one image above
      the base, or in none; None when a driver fails. */
  method IsAllocatedAbove(chain: seq<Image>, base: nat, s: nat, nbSectors: nat) returns (r: Option<bool>, n: nat)
    requires base <= |chain| && nbSectors > 0
    ensures r == if FailsAbove(chain, base, s) then None else Some(HasAbove(chain, base, s))
    ensures n <= nbSectors && (r == Some(true) ==> n > 0)
    ensures r.Some? ==> forall k: nat | s <= k < s + n :: HasAbove(chain, base, k) == r.value
    ensures r == Some(false) && base > 0 ==> (n == 0 <==> s >= |chain[0].present|)
  {
    n := nbSectors;
    var i := 0;
    while i < |chain| && i != base
      invariant 0 <= i <= base && 0 <= n <= nbSectors
      invariant forall j: nat | j < i :: !chain[j].Has(s) && !chain[j].Fails(s)
      invariant forall j: nat, k: nat | j < i && s <= k < s + n :: !chain[j].Has(k)
      invariant if i == 0 then n == nbSectors else n == 0 <==> s >= |chain[0].present|
    {
      var here, pnum := IsAllocated(chain[i], s, nbSectors);
      if here.None? {
        return None, n;
      }
      if here.value {
        forall k: nat | s <= k < s + pnum ensures HasAbove(chain, base, k) {
          assert chain[i].Has(k);
        }
        return Some(true), pnum;
      }
      if n > pnum && (i == 0 || s + pnum < |chain[i].present|) {
        n := pnum;
      }
      i := i + 1;
    }
    r := Some(false);
  }

  const COMMIT_BUF_SECTORS := 2048

  datatype Error = ENOMEDIUM | ENOTSUP | EBUSY | EACCES | EIO | ENOMEM

  /** What may go wrong while a commit runs; a call that fails may do so at any sector. */
  datatype Faults = Faults(noDriver: bool, busy: bool, reopen: bool, length: bool, backingLength: bool, truncate: bool,
                           memory: bool, makeEmpty: bool,
                           status: nat -> Option<nat>, read: nat -> bool, write: nat -> bool)

  /** Nothing goes wrong while the sectors of an image of that length are copied. */
  ghost predicate Copies(f: Faults, length: nat) {
    forall s: nat | s < length :: f.status(s).Some? && !f.read(s) && !f.write(s)
  }

  class Chain {
    /** The top image: its sectors, and which of them it has itself. */
    var top: seq<Sector>
    var present: seq<bool>
    /** The backing image as a guest would see it, if there is one. */
    var backing: Option<seq<Sector>>
    const readOnly: bool
    /** The driver of the top image can empty it. */
    const canEmpty: bool
    const zero: Sector

    ghost predicate Valid()
      reads this
    {
      |present| == |top|
    }

    constructor (top: seq<Sector>, present: seq<bool>, backing: Option<seq<Sector>>, readOnly: bool, canEmpty: bool,
                 zero: Sector)
      requires |present| == |top|
      ensures Valid() && this.top == top && this.present == present && this.backing == backing
    {
      this.top, this.present, this.backing, this.readOnly, this.canEmpty, this.zero := top, present, backing, readOnly,
        canEmpty, zero;
    }

    /** What lies below sector s of the top image: zeros past the end of the backing image. */
    function Below(s: nat): Sector
      reads `backing
    {
      if backing.Some? && s < |backing.value| then backing.value[s] else zero
    }

    /** What a guest reads from sector s. */
    function Visible(s: nat): Sector
      requires Valid()
      reads this
    {
      if s < |top| && present[s] then top[s] else Below(s)
    }

    ghost predicate SectorKept(was: seq<Sector>, s: nat)
      requires Valid()
      reads this
    {
      s < |was| ==> Visible(s) == was[s]
    }

    /** The errors that bdrv_commit finds before it copies. */
    ghost function Early(backing: Option<seq<Sector>>, faults: Faults): Option<Error>
      reads `top
    {
      if faults.noDriver then Some(ENOMEDIUM)
      else if backing.None? then Some(ENOTSUP)
      else if faults.busy then Some(EBUSY)
      else if readOnly && faults.reopen then Some(EACCES)
      else if faults.length || faults.backingLength then Some(EIO)
      else if |top| > |backing.value| && faults.truncate then Some(EIO)
      else if faults.memory then Some(ENOMEM)
      else None
    }

    /** bdrv_commit. Whether it succeeds or fails half way, a guest sees the same sectors; when it
        succeeds they are in the backing image. */
    method Commit(faults: Faults, ghost was: seq<Sector>) returns (error: Option<Error>)
      requires Valid() && |was| == |top| && forall s: nat :: SectorKept(was, s)
      modifies `backing, `present
      ensures Valid() && |top| == |was| && forall s: nat :: SectorKept(was, s)
      ensures error.None? ==>
                backing.Some? && |top| <= |backing.value| && forall s: nat | s < |top| :: backing.value[s] == was[s]
      ensures error.None? && canEmpty ==> forall s: nat | s < |present| :: !present[s]
      ensures var early := Early(old(backing), faults); early.Some? ==> error == early && present == old(present)
      ensures Early(old(backing), faults).None? && Copies(faults, |top|) && !(canEmpty && faults.makeEmpty) ==>
              error.None?
    {
      if faults.noDriver {
        return Some(ENOMEDIUM);
      }
      if backing.None? {
        return Some(ENOTSUP);
      }
      if faults.busy {
        return Some(EBUSY);
      }
      if readOnly && faults.reopen {
        return Some(EACCES);
      }
      if faults.length || faults.backingLength {
        return Some(EIO);
      }
      if |top| > |backing.value| {
        if faults.truncate {
          return Some(EIO);
        }
        Truncate(was);
      }
      if faults.memory {
        return Some(ENOMEM);
      }
      error := CopyDown(faults, was);
      if error.None? && canEmpty {
        if faults.makeEmpty {
          return Some(EIO);
        }
        present := seq(|top|, _ => false);
      }
    }

    /** bdrv_truncate of the backing image to the length of the top, with zeros. */
    method Truncate(ghost was: seq<Sector>)
      requires Valid() && |was| == |top| && backing.Some? && |top| > |backing.value|
      requires forall s: nat :: SectorKept(was, s)
      modifies `backing
      ensures Valid() && backing.Some? && |backing.value| == |top| && forall s: nat :: SectorKept(was, s)
    {
      backing := Some(backing.value + seq(|top| - |backing.value|, _ => zero));
      forall s: nat ensures SectorKept(was, s) {
        assert old(SectorKept(was, s));
      }
    }

    /** The loop of bdrv_commit over the sectors. */
    method CopyDown(faults: Faults, ghost was: seq<Sector>) returns (error: Option<Error>)
      requires Valid() && |was| == |top| && backing.Some? && |top| <= |backing.value|
      requires forall s: nat :: SectorKept(was, s)
      modifies `backing
      ensures Valid() && backing.Some? && |backing.value| == |old(backing).value| && forall s: nat :: SectorKept(was, s)
      ensures error.None? ==> forall s: nat | s < |top| :: backing.value[s] == was[s]
      ensures Copies(faults, |top|) ==> error.None?
    {
      var sector := 0;
      while sector < |top|
        invariant 0 <= sector <= |top| && backing.Some? && |backing.value| == |old(backing).value|
        invariant forall s: nat :: SectorKept(was, s)
        invariant forall s: nat | s < sector :: backing.value[s] == was[s]
      {
        var image := Image(present, faults.status);
        var here, n := IsAllocated(image, sector, COMMIT_BUF_SECTORS);
        if here.None? {
          return Some(EIO);
        }
        forall s: nat | sector <= s < sector + n ensures present[s] == here.value {
          assert here == Some(image.Has(s));
        }
        if here.value {
          if faults.read(sector) || faults.write(sector) {
            return Some(EIO);
          }
          CopyRun(sector, n, was);
        } else {
          forall s: nat | s < sector + n ensures backing.value[s] == was[s] {
            assert SectorKept(was, s);
          }
        }
        sector := sector + n;
      }
      error := None;
    }

    /** bdrv_read of n sectors of the top image and bdrv_write of them to the backing image. */
    method CopyRun(sector: nat, n: nat, ghost was: seq<Sector>)
      requires Valid() && |was| == |top| && backing.Some? && sector + n <= |top| <= |backing.value|
      requires forall s: nat | sector <= s < sector + n :: present[s]
      requires forall s: nat :: SectorKept(was, s)
      modifies `backing
      ensures Valid() && backing.Some? && |backing.value| == |old(backing).value| && forall s: nat :: SectorKept(was, s)
      ensures forall s: nat | s < |backing.value| :: backing.value[s] == if sector <= s < sector + n then was[s]
              else old(backing).value[s]
    {
      var b := backing.value;
      forall s: nat | sector <= s < sector + n ensures top[s] == was[s] {
        assert SectorKept(was, s);
      }
      backing := Some(b[..sector] + top[sector..sector + n] + b[sector + n..]);
      forall s: nat ensures SectorKept(was, s) {
        assert old(SectorKept(was, s));
      }
    }
  }
}
