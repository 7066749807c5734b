/** The cache of pages already sent that XBZRLE encodes against (page_cache.c). */
module RamCache {
  import opened Alignment
  import opened Prelude
  import opened RamWire

  const CACHED_PAGE_LIFETIME := 2

  /** One filled slot: the page number, when it was last used, and the data last sent. */
  datatype Item = Item(addr: nat, age: nat, data: Page)

  /** The slots; a page can only be in slot addr % |cache|. */
  type Cache = c: seq<Option<Item>> | |c| > 0 witness [None]

  /** cache_get_cache_pos; there are n slots. */
  function Slot(n: nat, addr: nat): (k: nat)
    requires n > 0
    ensures k < n
  {
    Rem(n, addr)
  }

  ghost predicate Placed(c: Cache) {
    forall k: nat | k < |c| && c[k].Some? :: Slot(|c|, c[k].value.addr) == k
  }

  /** get_cached_data, when the page is cached. */
  function Cached(c: Cache, addr: nat): (p: Option<Page>) {
    var item := c[Slot(|c|, addr)];
    if item.Some? && item.value.addr == addr then Some(item.value.data) else None
  }

  ghost predicate Empty(c: Cache) {
    forall k | 0 <= k < |c| :: c[k].None?
  }

  /** What is cached in c', but for page addr, was cached in c. */
  ghost predicate Within(c: Cache, c': Cache, addr: nat) {
    forall q: nat | q != addr && Cached(c', q).Some? :: Cached(c', q) == Cached(c, q)
  }

  /** Only slot k has changed, and holds the item. */
  ghost predicate Changed(c: Cache, c': Cache, k: nat, item: Item) {
    k < |c| == |c'| && c'[k] == Some(item) && forall j: nat | j < |c| && j != k :: c'[j] == c[j]
  }

  /** Slot k holds another page, used not long ago. */
  predicate Young(c: Cache, k: nat, addr: nat, age: nat) {
    k < |c| && c[k].Some? && c[k].value.addr != addr && c[k].value.age + CACHED_PAGE_LIFETIME > age
  }

  /** cache_is_cached: a hit makes the item young. */
  method IsCached(c: Cache, addr: nat, age: nat) returns (hit: bool, c': Cache)
    requires Placed(c)
    ensures Placed(c')
    ensures hit == Cached(c, addr).Some?
    ensures var k := Slot(|c|, addr);
            if hit then Changed(c, c', k, Item(addr, age, Cached(c, addr).value)) else c' == c
    ensures forall q: nat :: Cached(c', q) == Cached(c, q)
    ensures Empty(c) ==> Empty(c')
  {
    var item := c[Slot(|c|, addr)];
    c' := c;
    hit := false;
    if item.Some? && item.value.addr == addr {
      var t: seq<Option<Item>> := c;
      c' := t[Slot(|c|, addr) := Some(item.value.(age := age))];
      hit := true;
    }
  }

  /** cache_insert: alloc says whether g_try_malloc succeeds. */
  method Insert(c: Cache, addr: nat, data: Page, age: nat, alloc: bool) returns (ok: bool, c': Cache)
    requires Placed(c)
    ensures Placed(c')
    ensures var k := Slot(|c|, addr);
            && (ok <==> !Young(c, k, addr, age) && (c[k].Some? || alloc))
            && (ok ==> Changed(c, c', k, Item(addr, age, data))) && (!ok ==> c' == c)
    ensures Within(c, c', addr) && (ok ==> Cached(c', addr) == Some(data)) && (Cached(c, addr).Some? ==> ok)
  {
    var item := c[Slot(|c|, addr)];
    c' := c;
    if item.Some? && item.value.addr != addr && item.value.age + CACHED_PAGE_LIFETIME > age {
      return false, c;
    }
    if item.None? && !alloc {
      return false, c;
    }
    var t: seq<Option<Item>> := c;
    c' := t[Slot(|c|, addr) := Some(Item(addr, age, data))];
    ok := true;
  }

  /** One turn of the loop of cache_resize: of two items that collide the younger one stays. */
  method Move(c: Cache, item: Item) returns (c': Cache)
    requires Placed(c)
    ensures Placed(c') && |c'| == |c|
    ensures forall k: nat | k < |c| && k != Slot(|c|, item.addr) :: c'[k] == c[k]
    ensures var k := Slot(|c|, item.addr);
            && (c'[k] == c[k] || c'[k] == Some(item))
            && c'[k].Some? && c'[k].value.age >= item.age
            && (c[k].Some? ==> c'[k].value.age >= c[k].value.age)
  {
    var k := Slot(|c|, item.addr);
    if c[k].Some? && c[k].value.age >= item.age {
      c' := c;
    } else {
      var t: seq<Option<Item>> := c;
      c' := t[k := Some(item)];
    }
  }

  /** Item k of c', if any, is one of the first n items of c. */
  ghost predicate From(c: Cache, n: nat, c': Cache, k: nat)
    requires n <= |c| && k < |c'|
  {
    c'[k].Some? ==> exists j: nat :: j < n && c[j] == c'[k]
  }

  /** cache_resize: keeps an item of the old cache, unchanged, unless it collides with one that is
      at least as young. */
  method Resize(c: Cache, slots: nat) returns (c': Cache)
    requires Placed(c) && slots > 0
    ensures Placed(c') && |c'| == slots
    ensures forall q: nat | Cached(c', q).Some? :: Cached(c', q) == Cached(c, q)
    ensures forall j: nat | j < |c| && c[j].Some? ::
              var k := Slot(slots, c[j].value.addr);
              c'[k].Some? && c'[k].value.age >= c[j].value.age
    ensures Empty(c) ==> Empty(c')
  {
    var t: seq<Option<Item>> := seq(slots, _ => None);
    c' := t;
    var i := 0;
    while i < |c|
      invariant 0 <= i <= |c| && |c'| == slots && Placed(c')
      invariant forall k: nat | k < slots :: From(c, i, c', k)
      invariant forall j: nat | j < i && c[j].Some? ::
                  var k := Slot(slots, c[j].value.addr);
                  c'[k].Some? && c'[k].value.age >= c[j].value.age
    {
      ghost var before, n := c', i;
      if c[i].Some? {
        c' := Move(c', c[i].value);
      }
      i := i + 1;
      forall k: nat | k < slots ensures From(c, i, c', k) {
        assert From(c, n, before, k);
      }
    }
    forall q: nat | Cached(c', q).Some? ensures Cached(c', q) == Cached(c, q) {
      assert From(c, |c|, c', Slot(slots, q));
    }
    if Empty(c) {
      forall k: nat | k < slots ensures c'[k].None? {
        assert From(c, |c|, c', k);
      }
    }
  }
}
