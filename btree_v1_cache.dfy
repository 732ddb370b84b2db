/**
 * The page cache of the first B-tree engine: each of the key file and the
 * value file has 64 cache sets of two ways.  Page p maps to set
 * `h(p) % 64`, where `h` is the standard library's hash (a parameter of the
 * model).  Each set carries one LRU bit, `second`, which names the way the
 * next miss replaces.
 *
 * A file is modelled as a map from page numbers to pages.  A page the map does
 * not hold reads as zeros.  What a page IS is the view through the cache:
 * the buffer of a valid way that holds it, the file's page otherwise (`View`).
 */
module BTreeCacheV1 {
  import opened Bytes

  const CACHE_SIZE: nat := 64
  const PAGE_SIZE: nat := 4096

  datatype FileType = Key | Value

  /** `CacheBlock`. */
  datatype Block = Block(pageNum: nat, dirty: bool, valid: bool, page: seq<byte>)

  /** `CacheSet`: the two ways and the LRU bit. */
  datatype CacheSet = CacheSet(ways: seq<Block>, second: bool)

  /** The way an LRU bit names (`first[second]`). */
  function Way(second: bool): nat
  {
    if second then 1 else 0
  }

  function ZeroPage(): seq<byte>
  {
    seq(PAGE_SIZE, _ => 0)
  }

  /** The zeroed set the constructor's `memset` leaves. */
  function EmptySet(): CacheSet
  {
    CacheSet([Block(0, false, false, ZeroPage()), Block(0, false, false, ZeroPage())], false)
  }

  function DiskPage(disk: map<nat, seq<byte>>, p: nat): seq<byte>
  {
    if p in disk then disk[p] else ZeroPage()
  }

  /** `get_page_idx`: the set of page `p`, always one of the 64. */
  function SetIndex(h: nat -> nat, p: nat): (k: nat)
    ensures k < CACHE_SIZE
  {
    h(p) % CACHE_SIZE
  }

  predicate Shaped(sets: seq<CacheSet>)
  {
    |sets| == CACHE_SIZE && forall k :: 0 <= k < CACHE_SIZE ==> |sets[k].ways| == 2
  }

  predicate Holds(s: CacheSet, w: nat, p: nat)
    requires w < |s.ways|
  {
    s.ways[w].valid && s.ways[w].pageNum == p
  }

  /** The way the hit loop of `get_page` stops at, or -1 on a miss. */
  function HitWay(s: CacheSet, p: nat): (w: int)
    requires |s.ways| == 2
    ensures -1 <= w < 2
    ensures w >= 0 ==> Holds(s, w, p)
    ensures w < 0 <==> !Holds(s, 0, p) && !Holds(s, 1, p)
  {
    if Holds(s, 0, p) then 0 else if Holds(s, 1, p) then 1 else -1
  }

  /** Page `p` as the engine sees it: the cached buffer if a way holds it, the file's page otherwise. */
  function View(h: nat -> nat, disk: map<nat, seq<byte>>, sets: seq<CacheSet>, p: nat): seq<byte>
    requires Shaped(sets)
  {
    var s := sets[SetIndex(h, p)];
    var w := HitWay(s, p);
    if w >= 0 then s.ways[w].page else DiskPage(disk, p)
  }

  /**
   * A dirty block is valid; a valid block sits in the set of its page and
   * names a page of the file; a valid clean block equals the file's page.
   */
  predicate BlockOk(h: nat -> nat, disk: map<nat, seq<byte>>, b: Block, k: nat, n: nat)
  {
    && (b.dirty ==> b.valid)
    && (b.valid ==> SetIndex(h, b.pageNum) == k && b.pageNum < n)
    && (b.valid && !b.dirty ==> b.page == DiskPage(disk, b.pageNum))
  }

  /** The two ways of a set never hold the same page. */
  predicate SetOk(h: nat -> nat, disk: map<nat, seq<byte>>, s: CacheSet, k: nat, n: nat)
  {
    && |s.ways| == 2
    && BlockOk(h, disk, s.ways[0], k, n) && BlockOk(h, disk, s.ways[1], k, n)
    && !(s.ways[0].valid && s.ways[1].valid && s.ways[0].pageNum == s.ways[1].pageNum)
  }

  predicate SetsOk(h: nat -> nat, disk: map<nat, seq<byte>>, sets: seq<CacheSet>, n: nat)
  {
    |sets| == CACHE_SIZE && forall k :: 0 <= k < CACHE_SIZE ==> SetOk(h, disk, sets[k], k, n)
  }

  ghost predicate SameViews(h: nat -> nat, d0: map<nat, seq<byte>>, s0: seq<CacheSet>,
                            d1: map<nat, seq<byte>>, s1: seq<CacheSet>)
    requires Shaped(s0) && Shaped(s1)
  {
    forall q :: View(h, d1, s1, q) == View(h, d0, s0, q)
  }

  /** Changing a set's LRU bit leaves every view as it was. */
  lemma LruViews(h: nat -> nat, d: map<nat, seq<byte>>, s0: seq<CacheSet>, k: nat, b: bool)
    requires Shaped(s0) && k < CACHE_SIZE
    ensures Shaped(s0[k := s0[k].(second := b)]) && SameViews(h, d, s0, d, s0[k := s0[k].(second := b)])
  {
    var s1 := s0[k := s0[k].(second := b)];
    forall q
      ensures View(h, d, s1, q) == View(h, d, s0, q)
    {
      assert s1[SetIndex(h, q)].ways == s0[SetIndex(h, q)].ways;
    }
  }

  /**
   * The LRU bit `write_all` leaves in a set.  Writing a dirty way back goes
   * through `get_page`, whose hit points the bit at the other way: way 0
   * first, then way 1.
   */
  function FlushLru(s: CacheSet): (r: bool)
    requires |s.ways| == 2
    ensures s.ways[1].dirty ==> Way(r) == 0
    ensures !s.ways[1].dirty && s.ways[0].dirty ==> Way(r) == 1
    ensures !s.ways[0].dirty && !s.ways[1].dirty ==> r == s.second
  {
    if s.ways[1].dirty then false else if s.ways[0].dirty then true else s.second
  }

  /**
   * What `write_all` leaves behind: the ways as they were, the LRU bits of
   * `FlushLru`, and a file holding every page as the engine saw it.
   */
  ghost predicate Flushed(h: nat -> nat, d0: map<nat, seq<byte>>, s0: seq<CacheSet>,
                          d1: map<nat, seq<byte>>, s1: seq<CacheSet>)
    requires Shaped(s0)
  {
    && |s1| == CACHE_SIZE
    && (forall k :: 0 <= k < CACHE_SIZE ==> s1[k] == s0[k].(second := FlushLru(s0[k])))
    && (forall q :: DiskPage(d1, q) == View(h, d0, s0, q))
  }

  /** After `write_all` every page reads the same as before, and the file agrees with every cached copy. */
  lemma FlushedViews(h: nat -> nat, d0: map<nat, seq<byte>>, s0: seq<CacheSet>,
                     d1: map<nat, seq<byte>>, s1: seq<CacheSet>, n: nat)
    requires SetsOk(h, d0, s0, n) && Flushed(h, d0, s0, d1, s1)
    ensures Shaped(s1) && SetsOk(h, d1, s1, n) && SameViews(h, d0, s0, d1, s1)
    ensures forall q :: DiskPage(d1, q) == View(h, d1, s1, q)
  {
    assert Shaped(s0);
    assert Shaped(s1) by {
      forall k | 0 <= k < CACHE_SIZE
        ensures |s1[k].ways| == 2
      {
        assert s1[k] == s0[k].(second := FlushLru(s0[k]));
      }
    }
    forall k | 0 <= k < CACHE_SIZE
      ensures SetOk(h, d1, s1[k], k, n)
    {
      assert s1[k].ways == s0[k].ways;
      assert SetOk(h, d0, s0[k], k, n);
      forall w | 0 <= w < 2
        ensures BlockOk(h, d1, s1[k].ways[w], k, n)
      {
        var b := s0[k].ways[w];
        if b.valid {
          assert HitWay(s0[k], b.pageNum) == w;
          assert View(h, d0, s0, b.pageNum) == b.page;
        }
      }
    }
    forall q
      ensures View(h, d1, s1, q) == View(h, d0, s0, q)
    {
      var k := SetIndex(h, q);
      assert s1[k].ways == s0[k].ways;
    }
  }

  /**
   * The LRU bit after a miss, as `get_page` writes it.  The victim is way
   * `Way(second)`.  A dirty victim is first written back through `get_page`,
   * whose hit points the bit at the way AFTER the victim.  The final `second =
   * !second` then points it back at the victim, which now holds the page just
   * loaded.
   */
  function LruAfterMiss(second: bool, victimDirty: bool): (r: bool)
    ensures victimDirty ==> Way(r) == Way(second)
    ensures !victimDirty ==> Way(r) == 1 - Way(second)
  {
    var afterWriteBack := if victimDirty then Way(second) == 0 else second;
    !afterWriteBack
  }

  class BTreeCache {
    const h: nat -> nat
    const keyCache: array<CacheSet>
    const valueCache: array<CacheSet>
    var keyDisk: map<nat, seq<byte>>
    var valueDisk: map<nat, seq<byte>>
    var numKeyPages: nat
    var numValuePages: nat

    function Cache(t: FileType): array<CacheSet>
    {
      if t == Key then keyCache else valueCache
    }

    function Disk(t: FileType): map<nat, seq<byte>>
      reads this
    {
      if t == Key then keyDisk else valueDisk
    }

    function NumPages(t: FileType): nat
      reads this
    {
      if t == Key then numKeyPages else numValuePages
    }

    ghost predicate Valid()
      reads this, keyCache, valueCache
    {
      && keyCache != valueCache
      && SetsOk(h, keyDisk, keyCache[..], numKeyPages)
      && SetsOk(h, valueDisk, valueCache[..], numValuePages)
    }

    /** Page `p` of file `t` as the engine sees it. */
    ghost function PageView(t: FileType, p: nat): seq<byte>
      reads this, keyCache, valueCache
      requires Valid()
    {
      View(h, Disk(t), Cache(t)[..], p)
    }

    /** A fresh database: both caches zeroed, no pages. */
    constructor (h: nat -> nat)
      ensures Valid() && this.h == h
      ensures keyCache[..] == seq(CACHE_SIZE, _ => EmptySet())
      ensures valueCache[..] == seq(CACHE_SIZE, _ => EmptySet())
      ensures keyDisk == map[] && valueDisk == map[] && numKeyPages == 0 && numValuePages == 0
    {
      this.h := h;
      keyCache := new CacheSet[CACHE_SIZE](_ => EmptySet());
      valueCache := new CacheSet[CACHE_SIZE](_ => EmptySet());
      keyDisk, valueDisk := map[], map[];
      numKeyPages, numValuePages := 0, 0;
    }

    /**
     * `get_cache_set`: the set of page `p`.  A page number the file does not
     * have makes it run `write_all` and throw (`ok` false).
     */
    method GetCacheSet(t: FileType, p: nat) returns (ok: bool, k: nat)
      requires Valid()
      modifies this, keyCache, valueCache
      decreases if p < NumPages(t) then 0 else 3, 1
      ensures Valid()
      ensures ok <==> p < old(NumPages(t))
      ensures ok ==> k == SetIndex(h, p) && unchanged(this, keyCache, valueCache)
      ensures !ok ==> && numKeyPages == old(numKeyPages) && numValuePages == old(numValuePages)
                      && Flushed(h, old(keyDisk), old(keyCache[..]), keyDisk, keyCache[..])
                      && Flushed(h, old(valueDisk), old(valueCache[..]), valueDisk, valueCache[..])
    {
      if p >= NumPages(t) {
        WriteAll();
        return false, 0;
      }
      return true, SetIndex(h, p);
    }

    /**
     * `write_page`: writes the cached copy of page `q` to the file.  It
     * fetches the copy through `get_page`, a hit, which points the LRU bit
     * of the set at the other way.
     */
    method WritePage(q: nat, t: FileType)
      requires Valid() && q < NumPages(t) && HitWay(Cache(t)[SetIndex(h, q)], q) >= 0
      modifies this, keyCache, valueCache
      decreases 0, 4
      ensures Valid()
      ensures numKeyPages == old(numKeyPages) && numValuePages == old(numValuePages)
      ensures Disk(t) == old(Disk(t))[q := old(PageView(t, q))]
      ensures t == Key ==> valueDisk == old(valueDisk) && valueCache[..] == old(valueCache[..])
      ensures t == Value ==> keyDisk == old(keyDisk) && keyCache[..] == old(keyCache[..])
      ensures var k := SetIndex(h, q);
              Cache(t)[..] == old(Cache(t)[..])[k := old(Cache(t)[k]).(second := old(HitWay(Cache(t)[k], q)) == 0)]
    {
      var ok, w := GetPage(q, t);
      var data := Cache(t)[SetIndex(h, q)].ways[w].page;
      if t == Key {
        keyDisk := keyDisk[q := data];
      } else {
        valueDisk := valueDisk[q := data];
      }
    }

    /**
     * `get_page`: the buffer of page `p`, returned as the way of set
     * `SetIndex(h, p)` that holds it.
     *
     * On a hit the only change is the LRU bit, which names the other way.  On a
     * miss the way the LRU bit names is replaced: a dirty occupant is written
     * back first, and the way then holds `p`, clean and valid.  The LRU bit
     * ends as `LruAfterMiss` says, so after a dirty victim it names the way
     * just loaded.  A page number the file does not have runs `write_all` and
     * throws.
     */
    method GetPage(p: nat, t: FileType) returns (ok: bool, way: nat)
      requires Valid()
      modifies this, keyCache, valueCache
      decreases if p >= NumPages(t) then 3 else if HitWay(Cache(t)[SetIndex(h, p)], p) >= 0 then 0 else 1, 3
      ensures Valid()
      ensures numKeyPages == old(numKeyPages) && numValuePages == old(numValuePages)
      ensures ok <==> p < old(NumPages(t))
      ensures !ok ==> && Flushed(h, old(keyDisk), old(keyCache[..]), keyDisk, keyCache[..])
                      && Flushed(h, old(valueDisk), old(valueCache[..]), valueDisk, valueCache[..])
      ensures ok ==> way < 2 && Holds(Cache(t)[SetIndex(h, p)], way, p)
      ensures ok ==> Shaped(old(Cache(t)[..])) && Shaped(Cache(t)[..])
      ensures ok ==> SameViews(h, old(Disk(t)), old(Cache(t)[..]), Disk(t), Cache(t)[..])
      ensures ok && t == Key ==> valueDisk == old(valueDisk) && valueCache[..] == old(valueCache[..])
      ensures ok && t == Value ==> keyDisk == old(keyDisk) && keyCache[..] == old(keyCache[..])
      // a hit
      ensures ok && old(HitWay(Cache(t)[SetIndex(h, p)], p)) >= 0 ==>
                var k := SetIndex(h, p);
                && way == old(HitWay(Cache(t)[k], p))
                && Disk(t) == old(Disk(t))
                && Cache(t)[..] == old(Cache(t)[..])[k := old(Cache(t)[k]).(second := way == 0)]
      // a miss
      ensures ok && old(HitWay(Cache(t)[SetIndex(h, p)], p)) < 0 ==>
                var k := SetIndex(h, p);
                var victim := old(Cache(t)[k].ways[Way(Cache(t)[k].second)]);
                && way == old(Way(Cache(t)[k].second))
                && Disk(t) == (if victim.dirty then old(Disk(t))[victim.pageNum := victim.page] else old(Disk(t)))
                && Cache(t)[..] == old(Cache(t)[..])[k := CacheSet(
                     old(Cache(t)[k].ways)[way := Block(p, false, true, old(DiskPage(Disk(t), p)))],
                     LruAfterMiss(old(Cache(t)[k].second), victim.dirty))]
                && (victim.dirty ==> Way(Cache(t)[k].second) == way)
    {
      var k, hit;
      ok, k := GetCacheSet(t, p);
      if !ok {
        return false, 0;
      }
      hit, way := Hit(p, t);
      if hit {
        return;
      }
      way := Miss(p, t);
      ghost var s1 := Cache(t)[..];
      SetLru(t, k, !Cache(t)[k].second);
      UpdateTwice(old(Cache(t)[..]), k, s1[k], Cache(t)[k]);
    }

    /** Two writes to the same set leave only the second. */
    static lemma UpdateTwice(s: seq<CacheSet>, k: nat, a: CacheSet, b: CacheSet)
      requires k < |s|
      ensures s[k := a][k := b] == s[k := b]
    {
    }

    /** Sets the LRU bit of set `k`; no page reads differently. */
    method SetLru(t: FileType, k: nat, b: bool)
      requires Valid() && k < CACHE_SIZE
      modifies Cache(t)
      ensures Valid()
      ensures Cache(t)[..] == old(Cache(t)[..])[k := old(Cache(t)[k]).(second := b)]
      ensures Shaped(old(Cache(t)[..])) && Shaped(Cache(t)[..])
      ensures SameViews(h, Disk(t), old(Cache(t)[..]), Disk(t), Cache(t)[..])
    {
      ghost var s0 := Cache(t)[..];
      assert SetOk(h, Disk(t), s0[k], k, NumPages(t));
      var cache := Cache(t);
      cache[k] := cache[k].(second := b);
      LruViews(h, Disk(t), s0, k, b);
    }

    /**
     * The hit loop of `get_page`: the first valid way holding `p`, whose
     * LRU bit then names the other way.  Nothing changes on a miss.
     */
    method Hit(p: nat, t: FileType) returns (hit: bool, way: nat)
      requires Valid()
      modifies Cache(t)
      ensures Valid()
      ensures var k := SetIndex(h, p);
              && hit == (old(HitWay(Cache(t)[k], p)) >= 0)
              && (hit ==> way == old(HitWay(Cache(t)[k], p))
                          && Cache(t)[..] == old(Cache(t)[..])[k := old(Cache(t)[k]).(second := way == 0)])
              && (!hit ==> Cache(t)[..] == old(Cache(t)[..]))
      ensures Shaped(old(Cache(t)[..])) && Shaped(Cache(t)[..])
      ensures SameViews(h, Disk(t), old(Cache(t)[..]), Disk(t), Cache(t)[..])
    {
      var cache := Cache(t);
      var k := SetIndex(h, p);
      ghost var s0 := cache[..];
      assert SetOk(h, Disk(t), cache[k], k, NumPages(t));
      var i := 0;
      while i < 2
        invariant 0 <= i <= 2 && forall j :: 0 <= j < i ==> !Holds(cache[k], j, p)
        invariant cache[..] == s0
      {
        if cache[k].ways[i].pageNum == p && cache[k].ways[i].valid {
          cache[k] := cache[k].(second := i == 0);
          LruViews(h, Disk(t), s0, k, i == 0);
          assert SetOk(h, Disk(t), cache[k], k, NumPages(t)) by {
            assert SetOk(h, Disk(t), s0[k], k, NumPages(t));
          }
          return true, i;
        }
        i := i + 1;
      }
      return false, 0;
    }

    /**
     * The miss path of `get_page` up to the final flip of the LRU bit:
     * the way the bit names is written back if dirty, then loaded with `p`.
     */
    method Miss(p: nat, t: FileType) returns (way: nat)
      requires Valid() && p < NumPages(t) && HitWay(Cache(t)[SetIndex(h, p)], p) < 0
      modifies this, keyCache, valueCache
      decreases 1, 2
      ensures numKeyPages == old(numKeyPages) && numValuePages == old(numValuePages)
      ensures t == Key ==> valueDisk == old(valueDisk) && valueCache[..] == old(valueCache[..])
      ensures t == Value ==> keyDisk == old(keyDisk) && keyCache[..] == old(keyCache[..])
      ensures var k := SetIndex(h, p);
              var victim := old(Cache(t)[k].ways[Way(Cache(t)[k].second)]);
              && way == old(Way(Cache(t)[k].second))
              && Disk(t) == (if victim.dirty then old(Disk(t))[victim.pageNum := victim.page] else old(Disk(t)))
              && Cache(t)[..] == old(Cache(t)[..])[k := CacheSet(
                   old(Cache(t)[k].ways)[way := Block(p, false, true, old(DiskPage(Disk(t), p)))],
                   if victim.dirty then way == 0 else old(Cache(t)[k].second))]
      ensures Valid()
      ensures var k := SetIndex(h, p);
              && Shaped(old(Cache(t)[..])) && Shaped(Cache(t)[..])
              && SameViews(h, old(Disk(t)), old(Cache(t)[..]), Disk(t), Cache(t)[..])
              && Holds(Cache(t)[k], way, p)
    {
      ghost var d0, s0 := Disk(t), Cache(t)[..];
      var cache := Cache(t);
      var k := SetIndex(h, p);
      way := Way(cache[k].second);
      var victim := cache[k].ways[way];
      if victim.dirty {
        WritePage(victim.pageNum, t);
        assert HitWay(s0[k], victim.pageNum) == way;
      }
      var data := DiskPage(Disk(t), p);
      cache[k] := cache[k].(ways := cache[k].ways[way := Block(p, false, true, data)]);
      MissViews(d0, s0, Disk(t), cache[..], k, way, p, NumPages(t));
    }

    /** Loading `p` into the victim way keeps every view: the victim was clean or has just been written back. */
    lemma MissViews(d0: map<nat, seq<byte>>, s0: seq<CacheSet>, d1: map<nat, seq<byte>>, s1: seq<CacheSet>,
                    k: nat, way: nat, p: nat, n: nat)
      requires SetsOk(h, d0, s0, n) && p < n && k == SetIndex(h, p) && HitWay(s0[k], p) < 0
      requires way == Way(s0[k].second)
      requires d1 == WriteBack(d0, s0[k].ways[way])
      requires |s1| == CACHE_SIZE
      requires forall j :: 0 <= j < CACHE_SIZE && j != k ==> s1[j] == s0[j]
      requires s1[k].ways == s0[k].ways[way := Block(p, false, true, DiskPage(d1, p))]
      ensures SetsOk(h, d1, s1, n)
      ensures Shaped(s0) && Shaped(s1) && SameViews(h, d0, s0, d1, s1) && Holds(s1[k], way, p)
    {
      MissSetsOk(d0, s0, d1, s1, k, way, p, n);
      MissSameViews(d0, s0, d1, s1, k, way, p, n);
    }

    lemma MissSetsOk(d0: map<nat, seq<byte>>, s0: seq<CacheSet>, d1: map<nat, seq<byte>>, s1: seq<CacheSet>,
                     k: nat, way: nat, p: nat, n: nat)
      requires SetsOk(h, d0, s0, n) && p < n && k == SetIndex(h, p) && HitWay(s0[k], p) < 0
      requires way == Way(s0[k].second)
      requires d1 == WriteBack(d0, s0[k].ways[way])
      requires |s1| == CACHE_SIZE
      requires forall j :: 0 <= j < CACHE_SIZE && j != k ==> s1[j] == s0[j]
      requires s1[k].ways == s0[k].ways[way := Block(p, false, true, DiskPage(d1, p))]
      ensures SetsOk(h, d1, s1, n)
    {
      var victim := s0[k].ways[way];
      forall j | 0 <= j < CACHE_SIZE
        ensures SetOk(h, d1, s1[j], j, n)
      {
        assert SetOk(h, d0, s0[j], j, n);
        if j != k {
          KeepsBlock(d0, victim, s0[j].ways[0], j, n);
          KeepsBlock(d0, victim, s0[j].ways[1], j, n);
        } else {
          KeepsBlock(d0, victim, s0[k].ways[1 - way], j, n);
        }
      }
    }

    /** Writing back the dirty `victim` keeps a block of another page consistent with the file. */
    lemma KeepsBlock(d0: map<nat, seq<byte>>, victim: Block, b: Block, j: nat, n: nat)
      requires BlockOk(h, d0, b, j, n) && BlockOk(h, d0, victim, SetIndex(h, victim.pageNum), n)
      requires b.valid && victim.dirty ==> b.pageNum != victim.pageNum
      ensures BlockOk(h, WriteBack(d0, victim), b, j, n)
    {
    }

    lemma MissSameViews(d0: map<nat, seq<byte>>, s0: seq<CacheSet>, d1: map<nat, seq<byte>>, s1: seq<CacheSet>,
                        k: nat, way: nat, p: nat, n: nat)
      requires SetsOk(h, d0, s0, n) && p < n && k == SetIndex(h, p) && HitWay(s0[k], p) < 0
      requires way == Way(s0[k].second)
      requires d1 == WriteBack(d0, s0[k].ways[way])
      requires |s1| == CACHE_SIZE
      requires forall j :: 0 <= j < CACHE_SIZE && j != k ==> s1[j] == s0[j]
      requires s1[k].ways == s0[k].ways[way := Block(p, false, true, DiskPage(d1, p))]
      ensures Shaped(s0) && Shaped(s1) && SameViews(h, d0, s0, d1, s1) && Holds(s1[k], way, p)
    {
      var victim := s0[k].ways[way];
      assert SetOk(h, d0, s0[k], k, n);
      forall q
        ensures View(h, d1, s1, q) == View(h, d0, s0, q)
      {
        var j := SetIndex(h, q);
        if j != k {
          assert s1[j] == s0[j];
          assert SetOk(h, d0, s0[j], j, n);
        } else if q != p {
          if victim.valid && victim.pageNum == q {
            assert HitWay(s0[k], q) == way;
            assert HitWay(s1[k], q) < 0;
          } else {
            assert HitWay(s1[k], q) == HitWay(s0[k], q);
          }
        } else {
          assert HitWay(s1[k], p) == way;
        }
      }
    }

    /**
     * The corrected `get_page`: identical, except that after a miss the LRU
     * bit names the OTHER way, so the page just loaded is not the next
     * victim, whether or not the old occupant was dirty.
     */
    method GetPageIntended(p: nat, t: FileType) returns (ok: bool, way: nat)
      requires Valid()
      modifies this, keyCache, valueCache
      ensures Valid()
      ensures numKeyPages == old(numKeyPages) && numValuePages == old(numValuePages)
      ensures ok <==> p < old(NumPages(t))
      ensures ok ==> way < 2 && Holds(Cache(t)[SetIndex(h, p)], way, p)
      ensures ok ==> Shaped(old(Cache(t)[..])) && Shaped(Cache(t)[..])
      ensures ok ==> SameViews(h, old(Disk(t)), old(Cache(t)[..]), Disk(t), Cache(t)[..])
      ensures ok ==> Way(Cache(t)[SetIndex(h, p)].second) == 1 - way
    {
      var k, hit;
      ok, k := GetCacheSet(t, p);
      if !ok {
        return false, 0;
      }
      hit, way := Hit(p, t);
      if hit {
        return;
      }
      way := Miss(p, t);
      SetLru(t, k, way == 0);
    }

    /**
     * `set_dirty`: marks the valid way holding page `p` dirty, and nothing
     * else.  When the file has no such page, or no way holds it, it runs
     * `write_all` and throws.
     */
    method SetDirty(p: nat, t: FileType) returns (ok: bool)
      requires Valid()
      modifies this, keyCache, valueCache
      ensures Valid()
      ensures numKeyPages == old(numKeyPages) && numValuePages == old(numValuePages)
      ensures ok <==> p < old(NumPages(t)) && old(HitWay(Cache(t)[SetIndex(h, p)], p)) >= 0
      ensures ok ==> var k := SetIndex(h, p);
                     var w := old(HitWay(Cache(t)[k], p));
                     && keyDisk == old(keyDisk) && valueDisk == old(valueDisk)
                     && (t == Key ==> valueCache[..] == old(valueCache[..]))
                     && (t == Value ==> keyCache[..] == old(keyCache[..]))
                     && Cache(t)[..] == old(Cache(t)[..])[k := old(Cache(t)[k]).(ways := old(Cache(t)[k].ways)[w := old(Cache(t)[k].ways[w]).(dirty := true)])]
      ensures !ok ==> && Flushed(h, old(keyDisk), old(keyCache[..]), keyDisk, keyCache[..])
                      && Flushed(h, old(valueDisk), old(valueCache[..]), valueDisk, valueCache[..])
    {
      var k;
      ok, k := GetCacheSet(t, p);
      if !ok {
        return;
      }
      var cache := Cache(t);
      var i := 0;
      while i < 2
        invariant 0 <= i <= 2 && forall j :: 0 <= j < i ==> !Holds(cache[k], j, p)
      {
        if cache[k].ways[i].pageNum == p && cache[k].ways[i].valid {
          MarkDirty(t, k, i);
          return true;
        }
        i := i + 1;
      }
      WriteAll();
      ok := false;
    }

    /** Marks way `w` of set `k`, which holds a page, dirty. */
    method MarkDirty(t: FileType, k: nat, w: nat)
      requires Valid() && k < CACHE_SIZE && w < 2 && Cache(t)[k].ways[w].valid
      modifies Cache(t)
      ensures Valid()
      ensures Cache(t)[..] == old(Cache(t)[..])[k := old(Cache(t)[k]).(ways := old(Cache(t)[k].ways)[w := old(Cache(t)[k].ways[w]).(dirty := true)])]
    {
      var cache := Cache(t);
      assert SetOk(h, Disk(t), cache[k], k, NumPages(t));
      cache[k] := cache[k].(ways := cache[k].ways[w := cache[k].ways[w].(dirty := true)]);
    }

    /**
     * `write_all`: for each set in turn, writes back the dirty ways of the key
     * cache and then those of the value cache.  Closing the files and writing
     * the metadata are left out.
     */
    method WriteAll()
      requires Valid()
      modifies this, keyCache, valueCache
      decreases 2, 5
      ensures Valid()
      ensures numKeyPages == old(numKeyPages) && numValuePages == old(numValuePages)
      ensures Flushed(h, old(keyDisk), old(keyCache[..]), keyDisk, keyCache[..])
      ensures Flushed(h, old(valueDisk), old(valueCache[..]), valueDisk, valueCache[..])
    {
      ghost var kd0, ks0, vd0, vs0 := keyDisk, keyCache[..], valueDisk, valueCache[..];
      var i := 0;
      while i < CACHE_SIZE
        invariant 0 <= i <= CACHE_SIZE && Valid()
        invariant numKeyPages == old(numKeyPages) && numValuePages == old(numValuePages)
        invariant FlushedUpTo(kd0, ks0, keyDisk, keyCache[..], i)
        invariant FlushedUpTo(vd0, vs0, valueDisk, valueCache[..], i)
      {
        FlushSet(Key, i, kd0, ks0);
        FlushSet(Value, i, vd0, vs0);
        i := i + 1;
      }
    }

    /**
     * The sets before `i` are flushed, the others untouched; the file holds the
     * engine's view of every page whose set comes before `i`.
     */
    ghost predicate FlushedUpTo(d0: map<nat, seq<byte>>, s0: seq<CacheSet>,
                                d1: map<nat, seq<byte>>, s1: seq<CacheSet>, i: nat)
      requires Shaped(s0)
    {
      && |s1| == CACHE_SIZE
      && (forall k :: 0 <= k < CACHE_SIZE ==> s1[k] == if k < i then s0[k].(second := FlushLru(s0[k])) else s0[k])
      && (forall q :: DiskPage(d1, q) == if SetIndex(h, q) < i then View(h, d0, s0, q) else DiskPage(d0, q))
    }

    /** One step of `write_all` for one file: the dirty ways of set `i`, way 0 then way 1. */
    method FlushSet(t: FileType, i: nat, ghost d0: map<nat, seq<byte>>, ghost s0: seq<CacheSet>)
      requires Valid() && i < CACHE_SIZE && SetsOk(h, d0, s0, NumPages(t))
      requires FlushedUpTo(d0, s0, Disk(t), Cache(t)[..], i)
      modifies this, keyCache, valueCache
      decreases 1, 4
      ensures Valid()
      ensures numKeyPages == old(numKeyPages) && numValuePages == old(numValuePages)
      ensures FlushedUpTo(d0, s0, Disk(t), Cache(t)[..], i + 1)
      ensures t == Key ==> valueDisk == old(valueDisk) && valueCache[..] == old(valueCache[..])
      ensures t == Value ==> keyDisk == old(keyDisk) && keyCache[..] == old(keyCache[..])
    {
      ghost var dB, sB := Disk(t), Cache(t)[..];
      var cache := Cache(t);
      assert cache[i] == s0[i];
      assert SetOk(h, d0, s0[i], i, NumPages(t));
      var b0, b1 := cache[i].ways[0], cache[i].ways[1];
      if b0.dirty {
        assert HitWay(cache[i], b0.pageNum) == 0;
        WritePage(b0.pageNum, t);
      }
      ghost var d1 := Disk(t);
      assert d1 == WriteBack(dB, b0);
      if b1.dirty {
        assert cache[i].ways == s0[i].ways;
        assert HitWay(cache[i], b1.pageNum) == 1;
        WritePage(b1.pageNum, t);
      }
      assert Disk(t) == WriteBack(d1, b1);
      assert cache[i] == s0[i].(second := FlushLru(s0[i]));
      FlushSetDone(d0, s0, dB, sB, Disk(t), cache[..], i, NumPages(t));
    }

    lemma FlushSetDone(d0: map<nat, seq<byte>>, s0: seq<CacheSet>, dB: map<nat, seq<byte>>, sB: seq<CacheSet>,
                       d1: map<nat, seq<byte>>, s1: seq<CacheSet>, i: nat, n: nat)
      requires SetsOk(h, d0, s0, n) && i < CACHE_SIZE && FlushedUpTo(d0, s0, dB, sB, i)
      requires d1 == WriteBack(WriteBack(dB, s0[i].ways[0]), s0[i].ways[1])
      requires s1 == sB[i := s0[i].(second := FlushLru(s0[i]))]
      ensures FlushedUpTo(d0, s0, d1, s1, i + 1)
    {
      assert SetOk(h, d0, s0[i], i, n);
      forall q
        ensures DiskPage(d1, q) == if SetIndex(h, q) < i + 1 then View(h, d0, s0, q) else DiskPage(d0, q)
      {
        FlushSetPage(d0, s0, dB, d1, i, n, q);
      }
    }

    /** After the write-back of set `i`, page `q` reads as before unless it belongs to set `i`, where it reads as its view. */
    lemma FlushSetPage(d0: map<nat, seq<byte>>, s0: seq<CacheSet>, dB: map<nat, seq<byte>>,
                       d1: map<nat, seq<byte>>, i: nat, n: nat, q: nat)
      requires Shaped(s0) && i < CACHE_SIZE && SetOk(h, d0, s0[i], i, n)
      requires DiskPage(dB, q) == if SetIndex(h, q) < i then View(h, d0, s0, q) else DiskPage(d0, q)
      requires d1 == WriteBack(WriteBack(dB, s0[i].ways[0]), s0[i].ways[1])
      ensures DiskPage(d1, q) == if SetIndex(h, q) < i + 1 then View(h, d0, s0, q) else DiskPage(d0, q)
    {
      var w0, w1 := s0[i].ways[0], s0[i].ways[1];
      if SetIndex(h, q) != i {
        assert !(w0.dirty && w0.pageNum == q) && !(w1.dirty && w1.pageNum == q);
      } else if Holds(s0[i], 0, q) {
        assert !(w1.dirty && w1.pageNum == q);
      } else if !Holds(s0[i], 1, q) {
        assert !(w0.dirty && w0.pageNum == q) && !(w1.dirty && w1.pageNum == q);
      }
    }
  }

  /** The file after writing block `b` back if it is dirty. */
  function WriteBack(disk: map<nat, seq<byte>>, b: Block): map<nat, seq<byte>>
  {
    if b.dirty then disk[b.pageNum := b.page] else disk
  }
}
