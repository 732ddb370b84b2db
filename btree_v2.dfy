/**
 * The version-2 B-tree database, `BTreeDB<T>` of storage/btree_db_v2.hpp.
 *
 * Two files back it: a key file of 4096-byte key pages (the B+ tree, see
 * `KeyPages`) and a value file of 4096-byte value pages, each a 4-byte entry
 * count followed by `values_per_page` slots of serialized values.  Value entry
 * e lives in slot e % values_per_page of value page e / values_per_page.  Two
 * caches of unbounded capacity, one per file, map a page number to a buffer
 * and a dirty flag; pages reach the files when `write_all` writes the dirty
 * buffers back.
 *
 * The model keeps each file as a map from page number to page, each cache as
 * a map from page number to a block, and each `KeyPageInterface` member as a
 * method of the database that takes the interface's page number.  Value slots
 * hold values of type `T` directly: the entry codecs and their round trips are
 * in `BTreeTypes`.  The ghost fields `shape` and `owner` carry the tree's
 * bounds and levels and the key each value entry was created for, which the
 * tree invariant of `BTreeSpec` needs.
 */
module BTreeV2 {
  import opened Wrappers
  import opened KeyPages
  import opened BTreeSpec

  /** A cached key page and whether it must be written back. */
  datatype KeyBlock = KeyBlock(page: KeyPage, dirty: bool)

  /** A value page: the entry count in its header and its slots. */
  datatype ValuePage<T> = ValuePage(size: nat, slots: seq<T>)

  /** A cached value page and whether it must be written back. */
  datatype ValueBlock<T> = ValueBlock(page: ValuePage<T>, dirty: bool)

  /** A key page an accessor can index: 339 cells and a cell count that does not pass them. */
  predicate Bounded(kp: KeyPage)
  {
    Shaped(kp) && kp.size <= SLOTS
  }

  /** The key page seen at page number n: the cached buffer if there is one, else the file's page. */
  function KeyView(cache: map<nat, KeyBlock>, disk: map<nat, KeyPage>, n: nat): KeyPage
  {
    if n in cache then cache[n].page else if n in disk then disk[n] else NewKeyPage(false, false)
  }

  /** Key pages 0 .. count-1 as `get_page` shows them. */
  function KeyViews(cache: map<nat, KeyBlock>, disk: map<nat, KeyPage>, count: nat): (pages: seq<KeyPage>)
    ensures |pages| == count && forall n :: 0 <= n < count ==> pages[n] == KeyView(cache, disk, n)
  {
    seq(count, n requires 0 <= n => KeyView(cache, disk, n))
  }

  /** A zero-filled value page: no entries, every slot reads as `blank`. */
  function BlankValuePage<T>(vpp: nat, blank: T): (vp: ValuePage<T>)
    ensures vp.size == 0 && |vp.slots| == vpp
  {
    ValuePage(0, seq(vpp, _ => blank))
  }

  /** The value page seen at page number p. */
  function ValueView<T>(cache: map<nat, ValueBlock<T>>, disk: map<nat, ValuePage<T>>, p: nat, vpp: nat, blank: T): ValuePage<T>
  {
    if p in cache then cache[p].page else if p in disk then disk[p] else BlankValuePage(vpp, blank)
  }

  /** Slot i of a value page. */
  function Slot<T>(vp: ValuePage<T>, i: nat, blank: T): T
  {
    if i < |vp.slots| then vp.slots[i] else blank
  }

  /** The key-file pages the cache holds dirty. */
  function DirtyKeys(cache: map<nat, KeyBlock>): set<nat>
  {
    set n | n in cache && cache[n].dirty
  }

  /** The key file after `write_all`: every dirty buffer written over its page. */
  function KeysFlushed(cache: map<nat, KeyBlock>, disk: map<nat, KeyPage>): (disk': map<nat, KeyPage>)
    ensures disk'.Keys == disk.Keys + DirtyKeys(cache)
  {
    map n | n in disk.Keys + DirtyKeys(cache) :: if n in cache && cache[n].dirty then cache[n].page else disk[n]
  }

  function DirtyValues<T>(cache: map<nat, ValueBlock<T>>): set<nat>
  {
    set p | p in cache && cache[p].dirty
  }

  /** The value file after `write_all`. */
  function ValuesFlushed<T>(cache: map<nat, ValueBlock<T>>, disk: map<nat, ValuePage<T>>): (disk': map<nat, ValuePage<T>>)
    ensures disk'.Keys == disk.Keys + DirtyValues(cache)
  {
    map p | p in disk.Keys + DirtyValues(cache) :: if p in cache && cache[p].dirty then cache[p].page else disk[p]
  }

  /**
   * Once every clean buffer equals its page in the file, `write_all` leaves
   * the file holding exactly what the cache shows: the written pages are the
   * cached ones and the others were there already.
   */
  lemma KeysFlushedView(cache: map<nat, KeyBlock>, disk: map<nat, KeyPage>, count: nat)
    requires forall n: nat :: n in disk <==> n < count
    requires forall n :: n in cache ==> n in disk && (!cache[n].dirty ==> cache[n].page == disk[n])
    ensures forall n: nat :: n in KeysFlushed(cache, disk) <==> n < count
    ensures forall n :: 0 <= n < count ==> KeysFlushed(cache, disk)[n] == KeyView(cache, disk, n)
  {
  }

  lemma ValuesFlushedView<T>(cache: map<nat, ValueBlock<T>>, disk: map<nat, ValuePage<T>>, count: nat, vpp: nat, blank: T)
    requires forall p :: p in cache ==> p < count && (!cache[p].dirty ==> p in disk && cache[p].page == disk[p])
    requires forall p :: p in disk ==> p < count
    requires forall p :: 0 <= p < count ==> p in cache || p in disk
    ensures forall p: nat :: p in ValuesFlushed(cache, disk) <==> p < count
    ensures forall p :: 0 <= p < count ==> ValuesFlushed(cache, disk)[p] == ValueView(cache, disk, p, vpp, blank)
  {
  }

  /** The key file holds pages 0 .. count-1; cached pages are among them, and a clean buffer is the file's page. */
  ghost predicate KeyStoreOf(cache: map<nat, KeyBlock>, disk: map<nat, KeyPage>, count: nat)
  {
    && (forall n: nat :: n in disk <==> n < count)
    && (forall n :: n in disk ==> Bounded(disk[n]))
    && (forall n :: n in cache ==> n in disk && Bounded(cache[n].page) && (!cache[n].dirty ==> cache[n].page == disk[n]))
  }

  /** The cache after `get_page(n)`: unchanged on a hit, with the file's page added clean on a miss. */
  function Loaded(cache: map<nat, KeyBlock>, disk: map<nat, KeyPage>, n: nat): map<nat, KeyBlock>
  {
    if n in cache || n !in disk then cache else cache[n := KeyBlock(disk[n], false)]
  }

  /** Loading a page keeps the store consistent and changes no view. */
  lemma LoadedKeeps(cache: map<nat, KeyBlock>, disk: map<nat, KeyPage>, count: nat, n: nat)
    requires KeyStoreOf(cache, disk, count) && n < count
    ensures KeyStoreOf(Loaded(cache, disk, n), disk, count) && n in Loaded(cache, disk, n)
    ensures Loaded(cache, disk, n)[n].page == KeyView(cache, disk, n)
    ensures KeyViews(Loaded(cache, disk, n), disk, count) == KeyViews(cache, disk, count)
  {
  }

  /** Storing a dirty page over a loaded one is storing it over the cache before the load. */
  lemma LoadedStore(cache: map<nat, KeyBlock>, disk: map<nat, KeyPage>, count: nat, n: nat, kp: KeyPage)
    requires KeyStoreOf(cache, disk, count) && n < count && Bounded(kp)
    ensures Loaded(cache, disk, n)[n := KeyBlock(kp, true)] == cache[n := KeyBlock(kp, true)]
    ensures KeyStoreOf(cache[n := KeyBlock(kp, true)], disk, count)
    ensures KeyViews(cache[n := KeyBlock(kp, true)], disk, count) == KeyViews(cache, disk, count)[n := kp]
  {
    ViewsAfterSet(cache, disk, count, n, KeyBlock(kp, true));
  }

  /** Two loads and then two stores over the loaded pages: the stores alone. */
  lemma LoadedStoreTwo(cache: map<nat, KeyBlock>, disk: map<nat, KeyPage>, count: nat, n: nat, m: nat, l: KeyPage, r: KeyPage)
    requires KeyStoreOf(cache, disk, count) && n < count && m < count && n != m && Bounded(l) && Bounded(r)
    ensures Loaded(Loaded(cache, disk, n), disk, m)[n := KeyBlock(l, true)][m := KeyBlock(r, true)]
         == cache[n := KeyBlock(l, true)][m := KeyBlock(r, true)]
  {
  }

  /** A page appended to the file and cached clean extends the views by that page. */
  lemma AppendKeeps(cache: map<nat, KeyBlock>, disk: map<nat, KeyPage>, count: nat, kp: KeyPage)
    requires KeyStoreOf(cache, disk, count) && Bounded(kp)
    ensures KeyStoreOf(cache[count := KeyBlock(kp, false)], disk[count := kp], count + 1)
    ensures KeyViews(cache[count := KeyBlock(kp, false)], disk[count := kp], count + 1) == KeyViews(cache, disk, count) + [kp]
  {
  }

  /**
   * How many entries value page p of nvp pages holds when there are ne
   * entries: every page but the last is full, the last holds the rest.
   */
  function Fill(ne: nat, nvp: nat, vpp: nat, p: nat): int
  {
    if p + 1 < nvp then vpp else ne - p * vpp
  }

  /** The page count `push` keeps: no pages for no entries, else just enough pages for ne entries. */
  ghost predicate Packed(ne: nat, nvp: nat, vpp: nat)
  {
    && vpp >= 1
    && (nvp == 0 <==> ne == 0)
    && (nvp > 0 ==> (nvp - 1) * vpp < ne <= nvp * vpp)
  }

  /** Two entry numbers with the same page and slot are the same entry. */
  lemma SameEntry(e: nat, e': nat, d: nat)
    requires d >= 1 && e / d == e' / d && e % d == e' % d
    ensures e == e'
  {
  }

  /**
   * Under the push layout, entry e passes both range checks of `get_value`
   * (its page exists, its slot is below the page's size) exactly when it is
   * below the entry count.
   */
  lemma {:induction false} EntryInRange(e: nat, ne: nat, nvp: nat, vpp: nat)
    requires Packed(ne, nvp, vpp)
    ensures (e / vpp < nvp && e % vpp < Fill(ne, nvp, vpp, e / vpp)) <==> e < ne
  {
    var q := e / vpp;
    MulSucc(q, vpp);
    if q >= nvp {
      MulMono(nvp, q, vpp);
    } else if q + 1 < nvp {
      MulMono(q + 1, nvp - 1, vpp);
    }
  }

  /**
   * What `push` does to the layout: a new page is opened when there is none
   * or the last one is full; the new entry ne goes to the last page at the
   * slot just past its old size, and only that page's size grows.
   */
  lemma {:induction false} PushSlot(ne: nat, nvp: nat, vpp: nat, nvp': nat, s: nat)
    requires Packed(ne, nvp, vpp)
    requires nvp' == if nvp == 0 || Fill(ne, nvp, vpp, nvp - 1) == vpp then nvp + 1 else nvp
    requires s == if nvp' > nvp then 0 else Fill(ne, nvp, vpp, nvp - 1)
    ensures nvp' >= 1 && s < vpp && ne / vpp == nvp' - 1 && ne % vpp == s
    ensures Packed(ne + 1, nvp', vpp)
    ensures forall p: nat :: p < nvp' ==> Fill(ne + 1, nvp', vpp, p) == if p == nvp' - 1 then s + 1 else Fill(ne, nvp, vpp, p)
  {
    MulSucc(nvp' - 1, vpp);
    if nvp' > nvp && nvp > 0 {
      MulSucc(nvp - 1, vpp);
    }
    DivMod(ne, vpp, nvp' - 1, s);
    forall p: nat | p < nvp'
      ensures Fill(ne + 1, nvp', vpp, p) == if p == nvp' - 1 then s + 1 else Fill(ne, nvp, vpp, p)
    {
      if nvp' > nvp && p + 1 == nvp {
        assert Fill(ne, nvp, vpp, p) == vpp;
      }
    }
  }

  /** Internal page a sends key to its child b, the child at `find_pos(key)`. */
  ghost predicate Step(pages: seq<KeyPage>, key: int, a: nat, b: nat)
  {
    && a < |pages| && pages[a].internal && pages[a].size <= |pages[a].cells|
    && Child(pages[a], LowerBound(Keys(pages[a]), key)) == b
  }

  /** Each page of the stack sends key to the page after it, the last one to cur. */
  ghost predicate Linked(pages: seq<KeyPage>, key: int, path: seq<nat>, cur: nat)
    decreases |path|
  {
    path == [] || (Step(pages, key, path[|path| - 1], cur) && Linked(pages, key, path[..|path| - 1], path[|path| - 1]))
  }

  /**
   * The stack `insert` keeps on its way down: the internal pages from the
   * root to the parent of cur, each sending key to the next, levels
   * strictly falling (so no page appears twice).
   */
  ghost predicate OnPath(pages: seq<KeyPage>, sh: Shape, root: nat, key: int, path: seq<nat>, cur: nat)
  {
    && Fits(pages, sh) && cur < |pages|
    && (if path == [] then cur == root else path[0] == root)
    && (forall i :: 0 <= i < |path| ==> path[i] < |pages| && sh.level[path[i]] > sh.level[cur])
    && (forall i, j :: 0 <= i < j < |path| ==> sh.level[path[i]] > sh.level[path[j]])
    && Linked(pages, key, path, cur)
  }

  /** A path extended by its last page, when that page sends key one level down. */
  lemma PathExtend(pages: seq<KeyPage>, sh: Shape, root: nat, key: int, path: seq<nat>, cur: nat, next: nat)
    requires OnPath(pages, sh, root, key, path, cur) && Step(pages, key, cur, next)
    requires next < |pages| && sh.level[next] < sh.level[cur]
    ensures OnPath(pages, sh, root, key, path + [cur], next)
  {
    var path' := path + [cur];
    assert path'[..|path|] == path;
    forall i | 0 <= i < |path'|
      ensures sh.level[path'[i]] > sh.level[next]
    {
      if i < |path| {
        assert path'[i] == path[i];
      }
    }
  }

  /** The links survive any change that keeps the pages on the stack. */
  lemma {:induction false} LinkedKept(pages: seq<KeyPage>, pages': seq<KeyPage>, key: int, path: seq<nat>, cur: nat)
    requires Linked(pages, key, path, cur)
    requires forall i :: 0 <= i < |path| ==> path[i] < |pages| <= |pages'| && pages'[path[i]] == pages[path[i]]
    ensures Linked(pages', key, path, cur)
    decreases |path|
  {
    if path != [] {
      var n := |path| - 1;
      assert pages'[path[n]] == pages[path[n]];
      var path' := path[..n];
      forall i | 0 <= i < |path'|
        ensures path'[i] < |pages| <= |pages'| && pages'[path'[i]] == pages[path'[i]]
      {
        assert path'[i] == path[i];
      }
      LinkedKept(pages, pages', key, path', path[n]);
    }
  }

  /** A path survives any change that keeps the levels and the pages on it. */
  lemma PathKept(pages: seq<KeyPage>, sh: Shape, pages': seq<KeyPage>, sh': Shape, root: nat, key: int, path: seq<nat>, cur: nat)
    requires OnPath(pages, sh, root, key, path, cur)
    requires Fits(pages', sh') && |pages| <= |pages'|
    requires forall q :: 0 <= q < |pages| ==> sh'.level[q] == sh.level[q]
    requires forall i :: 0 <= i < |path| ==> pages'[path[i]] == pages[path[i]]
    ensures OnPath(pages', sh', root, key, path, cur)
  {
    LinkedKept(pages, pages', key, path, cur);
  }

  /** Popping the stack: its top becomes the current page. */
  lemma PathPop(pages: seq<KeyPage>, sh: Shape, root: nat, key: int, path: seq<nat>, cur: nat)
    requires OnPath(pages, sh, root, key, path, cur) && path != []
    ensures var top := path[|path| - 1];
            && sh.level[top] > sh.level[cur] && Step(pages, key, top, cur)
            && OnPath(pages, sh, root, key, path[..|path| - 1], top)
  {
    var n := |path| - 1;
    var top, path' := path[n], path[..n];
    forall i | 0 <= i < n
      ensures path'[i] < |pages| && sh.level[path'[i]] > sh.level[top]
    {
      assert path'[i] == path[i];
      assert sh.level[path[i]] > sh.level[path[n]];
    }
    forall i, j | 0 <= i < j < n
      ensures sh.level[path'[i]] > sh.level[path'[j]]
    {
      assert path'[i] == path[i] && path'[j] == path[j];
    }
  }

  /** After `split_page(parent)` of a child on the path, the path up to the parent still holds. */
  lemma SplitPath(pages: seq<KeyPage>, sh: Shape, key: int, root: nat, path: seq<nat>, x: nat, p: nat)
    requires OnPath(pages, sh, root, key, path, p)
    requires x < |pages| && x != p && sh.level[x] < sh.level[p]
    requires Shaped(pages[x]) && pages[x].size == ORDER && Shaped(pages[p]) && pages[p].size < SLOTS
    ensures OnPath(SplitPages(pages, x, p), SplitShape(pages, sh, x, p), root, key, path, p)
  {
    var pages', sh' := SplitPages(pages, x, p), SplitShape(pages, sh, x, p);
    forall i | 0 <= i < |path|
      ensures pages'[path[i]] == pages[path[i]]
    {
      assert path[i] != x && path[i] != p;
    }
    PathKept(pages, sh, pages', sh', root, key, path, p);
  }

  /**
   * The leaf step of a new key: pushing it with the next entry number into
   * its leaf gives a B-tree whose only possibly full page is that leaf, on
   * the key's path, where the key now finds the new entry and every other
   * key what it found before.
   */
  lemma LeafStep(pages: seq<KeyPage>, sh: Shape, root: nat, owner: seq<int>, key: int, path: seq<nat>, leaf: nat,
                 pages': seq<KeyPage>, owner': seq<int>)
    requires TreeOk(pages, sh, root, owner) && SmallExcept(pages, -1) && Lookup(pages, sh, root, key) == None
    requires leaf == Route(pages, sh, root, key) && OnPath(pages, sh, root, key, path, leaf)
    requires leaf < |pages| && Shaped(pages[leaf]) && pages[leaf].size < SLOTS
    requires pages' == LeafPush(pages, leaf, key, |owner|) && owner' == owner + [key]
    ensures Splitting(pages', sh, root, owner', key, path, leaf)
    ensures forall k :: Lookup(pages', sh, root, k) == if k == key then Some(|owner|) else Lookup(pages, sh, root, k)
  {
    LeafPushOk(pages, sh, root, owner, key);
    LeafPath(pages, sh, root, key, path, leaf, |owner|);
  }

  /** A push into the leaf leaves every page above it as it was. */
  lemma LeafPath(pages: seq<KeyPage>, sh: Shape, root: nat, key: int, path: seq<nat>, leaf: nat, e: nat)
    requires OnPath(pages, sh, root, key, path, leaf) && Shaped(pages[leaf]) && pages[leaf].size < SLOTS
    ensures OnPath(LeafPush(pages, leaf, key, e), sh, root, key, path, leaf)
  {
    var pages' := LeafPush(pages, leaf, key, e);
    forall i | 0 <= i < |path|
      ensures pages'[path[i]] == pages[path[i]]
    {
      assert path[i] != leaf;
    }
    PathKept(pages, sh, pages', sh, root, key, path, leaf);
  }

  /** What the split loop keeps: a B-tree whose only full page is the current one, on the stack's path. */
  ghost predicate Splitting(pages: seq<KeyPage>, sh: Shape, root: nat, owner: seq<int>, key: int, path: seq<nat>, cur: nat)
  {
    TreeOk(pages, sh, root, owner) && SmallExcept(pages, cur) && OnPath(pages, sh, root, key, path, cur)
  }

  /** What the descent loop keeps: a B-tree, the path so far, and a current page whose descent ends where the root's does. */
  ghost predicate Descending(pages: seq<KeyPage>, sh: Shape, root: nat, owner: seq<int>, key: int, path: seq<nat>, cur: nat)
  {
    && TreeOk(pages, sh, root, owner) && OnPath(pages, sh, root, key, path, cur)
    && Route(pages, sh, cur, key) == Route(pages, sh, root, key)
  }

  /** One step down: the child at the lower bound extends the path, and the descent from it ends where the descent from the root does. */
  lemma DescendStep(pages: seq<KeyPage>, sh: Shape, root: nat, owner: seq<int>, key: int, path: seq<nat>, cur: nat)
    requires Descending(pages, sh, root, owner, key, path, cur) && pages[cur].internal
    ensures Shaped(pages[cur]) && pages[cur].size <= ORDER && Sorted(Keys(pages[cur]))
    ensures var next := Child(pages[cur], LowerBound(Keys(pages[cur]), key));
            next < |pages| && Descending(pages, sh, root, owner, key, path + [cur], next)
    ensures var next := Child(pages[cur], LowerBound(Keys(pages[cur]), key));
            cur < |sh.level| && next < |sh.level| && sh.level[next] < sh.level[cur]
  {
    assert NodeWf(pages, sh, cur) && NodeOk(pages, sh, root, owner, cur);
    var next := Child(pages[cur], LowerBound(Keys(pages[cur]), key));
    PathExtend(pages, sh, root, key, path, cur, next);
  }

  /** The tree the first `insert` builds: one leaf, flagged root, holding `key` with entry 0. */
  lemma FirstLeafOk(key: int)
    ensures var pages := [PushPage(NewKeyPage(false, true), key, 0)];
            var sh := Shape([0], [NegInf], [PosInf], [0]);
            && TreeOk(pages, sh, 0, [key]) && SmallExcept(pages, -1)
            && forall k :: Lookup(pages, sh, 0, k) == if k == key then Some(0) else None
  {
    var kp := PushPage(NewKeyPage(false, true), key, 0);
    var pages := [kp];
    var sh := Shape([0], [NegInf], [PosInf], [0]);
    InsertAtEffect(NewKeyPage(false, true), key, 0, 0);
    assert Keys(kp) == [key];
    assert NodeWf(pages, sh, 0);
    assert NodeOk(pages, sh, 0, [key], 0);
  }

  /** `RootSplitPages` written out. */
  lemma RootSplitUnfold(pages: seq<KeyPage>, x: nat)
    requires x < |pages| && Shaped(pages[x]) && pages[x].size == ORDER
    ensures var halves := MoveKeys(pages[x].(root := false), NewKeyPage(pages[x].internal, false));
            RootSplitPages(pages, x)
            == pages[x := halves.0] + [PushPage(NewKeyPage(true, true), Middle(pages[x]), |pages| + 1).(child0 := x), halves.1]
  {
  }

  /** Two pages appended, then page x below them and the last one overwritten. */
  lemma UpdateAppended(s: seq<KeyPage>, t: KeyPage, b: KeyPage, x: nat, l: KeyPage, h: KeyPage)
    requires x < |s|
    ensures (s + [t, b])[x := l][|s| + 1 := h] == s[x := l] + [t, h]
  {
  }

  /** Two pages appended, then the first of them overwritten twice. */
  lemma AppendTwoSet(s: seq<KeyPage>, a: KeyPage, b: KeyPage, c: KeyPage, d: KeyPage)
    ensures (s + [a, b])[|s| := c][|s| := d] == s + [d, b]
  {
  }

  /** Overwriting the buffer of page n changes the view at n alone. */
  lemma ViewsAfterSet(cache: map<nat, KeyBlock>, disk: map<nat, KeyPage>, count: nat, n: nat, b: KeyBlock)
    requires n < count
    ensures KeyViews(cache[n := b], disk, count) == KeyViews(cache, disk, count)[n := b.page]
  {
  }

  /** Multiplying by a natural number keeps order. */
  lemma MulMono(a: nat, b: nat, d: nat)
    requires a <= b
    ensures a * d <= b * d
  {
    var k := b - a;
    assert b * d == a * d + k * d;
  }

  lemma MulSucc(a: nat, d: nat)
    ensures (a + 1) * d == a * d + d
  {
  }

  /** Euclidean division pins down quotient and remainder. */
  lemma DivMod(e: nat, d: nat, q: nat, r: nat)
    requires d >= 1 && e == q * d + r && r < d
    ensures e / d == q && e % d == r
  {
    var q' := e / d;
    MulSucc(q', d);
    MulSucc(q, d);
    if q' < q {
      MulMono(q' + 1, q, d);
    } else if q' > q {
      MulMono(q + 1, q', d);
    }
  }

  /** A page with child pointer j set to `target`: the header pointer for j = 0, else the cell pointer of cell j - 1. */
  function WithChild(kp: KeyPage, j: nat, target: nat): (r: KeyPage)
    requires j <= kp.size <= |kp.cells|
    ensures r.size == kp.size && r.internal == kp.internal && r.root == kp.root && |r.cells| == |kp.cells|
    ensures Keys(r) == Keys(kp) && Child(r, j) == target
    ensures forall i :: 0 <= i <= kp.size && i != j ==> Child(r, i) == Child(kp, i)
  {
    if j == 0 then kp.(child0 := target)
    else kp.(cells := kp.cells[j - 1 := Cell(kp.cells[j - 1].key, target)])
  }

  /**
   * One database: the two caches, the two files, the page and entry counters
   * and the root page number, as the fields of `BTreeDB<T>`.
   */
  class BTreeDb<T(==)> {
    const readOnly: bool
    /** `values_per_page`: the slots of a value page. */
    const vpp: nat
    /** The value a zero-filled slot holds. */
    const blank: T
    /** `T()`, what `find` returns for a missing key. */
    const dflt: T

    var numValuePages: nat
    var numKeyPages: nat
    var numEntries: nat
    var keyRoot: nat
    var keyCache: map<nat, KeyBlock>
    var valueCache: map<nat, ValueBlock<T>>
    var keyFile: map<nat, KeyPage>
    var valueFile: map<nat, ValuePage<T>>
    ghost var shape: Shape
    ghost var owner: seq<int>

    /**
     * A new database (`create_new`): empty files and caches, every counter
     * zero.  `valueSize` is `T::size`; the source needs values_per_page to
     * come out at least 1, so values of at most 2046 bytes.
     */
    constructor (valueSize: nat, readOnly: bool, blank: T, dflt: T)
      requires 1 <= valueSize <= 2046
      ensures this.readOnly == readOnly && this.blank == blank && this.dflt == dflt
      ensures vpp == (PAGE_SIZE - 4) / valueSize - 1 && vpp >= 1
      ensures numValuePages == 0 && numKeyPages == 0 && numEntries == 0 && keyRoot == 0
      ensures keyCache == map[] && valueCache == map[] && keyFile == map[] && valueFile == map[]
    {
      this.readOnly := readOnly;
      vpp := (PAGE_SIZE - 4) / valueSize - 1;
      this.blank := blank;
      this.dflt := dflt;
      numValuePages, numKeyPages, numEntries, keyRoot := 0, 0, 0, 0;
      keyCache, valueCache, keyFile, valueFile := map[], map[], map[], map[];
      shape := Shape([], [], [], []);
      owner := [];
      new;
      MulMono(2, 4092 / valueSize + 1, valueSize);
      MulSucc(4092 / valueSize, valueSize);
    }

    // ------------------------------------------------------------ views

    function KPage(n: nat): KeyPage
      reads this`keyCache, this`keyFile
    {
      KeyView(keyCache, keyFile, n)
    }

    ghost function KPages(): seq<KeyPage>
      reads this`keyCache, this`keyFile, this`numKeyPages
    {
      KeyViews(keyCache, keyFile, numKeyPages)
    }

    function VPage(p: nat): ValuePage<T>
      reads this`valueCache, this`valueFile
    {
      ValueView(valueCache, valueFile, p, vpp, blank)
    }

    /** Value entry e: slot e % values_per_page of page e / values_per_page. */
    function ValueAt(e: nat): T
      reads this`valueCache, this`valueFile
      requires vpp >= 1
    {
      Slot(VPage(e / vpp), e % vpp, blank)
    }

    // ------------------------------------------------------- invariants

    ghost predicate KeyStore()
      reads this`keyCache, this`keyFile, this`numKeyPages
    {
      KeyStoreOf(keyCache, keyFile, numKeyPages)
    }

    /** Every value page below the count is cached or in the file, and no other page is. */
    ghost predicate ValueStore()
      reads this`valueCache, this`valueFile, this`numValuePages
    {
      && vpp >= 1
      && (forall p :: p in valueCache ==> p < numValuePages)
      && (forall p :: p in valueFile ==> p < numValuePages)
      && (forall p: nat :: p < numValuePages ==> p in valueCache || p in valueFile)
    }

    /**
     * A clean value buffer is the file's page.  (A page `push` has just
     * opened is clean and not in the file until `push` marks it dirty.)
     */
    ghost predicate ValueClean()
      reads this`valueCache, this`valueFile
    {
      forall p :: p in valueCache && !valueCache[p].dirty ==> p in valueFile && valueCache[p].page == valueFile[p]
    }

    /** Every value page below the count has values_per_page slots. */
    ghost predicate ValueSlots()
      reads this`valueCache, this`valueFile, this`numValuePages
    {
      forall p: nat :: p < numValuePages ==> |VPage(p).slots| == vpp
    }

    /**
     * The layout `push` keeps: just enough value pages for the entries, each
     * full but the last, whose size is the rest.
     */
    ghost predicate ValueLayout()
      reads this`valueCache, this`valueFile, this`numValuePages, this`numEntries
    {
      && ValueSlots()
      && Packed(numEntries, numValuePages, vpp)
      && forall p: nat :: p < numValuePages ==> VPage(p).size == Fill(numEntries, numValuePages, vpp, p)
    }

    // ------------------------------------------------ state relations

    /** Page n is cached now: its buffer as before, or on a miss the file's page, clean. */
    twostate predicate KeyLoaded(n: nat)
      reads this
    {
      keyCache == Loaded(old(keyCache), old(keyFile), n)
    }

    twostate predicate ValueLoaded(p: nat)
      reads this
    {
      valueCache == if p in old(valueCache) || p !in old(valueFile) then old(valueCache) else old(valueCache)[p := ValueBlock(old(valueFile)[p], false)]
    }

    /** The files after `write_all` on the caches as they are now (a thrown error leaves them so). */
    twostate predicate Flushed()
      reads this
    {
      if readOnly then keyFile == old(keyFile) && valueFile == old(valueFile)
      else keyFile == KeysFlushed(keyCache, old(keyFile)) && valueFile == ValuesFlushed(valueCache, old(valueFile))
    }

    // --------------------------------------------------- cache and files

    /** `get_page(page_num, Key)`: the cached buffer, read from the key file on a miss. */
    method GetKeyPage(n: nat) returns (kp: KeyPage)
      requires KeyStore() && n < numKeyPages
      modifies this`keyCache
      ensures kp == old(KPage(n)) && Bounded(kp) && n in keyCache
      ensures KeyLoaded(n) && KeyStore() && KPages() == old(KPages())
    {
      LoadedKeeps(keyCache, keyFile, numKeyPages, n);
      keyCache := Loaded(keyCache, keyFile, n);
      kp := keyCache[n].page;
    }

    /** `set_dirty(page_num, Key)`: marks a cached page dirty; fails when the page is not cached. */
    method SetDirtyKey(n: nat) returns (ok: bool)
      modifies this`keyCache
      ensures ok == (n in old(keyCache))
      ensures keyCache == if ok then old(keyCache)[n := old(keyCache)[n].(dirty := true)] else old(keyCache)
    {
      if n !in keyCache {
        return false;
      }
      keyCache := keyCache[n := keyCache[n].(dirty := true)];
      return true;
    }

    /** `write_page(page_num, Key)` on a cached page: its buffer goes to the file. */
    method WriteKeyPage(n: nat)
      requires KeyStore() && n in keyCache
      modifies this`keyFile
      ensures keyFile == old(keyFile)[n := keyCache[n].page]
      ensures KeyStore() && KPages() == old(KPages())
    {
      keyFile := keyFile[n := keyCache[n].page];
    }

    /** A write into the buffer of key page n followed by `handle_set()`, which marks it dirty. */
    method SetPage(n: nat, kp: KeyPage)
      requires KeyStore() && n < numKeyPages && Bounded(kp)
      modifies this`keyCache
      ensures keyCache == old(keyCache)[n := KeyBlock(kp, true)]
      ensures KeyStore() && KPages() == old(KPages())[n := kp]
    {
      var _ := GetKeyPage(n);
      keyCache := keyCache[n := keyCache[n].(page := kp)];
      var ok := SetDirtyKey(n);
      assert ok;
      assert keyCache == Loaded(old(keyCache), keyFile, n)[n := KeyBlock(kp, true)];
      LoadedStore(old(keyCache), keyFile, numKeyPages, n, kp);
    }

    /** `get_page(page_num, Value)`. */
    method GetValuePage(p: nat) returns (vp: ValuePage<T>)
      requires ValueStore() && p < numValuePages
      modifies this`valueCache
      ensures vp == old(VPage(p)) && p in valueCache
      ensures ValueLoaded(p) && ValueStore() && (forall q :: VPage(q) == old(VPage(q)))
      ensures old(ValueClean()) ==> ValueClean()
    {
      if p !in valueCache {
        valueCache := valueCache[p := ValueBlock(valueFile[p], false)];
      }
      vp := valueCache[p].page;
    }

    /** `set_dirty(page_num, Value)`. */
    method SetDirtyValue(p: nat) returns (ok: bool)
      modifies this`valueCache
      ensures ok == (p in old(valueCache))
      ensures valueCache == if ok then old(valueCache)[p := old(valueCache)[p].(dirty := true)] else old(valueCache)
      ensures forall q :: VPage(q) == old(VPage(q))
      ensures old(ValueStore()) ==> ValueStore()
      ensures old(ValueClean()) ==> ValueClean()
    {
      if p !in valueCache {
        return false;
      }
      valueCache := valueCache[p := valueCache[p].(dirty := true)];
      return true;
    }

    /** `write_page(page_num, Value)` on a cached page. */
    method WriteValuePage(p: nat)
      requires ValueStore() && p in valueCache
      modifies this`valueFile
      ensures valueFile == old(valueFile)[p := valueCache[p].page]
      ensures ValueStore() && (forall q :: VPage(q) == old(VPage(q)))
      ensures old(ValueClean()) ==> ValueClean()
    {
      valueFile := valueFile[p := valueCache[p].page];
    }

    /** The first loop of `write_all`: each dirty key buffer goes to the key file. */
    method FlushKeys()
      requires KeyStore()
      modifies this`keyFile
      ensures keyFile == KeysFlushed(keyCache, old(keyFile))
      ensures KeyStore() && KPages() == old(KPages())
    {
      var todo := keyCache.Keys;
      while todo != {}
        invariant todo <= keyCache.Keys
        invariant KeyStore() && KPages() == old(KPages())
        invariant forall n :: n in keyFile ==> keyFile[n] == if n in keyCache && n !in todo && keyCache[n].dirty then keyCache[n].page else old(keyFile)[n]
        decreases todo
      {
        var n := Pick(todo);
        if keyCache[n].dirty {
          WriteKeyPage(n);
        }
        todo := todo - {n};
      }
      assert keyFile == KeysFlushed(keyCache, old(keyFile));
    }

    /** The second loop of `write_all`: each dirty value buffer goes to the value file. */
    method FlushValues()
      requires ValueStore()
      modifies this`valueFile
      ensures valueFile == ValuesFlushed(valueCache, old(valueFile))
      ensures ValueStore() && (forall q :: VPage(q) == old(VPage(q))) && (old(ValueClean()) ==> ValueClean())
    {
      var rest := valueCache.Keys;
      while rest != {}
        invariant rest <= valueCache.Keys
        invariant ValueStore() && (forall q :: VPage(q) == old(VPage(q))) && (old(ValueClean()) ==> ValueClean())
        invariant forall p :: p in valueFile <==> p in old(valueFile) || (p in valueCache && p !in rest && valueCache[p].dirty)
        invariant forall p :: p in valueFile ==> valueFile[p] == if p in valueCache && p !in rest && valueCache[p].dirty then valueCache[p].page else old(valueFile)[p]
        decreases rest
      {
        var p := Pick(rest);
        if valueCache[p].dirty {
          WriteValuePage(p);
        }
        rest := rest - {p};
      }
      assert valueFile == ValuesFlushed(valueCache, old(valueFile));
    }

    /**
     * `write_all`: unless the instance is read only, every dirty buffer of
     * both caches is written to its file.  When every clean buffer matches
     * its file, the files then hold exactly the pages the caches show.
     */
    method WriteAll()
      requires KeyStore() && ValueStore()
      modifies this`keyFile, this`valueFile
      ensures Flushed()
      ensures KeyStore() && KPages() == old(KPages())
      ensures ValueStore() && (forall q :: VPage(q) == old(VPage(q))) && (old(ValueClean()) ==> ValueClean())
      ensures !readOnly ==> forall n :: 0 <= n < numKeyPages ==> keyFile[n] == KPage(n)
      ensures !readOnly && old(ValueClean()) ==> forall p :: 0 <= p < numValuePages ==> p in valueFile && valueFile[p] == VPage(p)
    {
      if readOnly {
        return;
      }
      FlushKeys();
      FlushValues();
      KeysFlushedView(keyCache, old(keyFile), numKeyPages);
      if old(ValueClean()) {
        ValuesFlushedView(valueCache, old(valueFile), numValuePages, vpp, blank);
      }
    }

    // ------------------------------------------------------ key pages

    /** `get_size()`: the cell count of key page n. */
    method PageSize(n: nat) returns (size: nat)
      requires KeyStore() && n < numKeyPages
      modifies this`keyCache
      ensures size == old(KPage(n)).size && size <= SLOTS
      ensures KeyLoaded(n) && KeyStore() && KPages() == old(KPages())
    {
      var kp := GetKeyPage(n);
      size := kp.size;
    }

    /** `set_size(x)`. */
    method SetPageSize(n: nat, x: nat)
      requires KeyStore() && n < numKeyPages && x <= SLOTS
      modifies this`keyCache
      ensures keyCache == old(keyCache)[n := KeyBlock(old(KPage(n)).(size := x), true)]
      ensures KeyStore() && KPages() == old(KPages())[n := old(KPage(n)).(size := x)]
    {
      var kp := GetKeyPage(n);
      SetPage(n, kp.(size := x));
    }

    /** `is_internal()`. */
    method PageInternal(n: nat) returns (internal: bool)
      requires KeyStore() && n < numKeyPages
      modifies this`keyCache
      ensures internal == old(KPage(n)).internal
      ensures KeyLoaded(n) && KeyStore() && KPages() == old(KPages())
    {
      var kp := GetKeyPage(n);
      internal := kp.internal;
    }

    /** `set_internal(x)`. */
    method SetPageInternal(n: nat, x: bool)
      requires KeyStore() && n < numKeyPages
      modifies this`keyCache
      ensures keyCache == old(keyCache)[n := KeyBlock(old(KPage(n)).(internal := x), true)]
      ensures KeyStore() && KPages() == old(KPages())[n := old(KPage(n)).(internal := x)]
    {
      var kp := GetKeyPage(n);
      SetPage(n, kp.(internal := x));
    }

    /** `is_root()`. */
    method PageIsRoot(n: nat) returns (isRoot: bool)
      requires KeyStore() && n < numKeyPages
      modifies this`keyCache
      ensures isRoot == old(KPage(n)).root
      ensures KeyLoaded(n) && KeyStore() && KPages() == old(KPages())
    {
      var kp := GetKeyPage(n);
      isRoot := kp.root;
    }

    /** `set_root(x)`. */
    method SetPageRoot(n: nat, x: bool)
      requires KeyStore() && n < numKeyPages
      modifies this`keyCache
      ensures keyCache == old(keyCache)[n := KeyBlock(old(KPage(n)).(root := x), true)]
      ensures KeyStore() && KPages() == old(KPages())[n := old(KPage(n)).(root := x)]
    {
      var kp := GetKeyPage(n);
      SetPage(n, kp.(root := x));
    }

    /** The value pages look as they did, and clean buffers still match the file if they did. */
    twostate predicate ValuesSame()
      reads this
    {
      (forall q :: VPage(q) == old(VPage(q))) && (old(ValueClean()) ==> ValueClean())
    }

    /**
     * `get_key(entry_num)`: key i of page n.  An index at or past the size
     * runs `write_all` and fails.
     */
    method PageKey(n: nat, i: nat) returns (ok: bool, key: int)
      requires KeyStore() && ValueStore() && n < numKeyPages
      modifies this`keyCache, this`keyFile, this`valueFile
      ensures ok == (i < old(KPage(n)).size)
      ensures ok ==> key == Keys(old(KPage(n)))[i] && keyFile == old(keyFile) && valueFile == old(valueFile)
      ensures !ok ==> Flushed()
      ensures KeyLoaded(n) && KeyStore() && KPages() == old(KPages()) && ValueStore() && ValuesSame()
    {
      var size := PageSize(n);
      if i >= size {
        WriteAll();
        return false, 0;
      }
      var kp := GetKeyPage(n);
      return true, kp.cells[i].key;
    }

    /**
     * `get_child_ptr(entry_num)`: child pointer j of page n, a page number on
     * an internal page and a value entry on a leaf.  An index past the size
     * runs `write_all` and fails.
     */
    method PageChild(n: nat, j: nat) returns (ok: bool, ptr: nat)
      requires KeyStore() && ValueStore() && n < numKeyPages
      modifies this`keyCache, this`keyFile, this`valueFile
      ensures ok == (j <= old(KPage(n)).size)
      ensures ok ==> ptr == Child(old(KPage(n)), j) && keyFile == old(keyFile) && valueFile == old(valueFile)
      ensures !ok ==> Flushed()
      ensures KeyLoaded(n) && KeyStore() && KPages() == old(KPages()) && ValueStore() && ValuesSame()
    {
      var size := PageSize(n);
      if j > size {
        WriteAll();
        return false, 0;
      }
      var kp := GetKeyPage(n);
      return true, Child(kp, j);
    }

    /** `set_child_ptr(target, entry_num)`; an index past the size runs `write_all` and fails. */
    method SetPageChild(n: nat, target: nat, j: nat) returns (ok: bool)
      requires KeyStore() && ValueStore() && n < numKeyPages
      modifies this`keyCache, this`keyFile, this`valueFile
      ensures ok == (j <= old(KPage(n)).size)
      ensures ok ==> && keyCache == old(keyCache)[n := KeyBlock(WithChild(old(KPage(n)), j, target), true)]
                     && KPages() == old(KPages())[n := WithChild(old(KPage(n)), j, target)]
                     && keyFile == old(keyFile) && valueFile == old(valueFile)
      ensures !ok ==> KeyLoaded(n) && KPages() == old(KPages()) && Flushed()
      ensures KeyStore() && ValueStore() && ValuesSame()
    {
      var size := PageSize(n);
      if j > size {
        WriteAll();
        return false;
      }
      var kp := GetKeyPage(n);
      SetPage(n, WithChild(kp, j, target));
      LoadedStore(old(keyCache), keyFile, numKeyPages, n, WithChild(kp, j, target));
      return true;
    }

    /**
     * `insert(key, child_ptr, loc)`: cells loc .. size-1 move one slot
     * right, the new cell goes to loc, and `set_size(size + 1)` marks the
     * page dirty.  The source needs loc <= size and a free cell.
     */
    method PageInsert(n: nat, key: int, ptr: nat, loc: nat)
      requires KeyStore() && n < numKeyPages && loc <= KPage(n).size < SLOTS
      modifies this`keyCache
      ensures keyCache == old(keyCache)[n := KeyBlock(InsertAt(old(KPage(n)), key, ptr, loc), true)]
      ensures KeyStore() && KPages() == old(KPages())[n := InsertAt(old(KPage(n)), key, ptr, loc)]
    {
      var kp := GetKeyPage(n);
      SetPage(n, InsertAt(kp, key, ptr, loc));
      LoadedStore(old(keyCache), keyFile, numKeyPages, n, InsertAt(kp, key, ptr, loc));
    }

    /**
     * `find_pos(key)`: the binary search of `FindPos` over the keys of page
     * n; on strictly increasing keys, the lower bound of `key`.
     */
    method PageFindPos(n: nat, key: int) returns (pos: nat)
      requires KeyStore() && n < numKeyPages
      modifies this`keyCache
      ensures pos <= old(KPage(n)).size && (old(KPage(n)).size == 0 ==> pos == 0)
      ensures Sorted(Keys(old(KPage(n)))) ==> pos == LowerBound(Keys(old(KPage(n))), key)
      ensures KeyLoaded(n) && KeyStore() && KPages() == old(KPages())
    {
      var kp := GetKeyPage(n);
      pos := FindPos(Keys(kp), key);
    }

    /**
     * `push(key, child_ptr)`: on an empty page the cell goes to slot 0,
     * otherwise `insert` puts it at the `find_pos` position; the size becomes
     * the old size plus one (after `insert`, the source sets it a second time
     * to the same value).  On strictly increasing keys the result is
     * `PushPage`.
     */
    method PagePush(n: nat, key: int, ptr: nat)
      requires KeyStore() && n < numKeyPages && KPage(n).size < SLOTS
      modifies this`keyCache
      ensures exists loc: nat :: loc <= old(KPage(n)).size && KPage(n) == InsertAt(old(KPage(n)), key, ptr, loc)
      ensures Sorted(Keys(old(KPage(n)))) ==> KPage(n) == PushPage(old(KPage(n)), key, ptr)
      ensures keyCache == old(keyCache)[n := KeyBlock(KPage(n), true)]
      ensures KeyStore() && KPages() == old(KPages())[n := KPage(n)]
    {
      var kp := GetKeyPage(n);
      var loc := 0;
      if kp.size > 0 {
        loc := FindPos(Keys(kp), key);
      }
      SetPage(n, InsertAt(kp, key, ptr, loc));
      LoadedStore(old(keyCache), keyFile, numKeyPages, n, InsertAt(kp, key, ptr, loc));
      assert KPage(n) == InsertAt(kp, key, ptr, loc);
    }

    /**
     * `move_keys(other)`: the upper half of page n moves to page m as
     * `MoveKeys` describes, and both pages are marked dirty.
     */
    method MovePageKeys(n: nat, m: nat)
      requires KeyStore() && n < numKeyPages && m < numKeyPages && n != m
      modifies this`keyCache
      ensures var halves := MoveKeys(old(KPage(n)), old(KPage(m)));
              && keyCache == old(keyCache)[n := KeyBlock(halves.0, true)][m := KeyBlock(halves.1, true)]
              && KPages() == old(KPages())[n := halves.0][m := halves.1]
      ensures KeyStore()
    {
      var src := GetKeyPage(n);
      var dst := GetKeyPage(m);
      var halves := MoveKeys(src, dst);
      SetPage(n, halves.0);
      SetPage(m, halves.1);
      LoadedStoreTwo(old(keyCache), keyFile, numKeyPages, n, m, halves.0, halves.1);
    }

    /**
     * `create_new_keypage(num_cells, internal, is_root)`: a zero page (with
     * its marker bytes) is appended to the key file and cached clean as the
     * next page number; setting its size and flags marks it dirty.
     */
    method CreateNewKeypage(numCells: nat, internal: bool, isRoot: bool) returns (n: nat)
      requires KeyStore() && numCells <= SLOTS
      modifies this`keyCache, this`keyFile, this`numKeyPages
      ensures n == old(numKeyPages) && numKeyPages == n + 1
      ensures keyFile == old(keyFile)[n := NewKeyPage(false, false)]
      ensures keyCache == old(keyCache)[n := KeyBlock(NewKeyPage(internal, isRoot).(size := numCells), true)]
      ensures KeyStore() && KPages() == old(KPages()) + [NewKeyPage(internal, isRoot).(size := numCells)]
    {
      n := numKeyPages;
      AppendKeeps(keyCache, keyFile, numKeyPages, NewKeyPage(false, false));
      keyFile := keyFile[n := NewKeyPage(false, false)];
      keyCache := keyCache[n := KeyBlock(NewKeyPage(false, false), false)];
      numKeyPages := numKeyPages + 1;
      SetPage(n, NewKeyPage(internal, isRoot).(size := numCells));
    }

    /**
     * The first steps both splits share: a new page, internal like the full
     * page x and not root, is created, and x's middle key is read.  The
     * range check of `get_key(HALF)` cannot fail on a full page, so the key is
     * read from the buffer.
     */
    method OpenRightPage(x: nat) returns (right: nat, middle: int)
      requires KeyStore() && x < numKeyPages && KPage(x).size == ORDER
      modifies this`keyCache, this`keyFile, this`numKeyPages
      ensures right == old(numKeyPages) && numKeyPages == right + 1 && middle == Middle(old(KPage(x)))
      ensures keyFile == old(keyFile)[right := NewKeyPage(false, false)]
      ensures KeyStore() && KPages() == old(KPages()) + [NewKeyPage(old(KPage(x)).internal, false)]
    {
      var internal := PageInternal(x);
      right := CreateNewKeypage(0, internal, false);
      var kp := GetKeyPage(x);
      middle := Keys(kp)[HALF];
    }

    /**
     * `split_page(parent)` on the full page x: a new page, internal like x,
     * takes x's upper half, and `parent` gets x's middle key with a pointer
     * to the new page.  The middle key is read before the move.
     */
    method SplitChildPage(x: nat, parent: nat)
      requires KeyStore() && x < numKeyPages && parent < numKeyPages && x != parent
      requires KPage(x).size == ORDER && KPage(parent).size < SLOTS && Sorted(Keys(KPage(parent)))
      modifies this`keyCache, this`keyFile, this`numKeyPages
      ensures numKeyPages == old(numKeyPages) + 1
      ensures keyFile == old(keyFile)[old(numKeyPages) := NewKeyPage(false, false)]
      ensures KeyStore() && KPages() == SplitPages(old(KPages()), x, parent)
    {
      ghost var pages := KPages();
      var right, middle := OpenRightPage(x);
      MovePageKeys(x, right);
      ghost var halves := MoveKeys(pages[x], NewKeyPage(pages[x].internal, false));
      assert KPages() == pages[x := halves.0] + [halves.1];
      assert KPage(parent) == pages[parent];
      PagePush(parent, middle, right);
    }

    /**
     * The first half of `split_root()`: the new root page (internal, flagged
     * root) and the new right page (internal like x) are appended; the root
     * gets x's middle key with the right page as the child after it, and x as
     * child 0.  The range check of `set_child(x, 0)` cannot fail, so the
     * pointer is written to the buffer.
     */
    method OpenRootPages(x: nat) returns (newRoot: nat, right: nat)
      requires KeyStore() && x < numKeyPages && KPage(x).size == ORDER
      modifies this`keyCache, this`keyFile, this`numKeyPages
      ensures newRoot == old(numKeyPages) && right == newRoot + 1 && numKeyPages == right + 1
      ensures keyFile == old(keyFile)[newRoot := NewKeyPage(false, false)][right := NewKeyPage(false, false)]
      ensures KeyStore() && KPages() == old(KPages()) + [PushPage(NewKeyPage(true, true), Middle(old(KPage(x))), right).(child0 := x),
                                                          NewKeyPage(old(KPage(x)).internal, false)]
    {
      ghost var pages := KPages();
      ghost var blank := NewKeyPage(pages[x].internal, false);
      newRoot := CreateNewKeypage(0, true, true);
      assert KPages() == pages + [NewKeyPage(true, true)];
      var middle;
      right, middle := OpenRightPage(x);
      ghost var grown := KPages();
      assert grown == pages + [NewKeyPage(true, true), blank];
      assert Keys(grown[newRoot]) == [];
      PagePush(newRoot, middle, right);
      ghost var pushed := PushPage(NewKeyPage(true, true), middle, right);
      assert KPages() == grown[newRoot := pushed];
      var kp := GetKeyPage(newRoot);
      SetPage(newRoot, WithChild(kp, 0, x));
      AppendTwoSet(pages, NewKeyPage(true, true), blank, pushed, pushed.(child0 := x));
    }

    /** The second half of `split_root()`: `set_root(false)` on x, then `move_keys(right)`. */
    method DemoteAndMove(x: nat, right: nat)
      requires KeyStore() && x < numKeyPages && right < numKeyPages && x != right
      modifies this`keyCache
      ensures var halves := MoveKeys(old(KPage(x)).(root := false), old(KPage(right)));
              KeyStore() && KPages() == old(KPages())[x := halves.0][right := halves.1]
    {
      SetPageRoot(x, false);
      MovePageKeys(x, right);
    }

    /**
     * `split_root()` on the full root page x: after `OpenRootPages`, x loses
     * its root flag and its upper half moves to the new right page; the root
     * pointer moves to the new root.
     */
    method SplitRootPage(x: nat)
      requires KeyStore() && x < numKeyPages && KPage(x).size == ORDER
      modifies this`keyCache, this`keyFile, this`numKeyPages, this`keyRoot
      ensures numKeyPages == old(numKeyPages) + 2 && keyRoot == old(numKeyPages)
      ensures keyFile == old(keyFile)[old(numKeyPages) := NewKeyPage(false, false)][old(numKeyPages) + 1 := NewKeyPage(false, false)]
      ensures KeyStore() && KPages() == RootSplitPages(old(KPages()), x)
    {
      ghost var pages := KPages();
      ghost var top := PushPage(NewKeyPage(true, true), Middle(pages[x]), |pages| + 1).(child0 := x);
      ghost var blank := NewKeyPage(pages[x].internal, false);
      var newRoot, right := OpenRootPages(x);
      ghost var grown := KPages();
      assert right == |pages| + 1 && grown == pages + [top, blank];
      assert KPage(x) == pages[x] && KPage(right) == blank;
      DemoteAndMove(x, right);
      ghost var halves := MoveKeys(pages[x].(root := false), blank);
      assert KPages() == grown[x := halves.0][right := halves.1];
      UpdateAppended(pages, top, blank, x, halves.0, halves.1);
      RootSplitUnfold(pages, x);
      keyRoot := newRoot;
    }

    // ------------------------------------------------------ value pages

    /** Overwrites the buffer of value page p (loading it first) and marks it dirty. */
    method SetValuePage(p: nat, vp: ValuePage<T>)
      requires ValueStore() && p < numValuePages
      modifies this`valueCache
      ensures valueCache == old(valueCache)[p := ValueBlock(vp, true)]
      ensures ValueStore() && forall q :: VPage(q) == if q == p then vp else old(VPage(q))
    {
      var _ := GetValuePage(p);
      valueCache := valueCache[p := valueCache[p].(page := vp)];
      var ok := SetDirtyValue(p);
      assert ok;
    }

    /**
     * `ValuePageInterface::get_size(page_num)`: the size header of value page
     * p; a page number past the count is an error, after `write_all`.
     */
    method ValueGetSize(p: nat) returns (ok: bool, size: nat)
      requires KeyStore() && ValueStore()
      modifies this`valueCache, this`keyFile, this`valueFile
      ensures ok == (p < numValuePages)
      ensures ok ==> size == old(VPage(p)).size && keyFile == old(keyFile) && valueFile == old(valueFile)
      ensures !ok ==> Flushed()
      ensures ValueLoaded(p) && ValueStore() && ValuesSame() && KeyStore() && KPages() == old(KPages())
    {
      if p >= numValuePages {
        WriteAll();
        return false, 0;
      }
      var vp := GetValuePage(p);
      return true, vp.size;
    }

    /**
     * `ValuePageInterface::set_size(size, page_num)`: writes the size header
     * of value page p and marks it dirty; a page number past the count is an
     * error, after `write_all`.
     */
    method ValueSetSize(size: nat, p: nat) returns (ok: bool)
      requires KeyStore() && ValueStore()
      modifies this`valueCache, this`keyFile, this`valueFile
      ensures ok == (p < numValuePages)
      ensures ok ==> && valueCache == old(valueCache)[p := ValueBlock(old(VPage(p)).(size := size), true)]
                     && (forall q :: VPage(q) == if q == p then old(VPage(q)).(size := size) else old(VPage(q)))
                     && keyFile == old(keyFile) && valueFile == old(valueFile)
      ensures !ok ==> Flushed() && valueCache == old(valueCache)
      ensures ValueStore() && KeyStore() && KPages() == old(KPages())
    {
      if p >= numValuePages {
        WriteAll();
        return false;
      }
      var vp := GetValuePage(p);
      SetValuePage(p, vp.(size := size));
      return true;
    }

    /**
     * `get_value(entry_num)`: the value in slot entry_num % values_per_page
     * of page entry_num / values_per_page.  A page past the count, or a slot
     * at or past that page's size, is an error, after `write_all`.
     */
    method GetValue(e: nat) returns (ok: bool, v: T)
      requires KeyStore() && ValueStore()
      modifies this`valueCache, this`keyFile, this`valueFile
      ensures ok == (e / vpp < numValuePages && e % vpp < old(VPage(e / vpp)).size)
      ensures ok ==> v == old(ValueAt(e)) && keyFile == old(keyFile) && valueFile == old(valueFile)
      ensures !ok ==> Flushed()
      ensures ValueStore() && ValuesSame() && KeyStore() && KPages() == old(KPages())
    {
      var p := e / vpp;
      if p >= numValuePages {
        WriteAll();
        return false, dflt;
      }
      var target := e % vpp;
      var _, size := ValueGetSize(p);
      if target >= size {
        WriteAll();
        return false, dflt;
      }
      var vp := GetValuePage(p);
      return true, Slot(vp, target, blank);
    }

    /**
     * `set_value(entry, entry_num)`: writes slot entry_num % values_per_page
     * of page entry_num / values_per_page and marks the page dirty.  Only the
     * page number is checked (a page past the count is an error, after
     * `write_all`); the slot is not checked against the page's size.
     */
    method SetValue(v: T, e: nat) returns (ok: bool)
      requires KeyStore() && ValueStore() && ValueSlots()
      modifies this`valueCache, this`keyFile, this`valueFile
      ensures ok == (e / vpp < numValuePages)
      ensures ok ==> && (forall e' :: ValueAt(e') == if e' == e then v else old(ValueAt(e')))
                     && (forall q :: VPage(q).size == old(VPage(q)).size)
                     && valueCache == old(valueCache)[e / vpp := ValueBlock(VPage(e / vpp), true)]
                     && keyFile == old(keyFile) && valueFile == old(valueFile)
      ensures !ok ==> Flushed() && valueCache == old(valueCache)
      ensures ValueStore() && ValueSlots() && KeyStore() && KPages() == old(KPages())
      ensures old(ValueClean()) ==> ValueClean()
    {
      var p := e / vpp;
      if p >= numValuePages {
        WriteAll();
        return false;
      }
      var target := e % vpp;
      var vp := GetValuePage(p);
      SetValuePage(p, vp.(slots := vp.slots[target := v]));
      forall e' | e' / vpp == p && e' % vpp == target
        ensures e' == e
      {
        SameEntry(e', e, vpp);
      }
      return true;
    }

    /**
     * The new-page branch of `ValuePageInterface::push`: a zero page is
     * cached (clean, not yet in the file) as the next value page, and the
     * count grows.  Page numbers past the count already read as zero pages,
     * so no page's view changes.
     */
    method OpenValuePage()
      requires ValueStore()
      modifies this`valueCache, this`numValuePages
      ensures numValuePages == old(numValuePages) + 1
      ensures valueCache == old(valueCache)[old(numValuePages) := ValueBlock(BlankValuePage(vpp, blank), false)]
      ensures ValueStore() && (forall q :: VPage(q) == old(VPage(q))) && (old(ValueSlots()) ==> ValueSlots())
    {
      valueCache := valueCache[numValuePages := ValueBlock(BlankValuePage(vpp, blank), false)];
      numValuePages := numValuePages + 1;
    }

    /** `ValueClean` except perhaps at page p. */
    ghost predicate ValueCleanBut(p: nat)
      reads this`valueCache, this`valueFile
    {
      forall q :: q != p && q in valueCache && !valueCache[q].dirty ==> q in valueFile && valueCache[q].page == valueFile[q]
    }

    /**
     * The first half of `ValuePageInterface::push`: the entry count grows,
     * and when there is no value page or the last one is full, a new one is
     * opened.  No page's view changes.
     */
    method MakeRoom()
      requires KeyStore() && ValueStore() && ValueClean() && ValueLayout()
      modifies this`numEntries, this`numValuePages, this`valueCache, this`keyFile, this`valueFile
      ensures numEntries == old(numEntries) + 1
      ensures var nvp := old(numValuePages);
              numValuePages == if nvp == 0 || Fill(old(numEntries), nvp, vpp, nvp - 1) == vpp then nvp + 1 else nvp
      ensures keyFile == old(keyFile) && valueFile == old(valueFile)
      ensures forall q :: VPage(q) == old(VPage(q))
      ensures KeyStore() && KPages() == old(KPages()) && ValueStore() && ValueSlots() && ValueCleanBut(numValuePages - 1)
    {
      ghost var ne := numEntries;
      numEntries := numEntries + 1;
      var full := numValuePages == 0;
      if !full {
        var _, size := ValueGetSize(numValuePages - 1);
        full := size == vpp;
      }
      if full {
        OpenValuePage();
      }
    }

    /** `set_size(get_size(last) + 1, last)` on the last value page, which marks it dirty. */
    method GrowLast()
      requires KeyStore() && ValueStore() && numValuePages >= 1 && ValueCleanBut(numValuePages - 1)
      modifies this`valueCache, this`keyFile, this`valueFile
      ensures keyFile == old(keyFile) && valueFile == old(valueFile)
      ensures forall q :: VPage(q) == if q == numValuePages - 1 then old(VPage(q)).(size := old(VPage(q)).size + 1) else old(VPage(q))
      ensures KeyStore() && KPages() == old(KPages()) && ValueStore() && ValueClean()
    {
      var last := numValuePages - 1;
      var _, size := ValueGetSize(last);
      var ok := ValueSetSize(size + 1, last);
    }

    /**
     * The second half of `ValuePageInterface::push`: the last page's size
     * grows by one, the entry is written to entry number (count - 1), which
     * lies on that page, and the page is marked dirty.
     */
    method FillLast(v: T)
      requires KeyStore() && ValueStore() && ValueSlots() && numValuePages >= 1 && numEntries >= 1
      requires (numEntries - 1) / vpp == numValuePages - 1 && ValueCleanBut(numValuePages - 1)
      modifies this`valueCache, this`keyFile, this`valueFile
      ensures keyFile == old(keyFile) && valueFile == old(valueFile)
      ensures forall e' :: ValueAt(e') == if e' == numEntries - 1 then v else old(ValueAt(e'))
      ensures forall q :: VPage(q).size == if q == numValuePages - 1 then old(VPage(q)).size + 1 else old(VPage(q)).size
      ensures KeyStore() && KPages() == old(KPages()) && ValueStore() && ValueSlots() && ValueClean()
      ensures numValuePages - 1 in valueCache && valueCache[numValuePages - 1].dirty
    {
      var last := numValuePages - 1;
      GrowLast();
      assert forall e' :: ValueAt(e') == old(ValueAt(e'));
      var ok := SetValue(v, numEntries - 1);
      assert last in valueCache && valueCache[last].dirty;
      ok := SetDirtyValue(last);
    }

    /**
     * `ValuePageInterface::push(entry)`: `MakeRoom`, then `FillLast`.
     * Returns the new entry's number, the old count.
     */
    method ValuePush(v: T) returns (e: nat)
      requires KeyStore() && ValueStore() && ValueClean() && ValueLayout()
      modifies this`numEntries, this`numValuePages, this`valueCache, this`keyFile, this`valueFile
      ensures e == old(numEntries) && numEntries == e + 1
      ensures keyFile == old(keyFile) && valueFile == old(valueFile)
      ensures forall e' :: ValueAt(e') == if e' == e then v else old(ValueAt(e'))
      ensures e / vpp in valueCache && valueCache[e / vpp].dirty
      ensures KeyStore() && KPages() == old(KPages()) && ValueStore() && ValueClean() && ValueLayout()
    {
      ghost var ne, nvp := numEntries, numValuePages;
      MakeRoom();
      ghost var s: nat := if numValuePages > nvp then 0 else Fill(ne, nvp, vpp, nvp - 1);
      PushSlot(ne, nvp, vpp, numValuePages, s);
      assert VPage(numValuePages - 1).size == s;
      FillLast(v);
      e := numEntries - 1;
    }

    // ------------------------------------------------------------- tree

    /** The ghost shape and value owners describe a B-tree over the key pages, one owner per entry. */
    ghost predicate TreeInv()
      reads this`keyCache, this`keyFile, this`numKeyPages, this`keyRoot, this`numEntries, this`shape, this`owner
    {
      && |owner| == numEntries
      && (numKeyPages == 0 ==> numEntries == 0 && keyRoot == 0)
      && (numKeyPages > 0 ==> TreeOk(KPages(), shape, keyRoot, owner) && SmallExcept(KPages(), -1))
    }

    /** The invariant every public operation keeps. */
    ghost predicate Valid()
      reads this`keyCache, this`keyFile, this`numKeyPages, this`keyRoot, this`numEntries, this`shape, this`owner
      reads this`valueCache, this`valueFile, this`numValuePages
    {
      KeyStore() && ValueStore() && ValueClean() && ValueLayout() && TreeInv()
    }

    /**
     * What `find` reports for k: the value of the entry the descent finds,
     * if any (and nothing for a store with no key pages, or one whose pages
     * do not form a tree, which `Valid` rules out).
     */
    ghost function Get(k: int): Option<T>
      reads this`keyCache, this`keyFile, this`numKeyPages, this`keyRoot, this`shape, this`valueCache, this`valueFile
    {
      if numKeyPages == 0 || vpp == 0 || !Wf(KPages(), shape) || keyRoot >= numKeyPages then None
      else match Lookup(KPages(), shape, keyRoot, k)
        case None => None
        case Some(e) => Some(ValueAt(e))
    }

    /** The first `insert`: a leaf root page (page 0) holding the key with entry 0. */
    method InsertFirst(key: int, value: T)
      requires KeyStore() && ValueStore() && ValueClean() && ValueLayout()
      requires numKeyPages == 0 && numEntries == 0 && keyRoot == 0
      modifies this`keyCache, this`keyFile, this`numKeyPages, this`numEntries, this`shape, this`owner
      modifies this`valueCache, this`valueFile, this`numValuePages
      ensures Valid() && numEntries == 1 && keyRoot == 0
      ensures forall k :: Get(k) == if k == key then Some(value) else None
    {
      var root := CreateNewKeypage(0, false, true);
      FillRoot(root, key, value);
      PlantTree(key, value);
    }

    /** The rest of the first `insert`: push the value, then its key into the new, empty root leaf. */
    method FillRoot(root: nat, key: int, value: T)
      requires KeyStore() && ValueStore() && ValueClean() && ValueLayout()
      requires root == 0 && numKeyPages == 1 && numEntries == 0 && keyRoot == 0
      requires KPages() == [NewKeyPage(false, true)]
      modifies this`keyCache, this`keyFile, this`numEntries, this`valueCache, this`valueFile, this`numValuePages
      ensures KeyStore() && ValueStore() && ValueClean() && ValueLayout()
      ensures numKeyPages == 1 && keyRoot == 0 && numEntries == 1 && ValueAt(0) == value
      ensures KPages() == [PushPage(NewKeyPage(false, true), key, 0)]
    {
      var e := ValuePush(value);
      assert Keys(KPage(root)) == [];
      label Pushed:
      PagePush(root, key, e);
      assert KPages() == [PushPage(NewKeyPage(false, true), key, 0)];
      ValueSideKept@Pushed();
    }

    /** The ghost half of the first `insert`: the one-leaf tree's shape and owners. */
    ghost method PlantTree(key: int, value: T)
      requires KeyStore() && ValueStore() && ValueClean() && ValueLayout()
      requires numKeyPages == 1 && keyRoot == 0 && numEntries == 1 && ValueAt(0) == value
      requires KPages() == [PushPage(NewKeyPage(false, true), key, 0)]
      modifies this`shape, this`owner
      ensures Valid()
      ensures forall k :: Get(k) == if k == key then Some(value) else None
    {
      shape := Shape([0], [NegInf], [PosInf], [0]);
      owner := [key];
      FirstLeafOk(key);
      assert TreeInv();
      forall k
        ensures Get(k) == if k == key then Some(value) else None
      {
        assert Lookup(KPages(), shape, keyRoot, k) == if k == key then Some(0) else None;
      }
    }

    /** `Valid` survives steps that change no page's view and touch no value state. */
    twostate lemma ValidKept()
      requires old(Valid()) && KeyStore() && KPages() == old(KPages())
      requires unchanged(this`valueCache, this`valueFile, this`numValuePages, this`numEntries)
      requires unchanged(this`numKeyPages, this`keyRoot, this`shape, this`owner)
      ensures Valid()
    {
    }

    /**
     * One iteration of the descent loop: `find_pos(key)` on page cur, its
     * child pointer there, and whether that child is internal.
     */
    method StepDown(cur: nat, key: int) returns (next: nat, internal: bool)
      requires KeyStore() && cur < numKeyPages && Sorted(Keys(KPage(cur)))
      requires Child(KPage(cur), LowerBound(Keys(KPage(cur)), key)) < numKeyPages
      modifies this`keyCache
      ensures next == Child(old(KPage(cur)), LowerBound(Keys(old(KPage(cur))), key)) && internal == old(KPage(next)).internal
      ensures KeyStore() && KPages() == old(KPages())
    {
      var kp := GetKeyPage(cur);
      var target := FindPos(Keys(kp), key);
      next := Child(kp, target);
      internal := PageInternal(next);
    }

    /**
     * The descent of `insert` and `find`: from the root, the child at
     * `find_pos(key)` of each internal page, down to a leaf.  Returns the
     * leaf and the pages passed on the way.
     */
    method Descend(key: int) returns (cur: nat, path: seq<nat>)
      requires KeyStore() && TreeOk(KPages(), shape, keyRoot, owner)
      modifies this`keyCache
      ensures KeyStore() && KPages() == old(KPages()) && TreeOk(KPages(), shape, keyRoot, owner)
      ensures cur == Route(KPages(), shape, keyRoot, key)
      ensures OnPath(KPages(), shape, keyRoot, key, path, cur)
    {
      ghost var pages, sh, root, own := KPages(), shape, keyRoot, owner;
      cur := keyRoot;
      path := [];
      var internal := PageInternal(cur);
      while internal
        invariant KeyStore() && KPages() == pages
        invariant cur < |pages| && internal == pages[cur].internal
        invariant Descending(pages, sh, root, own, key, path, cur)
        decreases sh.level[cur]
      {
        DescendStep(pages, sh, root, own, key, path, cur);
        var next;
        next, internal := StepDown(cur, key);
        path := path + [cur];
        cur := next;
      }
    }

    /**
     * One round of the split loop: the full page x, child of the page on top
     * of the stack, is split into that parent, which becomes the current page.
     */
    method SplitParent(x: nat, parent: nat, ghost path: seq<nat>, key: int)
      requires KeyStore() && path != [] && parent == path[|path| - 1]
      requires Splitting(KPages(), shape, keyRoot, owner, key, path, x) && KPage(x).size == ORDER
      modifies this`keyCache, this`keyFile, this`numKeyPages, this`shape
      ensures KeyStore() && Splitting(KPages(), shape, keyRoot, owner, key, path[..|path| - 1], parent)
      ensures forall k :: Lookup(KPages(), shape, keyRoot, k) == old(Lookup(KPages(), shape, keyRoot, k))
    {
      ghost var pages, sh := KPages(), shape;
      PathPop(pages, sh, keyRoot, key, path, x);
      assert NodeWf(pages, sh, parent) && NodeOk(pages, sh, keyRoot, owner, parent);
      assert NodeWf(pages, sh, x);
      ghost var j := LowerBound(Keys(pages[parent]), key);
      SplitChildOk(pages, sh, keyRoot, owner, x, parent, j);
      SplitPath(pages, sh, key, keyRoot, path[..|path| - 1], x, parent);
      SplitChildPage(x, parent);
      shape := SplitShape(pages, sh, x, parent);
    }

    /** The root split that ends the loop when the stack is empty and the root is full. */
    method SplitTop(x: nat)
      requires KeyStore() && x == keyRoot && x < numKeyPages
      requires RootCase(KPages(), shape, keyRoot, owner)
      modifies this`keyCache, this`keyFile, this`numKeyPages, this`keyRoot, this`shape
      ensures KeyStore() && TreeOk(KPages(), shape, keyRoot, owner) && SmallExcept(KPages(), -1)
      ensures forall k :: Lookup(KPages(), shape, keyRoot, k) == old(Lookup(KPages(), shape, keyRoot, k))
    {
      ghost var pages, sh := KPages(), shape;
      SplitRootOk(pages, sh, keyRoot, owner);
      SplitRootPage(x);
      shape := RootSplitShape(pages, sh, x);
    }

    /**
     * The tail of `insert`: while the current page is full and the stack is
     * not empty, split it into the page on top of the stack and go up; a
     * full root at the end is split as well.
     */
    method Cascade(key: int, path: seq<nat>, leaf: nat)
      requires KeyStore() && Splitting(KPages(), shape, keyRoot, owner, key, path, leaf)
      modifies this`keyCache, this`keyFile, this`numKeyPages, this`keyRoot, this`shape
      ensures KeyStore() && TreeOk(KPages(), shape, keyRoot, owner) && SmallExcept(KPages(), -1)
      ensures forall k :: Lookup(KPages(), shape, keyRoot, k) == old(Lookup(KPages(), shape, keyRoot, k))
    {
      ghost var pages, sh, root := KPages(), shape, keyRoot;
      var node: nat, stack: seq<nat> := leaf, path;
      var size := PageSize(node);
      if size == ORDER {
        while stack != []
          invariant KeyStore() && node < numKeyPages && size == KPage(node).size
          invariant Splitting(KPages(), shape, keyRoot, owner, key, stack, node)
          invariant forall k :: Lookup(KPages(), shape, keyRoot, k) == Lookup(pages, sh, root, k)
          decreases |stack|
        {
          if size != ORDER {
            break;
          }
          var parent := stack[|stack| - 1];
          SplitParent(node, parent, stack, key);
          stack := stack[..|stack| - 1];
          node := parent;
          size := PageSize(node);
        }
        if size == ORDER {
          SplitTop(node);
          return;
        }
      }
      assert NodeWf(KPages(), shape, node);
    }

    /**
     * The leaf step shared by `insert` and `find`: `find_pos(key)` on the
     * leaf, and whether the key there is the one sought; if so, the entry
     * number is the child pointer after it.
     */
    method Probe(leaf: nat, key: int) returns (found: bool, e: nat)
      requires KeyStore() && numKeyPages > 0 && TreeOk(KPages(), shape, keyRoot, owner)
      requires leaf == Route(KPages(), shape, keyRoot, key)
      modifies this`keyCache
      ensures KeyStore() && KPages() == old(KPages())
      ensures found == Lookup(KPages(), shape, keyRoot, key).Some?
      ensures found ==> Lookup(KPages(), shape, keyRoot, key) == Some(e)
    {
      ghost var pages := KPages();
      assert NodeOk(pages, shape, keyRoot, owner, leaf);
      var kp := GetKeyPage(leaf);
      var target := FindPos(Keys(kp), key);
      found := target < kp.size && Keys(kp)[target] == key;
      e := if found then Child(kp, target + 1) else 0;
    }

    /** `insert` of a key already present: `set_value` on its entry; only that key's value changes. */
    method Overwrite(e: nat, key: int, value: T)
      requires Valid() && numKeyPages > 0 && Lookup(KPages(), shape, keyRoot, key) == Some(e)
      modifies this`valueCache, this`keyFile, this`valueFile
      ensures Valid() && keyFile == old(keyFile)
      ensures forall k :: Get(k) == if k == key then Some(value) else old(Get(k))
    {
      LookupOwner(KPages(), shape, keyRoot, owner, keyRoot, key);
      EntryInRange(e, numEntries, numValuePages, vpp);
      var ok := SetValue(value, e);
      assert ValueLayout();
      forall k
        ensures Get(k) == if k == key then Some(value) else old(Get(k))
      {
        if Lookup(KPages(), shape, keyRoot, k).Some? {
          LookupOwner(KPages(), shape, keyRoot, owner, keyRoot, k);
        }
      }
    }


    /** The key half of a new entry: push key with entry e into the leaf, the only page that may now be full. */
    method LeafInsert(leaf: nat, ghost path: seq<nat>, key: int, e: nat)
      requires KeyStore() && numKeyPages > 0 && TreeOk(KPages(), shape, keyRoot, owner) && SmallExcept(KPages(), -1)
      requires Lookup(KPages(), shape, keyRoot, key) == None && e == |owner|
      requires leaf == Route(KPages(), shape, keyRoot, key) && OnPath(KPages(), shape, keyRoot, key, path, leaf)
      modifies this`keyCache, this`owner
      ensures owner == old(owner) + [key] && KeyStore()
      ensures Splitting(KPages(), shape, keyRoot, owner, key, path, leaf)
      ensures forall k :: Lookup(KPages(), shape, keyRoot, k) == if k == key then Some(e) else old(Lookup(KPages(), shape, keyRoot, k))
    {
      ghost var pages, owner0 := KPages(), owner;
      assert NodeOk(pages, shape, keyRoot, owner, leaf);
      assert KPage(leaf) == pages[leaf];
      PagePush(leaf, key, e);
      assert KPages() == LeafPush(pages, leaf, key, e);
      owner := owner + [key];
      LeafStep(pages, shape, keyRoot, owner0, key, path, leaf, KPages(), owner);
    }

    /**
     * The key half of a new entry: key with entry e into its leaf, then the
     * splits up the path.  The value store is not touched.
     */
    method KeyAdd(leaf: nat, path: seq<nat>, key: int, e: nat)
      requires KeyStore() && ValueStore() && ValueClean() && ValueLayout() && |owner| + 1 == numEntries
      requires numKeyPages > 0 && TreeOk(KPages(), shape, keyRoot, owner) && SmallExcept(KPages(), -1)
      requires Lookup(KPages(), shape, keyRoot, key) == None && e == |owner|
      requires leaf == Route(KPages(), shape, keyRoot, key) && OnPath(KPages(), shape, keyRoot, key, path, leaf)
      modifies this`keyCache, this`keyFile, this`numKeyPages, this`keyRoot, this`shape, this`owner
      ensures Valid() && owner == old(owner) + [key] && forall e' :: ValueAt(e') == old(ValueAt(e'))
      ensures forall k :: Lookup(KPages(), shape, keyRoot, k) == if k == key then Some(e) else old(Lookup(KPages(), shape, keyRoot, k))
    {
      KeyPart(leaf, path, key, e);
      ValueSideKept();
    }

    /** The key pages' part of `KeyAdd`. */
    method KeyPart(leaf: nat, path: seq<nat>, key: int, e: nat)
      requires KeyStore() && numKeyPages > 0 && TreeOk(KPages(), shape, keyRoot, owner) && SmallExcept(KPages(), -1)
      requires Lookup(KPages(), shape, keyRoot, key) == None && e == |owner|
      requires leaf == Route(KPages(), shape, keyRoot, key) && OnPath(KPages(), shape, keyRoot, key, path, leaf)
      modifies this`keyCache, this`keyFile, this`numKeyPages, this`keyRoot, this`shape, this`owner
      ensures KeyStore() && numKeyPages > 0 && TreeOk(KPages(), shape, keyRoot, owner) && SmallExcept(KPages(), -1)
      ensures owner == old(owner) + [key]
      ensures forall k :: Lookup(KPages(), shape, keyRoot, k) == if k == key then Some(e) else old(Lookup(KPages(), shape, keyRoot, k))
    {
      LeafInsert(leaf, path, key, e);
      Cascade(key, path, leaf);
    }

    /** `insert` of a new key: push it, then split full pages up the stack. */
    method AddEntry(leaf: nat, path: seq<nat>, key: int, value: T)
      requires Valid() && numKeyPages > 0 && Lookup(KPages(), shape, keyRoot, key) == None
      requires leaf == Route(KPages(), shape, keyRoot, key) && OnPath(KPages(), shape, keyRoot, key, path, leaf)
      modifies this`keyCache, this`keyFile, this`numKeyPages, this`keyRoot, this`numEntries, this`shape, this`owner
      modifies this`valueCache, this`valueFile, this`numValuePages
      ensures Valid() && numEntries == old(numEntries) + 1 && owner == old(owner) + [key]
      ensures forall k :: Lookup(KPages(), shape, keyRoot, k) == if k == key then Some(old(numEntries)) else old(Lookup(KPages(), shape, keyRoot, k))
      ensures forall e' :: ValueAt(e') == if e' == old(numEntries) then value else old(ValueAt(e'))
    {
      var e := ValuePush(value);
      KeyAdd(leaf, path, key, e);
    }

    /**
     * `insert`: nothing on a read-only store; the first key plants a leaf
     * root; otherwise descend to the key's leaf, then overwrite the entry of
     * a key that is present, or add a new entry and split.  Afterwards the
     * key reads back as the value and every other key as before.
     */
    method Insert(key: int, value: T)
      requires Valid()
      modifies this`keyCache, this`keyFile, this`numKeyPages, this`keyRoot, this`numEntries, this`shape, this`owner
      modifies this`valueCache, this`valueFile, this`numValuePages
      ensures Valid()
      ensures readOnly ==> unchanged(this)
      ensures !readOnly ==> numEntries == old(numEntries) + (if old(Get(key)).Some? then 0 else 1)
      ensures !readOnly ==> forall k :: Get(k) == if k == key then Some(value) else old(Get(k))
    {
      if readOnly {
        return;
      }
      if numKeyPages == 0 {
        InsertFirst(key, value);
      } else {
        InsertIntoTree(key, value);
      }
    }

    /** `insert` into a store with a root page: the descent, then an overwrite or a new entry. */
    method InsertIntoTree(key: int, value: T)
      requires Valid() && numKeyPages > 0
      modifies this`keyCache, this`keyFile, this`numKeyPages, this`keyRoot, this`numEntries, this`shape, this`owner
      modifies this`valueCache, this`valueFile, this`numValuePages
      ensures Valid()
      ensures numEntries == old(numEntries) + (if old(Get(key)).Some? then 0 else 1)
      ensures forall k :: Get(k) == if k == key then Some(value) else old(Get(k))
    {
      var leaf, path, found, e := Seek(key);
      if found {
        Overwrite(e, key, value);
      } else {
        AddNew(leaf, path, key, value);
      }
    }

    /**
     * The search `insert` and `find` share: descend to the key's leaf and
     * look for the key there.  Only the key buffers change.
     */
    method Locate(key: int) returns (leaf: nat, path: seq<nat>, found: bool, e: nat)
      requires KeyStore() && TreeOk(KPages(), shape, keyRoot, owner) && numKeyPages > 0
      modifies this`keyCache
      ensures KeyStore() && KPages() == old(KPages())
      ensures leaf == Route(KPages(), shape, keyRoot, key) && OnPath(KPages(), shape, keyRoot, key, path, leaf)
      ensures found == Lookup(KPages(), shape, keyRoot, key).Some?
      ensures found ==> Lookup(KPages(), shape, keyRoot, key) == Some(e)
    {
      leaf, path := Descend(key);
      found, e := Probe(leaf, key);
    }

    /** `Locate` on a valid store: the store stays valid and `find` reports as before. */
    method Seek(key: int) returns (leaf: nat, path: seq<nat>, found: bool, e: nat)
      requires Valid() && numKeyPages > 0
      modifies this`keyCache
      ensures Valid() && KPages() == old(KPages()) && forall k :: Get(k) == old(Get(k))
      ensures leaf == Route(KPages(), shape, keyRoot, key) && OnPath(KPages(), shape, keyRoot, key, path, leaf)
      ensures found == Lookup(KPages(), shape, keyRoot, key).Some?
      ensures found ==> Lookup(KPages(), shape, keyRoot, key) == Some(e)
    {
      leaf, path, found, e := Locate(key);
      ValidKept();
      GetKept();
    }

    /** `insert` of a key not yet present: the new entry, and what `find` then reports. */
    method AddNew(leaf: nat, path: seq<nat>, key: int, value: T)
      requires Valid() && numKeyPages > 0 && Lookup(KPages(), shape, keyRoot, key) == None
      requires leaf == Route(KPages(), shape, keyRoot, key) && OnPath(KPages(), shape, keyRoot, key, path, leaf)
      modifies this`keyCache, this`keyFile, this`numKeyPages, this`keyRoot, this`numEntries, this`shape, this`owner
      modifies this`valueCache, this`valueFile, this`numValuePages
      ensures Valid() && numEntries == old(numEntries) + 1
      ensures forall k :: Get(k) == if k == key then Some(value) else old(Get(k))
    {
      AddEntry(leaf, path, key, value);
      NewEntryGet();
    }

    /** What `find` reports depends only on the pages, the shape, the root and the value state. */
    twostate lemma GetKept()
      requires KPages() == old(KPages()) && unchanged(this`numKeyPages, this`keyRoot, this`shape)
      requires vpp >= 1 && forall e :: ValueAt(e) == old(ValueAt(e))
      ensures forall k :: Get(k) == old(Get(k))
    {
      forall k
        ensures Get(k) == old(Get(k))
      {
        if numKeyPages > 0 && Wf(KPages(), shape) && keyRoot < numKeyPages {
          var r := Lookup(KPages(), shape, keyRoot, k);
          assert r == old(Lookup(KPages(), shape, keyRoot, k));
          if r.Some? {
            assert ValueAt(r.value) == old(ValueAt(r.value));
          }
        }
      }
    }

    /**
     * `find`: on a store with no entries, `write_all` and an error;
     * otherwise the value of the key's entry, or the default value when the
     * key is absent.  Nothing `find` reports changes.
     */
    method Find(key: int) returns (ok: bool, v: T)
      requires Valid()
      modifies this`keyCache, this`keyFile, this`valueCache, this`valueFile
      ensures Valid() && forall k :: Get(k) == old(Get(k))
      ensures ok == (old(numEntries) > 0)
      ensures ok ==> v == match old(Get(key)) case Some(x) => x case None => dflt
    {
      if numEntries == 0 {
        WriteAll();
        return false, dflt;
      }
      ok := true;
      v := FindIn(key);
    }

    /** The search of `find` once the store has an entry. */
    method FindIn(key: int) returns (v: T)
      requires Valid() && numEntries > 0
      modifies this`keyCache, this`keyFile, this`valueCache, this`valueFile
      ensures Valid() && forall k :: Get(k) == old(Get(k))
      ensures v == match old(Get(key)) case Some(x) => x case None => dflt
    {
      var leaf, path, found, e := Seek(key);
      if found {
        LookupOwner(KPages(), shape, keyRoot, owner, keyRoot, key);
        v := ReadEntry(e);
        GetKept();
      } else {
        v := dflt;
      }
    }

    /** `get_value` of an existing entry: its value, and no value changes. */
    method ReadEntry(e: nat) returns (v: T)
      requires Valid() && e < numEntries
      modifies this`valueCache, this`keyFile, this`valueFile
      ensures Valid() && v == old(ValueAt(e))
      ensures KPages() == old(KPages()) && forall e' :: ValueAt(e') == old(ValueAt(e'))
    {
      v := ReadSlot(e);
      ReadKept();
    }

    /** `get_value` of an entry below the count: the range checks pass and no file is written. */
    method ReadSlot(e: nat) returns (v: T)
      requires KeyStore() && ValueStore() && ValueLayout() && e < numEntries
      modifies this`valueCache, this`keyFile, this`valueFile
      ensures v == old(ValueAt(e)) && keyFile == old(keyFile) && valueFile == old(valueFile)
      ensures ValueStore() && ValuesSame() && KeyStore() && KPages() == old(KPages())
    {
      EntryInRange(e, numEntries, numValuePages, vpp);
      var p := e / vpp;
      assert p < numValuePages && e % vpp < VPage(p).size;
      var ok;
      ok, v := GetValue(e);
    }

    /** `Valid` survives a read that leaves every page's view and every count as it was. */
    twostate lemma ReadKept()
      requires old(Valid()) && KeyStore() && ValueStore() && ValuesSame() && KPages() == old(KPages())
      requires unchanged(this`numValuePages, this`numEntries, this`numKeyPages, this`keyRoot, this`shape, this`owner)
      ensures Valid() && forall e :: ValueAt(e) == old(ValueAt(e))
    {
    }

    /**
     * `get_id_from_name`: the id of the first stored entry, in entry order,
     * that the value type's match operator pairs with `search`, or -1 when
     * none does.  The match operator (a name, a title or `x`, as
     * `BTreeTypes.AuthorMatch`, `PaperMatch` and `TestMatch` state) and the
     * id of a value are parameters, since values are abstract here.
     */
    method GetIdFromName(search: T, matches: (T, T) -> bool, id: T -> int) returns (r: int)
      requires Valid()
      modifies this`valueCache, this`keyFile, this`valueFile
      ensures Valid() && KPages() == old(KPages()) && forall e :: ValueAt(e) == old(ValueAt(e))
      ensures (forall e :: 0 <= e < numEntries ==> !matches(ValueAt(e), search)) ==> r == -1
      ensures forall e0 :: (0 <= e0 < numEntries && matches(ValueAt(e0), search)
                            && forall e :: 0 <= e < e0 ==> !matches(ValueAt(e), search)) ==> r == id(ValueAt(e0))
    {
      var i := 0;
      while i < numEntries
        invariant 0 <= i <= numEntries && Valid()
        invariant KPages() == old(KPages()) && forall e :: ValueAt(e) == old(ValueAt(e))
        invariant forall e :: 0 <= e < i ==> !matches(old(ValueAt(e)), search)
      {
        var v := ReadEntry(i);
        if matches(v, search) {
          return id(v);
        }
        i := i + 1;
      }
      return -1;
    }

    /** The value store's invariants and the entries' values depend on the value state alone. */
    twostate lemma ValueSideKept()
      requires old(ValueStore() && ValueClean() && ValueLayout())
      requires unchanged(this`valueCache, this`valueFile, this`numValuePages, this`numEntries)
      ensures ValueStore() && ValueClean() && ValueLayout()
      ensures forall e :: ValueAt(e) == old(ValueAt(e))
    {
    }

    /**
     * A new last entry for the last owner's key: only that key's value
     * changes, because every older key's entry lies below it.
     */
    twostate lemma NewEntryGet()
      requires old(numKeyPages) > 0 && old(TreeOk(KPages(), shape, keyRoot, owner)) && old(|owner| == numEntries)
      requires Valid() && |owner| == old(numEntries) + 1
      requires forall k :: Lookup(KPages(), shape, keyRoot, k) == if k == owner[old(numEntries)] then Some(old(numEntries)) else old(Lookup(KPages(), shape, keyRoot, k))
      requires forall e :: e != old(numEntries) ==> ValueAt(e) == old(ValueAt(e))
      ensures forall k :: Get(k) == if k == owner[old(numEntries)] then Some(ValueAt(old(numEntries))) else old(Get(k))
    {
      forall k
        ensures Get(k) == if k == owner[old(numEntries)] then Some(ValueAt(old(numEntries))) else old(Get(k))
      {
        if k != owner[old(numEntries)] && old(Lookup(KPages(), shape, keyRoot, k)).Some? {
          LookupOwner(old(KPages()), old(shape), old(keyRoot), old(owner), old(keyRoot), k);
        }
      }
    }
  }
}
