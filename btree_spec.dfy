/**
 * The key pages of the B-tree engine taken together, as a sequence indexed by
 * page number.  This module states what a well-formed tree is, what looking a
 * key up means, and what the three changes `insert` makes do to both: pushing
 * a key onto a leaf, splitting a full page under its parent, and splitting a
 * full root under a new root.
 *
 * The ghost `Shape` gives each page a level (children sit strictly lower,
 * which makes the descent terminate), the key interval (lo, hi] its subtree
 * covers, and the page whose child it is.
 */
module BTreeSpec {
  import opened Wrappers
  import opened KeyPages

  datatype Bound = NegInf | At(k: int) | PosInf

  /** lo < k */
  predicate Above(lo: Bound, k: int)
  {
    lo.NegInf? || (lo.At? && lo.k < k)
  }

  /** k <= hi */
  predicate Below(k: int, hi: Bound)
  {
    hi.PosInf? || (hi.At? && k <= hi.k)
  }

  /** The lower bound of child j of a page whose own lower bound is `lo`: the key before it. */
  function LoOf(kp: KeyPage, lo: Bound, j: nat): Bound
    requires j <= kp.size <= |kp.cells|
  {
    if j == 0 then lo else At(kp.cells[j - 1].key)
  }

  /** The upper bound of child j: the key at j, which keys equal to it follow down. */
  function HiOf(kp: KeyPage, hi: Bound, j: nat): Bound
    requires j <= kp.size <= |kp.cells|
  {
    if j == kp.size then hi else At(kp.cells[j].key)
  }

  datatype Shape = Shape(level: seq<nat>, lo: seq<Bound>, hi: seq<Bound>, parent: seq<nat>)

  ghost predicate Fits(pages: seq<KeyPage>, sh: Shape)
  {
    |sh.level| == |pages| && |sh.lo| == |pages| && |sh.hi| == |pages| && |sh.parent| == |pages|
  }

  /** A page is shaped, at most full, and its children exist and sit lower. */
  ghost predicate NodeWf(pages: seq<KeyPage>, sh: Shape, p: nat)
    requires Fits(pages, sh) && p < |pages|
  {
    var kp := pages[p];
    && Shaped(kp) && kp.size <= ORDER
    && (kp.internal ==> forall j :: 0 <= j <= kp.size ==> Child(kp, j) < |pages| && sh.level[Child(kp, j)] < sh.level[p])
  }

  ghost predicate Wf(pages: seq<KeyPage>, sh: Shape)
  {
    Fits(pages, sh) && forall p :: 0 <= p < |pages| ==> NodeWf(pages, sh, p)
  }

  /**
   * What `find` returns for `key` from page p: the descent takes child
   * `find_pos` on every internal page, and on the leaf reports the cell pointer of
   * the cell holding `key`.
   */
  ghost function Lookup(pages: seq<KeyPage>, sh: Shape, p: nat, key: int): Option<nat>
    requires Wf(pages, sh) && p < |pages|
    decreases sh.level[p]
  {
    var kp := pages[p];
    assert NodeWf(pages, sh, p);
    if kp.internal then Lookup(pages, sh, Child(kp, LowerBound(Keys(kp), key)), key) else LeafFind(kp, key)
  }

  /** The leaf that descent reaches. */
  ghost function Route(pages: seq<KeyPage>, sh: Shape, p: nat, key: int): (leaf: nat)
    requires Wf(pages, sh) && p < |pages|
    ensures leaf < |pages| && !pages[leaf].internal && Shaped(pages[leaf]) && pages[leaf].size <= ORDER
    ensures Lookup(pages, sh, p, key) == LeafFind(pages[leaf], key)
    decreases sh.level[p]
  {
    var kp := pages[p];
    assert NodeWf(pages, sh, p);
    if kp.internal then Route(pages, sh, Child(kp, LowerBound(Keys(kp), key)), key) else p
  }

  /** Child j of internal page p is not the root, names p as its parent, and covers the keys between its separators. */
  ghost predicate ChildLinked(pages: seq<KeyPage>, sh: Shape, root: nat, p: nat, j: nat)
    requires Wf(pages, sh) && p < |pages| && pages[p].internal && j <= pages[p].size
  {
    var kp := pages[p];
    assert NodeWf(pages, sh, p);
    var c := Child(kp, j);
    c != root && sh.parent[c] == p && sh.lo[c] == LoOf(kp, sh.lo[p], j) && sh.hi[c] == HiOf(kp, sh.hi[p], j)
  }

  /**
   * Page p holds strictly increasing keys within its interval; an internal
   * page's children are linked back to it; a leaf's pointers are value entries
   * whose owner (the key they were created for) is the key beside them.
   */
  ghost predicate NodeOk(pages: seq<KeyPage>, sh: Shape, root: nat, owner: seq<int>, p: nat)
    requires Wf(pages, sh) && p < |pages|
  {
    var kp := pages[p];
    assert NodeWf(pages, sh, p);
    && Sorted(Keys(kp))
    && (forall i :: 0 <= i < kp.size ==> Above(sh.lo[p], kp.cells[i].key) && Below(kp.cells[i].key, sh.hi[p]))
    && (kp.internal ==> forall j :: 0 <= j <= kp.size ==> ChildLinked(pages, sh, root, p, j))
    && (!kp.internal ==> forall i :: 0 <= i < kp.size ==> kp.cells[i].ptr < |owner| && owner[kp.cells[i].ptr] == kp.cells[i].key)
  }

  /** A well-formed B-tree rooted at `root`, which covers every key. */
  ghost predicate TreeOk(pages: seq<KeyPage>, sh: Shape, root: nat, owner: seq<int>)
  {
    && Wf(pages, sh) && root < |pages| && sh.lo[root] == NegInf && sh.hi[root] == PosInf
    && forall p :: 0 <= p < |pages| ==> NodeOk(pages, sh, root, owner, p)
  }

  /** Every page but x has room for another key. */
  ghost predicate SmallExcept(pages: seq<KeyPage>, x: int)
  {
    forall p :: 0 <= p < |pages| && p != x ==> pages[p].size < ORDER
  }

  // ------------------------------------------------------------ basic facts

  /** A pointer found for k is an entry created for k. */
  lemma {:induction false} LookupOwner(pages: seq<KeyPage>, sh: Shape, root: nat, owner: seq<int>, q: nat, k: int)
    requires TreeOk(pages, sh, root, owner) && q < |pages|
    requires Lookup(pages, sh, q, k).Some?
    ensures Lookup(pages, sh, q, k).value < |owner| && owner[Lookup(pages, sh, q, k).value] == k
  {
    var leaf := Route(pages, sh, q, k);
    assert NodeOk(pages, sh, root, owner, leaf);
  }

  /** If tree `q`'s interval holds k, so does the interval of the leaf k descends to. */
  lemma {:induction false} RouteBounds(pages: seq<KeyPage>, sh: Shape, root: nat, owner: seq<int>, q: nat, k: int)
    requires TreeOk(pages, sh, root, owner) && q < |pages|
    requires Above(sh.lo[q], k) && Below(k, sh.hi[q])
    ensures var leaf := Route(pages, sh, q, k); Above(sh.lo[leaf], k) && Below(k, sh.hi[leaf])
    decreases sh.level[q]
  {
    var kp := pages[q];
    assert NodeWf(pages, sh, q) && NodeOk(pages, sh, root, owner, q);
    if kp.internal {
      var n := LowerBound(Keys(kp), k);
      assert ChildLinked(pages, sh, root, q, n);
      RouteBounds(pages, sh, root, owner, Child(kp, n), k);
    }
  }

  /** The children of an internal page are distinct pages: their intervals differ. */
  lemma ChildrenDistinct(pages: seq<KeyPage>, sh: Shape, root: nat, owner: seq<int>, q: nat, i: nat, i': nat)
    requires TreeOk(pages, sh, root, owner) && q < |pages| && pages[q].internal
    requires i < i' <= pages[q].size <= |pages[q].cells|
    ensures Child(pages[q], i) != Child(pages[q], i')
  {
    var kp := pages[q];
    assert NodeWf(pages, sh, q) && NodeOk(pages, sh, root, owner, q);
    assert ChildLinked(pages, sh, root, q, i) && ChildLinked(pages, sh, root, q, i');
    if i > 0 {
      assert Keys(kp)[i - 1] < Keys(kp)[i' - 1];
    }
  }

  // ------------------------------------------------------ pushing onto a leaf

  /** The tree after pushing `key`, with value entry `e`, onto page `leaf`. */
  function LeafPush(pages: seq<KeyPage>, leaf: nat, key: int, e: nat): (pages': seq<KeyPage>)
    requires leaf < |pages| && Shaped(pages[leaf]) && pages[leaf].size < SLOTS
    ensures |pages'| == |pages|
  {
    pages[leaf := PushPage(pages[leaf], key, e)]
  }

  /** Only the leaf changed, so descent goes where it went, and only `key` finds something new there. */
  lemma {:induction false} LeafPushLookup(pages: seq<KeyPage>, sh: Shape, leaf: nat, key: int, e: nat, q: nat, k: int)
    requires Wf(pages, sh) && leaf < |pages| && !pages[leaf].internal && Shaped(pages[leaf]) && pages[leaf].size < ORDER
    requires Sorted(Keys(pages[leaf])) && key !in Keys(pages[leaf])
    requires Wf(LeafPush(pages, leaf, key, e), sh) && q < |pages|
    ensures Lookup(LeafPush(pages, leaf, key, e), sh, q, k)
         == if k == key && Route(pages, sh, q, k) == leaf then Some(e) else Lookup(pages, sh, q, k)
    decreases sh.level[q]
  {
    var pages' := LeafPush(pages, leaf, key, e);
    assert NodeWf(pages, sh, q);
    if q == leaf {
      PushFinds(pages[leaf], key, e, k);
    } else if pages[q].internal {
      LeafPushLookup(pages, sh, leaf, key, e, Child(pages[q], LowerBound(Keys(pages[q]), key)), k);
      LeafPushLookup(pages, sh, leaf, key, e, Child(pages[q], LowerBound(Keys(pages[q]), k)), k);
    }
  }

  /** The pushed leaf keeps its node invariants: sorted, within its interval, owners extended. */
  lemma LeafPushNode(pages: seq<KeyPage>, sh: Shape, root: nat, owner: seq<int>, key: int)
    requires TreeOk(pages, sh, root, owner) && SmallExcept(pages, -1)
    requires Lookup(pages, sh, root, key) == None
    ensures var leaf := Route(pages, sh, root, key);
            var pages' := LeafPush(pages, leaf, key, |owner|);
            && Wf(pages', sh) && NodeOk(pages', sh, root, owner + [key], leaf)
            && Sorted(Keys(pages[leaf])) && key !in Keys(pages[leaf])
  {
    var leaf := Route(pages, sh, root, key);
    var kp := pages[leaf];
    assert NodeWf(pages, sh, leaf) && NodeOk(pages, sh, root, owner, leaf);
    LowerBoundFinds(Keys(kp), key);
    RouteBounds(pages, sh, root, owner, root, key);
    LeafPushWf(pages, sh, leaf, key, |owner|);
    LeafPushCells(pages, sh, root, owner, leaf, key);
  }

  /** Pushing onto a leaf with room keeps every page well formed. */
  lemma LeafPushWf(pages: seq<KeyPage>, sh: Shape, leaf: nat, key: int, e: nat)
    requires Wf(pages, sh) && leaf < |pages| && !pages[leaf].internal && Shaped(pages[leaf]) && pages[leaf].size < ORDER
    ensures Wf(LeafPush(pages, leaf, key, e), sh)
  {
    var pages' := LeafPush(pages, leaf, key, e);
    forall p | 0 <= p < |pages'|
      ensures NodeWf(pages', sh, p)
    {
      assert NodeWf(pages, sh, p);
    }
  }

  /** The cells of the pushed leaf: sorted, inside the leaf's interval, each owned by its key. */
  lemma LeafPushCells(pages: seq<KeyPage>, sh: Shape, root: nat, owner: seq<int>, leaf: nat, key: int)
    requires Wf(pages, sh) && leaf < |pages| && !pages[leaf].internal && Shaped(pages[leaf]) && pages[leaf].size < ORDER
    requires NodeOk(pages, sh, root, owner, leaf) && key !in Keys(pages[leaf])
    requires Above(sh.lo[leaf], key) && Below(key, sh.hi[leaf])
    requires Wf(LeafPush(pages, leaf, key, |owner|), sh)
    ensures NodeOk(LeafPush(pages, leaf, key, |owner|), sh, root, owner + [key], leaf)
  {
    var kp := pages[leaf];
    var e := |owner|;
    var pages' := LeafPush(pages, leaf, key, e);
    var owner' := owner + [key];
    var lb := LowerBound(Keys(kp), key);
    InsertAtEffect(kp, key, e, lb);
    PushSorted(kp, key, e);
    var kp' := pages'[leaf];
    forall i | 0 <= i < kp'.size
      ensures Above(sh.lo[leaf], kp'.cells[i].key) && Below(kp'.cells[i].key, sh.hi[leaf])
      ensures kp'.cells[i].ptr < |owner'| && owner'[kp'.cells[i].ptr] == kp'.cells[i].key
    {
      if i > lb {
        assert kp'.cells[i] == kp.cells[i - 1];
      }
    }
  }

  /**
   * Pushing a key the tree lacks onto the leaf it descends to, with a fresh
   * entry, keeps the tree well formed (that leaf alone may now be full), and
   * makes lookup find the new entry for that key and change for no other key.
   */
  lemma LeafPushOk(pages: seq<KeyPage>, sh: Shape, root: nat, owner: seq<int>, key: int)
    requires TreeOk(pages, sh, root, owner) && SmallExcept(pages, -1)
    requires Lookup(pages, sh, root, key) == None
    ensures var leaf := Route(pages, sh, root, key);
            var pages' := LeafPush(pages, leaf, key, |owner|);
            && TreeOk(pages', sh, root, owner + [key]) && SmallExcept(pages', leaf)
            && forall k :: Lookup(pages', sh, root, k) == if k == key then Some(|owner|) else Lookup(pages, sh, root, k)
  {
    var leaf := Route(pages, sh, root, key);
    var e := |owner|;
    var pages' := LeafPush(pages, leaf, key, e);
    var owner' := owner + [key];
    LeafPushNode(pages, sh, root, owner, key);
    forall p | 0 <= p < |pages'| && p != leaf
      ensures NodeOk(pages', sh, root, owner', p)
    {
      assert NodeWf(pages, sh, p) && NodeOk(pages, sh, root, owner, p);
      if pages[p].internal {
        assert pages'[p] == pages[p];
        forall j | 0 <= j <= pages[p].size
          ensures ChildLinked(pages', sh, root, p, j)
        {
          assert ChildLinked(pages, sh, root, p, j);
        }
      }
    }
    forall k
      ensures Lookup(pages', sh, root, k) == if k == key then Some(e) else Lookup(pages, sh, root, k)
    {
      LeafPushLookup(pages, sh, leaf, key, e, root, k);
    }
  }

  // ------------------------------------------------------- dividing a page

  /** The key a full page sends up when it splits: key 168. */
  function Middle(kp: KeyPage): int
    requires Shaped(kp)
  {
    kp.cells[HALF].key
  }

  /** l and r are the lower and upper halves of the full page src, as `move_keys` leaves them. */
  ghost predicate Halves(src: KeyPage, l: KeyPage, r: KeyPage)
    requires Shaped(src) && src.size == ORDER
  {
    && Shaped(l) && Shaped(r) && l.internal == src.internal && r.internal == src.internal
    && r.size == HALF && l.size == (if src.internal then HALF else HALF + 1)
    && Keys(l) == Keys(src)[..l.size] && Keys(r) == Keys(src)[HALF + 1..]
    && (src.internal ==> forall j :: 0 <= j <= HALF ==> Child(l, j) == Child(src, j) && Child(r, j) == Child(src, j + HALF + 1))
    && (!src.internal ==> forall i :: 0 <= i <= HALF ==> l.cells[i] == src.cells[i])
    && (!src.internal ==> forall i :: 0 <= i < HALF ==> r.cells[i] == src.cells[i + HALF + 1])
  }

  lemma MoveKeysHalves(src: KeyPage, dst: KeyPage)
    requires Shaped(src) && Shaped(dst) && src.size == ORDER && dst.internal == src.internal
    ensures Halves(src, MoveKeys(src, dst).0, MoveKeys(src, dst).1)
  {
    if src.internal {
      SplitInternal(src, dst);
    } else {
      SplitLeaf(src, dst);
    }
  }

  /**
   * P' is P with the middle key s pushed: s lands between the keys around
   * child j, which is page x, so the new pointer to rr sits right after x.
   */
  ghost predicate ParentGrew(kp: KeyPage, kp': KeyPage, x: nat, rr: nat, s: int, j: nat)
  {
    && kp.internal && Shaped(kp) && j <= kp.size < ORDER && Sorted(Keys(kp))
    && Child(kp, j) == x
    && (j > 0 ==> kp.cells[j - 1].key < s) && (j < kp.size ==> s < kp.cells[j].key)
    && (forall i :: 0 <= i <= kp.size && i != j ==> Child(kp, i) != x)
    && kp' == PushPage(kp, s, rr)
  }

  /**
   * pages' is pages with the full page x divided: x holds the lower half and
   * the new page rr the upper half.  The only other old page that may differ
   * is `par`, the parent of x, which got the middle key and a pointer to rr; a
   * root split has no parent (par < 0) and puts the new root above instead.
   */
  ghost predicate Divided(pages: seq<KeyPage>, sh: Shape, pages': seq<KeyPage>, sh': Shape, x: nat, rr: nat, par: int, j: nat)
  {
    && Wf(pages, sh) && Wf(pages', sh')
    && x < |pages| <= rr < |pages'|
    && (forall q :: 0 <= q < |pages| ==> sh'.level[q] == sh.level[q])
    && sh'.level[rr] == sh.level[x]
    && Shaped(pages[x]) && pages[x].size == ORDER
    && (forall i :: 0 <= i < HALF ==> pages[x].cells[i].key < Middle(pages[x]))
    && Halves(pages[x], pages'[x], pages'[rr])
    && (forall q :: 0 <= q < |pages| && q != x && q != par ==> pages'[q] == pages[q])
    && (forall q :: 0 <= q < |pages| && q != par && NodeWf(pages, sh, q) && pages[q].internal ==>
          forall i :: 0 <= i <= pages[q].size ==> Child(pages[q], i) != x)
    && (par >= 0 ==> par < |pages| && par != x && ParentGrew(pages[par], pages'[par], x, rr, Middle(pages[x]), j))
  }

  /** Descent from any old page but x finds what it found before the division. */
  lemma {:induction false} DividedKeeps(pages: seq<KeyPage>, sh: Shape, pages': seq<KeyPage>, sh': Shape,
                                        x: nat, rr: nat, par: int, j: nat, q: nat, k: int)
    requires Divided(pages, sh, pages', sh', x, rr, par, j) && q < |pages| && q != x
    ensures Lookup(pages', sh', q, k) == Lookup(pages, sh, q, k)
    decreases sh.level[q], 2
  {
    assert NodeWf(pages, sh, q);
    if q == par {
      DividedParent(pages, sh, pages', sh', x, rr, par, j, k);
    } else if pages[q].internal {
      var c := Child(pages[q], LowerBound(Keys(pages[q]), k));
      assert c != x && c < |pages| && sh.level[c] < sh.level[q];
      DividedKeeps(pages, sh, pages', sh', x, rr, par, j, c, k);
    }
  }

  /** The parent's keys once the middle key s goes in beside child j. */
  lemma ParentKeys(kp: KeyPage, s: int, j: nat, rr: nat)
    requires kp.internal && Shaped(kp) && j <= kp.size < ORDER && Sorted(Keys(kp))
    requires (j > 0 ==> kp.cells[j - 1].key < s) && (j < kp.size ==> s < kp.cells[j].key)
    ensures s !in Keys(kp) && LowerBound(Keys(kp), s) == j && Sorted(Keys(PushPage(kp, s, rr)))
    ensures Keys(PushPage(kp, s, rr)) == Keys(kp)[..j] + [s] + Keys(kp)[j..]
  {
    var keys := Keys(kp);
    LowerBoundIs(keys, s, j);
    LowerBoundFinds(keys, s);
    PushSorted(kp, s, rr);
  }

  /** Child pointers up to the insertion point stay where they were. */
  lemma PushChildBefore(kp: KeyPage, s: int, rr: nat, j: nat, n: nat)
    requires Shaped(kp) && kp.size < SLOTS && LowerBound(Keys(kp), s) == j && n <= j
    ensures Child(PushPage(kp, s, rr), n) == Child(kp, n)
  {
    InsertAtCells(kp, s, rr, j);
  }

  /** The new pointer follows the insertion point and later pointers move up by one. */
  lemma PushChildAfter(kp: KeyPage, s: int, rr: nat, j: nat, n: nat)
    requires Shaped(kp) && kp.size < SLOTS && LowerBound(Keys(kp), s) == j && j <= n <= kp.size
    ensures Child(PushPage(kp, s, rr), n + 1) == if n == j then rr else Child(kp, n)
  {
    InsertAtCells(kp, s, rr, j);
  }

  /** At a parent that took the middle key s beside child j, keys up to s take the child they took before. */
  lemma ParentStepLow(kp: KeyPage, s: int, j: nat, rr: nat, k: int)
    requires kp.internal && Shaped(kp) && j <= kp.size < ORDER && Sorted(Keys(kp))
    requires (j > 0 ==> kp.cells[j - 1].key < s) && (j < kp.size ==> s < kp.cells[j].key)
    requires k <= s
    ensures var n, kp' := LowerBound(Keys(kp), k), PushPage(kp, s, rr);
            && kp'.internal && n <= j && LowerBound(Keys(kp'), k) == n && Child(kp', n) == Child(kp, n)
  {
    var keys, kp' := Keys(kp), PushPage(kp, s, rr);
    var n := LowerBound(keys, k);
    ParentKeys(kp, s, j, rr);
    InsertLowerBound(keys, s, k);
    assert j < kp.size ==> keys[j] >= k;
    PushChildBefore(kp, s, rr, j, n);
  }

  /** Keys above s take the child after the one they took before: the new page rr where that was child j. */
  lemma ParentStepHigh(kp: KeyPage, s: int, j: nat, rr: nat, k: int)
    requires kp.internal && Shaped(kp) && j <= kp.size < ORDER && Sorted(Keys(kp))
    requires (j > 0 ==> kp.cells[j - 1].key < s) && (j < kp.size ==> s < kp.cells[j].key)
    requires k > s
    ensures var n, kp' := LowerBound(Keys(kp), k), PushPage(kp, s, rr);
            && kp'.internal && n >= j && LowerBound(Keys(kp'), k) == n + 1
            && Child(kp', n + 1) == if n == j then rr else Child(kp, n)
  {
    var keys, kp' := Keys(kp), PushPage(kp, s, rr);
    var n := LowerBound(keys, k);
    ParentKeys(kp, s, j, rr);
    InsertLowerBound(keys, s, k);
    assert forall i :: 0 <= i < j ==> keys[i] < k;
    PushChildAfter(kp, s, rr, j, n);
  }

  /**
   * At the parent, keys up to the middle one take the child they took before
   * (x itself holds the lower half), and keys above it take the child after
   * the one they took before (rr where that was x).
   */
  lemma {:induction false} DividedParent(pages: seq<KeyPage>, sh: Shape, pages': seq<KeyPage>, sh': Shape,
                                         x: nat, rr: nat, par: int, j: nat, k: int)
    requires Divided(pages, sh, pages', sh', x, rr, par, j) && par >= 0
    ensures Lookup(pages', sh', par, k) == Lookup(pages, sh, par, k)
    decreases sh.level[par], 1
  {
    var q := par as nat;
    assert NodeWf(pages, sh, q);
    var kp, s := pages[q], Middle(pages[x]);
    var n := LowerBound(Keys(kp), k);
    if k <= s {
      ParentStepLow(kp, s, j, rr, k);
    } else {
      ParentStepHigh(kp, s, j, rr, k);
    }
    assert sh.level[x] < sh.level[q];
    if n != j {
      var c := Child(kp, n);
      assert c != x && c < |pages| && sh.level[c] < sh.level[q];
      DividedKeeps(pages, sh, pages', sh', x, rr, par, j, c, k);
    } else if k <= s {
      DividedLeft(pages, sh, pages', sh', x, rr, par, j, k);
    } else {
      DividedRight(pages, sh, pages', sh', x, rr, par, j, k);
    }
  }

  /** Keys up to the middle one find in the lower half what they found in the full page. */
  lemma HalfLeft(src: KeyPage, l: KeyPage, r: KeyPage, k: int)
    requires Shaped(src) && src.size == ORDER && Halves(src, l, r) && k <= Middle(src)
    ensures var n := LowerBound(Keys(src), k);
            && n <= HALF && LowerBound(Keys(l), k) == n
            && (src.internal ==> Child(l, n) == Child(src, n))
            && (!src.internal ==> LeafFind(l, k) == LeafFind(src, k))
  {
    var n := LowerBound(Keys(src), k);
    assert Keys(src)[HALF] == Middle(src);
    LowerBoundPrefix(Keys(src), l.size, k);
    if !src.internal {
      assert l.cells[n] == src.cells[n];
    }
  }

  /** Keys above the middle one find in the upper half what they found in the full page. */
  lemma HalfRight(src: KeyPage, l: KeyPage, r: KeyPage, k: int)
    requires Shaped(src) && src.size == ORDER && Halves(src, l, r) && k > Middle(src)
    requires forall i :: 0 <= i < HALF ==> src.cells[i].key < Middle(src)
    ensures var n := LowerBound(Keys(src), k);
            && n > HALF && LowerBound(Keys(r), k) == n - HALF - 1
            && (src.internal ==> Child(r, n - HALF - 1) == Child(src, n))
            && (!src.internal ==> LeafFind(r, k) == LeafFind(src, k))
  {
    var keys := Keys(src);
    var n := LowerBound(keys, k);
    assert keys[HALF] == Middle(src);
    assert n > HALF;
    LowerBoundSuffix(keys, HALF + 1, k);
    if !src.internal && n < ORDER {
      assert r.cells[n - HALF - 1] == src.cells[n];
    }
  }

  /** Keys up to the middle one descend through the lower half as they did through the full page. */
  lemma {:induction false} DividedLeft(pages: seq<KeyPage>, sh: Shape, pages': seq<KeyPage>, sh': Shape,
                                       x: nat, rr: nat, par: int, j: nat, k: int)
    requires Divided(pages, sh, pages', sh', x, rr, par, j) && k <= Middle(pages[x])
    ensures Lookup(pages', sh', x, k) == Lookup(pages, sh, x, k)
    decreases sh.level[x], 0
  {
    var src := pages[x];
    HalfLeft(src, pages'[x], pages'[rr], k);
    assert NodeWf(pages, sh, x);
    if src.internal {
      var c := Child(src, LowerBound(Keys(src), k));
      assert c != x && c < |pages| && sh.level[c] < sh.level[x];
      DividedKeeps(pages, sh, pages', sh', x, rr, par, j, c, k);
    }
  }

  /** Keys above the middle one descend through the upper half as they did through the full page. */
  lemma {:induction false} DividedRight(pages: seq<KeyPage>, sh: Shape, pages': seq<KeyPage>, sh': Shape,
                                        x: nat, rr: nat, par: int, j: nat, k: int)
    requires Divided(pages, sh, pages', sh', x, rr, par, j) && k > Middle(pages[x])
    ensures Lookup(pages', sh', rr, k) == Lookup(pages, sh, x, k)
    decreases sh.level[x], 0
  {
    var src := pages[x];
    HalfRight(src, pages'[x], pages'[rr], k);
    assert NodeWf(pages, sh, x);
    if src.internal {
      var c := Child(src, LowerBound(Keys(src), k));
      assert c != x && c < |pages| && sh.level[c] < sh.level[x];
      DividedKeeps(pages, sh, pages', sh', x, rr, par, j, c, k);
    }
  }

  // -------------------------------------------- splitting a page under its parent

  /** c is one of the child pointers the upper half of kp takes with it. */
  ghost predicate Moved(kp: KeyPage, c: nat)
    requires Shaped(kp) && kp.size <= SLOTS
  {
    exists i :: HALF < i <= kp.size && Child(kp, i) == c
  }

  /**
   * `split_page(parent)`: a new page (the next page number) takes the upper
   * half of the full page x, and x's parent p takes x's middle key with a
   * pointer to the new page.
   */
  function SplitPages(pages: seq<KeyPage>, x: nat, p: nat): (pages': seq<KeyPage>)
    requires x < |pages| && p < |pages| && x != p
    requires Shaped(pages[x]) && pages[x].size == ORDER && Shaped(pages[p]) && pages[p].size < SLOTS
    ensures |pages'| == |pages| + 1
  {
    var halves := MoveKeys(pages[x], NewKeyPage(pages[x].internal, false));
    (pages[x := halves.0] + [halves.1])[p := PushPage(pages[p], Middle(pages[x]), |pages|)]
  }

  /** The new page sits at x's level and covers x's interval above the middle key; children it took now name it as parent. */
  ghost function SplitShape(pages: seq<KeyPage>, sh: Shape, x: nat, p: nat): (sh': Shape)
    requires Fits(pages, sh) && x < |pages| && Shaped(pages[x]) && pages[x].size == ORDER
    ensures var n := |pages| + 1; |sh'.level| == n && |sh'.lo| == n && |sh'.hi| == n && |sh'.parent| == n
  {
    var rr := |pages|;
    var s := Middle(pages[x]);
    Shape(sh.level + [sh.level[x]], sh.lo + [At(s)], sh.hi[x := At(s)] + [sh.hi[x]],
          seq(rr + 1, q requires 0 <= q <= rr => if q == rr then p else if pages[x].internal && Moved(pages[x], q) then rr else sh.parent[q]))
  }

  /** The situation `split_page(parent)` runs in: x is full and is child j of p, every other page has room. */
  ghost predicate SplitCase(pages: seq<KeyPage>, sh: Shape, root: nat, owner: seq<int>, x: nat, p: nat, j: nat)
  {
    && TreeOk(pages, sh, root, owner) && SmallExcept(pages, x)
    && x < |pages| && p < |pages| && Shaped(pages[x]) && pages[x].size == ORDER
    && NodeWf(pages, sh, p) && pages[p].internal && j <= pages[p].size && Child(pages[p], j) == x
  }

  /** Bounds compose: lo <= a < k and lo < a <= ... */
  lemma BoundsCompose(kp: KeyPage, lo: Bound, hi: Bound, j: nat, k: int)
    requires Shaped(kp) && j <= kp.size <= ORDER
    requires forall i :: 0 <= i < kp.size ==> Above(lo, kp.cells[i].key) && Below(kp.cells[i].key, hi)
    requires Above(LoOf(kp, lo, j), k) && Below(k, HiOf(kp, hi, j))
    ensures Above(lo, k) && Below(k, hi)
  {
    if j > 0 {
      assert Above(lo, kp.cells[j - 1].key);
    }
    if j < kp.size {
      assert Below(kp.cells[j].key, hi);
    }
  }

  /** What the split can rely on about x, its halves and its parent. */
  lemma SplitBasics(pages: seq<KeyPage>, sh: Shape, root: nat, owner: seq<int>, x: nat, p: nat, j: nat)
    requires SplitCase(pages, sh, root, owner, x, p, j)
    ensures var src, kp, s := pages[x], pages[p], Middle(pages[x]);
            && p != x && x != root && sh.level[x] < sh.level[p] && sh.parent[x] == p && kp.size < ORDER
            && Shaped(src) && Sorted(Keys(src)) && Sorted(Keys(kp))
            && sh.lo[x] == LoOf(kp, sh.lo[p], j) && sh.hi[x] == HiOf(kp, sh.hi[p], j)
            && Halves(src, MoveKeys(src, NewKeyPage(src.internal, false)).0, MoveKeys(src, NewKeyPage(src.internal, false)).1)
            && (forall i :: 0 <= i < HALF ==> src.cells[i].key < s)
            && (forall i :: HALF < i < ORDER ==> s < src.cells[i].key)
            && (forall i :: 0 <= i < ORDER ==> Above(sh.lo[x], src.cells[i].key) && Below(src.cells[i].key, sh.hi[x]))
            && (j > 0 ==> kp.cells[j - 1].key < s) && (j < kp.size ==> s < kp.cells[j].key)
            && Above(sh.lo[p], s) && Below(s, sh.hi[p])
            && (forall i :: 0 <= i <= kp.size && i != j ==> Child(kp, i) != x)
  {
    var src, kp, s := pages[x], pages[p], Middle(pages[x]);
    assert NodeOk(pages, sh, root, owner, p) && NodeOk(pages, sh, root, owner, x) && NodeWf(pages, sh, x);
    assert ChildLinked(pages, sh, root, p, j);
    MoveKeysHalves(src, NewKeyPage(src.internal, false));
    var keys := Keys(src);
    assert keys[HALF] == s && keys[ORDER - 1] == src.cells[ORDER - 1].key;
    assert Above(sh.lo[x], s) && Below(src.cells[ORDER - 1].key, sh.hi[x]);
    BoundsCompose(kp, sh.lo[p], sh.hi[p], j, s);
    forall i | 0 <= i <= kp.size && i != j
      ensures Child(kp, i) != x
    {
      if i < j {
        ChildrenDistinct(pages, sh, root, owner, p, i, j);
      } else {
        ChildrenDistinct(pages, sh, root, owner, p, j, i);
      }
    }
  }

  /** A child at or before the insertion point j keeps its pointer and lower bound; its upper bound is s at j. */
  lemma ParentLinkLow(kp: KeyPage, s: int, rr: nat, j: nat, lo: Bound, hi: Bound, i: nat)
    requires Shaped(kp) && i <= j <= kp.size < ORDER && LowerBound(Keys(kp), s) == j
    ensures var kp' := PushPage(kp, s, rr);
            && Child(kp', i) == Child(kp, i) && LoOf(kp', lo, i) == LoOf(kp, lo, i)
            && HiOf(kp', hi, i) == if i == j then At(s) else HiOf(kp, hi, i)
  {
    InsertAtCells(kp, s, rr, j);
  }

  /** The new child j + 1 is rr, between s and child j's old upper bound. */
  lemma ParentLinkNew(kp: KeyPage, s: int, rr: nat, j: nat, lo: Bound, hi: Bound)
    requires Shaped(kp) && j <= kp.size < ORDER && LowerBound(Keys(kp), s) == j
    ensures var kp' := PushPage(kp, s, rr);
            && Child(kp', j + 1) == rr && LoOf(kp', lo, j + 1) == At(s) && HiOf(kp', hi, j + 1) == HiOf(kp, hi, j)
  {
    InsertAtCells(kp, s, rr, j);
  }

  /** A child after the insertion point moves up by one with its interval. */
  lemma ParentLinkHigh(kp: KeyPage, s: int, rr: nat, j: nat, lo: Bound, hi: Bound, i: nat)
    requires Shaped(kp) && j < i <= kp.size < ORDER && LowerBound(Keys(kp), s) == j
    ensures var kp' := PushPage(kp, s, rr);
            && Child(kp', i + 1) == Child(kp, i) && LoOf(kp', lo, i + 1) == LoOf(kp, lo, i) && HiOf(kp', hi, i + 1) == HiOf(kp, hi, i)
  {
    InsertAtCells(kp, s, rr, j);
  }

  /** The parent's keys, cell by cell, once s goes in at j. */
  lemma ParentCellKeys(kp: KeyPage, s: int, rr: nat, j: nat, i: nat)
    requires Shaped(kp) && j <= kp.size < ORDER && LowerBound(Keys(kp), s) == j && i <= kp.size
    ensures var kp' := PushPage(kp, s, rr);
            kp'.internal == kp.internal && kp'.cells[i].key == if i < j then kp.cells[i].key else if i == j then s else kp.cells[i - 1].key
  {
    InsertAtCells(kp, s, rr, j);
  }

  /** Where the middle key goes in the parent: at child j, the position of x. */
  lemma SplitAt(pages: seq<KeyPage>, sh: Shape, root: nat, owner: seq<int>, x: nat, p: nat, j: nat)
    requires SplitCase(pages, sh, root, owner, x, p, j)
    ensures var kp, s := pages[p], Middle(pages[x]);
            && p != x && x != root && sh.level[x] < sh.level[p] && sh.parent[x] == p
            && Shaped(kp) && kp.size < ORDER && LowerBound(Keys(kp), s) == j && s !in Keys(kp)
            && Sorted(Keys(PushPage(kp, s, |pages|)))
  {
    SplitBasics(pages, sh, root, owner, x, p, j);
    ParentKeys(pages[p], Middle(pages[x]), j, |pages|);
  }

  /** The parent, grown by one child, is still well formed. */
  lemma SplitWfParent(pages: seq<KeyPage>, sh: Shape, root: nat, owner: seq<int>, x: nat, p: nat, j: nat)
    requires SplitCase(pages, sh, root, owner, x, p, j)
    ensures Fits(SplitPages(pages, x, p), SplitShape(pages, sh, x, p))
    ensures NodeWf(SplitPages(pages, x, p), SplitShape(pages, sh, x, p), p)
  {
    SplitAt(pages, sh, root, owner, x, p, j);
    var pages', sh' := SplitPages(pages, x, p), SplitShape(pages, sh, x, p);
    var kp, s, rr := pages[p], Middle(pages[x]), |pages|;
    assert NodeWf(pages, sh, p);
    var kp' := PushPage(kp, s, rr);
    assert pages'[p] == kp';
    forall i | 0 <= i <= kp'.size
      ensures Child(kp', i) < |pages'| && sh'.level[Child(kp', i)] < sh'.level[p]
    {
      if i <= j {
        ParentLinkLow(kp, s, rr, j, NegInf, PosInf, i);
      } else if i == j + 1 {
        ParentLinkNew(kp, s, rr, j, NegInf, PosInf);
      } else {
        ParentLinkHigh(kp, s, rr, j, NegInf, PosInf, i - 1);
      }
    }
  }

  /** Both halves are well formed: their children are x's, which sit below x's level. */
  lemma SplitWfHalves(pages: seq<KeyPage>, sh: Shape, root: nat, owner: seq<int>, x: nat, p: nat, j: nat)
    requires SplitCase(pages, sh, root, owner, x, p, j)
    ensures Fits(SplitPages(pages, x, p), SplitShape(pages, sh, x, p))
    ensures NodeWf(SplitPages(pages, x, p), SplitShape(pages, sh, x, p), x)
    ensures NodeWf(SplitPages(pages, x, p), SplitShape(pages, sh, x, p), |pages|)
  {
    var pages', sh' := SplitPages(pages, x, p), SplitShape(pages, sh, x, p);
    var src, rr := pages[x], |pages|;
    var halves := MoveKeys(src, NewKeyPage(src.internal, false));
    MoveKeysHalves(src, NewKeyPage(src.internal, false));
    assert p != x by {
      assert NodeWf(pages, sh, p);
    }
    assert pages'[x] == halves.0 && pages'[rr] == halves.1;
    assert sh'.level[x] == sh.level[x] && sh'.level[rr] == sh.level[x];
    assert NodeWf(pages, sh, x);
    forall i | 0 <= i <= HALF && src.internal
      ensures Child(halves.0, i) < |pages| && sh'.level[Child(halves.0, i)] < sh'.level[x]
      ensures Child(halves.1, i) < |pages| && sh'.level[Child(halves.1, i)] < sh'.level[rr]
    {
      assert Child(halves.1, i) == Child(src, i + HALF + 1);
    }
  }

  /** Both halves, the grown parent and the untouched pages are well formed. */
  lemma SplitWf(pages: seq<KeyPage>, sh: Shape, root: nat, owner: seq<int>, x: nat, p: nat, j: nat)
    requires SplitCase(pages, sh, root, owner, x, p, j)
    ensures Wf(SplitPages(pages, x, p), SplitShape(pages, sh, x, p))
  {
    var pages', sh' := SplitPages(pages, x, p), SplitShape(pages, sh, x, p);
    SplitWfParent(pages, sh, root, owner, x, p, j);
    SplitWfHalves(pages, sh, root, owner, x, p, j);
    forall q | 0 <= q < |pages'|
      ensures NodeWf(pages', sh', q)
    {
      if q != x && q != p && q != |pages| {
        assert pages'[q] == pages[q] && NodeWf(pages, sh, q);
      }
    }
  }

  /**
   * pages', sh' spread the full page x over x (lower half) and rr (upper
   * half): x's interval is cut at the middle key, the children x hands over
   * name rr as parent, every other old page keeps its interval and parent,
   * and the new root `root'` is the old one or a new page.  Both splits
   * produce this.
   */
  ghost predicate Spread(pages: seq<KeyPage>, sh: Shape, root: nat, pages': seq<KeyPage>, sh': Shape, root': nat, x: nat, rr: nat)
  {
    && Wf(pages, sh) && Wf(pages', sh')
    && x < |pages| <= rr < |pages'| && rr != root' && (root' == root || |pages| <= root')
    && Shaped(pages[x]) && pages[x].size == ORDER
    && Halves(pages[x], pages'[x], pages'[rr])
    && sh'.lo[x] == sh.lo[x] && sh'.hi[x] == At(Middle(pages[x]))
    && sh'.lo[rr] == At(Middle(pages[x])) && sh'.hi[rr] == sh.hi[x]
    && (forall c :: 0 <= c < |pages| ==> sh'.lo[c] == sh.lo[c])
    && (forall c :: 0 <= c < |pages| && c != x ==> sh'.hi[c] == sh.hi[c])
    && (forall c :: 0 <= c < |pages| && c != x ==> sh'.parent[c] == if pages[x].internal && Moved(pages[x], c) then rr else sh.parent[c])
  }

  /** A child c of an old page q other than x, when c is not x, keeps its parent and interval. */
  lemma SpreadOldChild(pages: seq<KeyPage>, sh: Shape, root: nat, owner: seq<int>, pages': seq<KeyPage>, sh': Shape, root': nat,
                       x: nat, rr: nat, q: nat, i: nat)
    requires TreeOk(pages, sh, root, owner) && Spread(pages, sh, root, pages', sh', root', x, rr)
    requires q < |pages| && q != x && pages[q].internal && NodeWf(pages, sh, q) && i <= pages[q].size && Child(pages[q], i) != x
    ensures var c := Child(pages[q], i);
            && c < |pages| && c != root' && ChildLinked(pages, sh, root, q, i)
            && sh'.parent[c] == sh.parent[c] && sh'.lo[c] == sh.lo[c] && sh'.hi[c] == sh.hi[c]
  {
    var c, src := Child(pages[q], i), pages[x];
    assert NodeOk(pages, sh, root, owner, q) && NodeOk(pages, sh, root, owner, x);
    assert ChildLinked(pages, sh, root, q, i);
    forall i' | HALF < i' <= src.size && src.internal
      ensures Child(src, i') != c
    {
      assert ChildLinked(pages, sh, root, x, i');
    }
  }

  /** Child i of the lower half is x's child i, still linked to x with the same interval. */
  lemma SpreadLowChild(pages: seq<KeyPage>, sh: Shape, root: nat, owner: seq<int>, pages': seq<KeyPage>, sh': Shape, root': nat,
                       x: nat, rr: nat, i: nat)
    requires TreeOk(pages, sh, root, owner) && Spread(pages, sh, root, pages', sh', root', x, rr)
    requires pages[x].internal && i <= HALF
    ensures pages'[x].internal && i <= pages'[x].size
    ensures ChildLinked(pages', sh', root', x, i)
  {
    var src, l, s := pages[x], pages'[x], Middle(pages[x]);
    assert NodeWf(pages, sh, x) && NodeOk(pages, sh, root, owner, x);
    var c := Child(src, i);
    assert ChildLinked(pages, sh, root, x, i);
    forall i' | HALF < i' <= src.size
      ensures Child(src, i') != c
    {
      ChildrenDistinct(pages, sh, root, owner, x, i, i');
    }
    assert sh'.parent[c] == x && sh'.lo[c] == sh.lo[c] && sh'.hi[c] == sh.hi[c];
    if i > 0 {
      assert l.cells[i - 1].key == Keys(l)[i - 1] == Keys(src)[i - 1];
    }
    if i < HALF {
      assert l.cells[i].key == Keys(l)[i] == Keys(src)[i];
    } else {
      assert Keys(src)[HALF] == s;
    }
  }

  /** Child i of the upper half is x's child i + 169, now linked to rr with the same interval. */
  lemma SpreadHighChild(pages: seq<KeyPage>, sh: Shape, root: nat, owner: seq<int>, pages': seq<KeyPage>, sh': Shape, root': nat,
                        x: nat, rr: nat, i: nat)
    requires TreeOk(pages, sh, root, owner) && Spread(pages, sh, root, pages', sh', root', x, rr)
    requires pages[x].internal && i <= HALF
    ensures pages'[rr].internal && i <= pages'[rr].size
    ensures ChildLinked(pages', sh', root', rr, i)
  {
    var src, r, s := pages[x], pages'[rr], Middle(pages[x]);
    assert NodeWf(pages, sh, x) && NodeOk(pages, sh, root, owner, x);
    var c := Child(src, i + HALF + 1);
    assert ChildLinked(pages, sh, root, x, i + HALF + 1);
    assert HALF < i + HALF + 1 <= src.size && Child(src, i + HALF + 1) == c;
    assert sh'.parent[c] == rr && sh'.lo[c] == sh.lo[c] && sh'.hi[c] == sh.hi[c];
    if i > 0 {
      assert r.cells[i - 1].key == Keys(r)[i - 1] == Keys(src)[i + HALF];
    } else {
      assert Keys(src)[HALF] == s;
    }
    if i < HALF {
      assert r.cells[i].key == Keys(r)[i] == Keys(src)[i + HALF + 1];
    }
  }

  /** The lower half, left at page x, is a sound node over x's interval up to the middle key. */
  lemma SpreadNodeLow(pages: seq<KeyPage>, sh: Shape, root: nat, owner: seq<int>, pages': seq<KeyPage>, sh': Shape, root': nat,
                      x: nat, rr: nat)
    requires TreeOk(pages, sh, root, owner) && Spread(pages, sh, root, pages', sh', root', x, rr)
    ensures NodeOk(pages', sh', root', owner, x)
  {
    var src, l, s := pages[x], pages'[x], Middle(pages[x]);
    assert NodeOk(pages, sh, root, owner, x) && NodeWf(pages, sh, x);
    var keys := Keys(src);
    assert keys[HALF] == s;
    assert Sorted(Keys(l)) by {
      assert Keys(l) == keys[..l.size];
    }
    forall i | 0 <= i < l.size
      ensures Above(sh'.lo[x], l.cells[i].key) && Below(l.cells[i].key, sh'.hi[x])
    {
      assert l.cells[i].key == Keys(l)[i] == keys[i];
    }
    forall i | 0 <= i <= l.size && l.internal
      ensures ChildLinked(pages', sh', root', x, i)
    {
      SpreadLowChild(pages, sh, root, owner, pages', sh', root', x, rr, i);
    }
  }

  /** The upper half, on page rr, is a sound node over the keys above the middle one. */
  lemma SpreadNodeHigh(pages: seq<KeyPage>, sh: Shape, root: nat, owner: seq<int>, pages': seq<KeyPage>, sh': Shape, root': nat,
                       x: nat, rr: nat)
    requires TreeOk(pages, sh, root, owner) && Spread(pages, sh, root, pages', sh', root', x, rr)
    ensures NodeOk(pages', sh', root', owner, rr)
  {
    var src, r, s := pages[x], pages'[rr], Middle(pages[x]);
    assert NodeOk(pages, sh, root, owner, x) && NodeWf(pages, sh, x);
    var keys := Keys(src);
    assert keys[HALF] == s;
    assert Sorted(Keys(r)) by {
      assert Keys(r) == keys[HALF + 1..];
    }
    forall i | 0 <= i < r.size
      ensures Above(sh'.lo[rr], r.cells[i].key) && Below(r.cells[i].key, sh'.hi[rr])
    {
      assert r.cells[i].key == Keys(r)[i] == keys[i + HALF + 1];
    }
    forall i | 0 <= i <= r.size && r.internal
      ensures ChildLinked(pages', sh', root', rr, i)
    {
      SpreadHighChild(pages, sh, root, owner, pages', sh', root', x, rr, i);
    }
    forall i | 0 <= i < r.size && !r.internal
      ensures r.cells[i].ptr < |owner| && owner[r.cells[i].ptr] == r.cells[i].key
    {
      assert r.cells[i] == src.cells[i + HALF + 1];
    }
  }

  /** An old page other than x that the split leaves as it was, and that is not x's parent, stays sound. */
  lemma SpreadNodeOther(pages: seq<KeyPage>, sh: Shape, root: nat, owner: seq<int>, pages': seq<KeyPage>, sh': Shape, root': nat,
                        x: nat, rr: nat, q: nat)
    requires TreeOk(pages, sh, root, owner) && Spread(pages, sh, root, pages', sh', root', x, rr)
    requires q < |pages| && q != x && pages'[q] == pages[q] && (x == root || sh.parent[x] != q)
    ensures NodeOk(pages', sh', root', owner, q)
  {
    var kp := pages[q];
    assert sh'.lo[q] == sh.lo[q] && sh'.hi[q] == sh.hi[q];
    assert NodeWf(pages, sh, q) && NodeOk(pages, sh, root, owner, q);
    forall i | 0 <= i <= kp.size && kp.internal
      ensures ChildLinked(pages', sh', root', q, i)
    {
      assert ChildLinked(pages, sh, root, q, i);
      SpreadOldChild(pages, sh, root, owner, pages', sh', root', x, rr, q, i);
    }
  }

  /** The child split spreads x over x and the new last page, under the same root. */
  lemma SplitSpread(pages: seq<KeyPage>, sh: Shape, root: nat, owner: seq<int>, x: nat, p: nat, j: nat)
    requires SplitCase(pages, sh, root, owner, x, p, j)
    ensures Spread(pages, sh, root, SplitPages(pages, x, p), SplitShape(pages, sh, x, p), root, x, |pages|)
  {
    var pages', sh' := SplitPages(pages, x, p), SplitShape(pages, sh, x, p);
    SplitWf(pages, sh, root, owner, x, p, j);
    var src := pages[x];
    var halves := MoveKeys(src, NewKeyPage(src.internal, false));
    MoveKeysHalves(src, NewKeyPage(src.internal, false));
    assert p != x by {
      assert NodeWf(pages, sh, p);
    }
    assert pages'[x] == halves.0 && pages'[|pages|] == halves.1;
  }

  /** Child n of the old parent, when it is not x, keeps its parent and interval. */
  lemma SplitOldLink(pages: seq<KeyPage>, sh: Shape, root: nat, owner: seq<int>, x: nat, p: nat, j: nat, n: nat)
    requires SplitCase(pages, sh, root, owner, x, p, j)
    requires n <= pages[p].size && n != j
    ensures var kp, sh' := pages[p], SplitShape(pages, sh, x, p);
            var c := Child(kp, n);
            && c != root && c < |pages|
            && sh'.parent[c] == p && sh'.lo[c] == LoOf(kp, sh.lo[p], n) && sh'.hi[c] == HiOf(kp, sh.hi[p], n)
  {
    var pages', sh' := SplitPages(pages, x, p), SplitShape(pages, sh, x, p);
    SplitSpread(pages, sh, root, owner, x, p, j);
    SplitAt(pages, sh, root, owner, x, p, j);
    if n < j {
      ChildrenDistinct(pages, sh, root, owner, p, n, j);
    } else {
      ChildrenDistinct(pages, sh, root, owner, p, j, n);
    }
    SpreadOldChild(pages, sh, root, owner, pages', sh', root, x, |pages|, p, n);
  }

  /** The parent's children other than x and the new page keep their links, shifted by one after x. */
  lemma SplitParentKept(pages: seq<KeyPage>, sh: Shape, root: nat, owner: seq<int>, x: nat, p: nat, j: nat, i: nat)
    requires SplitCase(pages, sh, root, owner, x, p, j)
    requires Wf(SplitPages(pages, x, p), SplitShape(pages, sh, x, p))
    requires i <= pages[p].size + 1 && i != j && i != j + 1
    ensures SplitPages(pages, x, p)[p].internal && i <= SplitPages(pages, x, p)[p].size
    ensures ChildLinked(SplitPages(pages, x, p), SplitShape(pages, sh, x, p), root, p, i)
  {
    var pages', sh' := SplitPages(pages, x, p), SplitShape(pages, sh, x, p);
    var kp, s, rr := pages[p], Middle(pages[x]), |pages|;
    assert p != x && Shaped(kp) && kp.size < ORDER && LowerBound(Keys(kp), s) == j by {
      SplitAt(pages, sh, root, owner, x, p, j);
    }
    assert pages'[p] == PushPage(kp, s, rr) && sh'.lo[p] == sh.lo[p] && sh'.hi[p] == sh.hi[p];
    if i < j {
      ParentLinkLow(kp, s, rr, j, sh.lo[p], sh.hi[p], i);
      SplitOldLink(pages, sh, root, owner, x, p, j, i);
    } else {
      ParentLinkHigh(kp, s, rr, j, sh.lo[p], sh.hi[p], i - 1);
      SplitOldLink(pages, sh, root, owner, x, p, j, i - 1);
    }
  }

  /** Child j of the grown parent is x, bounded above by the middle key, and child j + 1 is the new page. */
  lemma SplitParentPair(pages: seq<KeyPage>, sh: Shape, root: nat, owner: seq<int>, x: nat, p: nat, j: nat)
    requires SplitCase(pages, sh, root, owner, x, p, j)
    requires Wf(SplitPages(pages, x, p), SplitShape(pages, sh, x, p))
    ensures SplitPages(pages, x, p)[p].internal && j + 1 <= SplitPages(pages, x, p)[p].size
    ensures ChildLinked(SplitPages(pages, x, p), SplitShape(pages, sh, x, p), root, p, j)
    ensures ChildLinked(SplitPages(pages, x, p), SplitShape(pages, sh, x, p), root, p, j + 1)
  {
    var pages', sh' := SplitPages(pages, x, p), SplitShape(pages, sh, x, p);
    var kp, s, rr := pages[p], Middle(pages[x]), |pages|;
    SplitAt(pages, sh, root, owner, x, p, j);
    assert pages'[p] == PushPage(kp, s, rr) && sh'.lo[p] == sh.lo[p] && sh'.hi[p] == sh.hi[p];
    assert NodeWf(pages, sh, p) && NodeOk(pages, sh, root, owner, p);
    assert ChildLinked(pages, sh, root, p, j);
    ParentLinkLow(kp, s, rr, j, sh.lo[p], sh.hi[p], j);
    ParentLinkNew(kp, s, rr, j, sh.lo[p], sh.hi[p]);
    assert NodeWf(pages, sh, x);
    assert sh'.parent[x] == p && sh'.lo[x] == sh.lo[x] && sh'.hi[x] == At(s);
    assert sh'.parent[rr] == p && sh'.lo[rr] == At(s) && sh'.hi[rr] == sh.hi[x];
  }

  /** The parent, with the middle key and the new child, is a sound node over its old interval. */
  lemma SplitNodeParent(pages: seq<KeyPage>, sh: Shape, root: nat, owner: seq<int>, x: nat, p: nat, j: nat)
    requires SplitCase(pages, sh, root, owner, x, p, j)
    requires Wf(SplitPages(pages, x, p), SplitShape(pages, sh, x, p))
    ensures NodeOk(SplitPages(pages, x, p), SplitShape(pages, sh, x, p), root, owner, p)
  {
    var pages', sh' := SplitPages(pages, x, p), SplitShape(pages, sh, x, p);
    var kp, s, rr := pages[p], Middle(pages[x]), |pages|;
    SplitAt(pages, sh, root, owner, x, p, j);
    var kp' := PushPage(kp, s, rr);
    assert pages'[p] == kp' && sh'.lo[p] == sh.lo[p] && sh'.hi[p] == sh.hi[p];
    assert Above(sh.lo[p], s) && Below(s, sh.hi[p]) by {
      SplitBasics(pages, sh, root, owner, x, p, j);
    }
    assert NodeOk(pages, sh, root, owner, p);
    forall i | 0 <= i < kp'.size
      ensures Above(sh'.lo[p], kp'.cells[i].key) && Below(kp'.cells[i].key, sh'.hi[p])
    {
      ParentCellKeys(kp, s, rr, j, i);
    }
    SplitParentLinks(pages, sh, root, owner, x, p, j);
  }

  /** Every child of the grown parent is linked to it. */
  lemma SplitParentLinks(pages: seq<KeyPage>, sh: Shape, root: nat, owner: seq<int>, x: nat, p: nat, j: nat)
    requires SplitCase(pages, sh, root, owner, x, p, j)
    requires Wf(SplitPages(pages, x, p), SplitShape(pages, sh, x, p))
    ensures SplitPages(pages, x, p)[p].internal
    ensures forall i :: 0 <= i <= SplitPages(pages, x, p)[p].size ==> ChildLinked(SplitPages(pages, x, p), SplitShape(pages, sh, x, p), root, p, i)
  {
    var pages', sh' := SplitPages(pages, x, p), SplitShape(pages, sh, x, p);
    SplitParentPair(pages, sh, root, owner, x, p, j);
    forall i | 0 <= i <= pages'[p].size && i != j && i != j + 1
      ensures ChildLinked(pages', sh', root, p, i)
    {
      SplitParentKept(pages, sh, root, owner, x, p, j, i);
    }
  }

  /** After the split every page is a sound node. */
  lemma SplitNodesOk(pages: seq<KeyPage>, sh: Shape, root: nat, owner: seq<int>, x: nat, p: nat, j: nat)
    requires SplitCase(pages, sh, root, owner, x, p, j)
    ensures Wf(SplitPages(pages, x, p), SplitShape(pages, sh, x, p))
    ensures forall q :: 0 <= q < |pages| + 1 ==> NodeOk(SplitPages(pages, x, p), SplitShape(pages, sh, x, p), root, owner, q)
  {
    var pages', sh' := SplitPages(pages, x, p), SplitShape(pages, sh, x, p);
    SplitSpread(pages, sh, root, owner, x, p, j);
    assert p != x && sh.parent[x] == p by {
      SplitAt(pages, sh, root, owner, x, p, j);
    }
    forall q | 0 <= q < |pages'|
      ensures NodeOk(pages', sh', root, owner, q)
    {
      if q == x {
        SpreadNodeLow(pages, sh, root, owner, pages', sh', root, x, |pages|);
      } else if q == |pages| {
        SpreadNodeHigh(pages, sh, root, owner, pages', sh', root, x, |pages|);
      } else if q == p {
        SplitNodeParent(pages, sh, root, owner, x, p, j);
      } else {
        assert pages'[q] == pages[q];
        SpreadNodeOther(pages, sh, root, owner, pages', sh', root, x, |pages|, q);
      }
    }
  }

  /** After the split the tree invariant holds again, and only the parent may now be full. */
  lemma SplitTreeOk(pages: seq<KeyPage>, sh: Shape, root: nat, owner: seq<int>, x: nat, p: nat, j: nat)
    requires SplitCase(pages, sh, root, owner, x, p, j)
    ensures TreeOk(SplitPages(pages, x, p), SplitShape(pages, sh, x, p), root, owner)
    ensures SmallExcept(SplitPages(pages, x, p), p)
  {
    var pages', sh' := SplitPages(pages, x, p), SplitShape(pages, sh, x, p);
    SplitNodesOk(pages, sh, root, owner, x, p, j);
    assert p != x && x != root by {
      SplitAt(pages, sh, root, owner, x, p, j);
    }
    var src := pages[x];
    var halves := MoveKeys(src, NewKeyPage(src.internal, false));
    MoveKeysHalves(src, NewKeyPage(src.internal, false));
    assert pages'[x] == halves.0 && pages'[|pages|] == halves.1;
    assert sh'.lo[root] == NegInf && sh'.hi[root] == PosInf;
    forall q | 0 <= q < |pages'| && q != p
      ensures pages'[q].size < ORDER
    {
      if q != x && q != |pages| {
        assert pages'[q] == pages[q];
      }
    }
  }

  /** The split is a division of x under parent p in the sense the lookup lemmas use. */
  lemma SplitDivided(pages: seq<KeyPage>, sh: Shape, root: nat, owner: seq<int>, x: nat, p: nat, j: nat)
    requires SplitCase(pages, sh, root, owner, x, p, j)
    ensures Divided(pages, sh, SplitPages(pages, x, p), SplitShape(pages, sh, x, p), x, |pages|, p, j)
  {
    var pages', sh' := SplitPages(pages, x, p), SplitShape(pages, sh, x, p);
    SplitWf(pages, sh, root, owner, x, p, j);
    SplitBasics(pages, sh, root, owner, x, p, j);
    SplitAt(pages, sh, root, owner, x, p, j);
    var src := pages[x];
    var halves := MoveKeys(src, NewKeyPage(src.internal, false));
    assert pages'[x] == halves.0 && pages'[|pages|] == halves.1;
    assert pages'[p] == PushPage(pages[p], Middle(src), |pages|);
    forall q | 0 <= q < |pages| && q != p && NodeWf(pages, sh, q) && pages[q].internal
      ensures forall i :: 0 <= i <= pages[q].size ==> Child(pages[q], i) != x
    {
      assert NodeOk(pages, sh, root, owner, q);
      forall i | 0 <= i <= pages[q].size
        ensures Child(pages[q], i) != x
      {
        assert ChildLinked(pages, sh, root, q, i);
      }
    }
  }

  /**
   * `split_page(parent)` on a full child x of p: the tree invariant is kept,
   * only the parent may have become full, and every key looks up what it did.
   */
  lemma SplitChildOk(pages: seq<KeyPage>, sh: Shape, root: nat, owner: seq<int>, x: nat, p: nat, j: nat)
    requires SplitCase(pages, sh, root, owner, x, p, j)
    ensures var pages', sh' := SplitPages(pages, x, p), SplitShape(pages, sh, x, p);
            && TreeOk(pages', sh', root, owner) && SmallExcept(pages', p)
            && pages'[p].size == pages[p].size + 1
            && forall k :: Lookup(pages', sh', root, k) == Lookup(pages, sh, root, k)
  {
    var pages', sh' := SplitPages(pages, x, p), SplitShape(pages, sh, x, p);
    SplitTreeOk(pages, sh, root, owner, x, p, j);
    SplitDivided(pages, sh, root, owner, x, p, j);
    SplitAt(pages, sh, root, owner, x, p, j);
    assert pages'[p] == PushPage(pages[p], Middle(pages[x]), |pages|);
    forall k
      ensures Lookup(pages', sh', root, k) == Lookup(pages, sh, root, k)
    {
      DividedKeeps(pages, sh, pages', sh', x, |pages|, p, j, root, k);
    }
  }

  // ------------------------------------------------------- splitting the root

  /**
   * `split_page()` on the full root x: a new root (the next page number)
   * gets the middle key, x as child 0 and a new right page (the page after
   * it) as child 1; x, no longer flagged as root, keeps the lower half.
   */
  function RootSplitPages(pages: seq<KeyPage>, x: nat): (pages': seq<KeyPage>)
    requires x < |pages| && Shaped(pages[x]) && pages[x].size == ORDER
    ensures |pages'| == |pages| + 2
  {
    var n := |pages|;
    var top := PushPage(NewKeyPage(true, true), Middle(pages[x]), n + 1).(child0 := x);
    var halves := MoveKeys(pages[x].(root := false), NewKeyPage(pages[x].internal, false));
    pages[x := halves.0] + [top, halves.1]
  }

  /** The new root sits one level above x and covers every key; x and the right page are its children. */
  ghost function RootSplitShape(pages: seq<KeyPage>, sh: Shape, x: nat): (sh': Shape)
    requires Fits(pages, sh) && x < |pages| && Shaped(pages[x]) && pages[x].size == ORDER
    ensures var n := |pages| + 2; |sh'.level| == n && |sh'.lo| == n && |sh'.hi| == n && |sh'.parent| == n
  {
    var n := |pages|;
    var s := Middle(pages[x]);
    Shape(sh.level + [sh.level[x] + 1, sh.level[x]], sh.lo + [NegInf, At(s)], sh.hi[x := At(s)] + [PosInf, sh.hi[x]],
          seq(n + 2, q requires 0 <= q < n + 2 =>
            if q == x || q == n || q == n + 1 then n
            else if pages[x].internal && Moved(pages[x], q) then n + 1
            else sh.parent[q]))
  }

  /** The situation `split_page()` runs in: the root is full and every other page has room. */
  ghost predicate RootCase(pages: seq<KeyPage>, sh: Shape, root: nat, owner: seq<int>)
  {
    TreeOk(pages, sh, root, owner) && SmallExcept(pages, root) && Shaped(pages[root]) && pages[root].size == ORDER
  }

  /** Clearing the root flag changes nothing `move_keys` looks at. */
  lemma HalvesUnflagged(src: KeyPage, l: KeyPage, r: KeyPage)
    requires Shaped(src) && src.size == ORDER && Halves(src.(root := false), l, r)
    ensures Halves(src, l, r)
  {
    var src' := src.(root := false);
    assert Keys(src') == Keys(src);
    assert forall j :: 0 <= j <= ORDER ==> Child(src', j) == Child(src, j);
    assert src'.cells == src.cells && src'.internal == src.internal;
  }

  /** The pages of a root split: both halves, as from the unflagged root, and the new root. */
  lemma RootParts(pages: seq<KeyPage>, sh: Shape, root: nat, owner: seq<int>)
    requires RootCase(pages, sh, root, owner)
    ensures var pages', n, s := RootSplitPages(pages, root), |pages|, Middle(pages[root]);
            && Halves(pages[root], pages'[root], pages'[n + 1])
            && pages'[n].internal && Shaped(pages'[n]) && pages'[n].size == 1
            && Keys(pages'[n]) == [s] && Child(pages'[n], 0) == root && Child(pages'[n], 1) == n + 1
            && (forall q :: 0 <= q < n && q != root ==> pages'[q] == pages[q])
  {
    var src, n, s := pages[root], |pages|, Middle(pages[root]);
    var halves := MoveKeys(src.(root := false), NewKeyPage(src.internal, false));
    MoveKeysHalves(src.(root := false), NewKeyPage(src.internal, false));
    HalvesUnflagged(src, halves.0, halves.1);
    var e := NewKeyPage(true, true);
    InsertAtCells(e, s, n + 1, 0);
    var pages' := RootSplitPages(pages, root);
    assert pages'[root] == halves.0 && pages'[n + 1] == halves.1;
    assert Keys(pages'[n]) == [pages'[n].cells[0].key];
  }

  /** The halves of a root split are well formed. */
  lemma RootWfHalves(pages: seq<KeyPage>, sh: Shape, root: nat, owner: seq<int>)
    requires RootCase(pages, sh, root, owner)
    ensures Fits(RootSplitPages(pages, root), RootSplitShape(pages, sh, root))
    ensures NodeWf(RootSplitPages(pages, root), RootSplitShape(pages, sh, root), root)
    ensures NodeWf(RootSplitPages(pages, root), RootSplitShape(pages, sh, root), |pages| + 1)
  {
    var pages', sh' := RootSplitPages(pages, root), RootSplitShape(pages, sh, root);
    var src, n := pages[root], |pages|;
    RootParts(pages, sh, root, owner);
    assert NodeWf(pages, sh, root);
    assert sh'.level[root] == sh.level[root] && sh'.level[n + 1] == sh.level[root];
    var l, r := pages'[root], pages'[n + 1];
    forall i | 0 <= i <= l.size && l.internal
      ensures Child(l, i) < |pages'| && sh'.level[Child(l, i)] < sh'.level[root]
    {
      assert Child(l, i) == Child(src, i);
    }
    forall i | 0 <= i <= r.size && r.internal
      ensures Child(r, i) < |pages'| && sh'.level[Child(r, i)] < sh'.level[n + 1]
    {
      assert Child(r, i) == Child(src, i + HALF + 1);
    }
  }

  /** All pages of a root split are well formed. */
  lemma RootWf(pages: seq<KeyPage>, sh: Shape, root: nat, owner: seq<int>)
    requires RootCase(pages, sh, root, owner)
    ensures Wf(RootSplitPages(pages, root), RootSplitShape(pages, sh, root))
  {
    var pages', sh' := RootSplitPages(pages, root), RootSplitShape(pages, sh, root);
    var n := |pages|;
    RootWfHalves(pages, sh, root, owner);
    assert NodeWf(pages', sh', n) by {
      RootParts(pages, sh, root, owner);
      assert sh'.level[root] == sh.level[root] && sh'.level[n + 1] == sh.level[root] && sh'.level[n] == sh.level[root] + 1;
    }
    forall q | 0 <= q < n && q != root
      ensures NodeWf(pages', sh', q)
    {
      assert pages'[q] == pages[q] && NodeWf(pages, sh, q);
    }
  }

  /** The root split spreads the old root over itself and the right page, under the new root. */
  lemma RootSpread(pages: seq<KeyPage>, sh: Shape, root: nat, owner: seq<int>)
    requires RootCase(pages, sh, root, owner)
    ensures Spread(pages, sh, root, RootSplitPages(pages, root), RootSplitShape(pages, sh, root), |pages|, root, |pages| + 1)
  {
    RootWf(pages, sh, root, owner);
    RootParts(pages, sh, root, owner);
  }

  /** The new root is a sound node: one key, the old root below it, the right page after it. */
  lemma RootNodeTop(pages: seq<KeyPage>, sh: Shape, root: nat, owner: seq<int>)
    requires RootCase(pages, sh, root, owner)
    requires Wf(RootSplitPages(pages, root), RootSplitShape(pages, sh, root))
    ensures NodeOk(RootSplitPages(pages, root), RootSplitShape(pages, sh, root), |pages|, owner, |pages|)
  {
    var pages', sh' := RootSplitPages(pages, root), RootSplitShape(pages, sh, root);
    var n, s := |pages|, Middle(pages[root]);
    RootParts(pages, sh, root, owner);
    var top := pages'[n];
    assert top.cells[0].key == Keys(top)[0] == s;
    assert sh'.lo[n] == NegInf && sh'.hi[n] == PosInf;
    assert sh'.parent[root] == n && sh'.lo[root] == NegInf && sh'.hi[root] == At(s);
    assert sh'.parent[n + 1] == n && sh'.lo[n + 1] == At(s) && sh'.hi[n + 1] == PosInf;
    assert ChildLinked(pages', sh', n, n, 0) && ChildLinked(pages', sh', n, n, 1);
  }

  /** After a root split every page is a sound node under the new root. */
  lemma RootNodesOk(pages: seq<KeyPage>, sh: Shape, root: nat, owner: seq<int>)
    requires RootCase(pages, sh, root, owner)
    ensures Wf(RootSplitPages(pages, root), RootSplitShape(pages, sh, root))
    ensures forall q :: 0 <= q < |pages| + 2 ==> NodeOk(RootSplitPages(pages, root), RootSplitShape(pages, sh, root), |pages|, owner, q)
  {
    var pages', sh' := RootSplitPages(pages, root), RootSplitShape(pages, sh, root);
    var n := |pages|;
    RootSpread(pages, sh, root, owner);
    RootParts(pages, sh, root, owner);
    forall q | 0 <= q < |pages'|
      ensures NodeOk(pages', sh', n, owner, q)
    {
      if q == root {
        SpreadNodeLow(pages, sh, root, owner, pages', sh', n, root, n + 1);
      } else if q == n + 1 {
        SpreadNodeHigh(pages, sh, root, owner, pages', sh', n, root, n + 1);
      } else if q == n {
        RootNodeTop(pages, sh, root, owner);
      } else {
        SpreadNodeOther(pages, sh, root, owner, pages', sh', n, root, n + 1, q);
      }
    }
  }

  /** The root split is a division of the root with no parent, in the sense the lookup lemmas use. */
  lemma RootDivided(pages: seq<KeyPage>, sh: Shape, root: nat, owner: seq<int>)
    requires RootCase(pages, sh, root, owner)
    ensures Divided(pages, sh, RootSplitPages(pages, root), RootSplitShape(pages, sh, root), root, |pages| + 1, -1, 0)
  {
    var pages', sh' := RootSplitPages(pages, root), RootSplitShape(pages, sh, root);
    RootWf(pages, sh, root, owner);
    RootParts(pages, sh, root, owner);
    var src := pages[root];
    assert NodeOk(pages, sh, root, owner, root);
    var keys := Keys(src);
    assert forall i :: 0 <= i < HALF ==> src.cells[i].key < Middle(src) by {
      assert forall i :: 0 <= i < HALF ==> src.cells[i].key == keys[i] < keys[HALF];
    }
    forall q | 0 <= q < |pages| && NodeWf(pages, sh, q) && pages[q].internal
      ensures forall i :: 0 <= i <= pages[q].size ==> Child(pages[q], i) != root
    {
      assert NodeOk(pages, sh, root, owner, q);
      forall i | 0 <= i <= pages[q].size
        ensures Child(pages[q], i) != root
      {
        assert ChildLinked(pages, sh, root, q, i);
      }
    }
  }

  /**
   * `split_page()` on the full root: the tree invariant holds under the new
   * root, no page is full any more, and every key looks up what it did.
   */
  lemma SplitRootOk(pages: seq<KeyPage>, sh: Shape, root: nat, owner: seq<int>)
    requires RootCase(pages, sh, root, owner)
    ensures var pages', sh' := RootSplitPages(pages, root), RootSplitShape(pages, sh, root);
            && TreeOk(pages', sh', |pages|, owner) && SmallExcept(pages', -1)
            && forall k :: Lookup(pages', sh', |pages|, k) == Lookup(pages, sh, root, k)
  {
    var pages', sh' := RootSplitPages(pages, root), RootSplitShape(pages, sh, root);
    var n, s := |pages|, Middle(pages[root]);
    RootNodesOk(pages, sh, root, owner);
    RootParts(pages, sh, root, owner);
    RootDivided(pages, sh, root, owner);
    assert sh'.lo[n] == NegInf && sh'.hi[n] == PosInf;
    forall q | 0 <= q < |pages'|
      ensures pages'[q].size < ORDER
    {
      if q < n && q != root {
        assert pages'[q] == pages[q];
      }
    }
    forall k
      ensures Lookup(pages', sh', n, k) == Lookup(pages, sh, root, k)
    {
      assert NodeWf(pages', sh', n);
      if k <= s {
        assert LowerBound(Keys(pages'[n]), k) == 0;
        DividedLeft(pages, sh, pages', sh', root, n + 1, -1, 0, k);
      } else {
        assert LowerBound(Keys(pages'[n]), k) == 1;
        DividedRight(pages, sh, pages', sh', root, n + 1, -1, 0, k);
      }
    }
  }
}
