/**
 * Key pages of the B-tree engine.  A key page is 4096 bytes: a 16-byte
 * header (the cell count in bytes 0..3, the internal flag in byte 4, the
 * root flag in byte 5, then two 0xFF bytes and the marker "newblock"), child
 * pointer 0 in bytes 16..19, and then 12-byte cells, an 8-byte key followed by
 * a 4-byte child pointer.  Child pointer j >= 1 is the cell pointer of cell j - 1.
 * In a leaf, the cell pointer of cell i is the value entry of key i.
 *
 * The model keeps a page as its header fields and its 339 whole cells
 * (`KeyPage`).  `EncodeKeyPage` and the layout lemmas tie a cell index to the
 * bytes it occupies.  The last 8 bytes of a page (at 4088) do not make a
 * whole cell.  No operation writes them, so they stay zero; moving keys copies
 * those zeros into the key of cell 170 of the new page.
 */
module KeyPages {
  import opened Bytes
  import opened Wrappers

  const PAGE_SIZE: nat := 4096
  const HEADER_SIZE: nat := 16
  const KEYENTRY_SIZE: nat := 12
  const ORDER: nat := 337
  const HALF: nat := 168  // ORDER / 2
  const SLOTS: nat := 339  // whole cells between byte 20 and the end of the page

  /** The constants agree: ORDER keys end at byte 4064, within the page, and 339 whole cells fit, not 340. */
  lemma Sizes()
    ensures HALF == ORDER / 2
    ensures HEADER_SIZE + 4 + ORDER * KEYENTRY_SIZE == 4064 <= PAGE_SIZE
    ensures HEADER_SIZE + 4 + SLOTS * KEYENTRY_SIZE <= PAGE_SIZE < HEADER_SIZE + 4 + (SLOTS + 1) * KEYENTRY_SIZE
  {
  }

  datatype Cell = Cell(key: int, ptr: nat)

  datatype KeyPage = KeyPage(size: nat, internal: bool, root: bool, child0: nat, cells: seq<Cell>)

  predicate Shaped(kp: KeyPage)
  {
    |kp.cells| == SLOTS
  }

  function ZeroCells(n: nat): (r: seq<Cell>)
    ensures |r| == n
  {
    seq(n, _ => Cell(0, 0))
  }

  /** A page of zeros except for the two flags, as `create_new_keypage` leaves it with 0 cells. */
  function NewKeyPage(internal: bool, root: bool): (kp: KeyPage)
    ensures Shaped(kp) && kp.size == 0
  {
    KeyPage(0, internal, root, 0, ZeroCells(SLOTS))
  }

  /** The keys of the page's cells 0 .. size-1. */
  function Keys(kp: KeyPage): (s: seq<int>)
    requires kp.size <= |kp.cells|
    ensures |s| == kp.size && forall i :: 0 <= i < kp.size ==> s[i] == kp.cells[i].key
  {
    seq(kp.size, i requires 0 <= i < kp.size && kp.size <= |kp.cells| => kp.cells[i].key)
  }

  /** Child pointer j: pointer 0 is in the header, pointer j >= 1 is that of cell j - 1. */
  function Child(kp: KeyPage, j: nat): nat
    requires j <= kp.size <= |kp.cells|
  {
    if j == 0 then kp.child0 else kp.cells[j - 1].ptr
  }

  // ------------------------------------------------------------ byte layout

  function Flag(b: bool): byte
  {
    if b then 1 else 0
  }

  predicate CellFits(c: Cell)
  {
    IsI64(c.key) && IsU32(c.ptr)
  }

  /** Every field fits its C++ type: a `long` key, `unsigned int` counts and pointers. */
  predicate Encodable(kp: KeyPage)
  {
    Shaped(kp) && IsU32(kp.size) && IsU32(kp.child0) && forall i :: 0 <= i < |kp.cells| ==> CellFits(kp.cells[i])
  }

  function EncodeCells(cs: seq<Cell>): (r: seq<byte>)
    requires forall i :: 0 <= i < |cs| ==> CellFits(cs[i])
    ensures |r| == KEYENTRY_SIZE * |cs|
  {
    if |cs| == 0 then []
    else
      assert CellFits(cs[0]);
      EncodeInt(cs[0].key, 8) + EncodeNat(cs[0].ptr, 4) + EncodeCells(cs[1..])
  }

  /** The bytes of a page: header, child pointer 0, the cells and the 8 unused bytes. */
  function EncodeKeyPage(kp: KeyPage): (r: seq<byte>)
    requires Encodable(kp)
    ensures |r| == PAGE_SIZE
  {
    EncodeNat(kp.size, 4) + [Flag(kp.internal), Flag(kp.root), 255, 255]
      + [110, 101, 119, 98, 108, 111, 99, 107]  // "newblock"
      + EncodeNat(kp.child0, 4) + EncodeCells(kp.cells) + seq(8, _ => 0)
  }

  lemma {:induction false} CellBytes(cs: seq<Cell>, i: nat)
    requires forall k :: 0 <= k < |cs| ==> CellFits(cs[k])
    requires i < |cs|
    ensures EncodeCells(cs)[12 * i..12 * i + 8] == EncodeInt(cs[i].key, 8)
    ensures EncodeCells(cs)[12 * i + 8..12 * i + 12] == EncodeNat(cs[i].ptr, 4)
  {
    var ki, pi := EncodeInt(cs[0].key, 8), EncodeNat(cs[0].ptr, 4);
    var rest := EncodeCells(cs[1..]);
    assert EncodeCells(cs) == ki + pi + rest;
    if i > 0 {
      CellBytes(cs[1..], i - 1);
      assert cs[1..][i - 1] == cs[i];
      SliceRight(ki + pi, rest, 12 * i, 12 * i + 8);
      SliceRight(ki + pi, rest, 12 * i + 8, 12 * i + 12);
    } else {
      assert (ki + pi + rest)[..8] == ki;
      assert (ki + pi + rest)[8..12] == pi;
    }
  }

  /** A slice lying wholly in the second part of a concatenation. */
  lemma SliceRight(a: seq<byte>, b: seq<byte>, lo: nat, hi: nat)
    requires |a| <= lo <= hi <= |a| + |b|
    ensures (a + b)[lo..hi] == b[lo - |a|..hi - |a|]
  {
  }

  /**
   * Key i sits at byte 16 + 4 + 12i, and reading the 8 bytes there gives it
   * back; its cell's pointer, which is child pointer i + 1, follows at
   * 16 + 4 + 12i + 8.
   */
  lemma KeyLayout(kp: KeyPage, i: nat)
    requires Encodable(kp) && i < SLOTS
    ensures var b := EncodeKeyPage(kp);
            && b[HEADER_SIZE + 4 + i * KEYENTRY_SIZE..HEADER_SIZE + 4 + i * KEYENTRY_SIZE + 8] == EncodeInt(kp.cells[i].key, 8)
            && DecodeInt(b[HEADER_SIZE + 4 + i * KEYENTRY_SIZE..HEADER_SIZE + 4 + i * KEYENTRY_SIZE + 8]) == kp.cells[i].key
            && DecodeNat(b[HEADER_SIZE + 4 + i * KEYENTRY_SIZE + 8..HEADER_SIZE + 4 + (i + 1) * KEYENTRY_SIZE]) == kp.cells[i].ptr
  {
    var b := EncodeKeyPage(kp);
    var pre := EncodeNat(kp.size, 4) + [Flag(kp.internal), Flag(kp.root), 255, 255]
      + [110, 101, 119, 98, 108, 111, 99, 107] + EncodeNat(kp.child0, 4);
    var cells := EncodeCells(kp.cells);
    assert |pre| == 20;
    assert b == pre + cells + seq(8, _ => 0);
    CellBytes(kp.cells, i);
    assert b[20 + 12 * i..20 + 12 * i + 8] == cells[12 * i..12 * i + 8];
    assert b[20 + 12 * i + 8..20 + 12 * i + 12] == cells[12 * i + 8..12 * i + 12];
    DecodeEncodeInt(kp.cells[i].key, 8);
    DecodeEncodeNat(kp.cells[i].ptr, 4);
  }

  /** Child pointer 0 is bytes 16..19; child pointer j >= 1 is at 16 + 4 + 12(j - 1) + 8. */
  lemma ChildLayout(kp: KeyPage, j: nat)
    requires Encodable(kp) && j <= kp.size <= SLOTS
    ensures var b := EncodeKeyPage(kp);
            var at := if j == 0 then HEADER_SIZE else HEADER_SIZE + 4 + (j - 1) * KEYENTRY_SIZE + 8;
            at + 4 <= PAGE_SIZE && DecodeNat(b[at..at + 4]) == Child(kp, j)
  {
    var b := EncodeKeyPage(kp);
    if j == 0 {
      var pre := EncodeNat(kp.size, 4) + [Flag(kp.internal), Flag(kp.root), 255, 255]
        + [110, 101, 119, 98, 108, 111, 99, 107];
      assert b == pre + EncodeNat(kp.child0, 4) + EncodeCells(kp.cells) + seq(8, _ => 0);
      assert b[16..20] == EncodeNat(kp.child0, 4);
      DecodeEncodeNat(kp.child0, 4);
    } else {
      KeyLayout(kp, j - 1);
    }
  }

  /** The header: the cell count in bytes 0..3, the internal flag in byte 4, the root flag in byte 5. */
  lemma HeaderLayout(kp: KeyPage)
    requires Encodable(kp)
    ensures var b := EncodeKeyPage(kp);
            && DecodeNat(b[0..4]) == kp.size
            && (b[4] == 1 <==> kp.internal) && (b[5] == 1 <==> kp.root)
  {
    var b := EncodeKeyPage(kp);
    assert b[0..4] == EncodeNat(kp.size, 4);
    DecodeEncodeNat(kp.size, 4);
  }

  // ----------------------------------------------------------------- search

  predicate Sorted(s: seq<int>)
  {
    forall i, j :: 0 <= i < j < |s| ==> s[i] < s[j]
  }

  /**
   * The length of the leading run of keys smaller than `key`.  On sorted keys
   * this is the number of smaller keys, and the index of `key` if present.
   */
  function LowerBound(s: seq<int>, key: int): (r: nat)
    ensures r <= |s| && (forall i :: 0 <= i < r ==> s[i] < key) && (r < |s| ==> s[r] >= key)
  {
    if |s| == 0 || s[0] >= key then 0 else 1 + LowerBound(s[1..], key)
  }

  /** The lower bound within a prefix long enough to hold the smaller keys. */
  lemma LowerBoundPrefix(s: seq<int>, n: nat, key: int)
    requires LowerBound(s, key) <= n <= |s|
    ensures LowerBound(s[..n], key) == LowerBound(s, key)
  {
    LowerBoundIs(s[..n], key, LowerBound(s, key));
  }

  /** The lower bound within a suffix that starts inside the smaller keys. */
  lemma LowerBoundSuffix(s: seq<int>, n: nat, key: int)
    requires n <= LowerBound(s, key)
    ensures LowerBound(s[n..], key) == LowerBound(s, key) - n
  {
    LowerBoundIs(s[n..], key, LowerBound(s, key) - n);
  }

  /** Those two facts pin the lower bound down. */
  lemma LowerBoundIs(s: seq<int>, key: int, r: nat)
    requires r <= |s| && (forall i :: 0 <= i < r ==> s[i] < key) && (r < |s| ==> s[r] >= key)
    ensures LowerBound(s, key) == r
  {
  }

  /** On sorted keys, `key` is present exactly at the lower bound. */
  lemma LowerBoundFinds(s: seq<int>, key: int)
    requires Sorted(s)
    ensures (key in s) <==> LowerBound(s, key) < |s| && s[LowerBound(s, key)] == key
  {
  }

  /**
   * `find_pos`: binary search over the keys of a page.  It returns 0 on an
   * empty page and never more than the size.  On strictly increasing keys it
   * returns the index of `key` if present, otherwise the number of smaller
   * keys.
   */
  method FindPos(keys: seq<int>, key: int) returns (pos: nat)
    ensures pos <= |keys|
    ensures |keys| == 0 ==> pos == 0
    ensures Sorted(keys) ==> pos == LowerBound(keys, key)
  {
    var size := |keys|;
    if size == 0 {
      return 0;
    }
    var left: int, right: int := 0, size - 1;
    while left <= right
      invariant 0 <= left <= right + 1 <= size
      invariant Sorted(keys) ==> forall i :: 0 <= i < left ==> keys[i] < key
      invariant Sorted(keys) ==> forall i :: right < i < size ==> keys[i] > key
    {
      var middle := (left + right) / 2;
      if keys[middle] == key {
        if Sorted(keys) {
          LowerBoundIs(keys, key, middle);
        }
        return middle;
      }
      if keys[middle] < key {
        left := middle + 1;
      } else {
        right := middle - 1;
      }
    }
    if Sorted(keys) {
      LowerBoundIs(keys, key, left);
    }
    return left;
  }

  // ------------------------------------------------------ page operations

  /**
   * `insert(key, child_ptr, loc)`: cells loc .. size-1 move one slot right,
   * the new cell goes to `loc`, and the size grows by one.  The source
   * demands loc <= size (the shift length is unsigned) and room for one more
   * cell.
   */
  function InsertAt(kp: KeyPage, key: int, ptr: nat, loc: nat): (r: KeyPage)
    requires Shaped(kp) && loc <= kp.size < SLOTS
    ensures Shaped(r) && r.size == kp.size + 1
  {
    kp.(size := kp.size + 1,
        cells := kp.cells[..loc] + [Cell(key, ptr)] + kp.cells[loc..kp.size] + kp.cells[kp.size + 1..])
  }

  /**
   * What a positional insert does to the keys and child pointers: the key
   * sequence gets `key` at `loc`; pointers 0..loc are untouched, pointer
   * loc + 1 is the new one, and the later ones move up by one.  The header
   * and the cells past the new size are untouched.
   */
  lemma InsertAtEffect(kp: KeyPage, key: int, ptr: nat, loc: nat)
    requires Shaped(kp) && loc <= kp.size < SLOTS
    ensures var r := InsertAt(kp, key, ptr, loc);
            && Keys(r) == Keys(kp)[..loc] + [key] + Keys(kp)[loc..]
            && r.internal == kp.internal && r.root == kp.root && r.child0 == kp.child0
            && (forall j :: 0 <= j <= loc ==> Child(r, j) == Child(kp, j))
            && Child(r, loc + 1) == ptr
            && (forall j :: loc < j <= kp.size ==> Child(r, j + 1) == Child(kp, j))
            && r.cells[kp.size + 1..] == kp.cells[kp.size + 1..]
            && (forall i :: 0 <= i < loc ==> r.cells[i] == kp.cells[i])
            && r.cells[loc] == Cell(key, ptr)
            && (forall i :: loc < i <= kp.size ==> r.cells[i] == kp.cells[i - 1])
  {
    var r := InsertAt(kp, key, ptr, loc);
    assert forall i :: 0 <= i < loc ==> r.cells[i] == kp.cells[i];
    assert r.cells[loc] == Cell(key, ptr);
    assert forall i :: loc < i <= kp.size ==> r.cells[i] == kp.cells[i - 1];
    assert forall i :: kp.size < i < SLOTS ==> r.cells[i] == kp.cells[i];
  }

  /** A positional insert cell by cell. */
  lemma InsertAtCells(kp: KeyPage, key: int, ptr: nat, loc: nat)
    requires Shaped(kp) && loc <= kp.size < SLOTS
    ensures var r := InsertAt(kp, key, ptr, loc);
            && r.internal == kp.internal && r.child0 == kp.child0
            && (forall i :: 0 <= i < loc ==> r.cells[i] == kp.cells[i])
            && r.cells[loc] == Cell(key, ptr)
            && (forall i :: loc < i <= kp.size ==> r.cells[i] == kp.cells[i - 1])
  {
  }

  /** `push`'s effect on a page: the new cell goes to the lower bound of its key. */
  function PushPage(kp: KeyPage, key: int, ptr: nat): (r: KeyPage)
    requires Shaped(kp) && kp.size < SLOTS
    ensures Shaped(r) && r.size == kp.size + 1
  {
    InsertAt(kp, key, ptr, LowerBound(Keys(kp), key))
  }

  /** Inserting a missing key at its lower bound keeps a sorted key sequence sorted. */
  lemma InsertSorted(s: seq<int>, key: int)
    requires Sorted(s) && key !in s
    ensures Sorted(s[..LowerBound(s, key)] + [key] + s[LowerBound(s, key)..])
  {
    var lb := LowerBound(s, key);
    var t := s[..lb] + [key] + s[lb..];
    forall i, j | 0 <= i < j < |t|
      ensures t[i] < t[j]
    {
      if j < lb {
        assert t[i] == s[i] && t[j] == s[j];
      } else if j == lb {
        assert t[i] == s[i];
      } else if i < lb {
        assert t[i] == s[i] && t[j] == s[j - 1];
      } else if i == lb {
        assert t[j] == s[j - 1] && s[j - 1] >= s[lb] >= key;
        assert s[j - 1] != key by {
          assert s[j - 1] in s;
        }
      } else {
        assert t[i] == s[i - 1] && t[j] == s[j - 1];
      }
    }
  }

  /** `t` is `s` with `key` inserted at index lb. */
  ghost predicate InsertedAt(s: seq<int>, t: seq<int>, lb: nat, key: int)
  {
    && lb <= |s| && |t| == |s| + 1 && t[lb] == key
    && (forall i :: 0 <= i < lb ==> t[i] == s[i])
    && (forall i :: lb < i < |t| ==> t[i] == s[i - 1])
  }

  /** Where the lower bound of any key lands once `key` is inserted at its own lower bound. */
  lemma InsertLowerBound(s: seq<int>, key: int, k: int)
    ensures var lb := LowerBound(s, key);
            var t := s[..lb] + [key] + s[lb..];
            LowerBound(t, k) == if k == key then lb else if k < key then LowerBound(s, k) else LowerBound(s, k) + 1
  {
    var lb := LowerBound(s, key);
    var t := s[..lb] + [key] + s[lb..];
    assert InsertedAt(s, t, lb, key);
    if k == key {
      LowerBoundIs(t, k, lb);
    } else if k < key {
      InsertBelow(s, t, lb, key, k);
    } else {
      InsertAbove(s, t, lb, key, k);
    }
  }

  /** A smaller key's lower bound does not move. */
  lemma InsertBelow(s: seq<int>, t: seq<int>, lb: nat, key: int, k: int)
    requires lb == LowerBound(s, key) && InsertedAt(s, t, lb, key) && k < key
    ensures LowerBound(t, k) == LowerBound(s, k)
  {
    var m := LowerBound(s, k);
    assert m <= lb;
    LowerBoundIs(t, k, m);
  }

  /** A larger key's lower bound moves up by one. */
  lemma InsertAbove(s: seq<int>, t: seq<int>, lb: nat, key: int, k: int)
    requires lb == LowerBound(s, key) && InsertedAt(s, t, lb, key) && k > key
    ensures LowerBound(t, k) == LowerBound(s, k) + 1
  {
    var m := LowerBound(s, k);
    assert m >= lb;
    forall i | 0 <= i < m + 1
      ensures t[i] < k
    {
      if i > lb {
        assert t[i] == s[i - 1];
      }
    }
    LowerBoundIs(t, k, m + 1);
  }

  /** Pushing a key a sorted page lacks keeps it sorted, with the key at its lower bound. */
  lemma PushSorted(kp: KeyPage, key: int, ptr: nat)
    requires Shaped(kp) && kp.size < SLOTS && Sorted(Keys(kp)) && key !in Keys(kp)
    ensures var r := PushPage(kp, key, ptr);
            && Sorted(Keys(r))
            && Keys(r) == Keys(kp)[..LowerBound(Keys(kp), key)] + [key] + Keys(kp)[LowerBound(Keys(kp), key)..]
  {
    InsertAtEffect(kp, key, ptr, LowerBound(Keys(kp), key));
    InsertSorted(Keys(kp), key);
  }

  /** The cell found for `key` on a leaf: its pointer, when the key is at its lower bound. */
  function LeafFind(kp: KeyPage, key: int): Option<nat>
    requires kp.size <= |kp.cells|
  {
    var i := LowerBound(Keys(kp), key);
    if i < kp.size && kp.cells[i].key == key then Some(kp.cells[i].ptr) else None
  }

  /**
   * Pushing `key` onto a sorted leaf that lacks it makes the leaf find `key`
   * at the new pointer and changes what it finds for no other key.
   */
  lemma PushFinds(kp: KeyPage, key: int, ptr: nat, k: int)
    requires Shaped(kp) && kp.size < SLOTS
    ensures LeafFind(PushPage(kp, key, ptr), k) == if k == key then Some(ptr) else LeafFind(kp, k)
  {
    var lb := LowerBound(Keys(kp), key);
    var r := PushPage(kp, key, ptr);
    InsertAtEffect(kp, key, ptr, lb);
    InsertLowerBound(Keys(kp), key, k);
    if k < key {
      PushFindsBelow(kp, r, lb, key, k);
    } else if k > key {
      PushFindsAbove(kp, r, lb, key, k);
    }
  }

  /** A smaller key is looked up at the same cell, or where the new key now sits. */
  lemma PushFindsBelow(kp: KeyPage, r: KeyPage, lb: nat, key: int, k: int)
    requires Shaped(kp) && kp.size < SLOTS && lb == LowerBound(Keys(kp), key) && k < key
    requires Shaped(r) && r.size == kp.size + 1 && LowerBound(Keys(r), k) == LowerBound(Keys(kp), k)
    requires (forall i :: 0 <= i < lb ==> r.cells[i] == kp.cells[i]) && r.cells[lb].key == key
    ensures LeafFind(r, k) == LeafFind(kp, k)
  {
    var m := LowerBound(Keys(kp), k);
    assert m <= lb;
    if m < lb {
      assert r.cells[m] == kp.cells[m];
    }
  }

  /** A larger key is looked up one cell further up. */
  lemma PushFindsAbove(kp: KeyPage, r: KeyPage, lb: nat, key: int, k: int)
    requires Shaped(kp) && kp.size < SLOTS && lb == LowerBound(Keys(kp), key) && k > key
    requires Shaped(r) && r.size == kp.size + 1 && LowerBound(Keys(r), k) == LowerBound(Keys(kp), k) + 1
    requires forall i :: lb < i <= kp.size ==> r.cells[i] == kp.cells[i - 1]
    ensures LeafFind(r, k) == LeafFind(kp, k)
  {
    var m := LowerBound(Keys(kp), k);
    assert lb <= m;
    if m < kp.size {
      assert r.cells[m + 1] == kp.cells[m];
    }
  }

  /**
   * `move_keys(other)`: the upper half of a full page moves to the fresh page
   * `dst`.  Both cases copy the source's cells 169 .. 338 to cells 0 .. 169
   * of `dst`; the zero bytes after them land in the key of cell 170.  An
   * internal page also hands the cell pointer of cell 168 over as `dst`'s child
   * pointer 0 and zeroes cells 168 onwards: it keeps 168 keys and drops the
   * middle one.  A leaf zeroes cells 169 onwards and keeps 169 keys.
   */
  function MoveKeys(src: KeyPage, dst: KeyPage): (r: (KeyPage, KeyPage))
    requires Shaped(src) && Shaped(dst)
    ensures Shaped(r.0) && Shaped(r.1)
  {
    var moved := src.cells[HALF + 1..] + [Cell(0, dst.cells[SLOTS - HALF - 1].ptr)] + dst.cells[SLOTS - HALF..];
    if src.internal then
      (src.(size := HALF, cells := src.cells[..HALF] + ZeroCells(SLOTS - HALF)),
       dst.(size := HALF, child0 := src.cells[HALF].ptr, cells := moved))
    else
      (src.(size := HALF + 1, cells := src.cells[..HALF + 1] + ZeroCells(SLOTS - HALF - 1)),
       dst.(size := HALF, cells := moved))
  }

  /**
   * Splitting an internal page: each side keeps 168 keys and the middle key
   * (key 168) is dropped from both.  The left side keeps child pointers
   * 0..168 and the right side gets child pointers 169..337.
   */
  lemma SplitInternal(src: KeyPage, dst: KeyPage)
    requires Shaped(src) && Shaped(dst) && src.size == ORDER && src.internal
    ensures var (l, r) := MoveKeys(src, dst);
            && l.size == HALF && r.size == HALF && l.internal && l.root == src.root && l.child0 == src.child0
            && r.internal == dst.internal && r.root == dst.root
            && Keys(l) == Keys(src)[..HALF] && Keys(r) == Keys(src)[HALF + 1..]
            && Keys(l) + [Keys(src)[HALF]] + Keys(r) == Keys(src)
            && (forall j :: 0 <= j <= HALF ==> Child(l, j) == Child(src, j))
            && (forall j :: 0 <= j <= HALF ==> Child(r, j) == Child(src, j + HALF + 1))
  {
    var (l, r) := MoveKeys(src, dst);
    assert forall i :: 0 <= i < HALF ==> r.cells[i] == src.cells[i + HALF + 1];
    assert Keys(src) == Keys(src)[..HALF] + [Keys(src)[HALF]] + Keys(src)[HALF + 1..];
  }

  /**
   * Splitting a leaf: the left side keeps keys 0..168, the middle key
   * included, and the right side gets keys 169..336, so no key is lost; each
   * key keeps its pointer.
   */
  lemma SplitLeaf(src: KeyPage, dst: KeyPage)
    requires Shaped(src) && Shaped(dst) && src.size == ORDER && !src.internal
    ensures var (l, r) := MoveKeys(src, dst);
            && l.size == HALF + 1 && r.size == HALF && !l.internal && l.root == src.root
            && r.internal == dst.internal && r.root == dst.root
            && Keys(l) == Keys(src)[..HALF + 1] && Keys(r) == Keys(src)[HALF + 1..]
            && Keys(l) + Keys(r) == Keys(src)
            && (forall i :: 0 <= i <= HALF ==> l.cells[i] == src.cells[i])
            && (forall i :: 0 <= i < HALF ==> r.cells[i] == src.cells[i + HALF + 1])
  {
    var (l, r) := MoveKeys(src, dst);
    assert forall i :: 0 <= i < HALF ==> r.cells[i] == src.cells[i + HALF + 1];
    assert Keys(src) == Keys(src)[..HALF + 1] + Keys(src)[HALF + 1..];
  }
}
