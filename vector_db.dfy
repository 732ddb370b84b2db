/**
 * `VectorDatabase`: a linear key/value store.  Row r (an 8-byte `long` id and
 * a 56-byte name buffer) lives in page r / 64 at byte (r % 64) * 64; pages
 * are 4096 bytes and pass through a direct-mapped cache of ten blocks, slot
 * `page % 10`, with dirty write-back.
 *
 * The file is modelled as the sequence of its pages (`disk`), so its length
 * in bytes is 4096 times the number of pages.  What the rows of the store
 * ARE is the view through the cache: a resident block's buffer for a page it
 * holds, the file's page otherwise (`Logical`, `Rows`).
 */
module VectorDb {
  import opened Bytes
  import BTreeTypes

  const PAGE_SIZE: nat := 4096
  const NAME_SIZE: nat := 56
  const ENTRY_SIZE: nat := 64  // NAME_SIZE + 8
  const ENTRIES_PER_PAGE: nat := 64  // PAGE_SIZE / ENTRY_SIZE
  const CACHE_SIZE: nat := 10

  /** The sizes agree with their definitions: 64 records of 64 bytes fill a page exactly. */
  lemma Sizes()
    ensures ENTRY_SIZE == NAME_SIZE + 8 && ENTRIES_PER_PAGE == PAGE_SIZE / ENTRY_SIZE
    ensures ENTRIES_PER_PAGE * ENTRY_SIZE == PAGE_SIZE
  {
  }

  type Page = s: seq<byte> | |s| == PAGE_SIZE witness seq(4096, _ => 0)

  /** A page of zero bytes. */
  function ZeroPage(): Page
  {
    seq(PAGE_SIZE, _ => 0)
  }

  // ------------------------------------------------------------------ rows

  /** `Entry`: the id and the whole name buffer. */
  datatype Row = Row(id: int, name: seq<byte>)

  predicate RowOk(r: Row)
  {
    IsI64(r.id) && |r.name| == NAME_SIZE
  }

  /** `convert_row_to_bin`: the id in bytes [0, 8), the name buffer in [8, 64). */
  function RowToBin(r: Row): (b: seq<byte>)
    requires RowOk(r)
    ensures |b| == ENTRY_SIZE
  {
    EncodeInt(r.id, 8) + r.name
  }

  /** `convert_bin_to_row`. */
  function BinToRow(b: seq<byte>): (r: Row)
    requires |b| == ENTRY_SIZE
    ensures RowOk(r)
  {
    Row(DecodeInt(b[..8]), b[8..])
  }

  lemma RowRoundTrip(r: Row)
    requires RowOk(r)
    ensures BinToRow(RowToBin(r)) == r
  {
    var b := RowToBin(r);
    assert b[..8] == EncodeInt(r.id, 8) && b[8..] == r.name;
    DecodeEncodeInt(r.id, 8);
  }

  lemma BinRoundTrip(b: seq<byte>)
    requires |b| == ENTRY_SIZE
    ensures RowToBin(BinToRow(b)) == b
  {
    EncodeDecodeInt(b[..8]);
    assert b[..8] + b[8..] == b;
  }

  /** The row built by `insert`: `entry.name` gets the value cut to 55 bytes; `blank` is the uninitialised buffer. */
  function NewRow(key: int, value: seq<byte>, blank: seq<byte>): (r: Row)
    requires IsI64(key) && |blank| == NAME_SIZE
    ensures RowOk(r) && r.id == key
    ensures CString(r.name) == Prefix(CString(value), NAME_SIZE - 1)
    ensures |CString(r.name)| <= NAME_SIZE - 1
  {
    Row(key, BTreeTypes.CopyCut(blank, value, NAME_SIZE))
  }

  // ------------------------------------------------------------ row slots

  /** `row_slot`: the page of row `r`. */
  function RowPage(r: nat): nat
  {
    r / ENTRIES_PER_PAGE
  }

  /** `row_slot`: the byte offset of row `r` in its page; a whole record fits after it. */
  function RowOffset(r: nat): (o: nat)
    ensures o + ENTRY_SIZE <= PAGE_SIZE && o % ENTRY_SIZE == 0
    ensures r == RowPage(r) * ENTRIES_PER_PAGE + o / ENTRY_SIZE
  {
    (r % ENTRIES_PER_PAGE) * ENTRY_SIZE
  }

  /** Two rows never share a byte: the records of one page are disjoint. */
  lemma SlotsDisjoint(r1: nat, r2: nat)
    requires r1 != r2 && RowPage(r1) == RowPage(r2)
    ensures RowOffset(r1) + ENTRY_SIZE <= RowOffset(r2) || RowOffset(r2) + ENTRY_SIZE <= RowOffset(r1)
  {
    var o1, o2 := RowOffset(r1), RowOffset(r2);
    assert o1 != o2;
    assert o1 / ENTRY_SIZE != o2 / ENTRY_SIZE;
  }

  /** `get_page_idx`: the cache slot of a page. */
  function CacheIndex(p: nat): (i: nat)
    ensures i < CACHE_SIZE
  {
    p % CACHE_SIZE
  }

  // ---------------------------------------------------- pages and the cache

  datatype Block = Block(pageNum: nat, dirty: bool, page: Page, valid: bool)

  const EmptyBlock := Block(0, false, ZeroPage(), false)

  /** The file's page `p`; a page at or past the end of the file reads as zeros. */
  function DiskPage(disk: seq<Page>, p: nat): Page
  {
    if p < |disk| then disk[p] else ZeroPage()
  }

  predicate Resident(blocks: seq<Block>, p: nat)
    requires |blocks| == CACHE_SIZE
  {
    blocks[CacheIndex(p)].valid && blocks[CacheIndex(p)].pageNum == p
  }

  /** Page `p` as the program sees it: the cached copy if resident, else the file's. */
  function View(disk: seq<Page>, blocks: seq<Block>, p: nat): Page
    requires |blocks| == CACHE_SIZE
  {
    if Resident(blocks, p) then blocks[CacheIndex(p)].page else DiskPage(disk, p)
  }

  /** Every page `get_page` accepts (0 up to the page count), as the program sees it. */
  function Logical(disk: seq<Page>, blocks: seq<Block>): (r: seq<Page>)
    requires |blocks| == CACHE_SIZE
    ensures |r| == |disk| + 1
    ensures forall p :: 0 <= p <= |disk| ==> r[p] == View(disk, blocks, p)
  {
    seq(|disk| + 1, (p: int) requires 0 <= p => View(disk, blocks, p))
  }

  /**
   * The bookkeeping of one cache slot: a dirty block is valid and holds a page
   * of the file; a valid block holds a page of its own slot; and a clean
   * valid block holds the file's copy.
   */
  predicate BlockOk(disk: seq<Page>, b: Block, k: nat)
  {
    && (b.dirty ==> b.valid && b.pageNum < |disk|)
    && (b.valid ==> CacheIndex(b.pageNum) == k && b.pageNum <= |disk|)
    && (b.valid && !b.dirty ==> b.page == DiskPage(disk, b.pageNum))
  }

  predicate BlocksOk(disk: seq<Page>, blocks: seq<Block>)
  {
    |blocks| == CACHE_SIZE && forall k :: 0 <= k < CACHE_SIZE ==> BlockOk(disk, blocks[k], k)
  }

  /** Row `i` of a sequence of pages. */
  function RowAt(pages: seq<Page>, i: nat): Row
    requires RowPage(i) < |pages|
  {
    BinToRow(pages[RowPage(i)][RowOffset(i)..RowOffset(i) + ENTRY_SIZE])
  }

  /** The first `n` rows. */
  function Rows(pages: seq<Page>, n: nat): (r: seq<Row>)
    requires n <= ENTRIES_PER_PAGE * |pages|
    ensures |r| == n && forall i :: 0 <= i < n ==> r[i] == RowAt(pages, i)
  {
    seq(n, (i: int) requires 0 <= i < n => RowAt(pages, i))
  }

  /** `convert_row_to_bin` into the slot of row `i` of `page`. */
  function PutRow(page: Page, i: nat, e: Row): (r: Page)
    requires RowOk(e)
  {
    page[..RowOffset(i)] + RowToBin(e) + page[RowOffset(i) + ENTRY_SIZE..]
  }

  /** Writing row `i` changes row `i` and no other row. */
  lemma PutRowEffect(pages: seq<Page>, i: nat, e: Row, n: nat)
    requires RowOk(e) && RowPage(i) < |pages| && n <= ENTRIES_PER_PAGE * |pages|
    ensures var after := pages[RowPage(i) := PutRow(pages[RowPage(i)], i, e)];
      forall j :: 0 <= j < n ==> RowAt(after, j) == (if j == i then e else RowAt(pages, j))
  {
    var after := pages[RowPage(i) := PutRow(pages[RowPage(i)], i, e)];
    var o := RowOffset(i);
    forall j | 0 <= j < n
      ensures RowAt(after, j) == (if j == i then e else RowAt(pages, j))
    {
      if j == i {
        assert after[RowPage(i)][o..o + ENTRY_SIZE] == RowToBin(e);
        RowRoundTrip(e);
      } else if RowPage(j) == RowPage(i) {
        SlotsDisjoint(i, j);
        var oj := RowOffset(j);
        assert after[RowPage(j)][oj..oj + ENTRY_SIZE] == pages[RowPage(j)][oj..oj + ENTRY_SIZE];
      }
    }
  }

  /** A row that fits in the file lies in one of its pages. */
  lemma RowPageBound(i: nat, pages: nat)
    requires ENTRY_SIZE * (i + 1) <= PAGE_SIZE * pages
    ensures RowPage(i) < pages
  {
  }

  /** Setting the row after the first `n` to `e` extends them by `e`. */
  lemma RowsExtend(pages: seq<Page>, n: nat, e: Row)
    requires n + 1 <= ENTRIES_PER_PAGE * |pages|
    ensures Rows(pages, n + 1)[n := e] == Rows(pages, n) + [e]
  {
  }

  /** Rows of a longer sequence of pages: appending a page changes none of the first `n`. */
  lemma RowsOfPrefix(pages: seq<Page>, more: seq<Page>, n: nat)
    requires n <= ENTRIES_PER_PAGE * |pages| && pages <= more
    ensures Rows(more, n) == Rows(pages, n)
  {
    assert forall i :: 0 <= i < n ==> more[RowPage(i)] == pages[RowPage(i)];
  }

  /** The miss path of `get_page` keeps the bookkeeping and every page's contents. */
  lemma MissKeepsLogical(disk: seq<Page>, blocks: seq<Block>, p: nat, disk2: seq<Page>)
    requires BlocksOk(disk, blocks) && p <= |disk| && !Resident(blocks, p)
    requires var b := blocks[CacheIndex(p)];
      disk2 == if b.dirty then disk[b.pageNum := b.page] else disk
    ensures var blocks2 := blocks[CacheIndex(p) := Block(p, false, DiskPage(disk2, p), true)];
      BlocksOk(disk2, blocks2) && Logical(disk2, blocks2) == Logical(disk, blocks)
  {
    var b := blocks[CacheIndex(p)];
    var blocks2 := blocks[CacheIndex(p) := Block(p, false, DiskPage(disk2, p), true)];
    forall k | 0 <= k < CACHE_SIZE
      ensures BlockOk(disk2, blocks2[k], k)
    {
      if k != CacheIndex(p) && blocks[k].valid && b.dirty {
        assert blocks[k].pageNum != b.pageNum;
      }
    }
    forall q | 0 <= q <= |disk|
      ensures View(disk2, blocks2, q) == View(disk, blocks, q)
    {
      if CacheIndex(q) != CacheIndex(p) && b.dirty && q == b.pageNum {
        assert false;
      }
    }
  }

  /** Rewriting the buffer of a resident page and marking it dirty. */
  lemma WriteKeepsOthers(disk: seq<Page>, blocks: seq<Block>, p: nat, page: Page)
    requires BlocksOk(disk, blocks) && p < |disk| && Resident(blocks, p)
    ensures var blocks2 := blocks[CacheIndex(p) := blocks[CacheIndex(p)].(page := page, dirty := true)];
      BlocksOk(disk, blocks2) && Logical(disk, blocks2) == Logical(disk, blocks)[p := page]
  {
  }

  /** `write_page` of a resident page: the cache stays consistent and no page's contents change. */
  lemma WriteBackKeepsLogical(disk: seq<Page>, blocks: seq<Block>, q: nat)
    requires BlocksOk(disk, blocks) && q < |disk| && Resident(blocks, q)
    ensures var disk2 := disk[q := blocks[CacheIndex(q)].page];
      BlocksOk(disk2, blocks) && Logical(disk2, blocks) == Logical(disk, blocks)
  {
    var disk2 := disk[q := blocks[CacheIndex(q)].page];
    forall k | 0 <= k < CACHE_SIZE
      ensures BlockOk(disk2, blocks[k], k)
    {
      if k != CacheIndex(q) && blocks[k].valid {
        assert blocks[k].pageNum != q;
      }
    }
  }

  /** Appending a zero page to the file: the cache stays consistent and the view gains a zero page. */
  lemma AppendLogical(disk: seq<Page>, blocks: seq<Block>)
    requires BlocksOk(disk, blocks)
    ensures BlocksOk(disk + [ZeroPage()], blocks)
    ensures Logical(disk + [ZeroPage()], blocks) == Logical(disk, blocks) + [ZeroPage()]
  {
    var d2 := disk + [ZeroPage()];
    forall k | 0 <= k < CACHE_SIZE
      ensures BlockOk(d2, blocks[k], k)
    {
      if blocks[k].valid && !blocks[k].dirty {
        assert DiskPage(d2, blocks[k].pageNum) == DiskPage(disk, blocks[k].pageNum);
      }
    }
    forall q | 0 <= q <= |d2|
      ensures View(d2, blocks, q) == (Logical(disk, blocks) + [ZeroPage()])[q]
    {
      if q < |disk| {
        assert DiskPage(d2, q) == DiskPage(disk, q);
      }
    }
  }

  // ------------------------------------------------------- the row sequence

  /** The first row with id `key`, or -1. */
  function FindRow(rows: seq<Row>, key: int): (r: int)
    ensures -1 <= r < |rows|
    ensures r >= 0 ==> rows[r].id == key && forall j :: 0 <= j < r ==> rows[j].id != key
    ensures r < 0 ==> forall j :: 0 <= j < |rows| ==> rows[j].id != key
  {
    if |rows| == 0 then -1
    else if rows[0].id == key then 0
    else var r := FindRow(rows[1..], key); if r < 0 then -1 else r + 1
  }

  /** The first row with id `key` is determined by the rows before it. */
  lemma FindRowIs(rows: seq<Row>, key: int, i: int)
    requires -1 <= i < |rows|
    requires i >= 0 ==> rows[i].id == key && forall j :: 0 <= j < i ==> rows[j].id != key
    requires i < 0 ==> forall j :: 0 <= j < |rows| ==> rows[j].id != key
    ensures FindRow(rows, key) == i
  {
  }

  /** What `insert` does to the rows: overwrite the first row with that id, or append. */
  function InsertRows(rows: seq<Row>, e: Row): (r: seq<Row>)
    ensures FindRow(rows, e.id) >= 0 ==> r == rows[FindRow(rows, e.id) := e]
    ensures FindRow(rows, e.id) < 0 ==> r == rows + [e]
  {
    var i := FindRow(rows, e.id);
    if i >= 0 then rows[i := e] else rows + [e]
  }

  const Null: seq<byte> := [110, 117, 108, 108]

  /** What `select` returns: the name of the first row with id `key`, or "null". */
  function SelectRows(rows: seq<Row>, key: int): (r: seq<byte>)
    ensures FindRow(rows, key) < 0 ==> r == Null
    ensures FindRow(rows, key) >= 0 ==> r == CString(rows[FindRow(rows, key)].name)
  {
    var i := FindRow(rows, key);
    if i < 0 then Null else CString(rows[i].name)
  }

  /** After inserting `(key, value)`, selecting `key` gives back the value, cut to 55 bytes. */
  lemma SelectAfterInsert(rows: seq<Row>, key: int, value: seq<byte>, blank: seq<byte>)
    requires IsI64(key) && |blank| == NAME_SIZE
    ensures SelectRows(InsertRows(rows, NewRow(key, value, blank)), key) == Prefix(CString(value), NAME_SIZE - 1)
  {
    var e := NewRow(key, value, blank);
    var after := InsertRows(rows, e);
    var i := FindRow(rows, key);
    if i >= 0 {
      FindRowIs(after, key, i);
    } else {
      FindRowIs(after, key, |rows|);
    }
  }

  /** Inserting one key leaves what every other key selects unchanged. */
  lemma SelectOtherAfterInsert(rows: seq<Row>, e: Row, key: int)
    requires key != e.id
    ensures SelectRows(InsertRows(rows, e), key) == SelectRows(rows, key)
  {
    var after := InsertRows(rows, e);
    var i := FindRow(rows, key);
    FindRowIs(after, key, i);
  }

  /** Inserting keeps ids unique, and adds a row exactly when the id is new. */
  lemma InsertKeepsIdsUnique(rows: seq<Row>, e: Row)
    requires forall i, j :: 0 <= i < j < |rows| ==> rows[i].id != rows[j].id
    ensures var r := InsertRows(rows, e);
      (forall i, j :: 0 <= i < j < |r| ==> r[i].id != r[j].id)
      && |r| == |rows| + (if FindRow(rows, e.id) >= 0 then 0 else 1)
  {
  }

  // ------------------------------------------------------------- the store

  class VectorDatabase {
    var numEntries: nat
    var cache: array<Block>
    var fileLength: nat
    var disk: seq<Page>

    ghost predicate Valid()
      reads this, cache
    {
      && cache.Length == CACHE_SIZE
      && fileLength == PAGE_SIZE * |disk|
      && ENTRY_SIZE * numEntries <= fileLength
      && BlocksOk(disk, cache[..])
    }

    /** Every page `get_page` accepts, as the program sees it. */
    ghost function Pages(): seq<Page>
      reads this, cache
      requires Valid()
    {
      Logical(disk, cache[..])
    }

    /** The stored rows. */
    ghost function Contents(): seq<Row>
      reads this, cache
      requires Valid()
    {
      Rows(Pages(), numEntries)
    }

    /** The constructor on an empty file: no rows, no pages, every block empty. */
    constructor ()
      ensures Valid() && fresh(cache) && Contents() == [] && fileLength == 0
    {
      numEntries := 0;
      fileLength := 0;
      disk := [];
      cache := new Block[CACHE_SIZE](_ => EmptyBlock);
    }

    /**
     * `get_page`: refuses a page past the page count; on a hit changes
     * nothing; on a miss writes a dirty occupant back and loads the page
     * clean.  The rows and every page's contents are unchanged either way.
     * The block index stands for the returned buffer pointer.
     */
    method GetPage(p: nat) returns (ok: bool, idx: nat)
      requires Valid()
      modifies this, cache
      decreases if Resident(cache[..], p) then 0 else 1, 1
      ensures Valid() && cache == old(cache) && numEntries == old(numEntries)
      ensures fileLength == old(fileLength) && |disk| == old(|disk|)
      ensures ok <==> p <= fileLength / PAGE_SIZE
      ensures Pages() == old(Pages()) && Contents() == old(Contents())
      ensures old(Resident(cache[..], p)) || !ok ==> unchanged(this, cache)
      ensures ok ==> idx == CacheIndex(p) && Resident(cache[..], p)
      ensures ok && !old(Resident(cache[..], p)) ==>
        var b := old(cache[CacheIndex(p)]);
        && disk == (if b.dirty then old(disk)[b.pageNum := b.page] else old(disk))
        && cache[..] == old(cache[..])[idx := Block(p, false, DiskPage(disk, p), true)]
    {
      if p > fileLength / PAGE_SIZE {
        return false, 0;
      }
      ok, idx := true, CacheIndex(p);
      if cache[idx].pageNum != p || !cache[idx].valid {
        ghost var disk0, blocks0 := disk, cache[..];
        cache[idx] := cache[idx].(valid := true);
        if cache[idx].dirty {
          assert cache[idx] == blocks0[idx] && cache[..] == blocks0;
          WritePage(cache[idx].pageNum);
        }
        var page := DiskPage(disk, p);
        cache[idx] := Block(p, false, page, true);
        MissKeepsLogical(disk0, blocks0, p, disk);
      }
    }

    /** `write_page`: a resident page's buffer, fetched through `get_page`, goes to the file. */
    method WritePage(q: nat)
      requires Valid() && Resident(cache[..], q) && q < |disk|
      modifies this, cache
      decreases 0, 2
      ensures Valid() && cache == old(cache) && unchanged(cache)
      ensures numEntries == old(numEntries) && fileLength == old(fileLength)
      ensures disk == old(disk)[q := cache[CacheIndex(q)].page] && Pages() == old(Pages())
    {
      var ok, idx := GetPage(q);
      WriteBackKeepsLogical(disk, cache[..], q);
      disk := disk[q := cache[idx].page];
    }

    /** `row_slot`: the block and byte offset of row `r`. */
    method RowSlot(r: nat) returns (ok: bool, idx: nat, off: nat)
      requires Valid()
      modifies this, cache
      ensures Valid() && cache == old(cache) && numEntries == old(numEntries)
      ensures fileLength == old(fileLength) && |disk| == old(|disk|)
      ensures Pages() == old(Pages()) && Contents() == old(Contents())
      ensures ok <==> RowPage(r) <= fileLength / PAGE_SIZE
      ensures ok ==> idx == CacheIndex(RowPage(r)) && Resident(cache[..], RowPage(r)) && off == RowOffset(r)
    {
      var pageNum := r / ENTRIES_PER_PAGE;
      ok, idx := GetPage(pageNum);
      off := (r % ENTRIES_PER_PAGE) * ENTRY_SIZE;
    }

    /** Reads row `i` through the cache. */
    method ReadRow(i: nat) returns (row: Row, idx: nat, off: nat)
      requires Valid() && i < numEntries
      modifies this, cache
      ensures Valid() && cache == old(cache) && numEntries == old(numEntries)
      ensures fileLength == old(fileLength) && |disk| == old(|disk|) && Contents() == old(Contents())
      ensures row == Contents()[i] && idx == CacheIndex(RowPage(i)) && Resident(cache[..], RowPage(i))
      ensures off == RowOffset(i)
    {
      var ok;
      ok, idx, off := RowSlot(i);
      assert Pages()[RowPage(i)] == cache[idx].page;
      row := BinToRow(cache[idx].page[off..off + ENTRY_SIZE]);
    }

    /** Writes `e` into the slot of row `i`, whose page is resident, and marks the block dirty. */
    method WriteRow(i: nat, idx: nat, e: Row)
      requires Valid() && RowOk(e) && RowPage(i) < |disk| && idx == CacheIndex(RowPage(i))
      requires Resident(cache[..], RowPage(i)) && i <= numEntries && ENTRY_SIZE * (i + 1) <= fileLength
      modifies cache
      ensures Valid()
      ensures Rows(Pages(), i + 1) == Rows(old(Pages()), i + 1)[i := e]
      ensures i < numEntries ==> Contents() == old(Contents())[i := e]
    {
      ghost var pages0 := Pages();
      var p := RowPage(i);
      var page := PutRow(cache[idx].page, i, e);
      cache[idx] := cache[idx].(page := page);
      cache[p % CACHE_SIZE] := cache[p % CACHE_SIZE].(dirty := true);
      WriteKeepsOthers(disk, old(cache[..]), p, page);
      assert cache[..] == old(cache[..])[idx := old(cache[..])[idx].(page := page, dirty := true)];
      PutRowEffect(pages0, i, e, i + 1);
      PutRowEffect(pages0, i, e, numEntries);
    }

    /**
     * `insert`: the first row holding `key` is overwritten and the row count
     * is unchanged; otherwise the row is written at index `numEntries`, after
     * a zero page is appended to the file when at most one record's room is
     * left, and the count grows by one.  `blank` is the uninitialised name
     * buffer of the local `Entry`.
     */
    method Insert(key: int, value: seq<byte>, blank: seq<byte>)
      requires Valid() && IsI64(key) && |blank| == NAME_SIZE
      modifies this, cache
      ensures Valid() && cache == old(cache)
      ensures Contents() == InsertRows(old(Contents()), NewRow(key, value, blank))
      ensures numEntries == old(numEntries) + (if FindRow(old(Contents()), key) >= 0 then 0 else 1)
    {
      var entry := NewRow(key, value, blank);
      ghost var rows0 := Contents();
      var i, found, current, idx := Scan(key);
      if found {
        RowPageBound(i, |disk|);
        WriteRow(i, idx, entry);
        return;
      }
      AppendRow(entry);
    }

    /**
     * The scan shared by `insert` and `select`: rows are read through the
     * cache, in order, until one holds `key`.
     */
    method Scan(key: int) returns (i: nat, found: bool, current: Row, idx: nat)
      requires Valid()
      modifies this, cache
      ensures Valid() && cache == old(cache) && numEntries == old(numEntries) && Contents() == old(Contents())
      ensures found <==> FindRow(Contents(), key) >= 0
      ensures found ==> i == FindRow(Contents(), key) && i < numEntries && current == Contents()[i]
      ensures found ==> idx == CacheIndex(RowPage(i)) && Resident(cache[..], RowPage(i))
    {
      ghost var rows0 := Contents();
      i, found, current, idx := 0, false, Row(0, []), 0;
      while i < numEntries
        invariant Valid() && cache == old(cache) && numEntries == old(numEntries)
        invariant 0 <= i <= numEntries && Contents() == rows0
        invariant forall j :: 0 <= j < i ==> rows0[j].id != key
      {
        var off;
        current, idx, off := ReadRow(i);
        assert current == rows0[i];
        if current.id == key {
          found := true;
          break;
        }
        i := i + 1;
      }
      FindRowIs(rows0, key, if found then i else -1);
    }

    /** The tail of `insert` for a new key: room is made if needed and the row is written at index `numEntries`. */
    method AppendRow(entry: Row)
      requires Valid() && RowOk(entry)
      modifies this, cache
      ensures Valid() && cache == old(cache)
      ensures Contents() == old(Contents()) + [entry] && numEntries == old(numEntries) + 1
    {
      // The invariant ENTRY_SIZE * numEntries <= fileLength keeps the unsigned subtraction exact.
      if fileLength - numEntries * ENTRY_SIZE <= ENTRY_SIZE {
        AppendPage();
      }
      var i := numEntries;
      ghost var rows0, pages1 := Contents(), Pages();
      RowPageBound(i, |disk|);
      var ok, idx, off := RowSlot(i);
      WriteRow(i, idx, entry);
      numEntries := numEntries + 1;
      RowsExtend(pages1, i, entry);
    }

    /** Appends a zero page to the file. */
    method AppendPage()
      requires Valid()
      modifies this
      ensures Valid() && cache == old(cache) && numEntries == old(numEntries) && Contents() == old(Contents())
      ensures fileLength == old(fileLength) + PAGE_SIZE && disk == old(disk) + [ZeroPage()]
    {
      AppendLogical(disk, cache[..]);
      RowsOfPrefix(Pages(), Pages() + [ZeroPage()], numEntries);
      disk := disk + [ZeroPage()];
      fileLength := fileLength + PAGE_SIZE;
    }

    /** `select`: the name of the first row holding `key`, or "null". */
    method Select(key: int) returns (name: seq<byte>)
      requires Valid()
      modifies this, cache
      ensures Valid() && cache == old(cache) && Contents() == old(Contents())
      ensures name == SelectRows(Contents(), key)
    {
      var i, found, current, idx := Scan(key);
      if found {
        return CString(current.name);
      }
      return Null;
    }

    /**
     * The destructor's write-back: every dirty block goes to the file, after
     * which the file alone holds every page as the program saw it.
     */
    method Close()
      requires Valid()
      modifies this, cache
      ensures Valid() && cache == old(cache) && Pages() == old(Pages()) && Contents() == old(Contents())
      ensures forall p :: 0 <= p <= |disk| ==> DiskPage(disk, p) == Pages()[p]
    {
      var i := 0;
      while i < CACHE_SIZE
        invariant Valid() && cache == old(cache) && numEntries == old(numEntries)
        invariant fileLength == old(fileLength) && Pages() == old(Pages()) && 0 <= i <= CACHE_SIZE
        invariant forall k :: 0 <= k < i && cache[k].dirty ==> DiskPage(disk, cache[k].pageNum) == cache[k].page
      {
        if cache[i].dirty {
          ghost var disk0, blocks0 := disk, cache[..];
          WritePage(cache[i].pageNum);
          assert forall k :: 0 <= k < i && cache[k].dirty ==> cache[k].pageNum != blocks0[i].pageNum;
        }
        i := i + 1;
      }
    }
  }
}
