/**
 * The fixed-layout records the storage engine keeps in its value pages:
 * `author::Entry` (148 bytes), `paper::Entry` (256 bytes) and `test::Entry`
 * (12 bytes).  Each record has a constructor, a serializer that copies its
 * fields to a byte buffer, a deserializer that copies them back, and a match
 * operator.
 *
 * Character arrays are modelled as byte sequences of the array's length.  The
 * constructors only `strcpy` into them, so the bytes after the terminating
 * NUL are whatever the storage held before; that storage is the `blank`
 * parameter of each constructor.
 */
module BTreeTypes {
  import opened Bytes

  // ---------------------------------------------------------------- author

  const AUTHOR_NAME_LEN := 40
  const AUTHOR_ORG_LEN := 100
  const AUTHOR_SIZE := 148

  datatype AuthorEntry = AuthorEntry(name: seq<byte>, organization: seq<byte>, id: int)

  predicate AuthorValid(e: AuthorEntry)
  {
    |e.name| == AUTHOR_NAME_LEN && |e.organization| == AUTHOR_ORG_LEN && IsI64(e.id)
  }

  /** `strcpy` of `s`, cut to `n - 1` bytes when it has `n` or more, into a buffer of `n` bytes. */
  function CopyCut(dst: seq<byte>, s: seq<byte>, n: nat): (r: seq<byte>)
    requires |dst| == n >= 1
    ensures |r| == n
    ensures CString(r) == Prefix(CString(s), n - 1)
  {
    var src := if |s| >= n then Prefix(s, n - 1) else s;
    CStringOfPrefix(s, n - 1);
    StrCpy(dst, src)
  }

  /** The `author::Entry(name, org, id)` constructor. */
  function NewAuthor(authorName: seq<byte>, authorOrg: seq<byte>, setId: int, blank: AuthorEntry): (e: AuthorEntry)
    requires AuthorValid(blank) && IsI64(setId)
    ensures AuthorValid(e) && e.id == setId
    ensures CString(e.name) == Prefix(CString(authorName), AUTHOR_NAME_LEN - 1)
    ensures CString(e.organization) == Prefix(CString(authorOrg), AUTHOR_ORG_LEN - 1)
    ensures |CString(e.name)| <= 39 && |CString(e.organization)| <= 99
  {
    AuthorEntry(CopyCut(blank.name, authorName, AUTHOR_NAME_LEN),
                CopyCut(blank.organization, authorOrg, AUTHOR_ORG_LEN),
                setId)
  }

  function SerializeAuthor(e: AuthorEntry): (b: seq<byte>)
    requires AuthorValid(e)
    ensures |b| == AUTHOR_SIZE
  {
    e.name + e.organization + EncodeInt(e.id, 8)
  }

  /** Reads the record at the front of `src`; bytes past the record are not read. */
  function DeserializeAuthor(src: seq<byte>): (e: AuthorEntry)
    requires |src| >= AUTHOR_SIZE
    ensures AuthorValid(e)
  {
    AuthorEntry(src[0..40], src[40..140], DecodeInt(src[140..148]))
  }

  lemma AuthorRoundTrip(e: AuthorEntry, rest: seq<byte>)
    requires AuthorValid(e)
    ensures DeserializeAuthor(SerializeAuthor(e) + rest) == e
  {
    var b := SerializeAuthor(e) + rest;
    assert b[140..148] == EncodeInt(e.id, 8);
    DecodeEncodeInt(e.id, 8);
  }

  lemma AuthorBytesRoundTrip(src: seq<byte>)
    requires |src| >= AUTHOR_SIZE
    ensures SerializeAuthor(DeserializeAuthor(src)) == src[..AUTHOR_SIZE]
  {
    EncodeDecodeInt(src[140..148]);
  }

  /** `author::Entry::operator=`: compares the names as C strings. */
  predicate AuthorMatch(a: AuthorEntry, b: AuthorEntry)
  {
    CString(a.name) == CString(b.name)
  }

  /** Two constructed authors match exactly when their names agree in the first 39 bytes. */
  lemma AuthorMatchOfNew(n1: seq<byte>, o1: seq<byte>, i1: int, b1: AuthorEntry,
                         n2: seq<byte>, o2: seq<byte>, i2: int, b2: AuthorEntry)
    requires AuthorValid(b1) && IsI64(i1) && AuthorValid(b2) && IsI64(i2)
    ensures AuthorMatch(NewAuthor(n1, o1, i1, b1), NewAuthor(n2, o2, i2, b2))
        <==> Prefix(CString(n1), 39) == Prefix(CString(n2), 39)
  {
  }

  // ----------------------------------------------------------------- paper

  const PAPER_SIZE := 256
  const PAPER_AUTHORS := 10

  datatype PaperEntry = PaperEntry(title: seq<byte>, keywords: seq<byte>, venue: seq<byte>,
                                   authors: seq<int>, nCitations: int, pubYear: int, id: int)

  predicate AllI64(xs: seq<int>)
  {
    forall i :: 0 <= i < |xs| ==> IsI64(xs[i])
  }

  predicate PaperValid(e: PaperEntry)
  {
    && |e.title| == 60 && |e.keywords| == 60 && |e.venue| == 40
    && |e.authors| == PAPER_AUTHORS && AllI64(e.authors)
    && IsU32(e.nCitations) && IsU32(e.pubYear) && IsI64(e.id)
  }

  /**
   * The `paper::Entry` constructor as written: the size test on the title is
   * on the 60-byte array, so the title is always cut to 59 bytes, and all three
   * copies go into the title buffer.  `authors` takes the first ten elements
   * of the vector (the source indexes the vector unchecked, so it needs ten).
   */
  function NewPaper(paperTitle: seq<byte>, paperKeywords: seq<byte>, paperVenue: seq<byte>,
                    citations: int, year: int, paperAuthors: seq<int>, setId: int,
                    blank: PaperEntry): (e: PaperEntry)
    requires PaperValid(blank) && IsU32(citations) && IsU32(year) && IsI64(setId)
    requires |paperAuthors| >= PAPER_AUTHORS && AllI64(paperAuthors)
    ensures PaperValid(e)
    ensures CString(e.title) == Prefix(CString(paperVenue), 39)
    ensures e.keywords == blank.keywords && e.venue == blank.venue
    ensures e.authors == paperAuthors[..PAPER_AUTHORS]
    ensures e.nCitations == citations && e.pubYear == year && e.id == setId
  {
    var t1 := StrCpy(blank.title, Prefix(paperTitle, 59));
    var t2 := CopyCut(t1, paperKeywords, 60);
    var t3 := CopyKeepLength(t2, paperVenue, 40);
    PaperEntry(t3, blank.keywords, blank.venue, paperAuthors[..PAPER_AUTHORS], citations, year, setId)
  }

  /** `strcpy` of `s` (cut to `n - 1` bytes when it has `n` or more) into a buffer that may be longer than `n`. */
  function CopyKeepLength(dst: seq<byte>, s: seq<byte>, n: nat): (r: seq<byte>)
    requires 1 <= n <= |dst|
    ensures |r| == |dst|
    ensures CString(r) == Prefix(CString(s), n - 1)
  {
    var src := if |s| >= n then Prefix(s, n - 1) else s;
    CStringOfPrefix(s, n - 1);
    StrCpy(dst, src)
  }

  function EncodeInts(xs: seq<int>): (b: seq<byte>)
    requires AllI64(xs)
    ensures |b| == 8 * |xs|
  {
    if |xs| == 0 then [] else EncodeInt(xs[0], 8) + EncodeInts(xs[1..])
  }

  function DecodeInts(b: seq<byte>, count: nat): (xs: seq<int>)
    requires |b| >= 8 * count
    ensures |xs| == count && AllI64(xs)
  {
    if count == 0 then [] else [DecodeInt(b[..8])] + DecodeInts(b[8..], count - 1)
  }

  lemma {:induction false} IntsRoundTrip(xs: seq<int>)
    requires AllI64(xs)
    ensures DecodeInts(EncodeInts(xs), |xs|) == xs
  {
    if |xs| > 0 {
      var b := EncodeInts(xs);
      assert b[..8] == EncodeInt(xs[0], 8);
      assert b[8..] == EncodeInts(xs[1..]);
      DecodeEncodeInt(xs[0], 8);
      IntsRoundTrip(xs[1..]);
    }
  }

  function SerializePaper(e: PaperEntry): (b: seq<byte>)
    requires PaperValid(e)
    ensures |b| == PAPER_SIZE
  {
    e.title + e.keywords + e.venue + EncodeInts(e.authors)
      + EncodeNat(e.nCitations, 4) + EncodeNat(e.pubYear, 4) + EncodeInt(e.id, 8)
  }

  /** The seven fields lie in disjoint regions that together cover the 256-byte record. */
  lemma PaperLayout(e: PaperEntry)
    requires PaperValid(e)
    ensures var b := SerializePaper(e);
      && b[0..60] == e.title && b[60..120] == e.keywords && b[120..160] == e.venue
      && b[160..240] == EncodeInts(e.authors)
      && b[240..244] == EncodeNat(e.nCitations, 4) && b[244..248] == EncodeNat(e.pubYear, 4)
      && b[248..256] == EncodeInt(e.id, 8)
  {
  }

  /**
   * `paper::Entry::deserialize_value` as written: every field is read from the
   * offset it was written to except `id`, which is read from bytes [258, 266),
   * beyond the end of the 256-byte record.
   */
  function DeserializePaperAsWritten(src: seq<byte>): (e: PaperEntry)
    requires |src| >= 266
    ensures PaperValid(e)
  {
    PaperEntry(src[0..60], src[60..120], src[120..160], DecodeInts(src[160..240], 10),
               DecodeNat(src[240..244]), DecodeNat(src[244..248]), DecodeInt(src[258..266]))
  }

  /** As written, a record read back keeps every field but takes its id from the bytes that follow it. */
  lemma PaperAsWrittenReadsPastRecord(e: PaperEntry, rest: seq<byte>)
    requires PaperValid(e) && |rest| >= 10
    ensures var d := DeserializePaperAsWritten(SerializePaper(e) + rest);
      && d.(id := e.id) == e
      && d.id == DecodeInt(rest[2..10])
  {
    PaperFieldsRoundTrip(e, rest);
    var b := SerializePaper(e) + rest;
    assert b[258..266] == rest[2..10];
  }

  /** A concrete record that does not survive the as-written round trip. */
  lemma PaperAsWrittenLosesId()
    ensures exists e: PaperEntry, rest: seq<byte> ::
      PaperValid(e) && |rest| >= 10 && DeserializePaperAsWritten(SerializePaper(e) + rest) != e
  {
    var z := seq(60, i => 0);
    var e := PaperEntry(z, z, z[..40], seq(10, i => 0), 0, 0, 1);
    var rest := seq(10, i => 0);
    PaperAsWrittenReadsPastRecord(e, rest);
    assert rest[2..10] == EncodeNat(0, 8);
    DecodeEncodeNat(0, 8);
  }

  /** The deserializer with `id` read from offset 248, where the serializer writes it. */
  function DeserializePaper(src: seq<byte>): (e: PaperEntry)
    requires |src| >= PAPER_SIZE
    ensures PaperValid(e)
  {
    PaperEntry(src[0..60], src[60..120], src[120..160], DecodeInts(src[160..240], 10),
               DecodeNat(src[240..244]), DecodeNat(src[244..248]), DecodeInt(src[248..256]))
  }

  lemma PaperFieldsRoundTrip(e: PaperEntry, rest: seq<byte>)
    requires PaperValid(e)
    ensures var b := SerializePaper(e) + rest;
      && b[0..60] == e.title && b[60..120] == e.keywords && b[120..160] == e.venue
      && DecodeInts(b[160..240], 10) == e.authors
      && DecodeNat(b[240..244]) == e.nCitations && DecodeNat(b[244..248]) == e.pubYear
      && DecodeInt(b[248..256]) == e.id
  {
    var b := SerializePaper(e) + rest;
    PaperLayout(e);
    assert b[160..240] == EncodeInts(e.authors);
    assert b[240..244] == EncodeNat(e.nCitations, 4);
    assert b[244..248] == EncodeNat(e.pubYear, 4);
    assert b[248..256] == EncodeInt(e.id, 8);
    IntsRoundTrip(e.authors);
    DecodeEncodeNat(e.nCitations, 4);
    DecodeEncodeNat(e.pubYear, 4);
    DecodeEncodeInt(e.id, 8);
  }

  lemma PaperRoundTrip(e: PaperEntry, rest: seq<byte>)
    requires PaperValid(e)
    ensures DeserializePaper(SerializePaper(e) + rest) == e
  {
    PaperFieldsRoundTrip(e, rest);
  }

  /** `paper::Entry::operator=`: compares the titles as C strings. */
  predicate PaperMatch(a: PaperEntry, b: PaperEntry)
  {
    CString(a.title) == CString(b.title)
  }

  /** Because the constructor leaves the venue in the title, constructed papers match on their venues. */
  lemma PaperMatchOfNew(t1: seq<byte>, k1: seq<byte>, v1: seq<byte>, c1: int, y1: int, a1: seq<int>, i1: int, b1: PaperEntry,
                        t2: seq<byte>, k2: seq<byte>, v2: seq<byte>, c2: int, y2: int, a2: seq<int>, i2: int, b2: PaperEntry)
    requires PaperValid(b1) && IsU32(c1) && IsU32(y1) && IsI64(i1) && |a1| >= 10 && AllI64(a1)
    requires PaperValid(b2) && IsU32(c2) && IsU32(y2) && IsI64(i2) && |a2| >= 10 && AllI64(a2)
    ensures PaperMatch(NewPaper(t1, k1, v1, c1, y1, a1, i1, b1), NewPaper(t2, k2, v2, c2, y2, a2, i2, b2))
        <==> Prefix(CString(v1), 39) == Prefix(CString(v2), 39)
  {
  }

  /**
   * The `paper::Entry` constructor as evidently intended: the title, the
   * keywords and the venue each go into their own buffer, cut to fit.
   */
  function NewPaperIntended(paperTitle: seq<byte>, paperKeywords: seq<byte>, paperVenue: seq<byte>,
                            citations: int, year: int, paperAuthors: seq<int>, setId: int,
                            blank: PaperEntry): (e: PaperEntry)
    requires PaperValid(blank) && IsU32(citations) && IsU32(year) && IsI64(setId)
    requires |paperAuthors| >= PAPER_AUTHORS && AllI64(paperAuthors)
    ensures PaperValid(e)
    ensures CString(e.title) == Prefix(CString(paperTitle), 59)
    ensures CString(e.keywords) == Prefix(CString(paperKeywords), 59)
    ensures CString(e.venue) == Prefix(CString(paperVenue), 39)
    ensures e.authors == paperAuthors[..PAPER_AUTHORS]
    ensures e.nCitations == citations && e.pubYear == year && e.id == setId
  {
    PaperEntry(CopyCut(blank.title, paperTitle, 60), CopyCut(blank.keywords, paperKeywords, 60),
               CopyCut(blank.venue, paperVenue, 40), paperAuthors[..PAPER_AUTHORS], citations, year, setId)
  }

  /** With the intended constructor, constructed papers match exactly when their titles agree in the first 59 bytes. */
  lemma PaperMatchOfNewIntended(t1: seq<byte>, k1: seq<byte>, v1: seq<byte>, c1: int, y1: int, a1: seq<int>, i1: int, b1: PaperEntry,
                                t2: seq<byte>, k2: seq<byte>, v2: seq<byte>, c2: int, y2: int, a2: seq<int>, i2: int, b2: PaperEntry)
    requires PaperValid(b1) && IsU32(c1) && IsU32(y1) && IsI64(i1) && |a1| >= 10 && AllI64(a1)
    requires PaperValid(b2) && IsU32(c2) && IsU32(y2) && IsI64(i2) && |a2| >= 10 && AllI64(a2)
    ensures PaperMatch(NewPaperIntended(t1, k1, v1, c1, y1, a1, i1, b1), NewPaperIntended(t2, k2, v2, c2, y2, a2, i2, b2))
        <==> Prefix(CString(t1), 59) == Prefix(CString(t2), 59)
  {
  }

  /**
   * As written, the titles "a" and "b" with the same empty venue give papers
   * that match, since both titles end up empty; the intended constructor
   * keeps them apart, and it keeps the title the caller gave.
   */
  lemma NewPaperLosesTitle(blank: PaperEntry, a: seq<int>)
    requires PaperValid(blank) && |a| >= PAPER_AUTHORS && AllI64(a)
    ensures CString(NewPaper([97], [], [], 0, 0, a, 0, blank).title) == []
    ensures CString(NewPaperIntended([97], [], [], 0, 0, a, 0, blank).title) == [97]
    ensures PaperMatch(NewPaper([97], [], [], 0, 0, a, 0, blank), NewPaper([98], [], [], 0, 0, a, 0, blank))
    ensures !PaperMatch(NewPaperIntended([97], [], [], 0, 0, a, 0, blank), NewPaperIntended([98], [], [], 0, 0, a, 0, blank))
  {
    assert CString([97]) == [97] by {
      assert CString([97]) == [97] + CString([97][1..]);
    }
    assert CString([98]) == [98] by {
      assert CString([98]) == [98] + CString([98][1..]);
    }
  }

  // ------------------------------------------------------------------ test

  const TEST_SIZE := 12

  datatype TestEntry = TestEntry(x: int, id: int)

  predicate TestValid(e: TestEntry)
  {
    IsI32(e.x) && IsI64(e.id)
  }

  function SerializeTest(e: TestEntry): (b: seq<byte>)
    requires TestValid(e)
    ensures |b| == TEST_SIZE
  {
    EncodeInt(e.x, 4) + EncodeInt(e.id, 8)
  }

  function DeserializeTest(src: seq<byte>): (e: TestEntry)
    requires |src| >= TEST_SIZE
    ensures TestValid(e)
  {
    TestEntry(DecodeInt(src[0..4]), DecodeInt(src[4..12]))
  }

  lemma TestRoundTrip(e: TestEntry, rest: seq<byte>)
    requires TestValid(e)
    ensures DeserializeTest(SerializeTest(e) + rest) == e
  {
    var b := SerializeTest(e) + rest;
    assert b[0..4] == EncodeInt(e.x, 4);
    assert b[4..12] == EncodeInt(e.id, 8);
    DecodeEncodeInt(e.x, 4);
    DecodeEncodeInt(e.id, 8);
  }

  lemma TestBytesRoundTrip(src: seq<byte>)
    requires |src| >= TEST_SIZE
    ensures SerializeTest(DeserializeTest(src)) == src[..TEST_SIZE]
  {
    EncodeDecodeInt(src[0..4]);
    EncodeDecodeInt(src[4..12]);
    assert src[..TEST_SIZE] == src[0..4] + src[4..12];
  }

  /** `test::Entry::operator=`: compares `x` only. */
  predicate TestMatch(a: TestEntry, b: TestEntry)
  {
    a.x == b.x
  }
}
