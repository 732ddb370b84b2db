/**
 * DBLP identifiers and the field rules of the article parser.
 *
 * A DBLP id is a hexadecimal string of up to 32 digits, held as a pair of
 * unsigned 64-bit halves: `first` is the value of the last 16 characters and
 * `second` the value of the characters before them.  Each half is read as
 * `std::from_chars(..., 16)` reads it: the longest run of leading hex digits,
 * failing when there is none or when the value needs more than 64 bits, and
 * ignoring whatever follows the run.
 */
module DblpParser {
  import opened Wrappers

  // ------------------------------------------------------------ hex digits

  predicate IsHexDigit(c: char)
  {
    ('0' <= c <= '9') || ('a' <= c <= 'f') || ('A' <= c <= 'F')
  }

  predicate AllHex(s: string)
  {
    forall i :: 0 <= i < |s| ==> IsHexDigit(s[i])
  }

  function DigitValue(c: char): (v: nat)
    requires IsHexDigit(c)
    ensures v < 16
  {
    if '0' <= c <= '9' then c as int - '0' as int
    else if 'a' <= c <= 'f' then c as int - 'a' as int + 10
    else c as int - 'A' as int + 10
  }

  /** The lower-case digit `std::hex` prints for `d`. */
  function DigitChar(d: nat): (c: char)
    requires d < 16
    ensures IsHexDigit(c) && DigitValue(c) == d
  {
    if d < 10 then ('0' as int + d) as char else ('a' as int + d - 10) as char
  }

  function Pow16(k: nat): (r: nat)
    ensures r >= 1
  {
    if k == 0 then 1 else 16 * Pow16(k - 1)
  }

  lemma {:induction false} Pow16Monotone(j: nat, k: nat)
    requires j <= k
    ensures Pow16(j) <= Pow16(k)
  {
    if j < k {
      Pow16Monotone(j, k - 1);
    }
  }

  /** One more than the largest `uint64_t`. */
  const U64_LIMIT: nat := Pow16(16)

  /** The value of a string of hex digits, most significant digit first. */
  function HexValue(s: string): (v: nat)
    requires AllHex(s)
    ensures v < Pow16(|s|)
  {
    if |s| == 0 then 0 else 16 * HexValue(s[..|s| - 1]) + DigitValue(s[|s| - 1])
  }

  /** The length of the run of hex digits at the front of `s`. */
  function HexRun(s: string): (k: nat)
    ensures k <= |s| && AllHex(s[..k])
    ensures k < |s| ==> !IsHexDigit(s[k])
  {
    if |s| == 0 || !IsHexDigit(s[0]) then 0
    else
      var k := 1 + HexRun(s[1..]);
      assert s[..k] == [s[0]] + s[1..][..k - 1];
      k
  }

  /** `std::from_chars(s, s + |s|, v, 16)` for `uint64_t v`: the value, or `None` on an error. */
  function FromChars(s: string): (r: Option<nat>)
    ensures r.Some? ==> r.value < U64_LIMIT
  {
    var k := HexRun(s);
    if k == 0 then None
    else
      var v := HexValue(s[..k]);
      if v < U64_LIMIT then Some(v) else None
  }

  lemma {:induction false} HexRunOfDigits(s: string, t: string)
    requires AllHex(s) && (|t| == 0 || !IsHexDigit(t[0]))
    ensures HexRun(s + t) == |s|
  {
    if |s| > 0 {
      assert (s + t)[1..] == s[1..] + t;
      HexRunOfDigits(s[1..], t);
    }
  }

  /** A run of hex digits followed by a non-digit reads as the run alone. */
  lemma FromCharsIgnoresTail(s: string, t: string)
    requires AllHex(s) && (|t| == 0 || !IsHexDigit(t[0]))
    ensures FromChars(s + t) == FromChars(s)
  {
    HexRunOfDigits(s, t);
    HexRunOfDigits(s, []);
    assert (s + t)[..|s|] == s;
    assert s + [] == s;
  }

  /** No leading hex digit (the empty string included) is an error. */
  lemma FromCharsNoDigit(s: string)
    requires |s| == 0 || !IsHexDigit(s[0])
    ensures FromChars(s) == None
  {
  }

  /** Up to 16 hex digits never overflow. */
  lemma FromCharsOfDigits(s: string)
    requires AllHex(s) && 1 <= |s| <= 16
    ensures FromChars(s) == Some(HexValue(s))
  {
    HexRunOfDigits(s, []);
    assert s + [] == s;
    Pow16Monotone(|s|, 16);
  }

  // ------------------------------------------------------------- the ids

  /** `dblp_id_t`, a `std::pair<uint64_t, uint64_t>`. */
  datatype DblpId = DblpId(first: nat, second: nat)

  predicate IdValid(id: DblpId)
  {
    id.first < U64_LIMIT && id.second < U64_LIMIT
  }

  /** The id a string denotes when `id_string_to_id` accepts it. */
  function ParsedId(s: string): (r: Option<DblpId>)
    ensures r.Some? ==> IdValid(r.value)
    ensures r.Some? && |s| <= 16 ==> r.value.second == 0
    ensures r.Some? && |s| > 16 ==> Some(r.value.first) == FromChars(s[|s| - 16..])
  {
    if |s| > 16 then
      match (FromChars(s[|s| - 16..]), FromChars(s[..|s| - 16]))
      case (Some(lo), Some(hi)) => Some(DblpId(lo, hi))
      case _ => None
    else
      match FromChars(s)
      case Some(v) => Some(DblpId(v, 0))
      case None => None
  }

  /**
   * What a failed `id_string_to_id` leaves in `id`: the low half of a long
   * string when that half was readable, and nothing new otherwise.
   */
  function FailedId(s: string, id: DblpId): (r: DblpId)
    ensures r.second == id.second
    ensures |s| > 16 && FromChars(s[|s| - 16..]).Some? ==> Some(r.first) == FromChars(s[|s| - 16..])
    ensures |s| <= 16 || FromChars(s[|s| - 16..]).None? ==> r == id
  {
    if |s| > 16 && FromChars(s[|s| - 16..]).Some? then id.(first := FromChars(s[|s| - 16..]).value) else id
  }

  /**
   * `id_string_to_id`: fills `id` and reports success.  On a long string the
   * low half is stored before the high half is parsed, so a failure in the
   * high half leaves `first` already overwritten.
   */
  method IdStringToId(idString: string, id: DblpId) returns (ok: bool, result: DblpId)
    ensures ok <==> ParsedId(idString).Some?
    ensures ok ==> result == ParsedId(idString).value
    ensures !ok ==> result == FailedId(idString, id)
  {
    result := id;
    var n := |idString|;
    if n > 16 {
      var offset := n - 16;
      var lo := FromChars(idString[offset..]);
      if lo.None? {
        return false, result;
      }
      result := result.(first := lo.value);
      var hi := FromChars(idString[..offset]);
      if hi.None? {
        return false, result;
      }
      result := result.(second := hi.value);
    } else {
      var v := FromChars(idString);
      if v.None? {
        return false, result;
      }
      result := result.(first := v.value, second := 0);
    }
    return true, result;
  }

  /** The lower-case hex digits `std::hex` prints for `n`, without leading zeros. */
  function Hex(n: nat): (s: string)
    ensures 1 <= |s| && AllHex(s)
  {
    if n < 16 then [DigitChar(n)] else Hex(n / 16) + [DigitChar(n % 16)]
  }

  lemma {:induction false} HexCorrect(n: nat, k: nat)
    requires n < Pow16(k)
    ensures HexValue(Hex(n)) == n
    ensures k >= 1 ==> |Hex(n)| <= k
  {
    if n >= 16 {
      var s := Hex(n);
      assert s[..|s| - 1] == Hex(n / 16);
      assert k >= 1;
      assert n / 16 < Pow16(k - 1);
      HexCorrect(n / 16, k - 1);
    }
  }

  /** `id_to_id_string` as written: `second` then `first`, neither padded. */
  function IdToIdString(id: DblpId): (s: string)
    ensures AllHex(s) && |s| >= 2
  {
    Hex(id.second) + Hex(id.first)
  }

  lemma HexRoundTrip(n: nat)
    requires n < U64_LIMIT
    ensures FromChars(Hex(n)) == Some(n)
    ensures |Hex(n)| <= 16
  {
    HexCorrect(n, 16);
    FromCharsOfDigits(Hex(n));
  }

  /** As written, the printed id of `(first = 1, second = 1)` reads back as `(0x11, 0)`. */
  lemma IdToIdStringLosesSecond()
    ensures IdToIdString(DblpId(1, 1)) == "11"
    ensures ParsedId(IdToIdString(DblpId(1, 1))) == Some(DblpId(17, 0))
  {
    assert Hex(1) == "1";
    FromCharsOfDigits("11");
  }

  /** As written, the printer round-trips ids whose upper half is zero. */
  lemma IdToIdStringRoundTripLow(first: nat)
    requires first < U64_LIMIT
    ensures ParsedId(IdToIdString(DblpId(first, 0))) == Some(DblpId(first, 0))
  {
    var h := Hex(first);
    HexRoundTrip(first);
    assert Hex(0) == "0";
    assert IdToIdString(DblpId(first, 0)) == "0" + h;
    if |h| == 16 {
      ZeroPrefixLong(h, first);
    } else {
      ZeroPrefixShort(h, first);
    }
  }

  /** Sixteen digits after a "0": the low half is the digits, the high half the "0". */
  lemma ZeroPrefixLong(h: string, n: nat)
    requires AllHex(h) && |h| == 16 && FromChars(h) == Some(n)
    ensures ParsedId("0" + h) == Some(DblpId(n, 0))
  {
    var s := "0" + h;
    assert s[|s| - 16..] == h;
    assert s[..|s| - 16] == "0";
    FromCharsOfDigits("0");
  }

  /** Fewer than sixteen digits after a "0": a leading zero does not change the value. */
  lemma ZeroPrefixShort(h: string, n: nat)
    requires AllHex(h) && 1 <= |h| < 16 && FromChars(h) == Some(n)
    ensures ParsedId("0" + h) == Some(DblpId(n, 0))
  {
    var s := "0" + h;
    FromCharsOfDigits(s);
    FromCharsOfDigits(h);
    assert Zeros(1) == "0";
    ZerosValue(1, h);
  }

  function Zeros(k: nat): (s: string)
    ensures |s| == k && AllHex(s)
  {
    seq(k, i => '0')
  }

  lemma {:induction false} ZerosValue(k: nat, s: string)
    requires AllHex(s)
    ensures HexValue(Zeros(k) + s) == HexValue(s)
  {
    if |s| == 0 {
      assert Zeros(k) + s == Zeros(k);
      ZerosAreZero(k);
    } else {
      var t := Zeros(k) + s;
      assert t[..|t| - 1] == Zeros(k) + s[..|s| - 1];
      ZerosValue(k, s[..|s| - 1]);
    }
  }

  lemma {:induction false} ZerosAreZero(k: nat)
    ensures HexValue(Zeros(k)) == 0
  {
    if k > 0 {
      assert Zeros(k)[..k - 1] == Zeros(k - 1);
      ZerosAreZero(k - 1);
    }
  }

  /** `first` printed as exactly 16 digits, zero-filled. */
  function Hex16(n: nat): (s: string)
    requires n < U64_LIMIT
    ensures |s| == 16 && AllHex(s) && HexValue(s) == n
  {
    HexCorrect(n, 16);
    ZerosValue(16 - |Hex(n)|, Hex(n));
    Zeros(16 - |Hex(n)|) + Hex(n)
  }

  /**
   * The printer with the evidently intended layout: when `second` is non-zero,
   * `first` fills exactly the last 16 digits, as the parser expects.
   */
  function IdToPaddedIdString(id: DblpId): (s: string)
    requires IdValid(id)
    ensures AllHex(s) && |s| >= 1
  {
    if id.second == 0 then Hex(id.first) else Hex(id.second) + Hex16(id.first)
  }

  lemma PaddedRoundTrip(id: DblpId)
    requires IdValid(id)
    ensures ParsedId(IdToPaddedIdString(id)) == Some(id)
  {
    var s := IdToPaddedIdString(id);
    if id.second == 0 {
      HexRoundTrip(id.first);
    } else {
      var h := Hex(id.second);
      assert s[|s| - 16..] == Hex16(id.first);
      assert s[..|s| - 16] == h;
      FromCharsOfDigits(Hex16(id.first));
      HexRoundTrip(id.second);
    }
  }

  // ------------------------------------------------------------- authors

  /** `author_t`; a default-constructed author has id `(0, 0)` and empty strings. */
  datatype Author = Author(id: DblpId, name: string, org: string)

  const DEFAULT_AUTHOR := Author(DblpId(0, 0), "", "")

  /** The three fields of an author's JSON object that the parser looks up. */
  datatype AuthorFields = AuthorFields(name: Option<string>, org: Option<string>, id: Option<string>)

  /** The author `parse_author` accepts, built from a default author. */
  function ParsedAuthor(f: AuthorFields): (r: Option<Author>)
    ensures r.Some? <==> f.name.Some? && f.org.Some? && f.id.Some? && ParsedId(f.id.value).Some?
    ensures r.Some? ==> r.value.name == f.name.value && r.value.org == f.org.value
                        && Some(r.value.id) == ParsedId(f.id.value)
  {
    if f.name.Some? && f.org.Some? && f.id.Some? && ParsedId(f.id.value).Some? then
      Some(Author(ParsedId(f.id.value).value, f.name.value, f.org.value))
    else None
  }

  /**
   * `parse_author`: stores every field it finds, and reports success only when
   * name, organisation and a readable id are all present.
   */
  method ParseAuthor(f: AuthorFields, author: Author) returns (ok: bool, result: Author)
    ensures ok <==> ParsedAuthor(f).Some?
    ensures result.name == (if f.name.Some? then f.name.value else author.name)
    ensures result.org == (if f.org.Some? then f.org.value else author.org)
    ensures f.id.None? ==> result.id == author.id
    ensures f.id.Some? && ParsedId(f.id.value).Some? ==> Some(result.id) == ParsedId(f.id.value)
    ensures f.id.Some? && ParsedId(f.id.value).None? ==> result.id == FailedId(f.id.value, author.id)
  {
    result := author;
    var hasName, hasOrg, hasId := false, false, false;
    if f.name.Some? {
      result := result.(name := f.name.value);
      hasName := true;
    }
    if f.org.Some? {
      result := result.(org := f.org.value);
      hasOrg := true;
    }
    if f.id.Some? {
      var parsed, newId := IdStringToId(f.id.value, result.id);
      result := result.(id := newId);
      if parsed {
        hasId := true;
      }
    }
    ok := hasName && hasOrg && hasId;
  }

  // ------------------------------------------------------------ articles

  /** The fields of an article's JSON object that the id and author rules read. */
  datatype ArticleFields = ArticleFields(id: Option<string>, title: Option<string>,
                                         authors: Option<seq<AuthorFields>>,
                                         references: Option<seq<string>>)

  /** The parts of `article_t` those rules fill. */
  datatype Article = Article(id: DblpId, title: string, authors: seq<Author>, references: seq<DblpId>)

  /** The accepted authors, in order. */
  function KeptAuthors(fs: seq<AuthorFields>): (r: seq<Author>)
    ensures |r| <= |fs|
    ensures forall a :: a in r ==> exists f :: f in fs && ParsedAuthor(f) == Some(a)
  {
    if |fs| == 0 then []
    else
      var last := fs[|fs| - 1];
      KeptAuthors(fs[..|fs| - 1]) + (if ParsedAuthor(last).Some? then [ParsedAuthor(last).value] else [])
  }

  /** The readable reference ids, in order. */
  function KeptReferences(rs: seq<string>): (r: seq<DblpId>)
    ensures |r| <= |rs|
    ensures forall id :: id in r ==> exists s :: s in rs && ParsedId(s) == Some(id)
  {
    if |rs| == 0 then []
    else
      var last := rs[|rs| - 1];
      KeptReferences(rs[..|rs| - 1]) + (if ParsedId(last).Some? then [ParsedId(last).value] else [])
  }

  /**
   * The id, title, author and reference rules of `parse_json_string_for_article`.
   * `json` is `None` when the text is not well-formed JSON.  The result is
   * decided by the top-level id alone; authors that `parse_author` rejects and
   * references that do not parse are skipped.
   */
  method ParseArticle(json: Option<ArticleFields>, article: Article) returns (ok: bool, result: Article)
    ensures ok <==> json.Some? && json.value.id.Some? && ParsedId(json.value.id.value).Some?
    ensures ok ==> Some(result.id) == ParsedId(json.value.id.value)
    ensures json.None? ==> result == article
    ensures json.Some? && json.value.id.None? ==> result.id == article.id
    ensures json.Some? && json.value.id.Some? && ParsedId(json.value.id.value).None? ==>
              result.id == FailedId(json.value.id.value, article.id)
    ensures json.Some? ==>
      && result.title == (if json.value.title.Some? then json.value.title.value else article.title)
      && result.authors == article.authors
                           + (if json.value.authors.Some? then KeptAuthors(json.value.authors.value) else [])
      && result.references == article.references
                              + (if json.value.references.Some? then KeptReferences(json.value.references.value) else [])
  {
    result := article;
    if json.None? {
      return false, result;
    }
    var fields := json.value;
    ok := false;
    if fields.id.Some? {
      var parsed, newId := IdStringToId(fields.id.value, result.id);
      result := result.(id := newId);
      if parsed {
        ok := true;
      }
    }
    if fields.title.Some? {
      result := result.(title := fields.title.value);
    }
    if fields.authors.Some? {
      var authors := AppendKeptAuthors(result.authors, fields.authors.value);
      result := result.(authors := authors);
    }
    if fields.references.Some? {
      var references := AppendKeptReferences(result.references, fields.references.value);
      result := result.(references := references);
    }
  }

  /** The loop over the `authors` array: each author is parsed into a fresh `author_t`. */
  method AppendKeptAuthors(authors: seq<Author>, fs: seq<AuthorFields>) returns (result: seq<Author>)
    ensures result == authors + KeptAuthors(fs)
  {
    result := authors;
    var i := 0;
    while i < |fs|
      invariant 0 <= i <= |fs|
      invariant result == authors + KeptAuthors(fs[..i])
    {
      var accepted, author := ParseAuthor(fs[i], DEFAULT_AUTHOR);
      KeptAuthorsStep(authors, fs, i);
      if accepted {
        assert author == ParsedAuthor(fs[i]).value;
        result := result + [author];
      }
      i := i + 1;
    }
    assert fs[..|fs|] == fs;
  }

  /** One more field set keeps one more author exactly when it is readable. */
  lemma KeptAuthorsStep(authors: seq<Author>, fs: seq<AuthorFields>, i: nat)
    requires i < |fs|
    ensures authors + KeptAuthors(fs[..i + 1]) ==
            (authors + KeptAuthors(fs[..i])) + (if ParsedAuthor(fs[i]).Some? then [ParsedAuthor(fs[i]).value] else [])
  {
    assert fs[..i + 1][..i] == fs[..i];
  }

  /** One more id string keeps one more reference exactly when it is readable. */
  lemma KeptReferencesStep(references: seq<DblpId>, rs: seq<string>, i: nat)
    requires i < |rs|
    ensures references + KeptReferences(rs[..i + 1]) ==
            (references + KeptReferences(rs[..i])) + (if ParsedId(rs[i]).Some? then [ParsedId(rs[i]).value] else [])
  {
    assert rs[..i + 1][..i] == rs[..i];
  }

  /** The loop over the `references` array: each id is parsed into a fresh `dblp_id_t`. */
  method AppendKeptReferences(references: seq<DblpId>, rs: seq<string>) returns (result: seq<DblpId>)
    ensures result == references + KeptReferences(rs)
  {
    result := references;
    var i := 0;
    while i < |rs|
      invariant 0 <= i <= |rs|
      invariant result == references + KeptReferences(rs[..i])
    {
      var accepted, id := IdStringToId(rs[i], DblpId(0, 0));
      KeptReferencesStep(references, rs, i);
      if accepted {
        result := result + [id];
      }
      i := i + 1;
    }
    assert rs[..|rs|] == rs;
  }
}
