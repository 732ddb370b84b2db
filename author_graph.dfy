/**
 * The co-author graph: `adj_list` maps an author id to the weighted edges
 * leaving it, as a map from destination id to an accumulated integer weight.
 * Edges come from authors sharing a paper and from a paper's authors to the
 * authors of the papers it references; the graph is stored in a binary file
 * of fixed-width records.
 */
module AuthorGraph {
  import opened Bytes
  import opened Wrappers

  type AdjList = map<int, map<int, int>>

  /** One directed edge `(source, destination)`, as the loops add them. */
  type Pair = (int, int)

  /** The weight of `s -> d`; an absent entry reads as the zero `operator[]` creates. */
  function Weight(g: AdjList, s: int, d: int): int
  {
    if s in g && d in g[s] then g[s][d] else 0
  }

  function Row(g: AdjList, s: int): map<int, int>
  {
    if s in g then g[s] else map[]
  }

  /** The list after `adj_list[source][dest] += weight`. */
  function WithWeight(g: AdjList, w: int, s: int, d: int): AdjList
  {
    g[s := Row(g, s)[d := Weight(g, s, d) + w]]
  }

  /** `addEdge`: creates the entries it needs, adds `w` to one weight and changes nothing else. */
  lemma WithWeightEffect(g: AdjList, w: int, s: int, d: int)
    ensures var r := WithWeight(g, w, s, d);
      && r.Keys == g.Keys + {s}
      && r[s].Keys == Row(g, s).Keys + {d}
      && Weight(r, s, d) == Weight(g, s, d) + w
      && (forall s1, d1 :: (s1, d1) != (s, d) ==> Weight(r, s1, d1) == Weight(g, s1, d1))
      && (forall k :: k in g && k != s ==> r[k] == g[k])
  {
  }

  /** Every `addEdge(w, p.0, p.1)` of `pairs`, in order. */
  function AddAll(g: AdjList, w: int, pairs: seq<Pair>): AdjList
  {
    if |pairs| == 0 then g
    else
      var last := pairs[|pairs| - 1];
      WithWeight(AddAll(g, w, pairs[..|pairs| - 1]), w, last.0, last.1)
  }

  /** How often `p` occurs in `pairs`. */
  function Count(pairs: seq<Pair>, p: Pair): nat
  {
    multiset(pairs)[p]
  }

  /**
   * Adding weights commutes: after a batch of `addEdge` calls each weight has
   * grown by `w` times the number of calls for that pair.
   */
  lemma {:induction false} AddAllWeight(g: AdjList, w: int, pairs: seq<Pair>, s: int, d: int)
    ensures Weight(AddAll(g, w, pairs), s, d) == Weight(g, s, d) + w * Count(pairs, (s, d))
  {
    if |pairs| > 0 {
      var init := pairs[..|pairs| - 1];
      var last := pairs[|pairs| - 1];
      AddAllWeight(g, w, init, s, d);
      assert pairs == init + [last];
      assert multiset(pairs) == multiset(init) + multiset{last};
      var c := Count(init, (s, d));
      WithWeightAt(AddAll(g, w, init), w, last.0, last.1, s, d);
      if last == (s, d) {
        assert Count(pairs, (s, d)) == c + 1;
        assert w * (c + 1) == w * c + w;
      } else {
        assert Count(pairs, (s, d)) == c;
      }
    }
  }

  lemma WithWeightAt(g: AdjList, w: int, a: int, b: int, s: int, d: int)
    ensures Weight(WithWeight(g, w, a, b), s, d) == Weight(g, s, d) + (if (a, b) == (s, d) then w else 0)
  {
  }

  /** The keys after a batch: the old keys and the sources of the batch. */
  lemma {:induction false} AddAllKeys(g: AdjList, w: int, pairs: seq<Pair>)
    ensures forall k :: k in AddAll(g, w, pairs) <==> k in g || exists p :: p in pairs && p.0 == k
  {
    if |pairs| > 0 {
      var init := pairs[..|pairs| - 1];
      var last := pairs[|pairs| - 1];
      AddAllKeys(g, w, init);
      WithWeightEffect(AddAll(g, w, init), w, last.0, last.1);
      forall k
        ensures k in AddAll(g, w, pairs) <==> k in g || exists p :: p in pairs && p.0 == k
      {
        if exists p :: p in pairs && p.0 == k {
          var p :| p in pairs && p.0 == k;
          if p != last {
            assert p in init;
          }
        }
        if exists p :: p in init && p.0 == k {
          var p :| p in init && p.0 == k;
          assert p in pairs;
        }
      }
    }
  }

  /** The entries after a batch: the old entries and the pairs of the batch. */
  lemma {:induction false} AddAllEntries(g: AdjList, w: int, pairs: seq<Pair>, s: int, d: int)
    ensures var r := AddAll(g, w, pairs);
      s in r && d in r[s] <==> (s in g && d in g[s]) || (s, d) in pairs
  {
    if |pairs| > 0 {
      var init := pairs[..|pairs| - 1];
      var last := pairs[|pairs| - 1];
      AddAllEntries(g, w, init, s, d);
      assert pairs == init + [last];
      WithWeightEffect(AddAll(g, w, init), w, last.0, last.1);
    }
  }

  lemma {:induction false} AddAllAppend(g: AdjList, w: int, a: seq<Pair>, b: seq<Pair>)
    ensures AddAll(g, w, a + b) == AddAll(AddAll(g, w, a), w, b)
  {
    if |b| == 0 {
      assert a + b == a;
    } else {
      var last := b[|b| - 1];
      assert (a + b)[..|a + b| - 1] == a + b[..|b| - 1];
      assert (a + b)[|a + b| - 1] == last;
      AddAllAppend(g, w, a, b[..|b| - 1]);
      assert AddAll(g, w, a + b) == WithWeight(AddAll(g, w, a + b[..|b| - 1]), w, last.0, last.1);
    }
  }

  function Min(a: nat, b: nat): nat
  {
    if a <= b then a else b
  }

  // ---------------------------------------------------------------------
  // Authors of the same paper

  /** Adding a pair both ways is adding one direction, then the other. */
  lemma AddBoth(g: AdjList, w: int, a: int, b: int)
    ensures AddAll(g, w, [(a, b), (b, a)]) == WithWeight(WithWeight(g, w, a, b), w, b, a)
  {
    var two: seq<Pair> := [(a, b), (b, a)];
    var one := two[..1];
    assert one[..0] == [];
    assert AddAll(g, w, one) == WithWeight(g, w, a, b);
  }

  /** Row `i` of the same-paper loops, for `j` from `i + 1` below `m`: both directions of each pair. */
  function RowPairs(authors: seq<int>, i: nat, m: nat): seq<Pair>
    requires i < m <= |authors|
    decreases m
  {
    if m <= i + 1 then []
    else RowPairs(authors, i, m - 1) + [(authors[i], authors[m - 1]), (authors[m - 1], authors[i])]
  }

  /** The pairs `add_same_paper_authors` adds, in loop order, for rows `i < rows` of the first `m` authors. */
  function SamePaperPairs(authors: seq<int>, rows: nat, m: nat): seq<Pair>
    requires rows <= m <= |authors|
  {
    if rows == 0 then [] else SamePaperPairs(authors, rows - 1, m) + RowPairs(authors, rows - 1, m)
  }

  lemma {:induction false} RowPairsMembers(authors: seq<int>, i: nat, m: nat)
    requires i < m <= |authors|
    ensures forall p :: p in RowPairs(authors, i, m) <==>
      exists j :: i < j < m && (p == (authors[i], authors[j]) || p == (authors[j], authors[i]))
    decreases m
  {
    if m > i + 1 {
      RowPairsMembers(authors, i, m - 1);
    }
  }

  /**
   * The same-paper loops link every two distinct positions among the first
   * `m` authors, in both directions, and nothing else.
   */
  lemma {:induction false} SamePaperMembers(authors: seq<int>, rows: nat, m: nat)
    requires rows <= m <= |authors|
    ensures forall p :: p in SamePaperPairs(authors, rows, m) <==>
      exists i, j :: 0 <= i < rows && i < j < m && (p == (authors[i], authors[j]) || p == (authors[j], authors[i]))
  {
    if rows > 0 {
      SamePaperMembers(authors, rows - 1, m);
      RowPairsMembers(authors, rows - 1, m);
    }
  }

  // ---------------------------------------------------------------------
  // Referenced authors

  /** How many leading entries of `referenced` the inner loop uses: up to `limit`, stopping at the first 0. */
  function ReferencedCount(referenced: seq<int>, limit: nat): (n: nat)
    requires limit <= |referenced| || 0 in referenced
    ensures n <= limit && n <= |referenced|
    ensures forall k :: 0 <= k < n ==> referenced[k] != 0
    ensures n < limit ==> referenced[n] == 0
  {
    CountFrom(referenced, limit, 0)
  }

  function CountFrom(referenced: seq<int>, limit: nat, j: nat): (n: nat)
    requires j <= limit && j <= |referenced| && forall k :: 0 <= k < j ==> referenced[k] != 0
    requires limit <= |referenced| || 0 in referenced[j..]
    ensures j <= n <= limit && n <= |referenced|
    ensures forall k :: 0 <= k < n ==> referenced[k] != 0
    ensures n < limit ==> referenced[n] == 0
    decreases limit - j
  {
    if j == limit || referenced[j] == 0 then j
    else
      assert 0 in referenced[j + 1..] || limit <= |referenced| by {
        if limit > |referenced| {
          assert referenced[j..] == [referenced[j]] + referenced[j + 1..];
        }
      }
      CountFrom(referenced, limit, j + 1)
  }

  /** One row of the referenced-author loops: author `a` to each of the first `n` referenced authors. */
  function RefRow(a: int, referenced: seq<int>, n: nat): seq<Pair>
    requires n <= |referenced|
  {
    if n == 0 then [] else RefRow(a, referenced, n - 1) + [(a, referenced[n - 1])]
  }

  /** The pairs `add_referenced_authors` adds, in loop order, for rows `i < rows`. */
  function RefPairs(authors: seq<int>, rows: nat, referenced: seq<int>, n: nat): seq<Pair>
    requires rows <= |authors| && n <= |referenced|
  {
    if rows == 0 then [] else RefPairs(authors, rows - 1, referenced, n) + RefRow(authors[rows - 1], referenced, n)
  }

  /** Adding one more row of referenced-author pairs extends `RefPairs` by that row. */
  lemma RefPairsStep(g0: AdjList, w: int, authors: seq<int>, i: nat, referenced: seq<int>, n: nat)
    requires i < |authors| && n <= |referenced|
    ensures AddAll(AddAll(g0, w, RefPairs(authors, i, referenced, n)), w, RefRow(authors[i], referenced, n))
              == AddAll(g0, w, RefPairs(authors, i + 1, referenced, n))
  {
    AddAllAppend(g0, w, RefPairs(authors, i, referenced, n), RefRow(authors[i], referenced, n));
  }

  lemma {:induction false} RefRowMembers(a: int, referenced: seq<int>, n: nat)
    requires n <= |referenced|
    ensures forall p :: p in RefRow(a, referenced, n) <==> exists k :: 0 <= k < n && p == (a, referenced[k])
  {
    if n > 0 {
      RefRowMembers(a, referenced, n - 1);
    }
  }

  /** Every one of the first `rows` authors is linked to every one of the first `n` referenced authors, and nothing else. */
  lemma {:induction false} RefPairsMembers(authors: seq<int>, rows: nat, referenced: seq<int>, n: nat)
    requires rows <= |authors| && n <= |referenced|
    ensures forall p :: p in RefPairs(authors, rows, referenced, n) <==>
      exists i, k :: 0 <= i < rows && 0 <= k < n && p == (authors[i], referenced[k])
  {
    if rows > 0 {
      RefPairsMembers(authors, rows - 1, referenced, n);
      RefRowMembers(authors[rows - 1], referenced, n);
    }
  }

  // ---------------------------------------------------------------------
  // The constructor from parsed node data

  /** `author_parse_wrapper`: a paper, the papers it cites and its authors. */
  datatype PaperRecord = PaperRecord(source: int, cited: seq<int>, authors: seq<int>)

  /** `static_author_mapping` after its loop over the records, in order. */
  function AuthorMapping(nodeData: seq<PaperRecord>): map<int, seq<int>>
  {
    if |nodeData| == 0 then map[]
    else
      var last := nodeData[|nodeData| - 1];
      AuthorMapping(nodeData[..|nodeData| - 1])[last.source := last.authors]
  }

  /** No later record has the same paper id as record `i`. */
  ghost predicate LastFor(nodeData: seq<PaperRecord>, i: int)
  {
    0 <= i < |nodeData| && forall k :: i < k < |nodeData| ==> nodeData[k].source != nodeData[i].source
  }

  /** The mapping holds exactly the papers that have a record. */
  lemma {:induction false} AuthorMappingKeys(nodeData: seq<PaperRecord>)
    ensures forall x :: x in AuthorMapping(nodeData) <==> exists i :: 0 <= i < |nodeData| && nodeData[i].source == x
  {
    if |nodeData| > 0 {
      var init := nodeData[..|nodeData| - 1];
      AuthorMappingKeys(init);
      forall x | x in AuthorMapping(nodeData)
        ensures exists i :: 0 <= i < |nodeData| && nodeData[i].source == x
      {
        if x != nodeData[|nodeData| - 1].source {
          assert x in AuthorMapping(init);
          var i :| 0 <= i < |init| && init[i].source == x;
          assert nodeData[i] == init[i];
        }
      }
      forall i | 0 <= i < |nodeData| - 1
        ensures nodeData[i].source in AuthorMapping(nodeData)
      {
        assert init[i] == nodeData[i];
      }
    }
  }

  /** Each paper maps to the authors of its last record. */
  lemma {:induction false} AuthorMappingLastWins(nodeData: seq<PaperRecord>, i: int)
    requires LastFor(nodeData, i)
    ensures nodeData[i].source in AuthorMapping(nodeData)
    ensures AuthorMapping(nodeData)[nodeData[i].source] == nodeData[i].authors
  {
    var init := nodeData[..|nodeData| - 1];
    if i < |init| {
      assert init[i] == nodeData[i];
      assert LastFor(init, i) by {
        forall k | i < k < |init|
          ensures init[k].source != init[i].source
        {
          assert init[k] == nodeData[k];
        }
      }
      AuthorMappingLastWins(init, i);
    }
  }

  /** The fixed array of eight ids filled from the first authors of a referenced paper, zero elsewhere. */
  function RefArray(authors: seq<int>): (arr: seq<int>)
    ensures |arr| == 8
    ensures forall k :: 0 <= k < 8 ==> arr[k] == (if k < |authors| then authors[k] else 0)
  {
    if |authors| >= 8 then authors[..8] else authors + seq(8 - |authors|, k => 0)
  }

  /** A reference to a paper without a record reads an empty author list, so the inner loop stops at once. */
  lemma UnknownReferenceAddsNothing(paperAuthors: seq<int>, rows: nat, limit: nat)
    requires rows <= |paperAuthors|
    ensures 0 in RefArray([])
    ensures ReferencedCount(RefArray([]), limit) == 0
    ensures RefPairs(paperAuthors, rows, RefArray([]), 0) == []
  {
    assert RefArray([])[0] == 0;
    if rows > 0 {
      UnknownReferenceAddsNothing(paperAuthors, rows - 1, limit);
    }
  }

  /** The parameters the source takes from macros: the edge limit and the two converted weights. */
  datatype Weights = Weights(samePaper: int, referenced: int, limit: nat)

  function Lookup(m: map<int, seq<int>>, k: int): seq<int>
  {
    if k in m then m[k] else []
  }

  /** The references of one paper, `cited[..c]`, each linking the paper's authors to the referenced authors. */
  function AddReferences(g: AdjList, authors: seq<int>, cited: seq<int>, mapping: map<int, seq<int>>,
                         ws: Weights): AdjList
    requires ws.limit <= 8
  {
    if |cited| == 0 then g
    else
      var g0 := AddReferences(g, authors, cited[..|cited| - 1], mapping, ws);
      var arr := RefArray(Lookup(mapping, cited[|cited| - 1]));
      AddAll(g0, ws.referenced,
             RefPairs(authors, Min(|authors|, ws.limit), arr, ReferencedCount(arr, ws.limit)))
  }

  /** The graph the `node_data` constructor builds from the records `nodeData[..n]`. */
  function BuildFrom(nodeData: seq<PaperRecord>, n: nat, mapping: map<int, seq<int>>, ws: Weights): AdjList
    requires n <= |nodeData| && ws.limit <= 8
  {
    if n == 0 then map[]
    else
      var paper := nodeData[n - 1];
      var m := Min(|paper.authors|, ws.limit);
      var g0 := AddAll(BuildFrom(nodeData, n - 1, mapping, ws), ws.samePaper, SamePaperPairs(paper.authors, m, m));
      AddReferences(g0, paper.authors, paper.cited, mapping, ws)
  }

  // ---------------------------------------------------------------------
  // The binary file: a 4-byte node count, then per node an 8-byte id and a
  // 4-byte edge count followed by an 8-byte destination and a 4-byte weight
  // per edge, all little-endian.

  /** The edges of one node in the order they are written: `(destination, weight)`. */
  type EdgeListing = seq<(int, int)>

  /** The nodes in the order they are written. */
  type Listing = seq<(int, EdgeListing)>

  ghost predicate EdgesFit(es: EdgeListing)
  {
    IsU32(|es|) && forall k :: 0 <= k < |es| ==> IsI64(es[k].0) && IsI32(es[k].1)
  }

  ghost predicate ListingFits(nodes: Listing)
  {
    forall i :: 0 <= i < |nodes| ==> IsI64(nodes[i].0) && EdgesFit(nodes[i].1)
  }

  function EncodeEdges(es: EdgeListing): (r: seq<byte>)
    requires forall k :: 0 <= k < |es| ==> IsI64(es[k].0) && IsI32(es[k].1)
    ensures |r| == 12 * |es|
  {
    if |es| == 0 then []
    else
      assert IsI64(es[0].0) && IsI32(es[0].1);
      EncodeInt(es[0].0, 8) + EncodeInt(es[0].1, 4) + EncodeEdges(es[1..])
  }

  function EncodeNode(id: int, es: EdgeListing): (r: seq<byte>)
    requires IsI64(id) && EdgesFit(es)
  {
    EncodeInt(id, 8) + EncodeNat(|es|, 4) + EncodeEdges(es)
  }

  function EncodeNodes(nodes: Listing): seq<byte>
    requires ListingFits(nodes)
  {
    if |nodes| == 0 then [] else EncodeNode(nodes[0].0, nodes[0].1) + EncodeNodes(nodes[1..])
  }

  /** The file `export_to_file` writes for the nodes taken in the order `nodes`. */
  function Encode(nodes: Listing): seq<byte>
    requires ListingFits(nodes)
  {
    EncodeNat(|nodes|, 4) + EncodeNodes(nodes)
  }

  /** One pass of the file constructor's outer loop: the node record at the head of the unread bytes `rest`. */
  method ReadNode(rest: seq<byte>, g: AdjList) returns (restOut: seq<byte>, h: AdjList)
    requires 12 <= |rest| && RecordEnd(rest) <= |rest|
    ensures restOut == rest[RecordEnd(rest)..] && h == WithRecord(rest, g)
  {
    var id := DecodeInt(rest[..8]);
    var numEdges := DecodeNat(rest[8..12]);
    if numEdges == 0 {
      return rest[12..], g[id := Row(g, id)];
    }
    var row := ReadEdges(rest[12..12 + 12 * numEdges], numEdges, Row(g, id));
    restOut, h := rest[12 + 12 * numEdges..], g[id := row];
  }

  /** The inner loop of the file constructor: `adj_list[id][edge_id] = weight` for each of `k` records. */
  function DecodeEdges(b: seq<byte>, k: nat, row: map<int, int>): map<int, int>
    requires |b| >= 12 * k
  {
    if k == 0 then row else DecodeEdges(b[12..], k - 1, row[DecodeInt(b[..8]) := DecodeInt(b[8..12])])
  }

  /** The outer loop of the file constructor over `n` node records; `None` when the bytes run out. */
  function DecodeNodes(b: seq<byte>, n: nat, acc: AdjList): Option<AdjList>
  {
    if n == 0 then Some(acc)
    else if |b| < 12 || RecordEnd(b) > |b| then None
    else DecodeNodes(b[RecordEnd(b)..], n - 1, WithRecord(b, acc))
  }

  /** The graph the file constructor reads from `b`. */
  function Decode(b: seq<byte>): Option<AdjList>
  {
    if |b| < 4 then None else DecodeNodes(b[4..], DecodeNat(b[..4]), map[])
  }

  function EdgeMap(es: EdgeListing): map<int, int>
  {
    if |es| == 0 then map[] else EdgeMap(es[1..])[es[0].0 := es[0].1]
  }

  lemma {:induction false} EdgeMapKeys(es: EdgeListing, x: int)
    requires forall k :: 0 <= k < |es| ==> es[k].0 != x
    ensures x !in EdgeMap(es)
  {
    if |es| > 0 {
      EdgeMapKeys(es[1..], x);
    }
  }

  lemma UpdateUnion<K, V>(row: map<K, V>, m: map<K, V>, d: K, w: V)
    requires d !in m
    ensures row[d := w] + m == row + m[d := w]
  {
  }

  function NodeMap(nodes: Listing): (m: AdjList)
  {
    if |nodes| == 0 then map[] else NodeMap(nodes[1..])[nodes[0].0 := EdgeMap(nodes[0].1)]
  }

  ghost predicate DistinctDestinations(es: EdgeListing)
  {
    forall i, j :: 0 <= i < j < |es| ==> es[i].0 != es[j].0
  }

  ghost predicate DistinctIds(nodes: Listing)
  {
    forall i, j :: 0 <= i < j < |nodes| ==> nodes[i].0 != nodes[j].0
  }

  /** `nodes` lists each key of `g` exactly once, each with its edges listed exactly once. */
  ghost predicate Lists(nodes: Listing, g: AdjList)
  {
    && DistinctIds(nodes)
    && (forall i :: 0 <= i < |nodes| ==> DistinctDestinations(nodes[i].1))
    && NodeMap(nodes) == g
  }

  lemma {:induction false} EdgesRoundTrip(es: EdgeListing, row: map<int, int>)
    requires forall k :: 0 <= k < |es| ==> IsI64(es[k].0) && IsI32(es[k].1)
    requires DistinctDestinations(es)
    ensures DecodeEdges(EncodeEdges(es), |es|, row) == row + EdgeMap(es)
  {
    if |es| > 0 {
      var b := EncodeEdges(es);
      var d, w := es[0].0, es[0].1;
      assert b[..8] == EncodeInt(d, 8) && b[8..12] == EncodeInt(w, 4) && b[12..] == EncodeEdges(es[1..]);
      DecodeEncodeInt(d, 8);
      DecodeEncodeInt(w, 4);
      assert DecodeEdges(b, |es|, row) == DecodeEdges(EncodeEdges(es[1..]), |es| - 1, row[d := w]);
      assert DistinctDestinations(es[1..]);
      EdgesRoundTrip(es[1..], row[d := w]);
      EdgeMapKeys(es[1..], d);
      UpdateUnion(row, EdgeMap(es[1..]), d, w);
    }
  }

  lemma {:induction false} NodeMapFresh(nodes: Listing, x: int)
    requires forall i :: 0 <= i < |nodes| ==> nodes[i].0 != x
    ensures x !in NodeMap(nodes)
  {
    if |nodes| > 0 {
      NodeMapFresh(nodes[1..], x);
    }
  }

  /** The fixed header of one node record reads back as its id and edge count. */
  lemma NodeHeader(id: int, es: EdgeListing, rest: seq<byte>)
    requires IsI64(id) && EdgesFit(es)
    ensures var b := EncodeNode(id, es) + rest;
      && |b| >= 12 && DecodeInt(b[..8]) == id && DecodeNat(b[8..12]) == |es|
      && b[12..] == EncodeEdges(es) + rest
  {
    var x, n, t := EncodeInt(id, 8), EncodeNat(|es|, 4), EncodeEdges(es) + rest;
    var b := EncodeNode(id, es) + rest;
    assert b == x + n + t;
    Slices3(x, n, t);
    DecodeEncodeInt(id, 8);
    DecodeEncodeNat(|es|, 4);
  }

  /** The three parts of a concatenation, sliced back out. */
  lemma Slices3(x: seq<byte>, n: seq<byte>, t: seq<byte>)
    ensures var b := x + n + t;
      && b[..|x|] == x && b[|x|..|x| + |n|] == n && b[|x| + |n|..] == t
  {
  }

  /** Decoding one node record adds its edge map under its id. */
  lemma NodeStep(id: int, es: EdgeListing, rest: seq<byte>, n: nat, acc: AdjList)
    requires IsI64(id) && EdgesFit(es) && DistinctDestinations(es) && id !in acc
    ensures DecodeNodes(EncodeNode(id, es) + rest, n + 1, acc) == DecodeNodes(rest, n, acc[id := EdgeMap(es)])
  {
    var b := EncodeNode(id, es) + rest;
    NodeHeader(id, es, rest);
    assert Row(acc, id) == map[];
    if |es| > 0 {
      var k := 12 * |es|;
      assert b[12..12 + k] == EncodeEdges(es) && b[12 + k..] == rest;
      EdgesRoundTrip(es, map[]);
      assert map[] + EdgeMap(es) == EdgeMap(es);
    }
  }

  /** Decoding the node records of `nodes` adds them to what was read before, empty edge lists included. */
  lemma {:induction false} NodesRoundTrip(nodes: Listing, acc: AdjList)
    requires ListingFits(nodes) && DistinctIds(nodes)
    requires forall i :: 0 <= i < |nodes| ==> DistinctDestinations(nodes[i].1) && nodes[i].0 !in acc
    ensures DecodeNodes(EncodeNodes(nodes), |nodes|, acc) == Some(acc + NodeMap(nodes))
  {
    if |nodes| > 0 {
      var id, es := nodes[0].0, nodes[0].1;
      var rest := EncodeNodes(nodes[1..]);
      assert EncodeNodes(nodes) == EncodeNode(id, es) + rest;
      assert NodeMap(nodes) == NodeMap(nodes[1..])[id := EdgeMap(es)];
      NodeStep(id, es, rest, |nodes| - 1, acc);
      var acc1 := acc[id := EdgeMap(es)];
      assert DistinctIds(nodes[1..]);
      forall i | 0 <= i < |nodes| - 1
        ensures DistinctDestinations(nodes[1..][i].1) && nodes[1..][i].0 !in acc1
      {
        assert nodes[1..][i] == nodes[i + 1];
      }
      NodesRoundTrip(nodes[1..], acc1);
      NodeMapFresh(nodes[1..], id);
      UpdateUnion(acc, NodeMap(nodes[1..]), id, EdgeMap(es));
    } else {
      assert acc + map[] == acc;
    }
  }

  /** Reading back a written file gives back the graph, whatever order the maps were walked in. */
  lemma RoundTrip(nodes: Listing, g: AdjList)
    requires ListingFits(nodes) && IsU32(|nodes|) && Lists(nodes, g)
    ensures Decode(Encode(nodes)) == Some(g)
  {
    var b := Encode(nodes);
    assert b[..4] == EncodeNat(|nodes|, 4) && b[4..] == EncodeNodes(nodes);
    DecodeEncodeNat(|nodes|, 4);
    NodesRoundTrip(nodes, map[]);
    assert map[] + NodeMap(nodes) == g;
  }

  /** The graph fits the file's fixed-width fields. */
  ghost predicate Storable(g: AdjList)
  {
    && IsU32(|g|)
    && forall k :: k in g ==> IsI64(k) && IsU32(|g[k]|) && forall d :: d in g[k] ==> IsI64(d) && IsI32(g[k][d])
  }

  lemma {:induction false} EncodeEdgesAppend(es: EdgeListing, d: int, w: int)
    requires forall k :: 0 <= k < |es| ==> IsI64(es[k].0) && IsI32(es[k].1)
    requires IsI64(d) && IsI32(w)
    ensures EncodeEdges(es + [(d, w)]) == EncodeEdges(es) + EncodeInt(d, 8) + EncodeInt(w, 4)
  {
    if |es| > 0 {
      assert (es + [(d, w)])[1..] == es[1..] + [(d, w)];
      EncodeEdgesAppend(es[1..], d, w);
    }
  }

  lemma {:induction false} EncodeNodesAppend(nodes: Listing, id: int, es: EdgeListing)
    requires ListingFits(nodes) && IsI64(id) && EdgesFit(es)
    ensures ListingFits(nodes + [(id, es)])
    ensures EncodeNodes(nodes + [(id, es)]) == EncodeNodes(nodes) + EncodeNode(id, es)
  {
    if |nodes| > 0 {
      assert (nodes + [(id, es)])[1..] == nodes[1..] + [(id, es)];
      EncodeNodesAppend(nodes[1..], id, es);
    }
  }

  lemma {:induction false} EdgeMapAppend(es: EdgeListing, d: int, w: int)
    requires forall k :: 0 <= k < |es| ==> es[k].0 != d
    ensures EdgeMap(es + [(d, w)]) == EdgeMap(es)[d := w]
  {
    if |es| > 0 {
      assert (es + [(d, w)])[1..] == es[1..] + [(d, w)];
      EdgeMapAppend(es[1..], d, w);
    }
  }

  lemma {:induction false} NodeMapAppend(nodes: Listing, id: int, es: EdgeListing)
    requires forall i :: 0 <= i < |nodes| ==> nodes[i].0 != id
    ensures NodeMap(nodes + [(id, es)]) == NodeMap(nodes)[id := EdgeMap(es)]
  {
    if |nodes| > 0 {
      assert (nodes + [(id, es)])[1..] == nodes[1..] + [(id, es)];
      NodeMapAppend(nodes[1..], id, es);
    }
  }

  /** The loop of `export_to_file` over one node's edges; the map is walked in an unspecified order. */
  method EncodeRow(row: map<int, int>) returns (bytes: seq<byte>, ghost es: EdgeListing)
    requires forall d :: d in row ==> IsI64(d) && IsI32(row[d])
    ensures forall k :: 0 <= k < |es| ==> IsI64(es[k].0) && IsI32(es[k].1)
    ensures bytes == EncodeEdges(es) && EdgeMap(es) == row && DistinctDestinations(es) && |es| == |row|
  {
    bytes := [];
    es := [];
    var remaining := row.Keys;
    while remaining != {}
      invariant remaining <= row.Keys && RowInv(row, es, remaining)
      invariant bytes == EncodeEdges(es)
      decreases remaining
    {
      var d := Pick(remaining);
      EncodeEdgesAppend(es, d, row[d]);
      RowStep(row, es, remaining, d);
      bytes := bytes + EncodeInt(d, 8) + EncodeInt(row[d], 4);
      es := es + [(d, row[d])];
      remaining := remaining - {d};
    }
    assert row.Keys - remaining == row.Keys;
  }

  /** The edges listed so far by the loop over a row are those of `row` outside `remaining`. */
  ghost predicate RowInv(row: map<int, int>, es: EdgeListing, remaining: set<int>)
  {
    && (forall k :: 0 <= k < |es| ==> IsI64(es[k].0) && IsI32(es[k].1))
    && (forall k :: 0 <= k < |es| ==> es[k].0 in row && es[k].0 !in remaining)
    && DistinctDestinations(es)
    && EdgeMap(es) == (map d | d in row.Keys - remaining :: row[d])
    && |es| + |remaining| == |row.Keys|
  }

  lemma RowStep(row: map<int, int>, es: EdgeListing, remaining: set<int>, d: int)
    requires forall d :: d in row ==> IsI64(d) && IsI32(row[d])
    requires remaining <= row.Keys && d in remaining && RowInv(row, es, remaining)
    ensures RowInv(row, es + [(d, row[d])], remaining - {d})
  {
    EdgeMapAppend(es, d, row[d]);
    RowGrow(row, remaining, d);
    var es' := es + [(d, row[d])];
    assert forall k :: 0 <= k < |es| ==> es'[k] == es[k];
  }

  lemma RowGrow(row: map<int, int>, remaining: set<int>, d: int)
    requires d in remaining && remaining <= row.Keys
    ensures (map x | x in row.Keys - (remaining - {d}) :: row[x]) == (map x | x in row.Keys - remaining :: row[x])[d := row[d]]
    ensures |remaining - {d}| == |remaining| - 1
  {
    var before := map x | x in row.Keys - remaining :: row[x];
    var after := map x | x in row.Keys - (remaining - {d}) :: row[x];
    assert after.Keys == before.Keys + {d};
    forall x | x in after.Keys
      ensures after[x] == before[d := row[d]][x]
    {
    }
  }

  /** The nodes listed so far by `export_to_file` are those of `g` outside `remaining`. */
  ghost predicate ExportInv(g: AdjList, nodes: Listing, remaining: set<int>)
  {
    && ListingFits(nodes) && DistinctIds(nodes)
    && (forall i :: 0 <= i < |nodes| ==> DistinctDestinations(nodes[i].1))
    && (forall i :: 0 <= i < |nodes| ==> nodes[i].0 in g && nodes[i].0 !in remaining)
    && NodeMap(nodes) == (map k | k in g.Keys - remaining :: g[k])
    && |nodes| + |remaining| == |g.Keys|
  }

  lemma ExportStep(g: AdjList, nodes: Listing, remaining: set<int>, id: int, es: EdgeListing)
    requires Storable(g) && remaining <= g.Keys && id in remaining && ExportInv(g, nodes, remaining)
    requires forall k :: 0 <= k < |es| ==> IsI64(es[k].0) && IsI32(es[k].1)
    requires EdgeMap(es) == g[id] && DistinctDestinations(es) && |es| == |g[id]|
    ensures ExportInv(g, nodes + [(id, es)], remaining - {id})
    ensures EncodeNodes(nodes + [(id, es)]) == EncodeNodes(nodes) + EncodeInt(id, 8) + EncodeNat(|g[id]|, 4) + EncodeEdges(es)
  {
    EncodeNodesAppend(nodes, id, es);
    ExportListing(g, nodes, remaining, id, es);
    NodeMapAppend(nodes, id, es);
    ListedGrow(g, remaining, id);
  }

  /** Taking id out of the remaining set adds exactly id's row to the listed part of the graph. */
  lemma ListedGrow(g: AdjList, remaining: set<int>, id: int)
    requires id in remaining && remaining <= g.Keys
    ensures (map k | k in g.Keys - (remaining - {id}) :: g[k]) == (map k | k in g.Keys - remaining :: g[k])[id := g[id]]
    ensures |remaining - {id}| == |remaining| - 1
  {
    var before := map k | k in g.Keys - remaining :: g[k];
    var after := map k | k in g.Keys - (remaining - {id}) :: g[k];
    assert after.Keys == before.Keys + {id};
    forall k | k in after.Keys
      ensures after[k] == before[id := g[id]][k]
    {
    }
  }

  lemma ExportListing(g: AdjList, nodes: Listing, remaining: set<int>, id: int, es: EdgeListing)
    requires id in remaining && remaining <= g.Keys && DistinctIds(nodes) && DistinctDestinations(es)
    requires forall i :: 0 <= i < |nodes| ==> DistinctDestinations(nodes[i].1)
    requires forall i :: 0 <= i < |nodes| ==> nodes[i].0 in g && nodes[i].0 !in remaining
    ensures DistinctIds(nodes + [(id, es)])
    ensures forall i :: 0 <= i < |nodes| + 1 ==> DistinctDestinations((nodes + [(id, es)])[i].1)
    ensures forall i :: 0 <= i < |nodes| + 1 ==> (nodes + [(id, es)])[i].0 in g && (nodes + [(id, es)])[i].0 !in remaining - {id}
    ensures forall i :: 0 <= i < |nodes| ==> nodes[i].0 != id
  {
    var next := nodes + [(id, es)];
    assert forall i :: 0 <= i < |nodes| ==> next[i] == nodes[i];
  }

  class AuthorGraph {
    var adjList: AdjList
    var numNodes: int

    /**
     * `export_to_file`, returning the bytes it writes.  The maps are walked
     * in an unspecified order, and reading the bytes back gives this graph.
     */
    method ExportToFile() returns (data: seq<byte>)
      requires Storable(adjList)
      ensures exists nodes: Listing :: ListingFits(nodes) && Lists(nodes, adjList) && data == Encode(nodes)
      ensures Decode(data) == Some(adjList)
    {
      var g := adjList;
      ghost var nodes: Listing := [];
      var body: seq<byte> := [];
      var remaining := g.Keys;
      while remaining != {}
        invariant remaining <= g.Keys
        invariant ExportInv(g, nodes, remaining) && body == EncodeNodes(nodes)
        decreases remaining
      {
        var id := Pick(remaining);
        var bytes, es := EncodeRow(g[id]);
        ExportStep(g, nodes, remaining, id, es);
        body := body + EncodeInt(id, 8) + EncodeNat(|g[id]|, 4) + bytes;
        nodes := nodes + [(id, es)];
        remaining := remaining - {id};
      }
      assert g.Keys - remaining == g.Keys;
      data := EncodeNat(|g|, 4) + body;
      assert |nodes| == |g|;
      assert Lists(nodes, g) && data == Encode(nodes);
      RoundTrip(nodes, g);
    }

    /**
     * The file constructor, reading the bytes of a file `export_to_file`
     * wrote.  It leaves `num_nodes` as it was.
     */
    constructor FromFile(data: seq<byte>)
      requires Decode(data).Some?
      ensures Some(adjList) == Decode(data)
    {
      var g := ReadGraph(data);
      adjList := g;
    }

    /** `addEdge(weight, source, dest)`. */
    method AddEdge(weight: int, source: int, dest: int)
      modifies this`adjList
      ensures adjList == WithWeight(old(adjList), weight, source, dest) && numNodes == old(numNodes)
    {
      adjList := adjList[source := Row(adjList, source)[dest := Weight(adjList, source, dest) + weight]];
    }

    /** `add_same_paper_authors`, with `weight` the converted `same_paper_weight * n_citation`. */
    method AddSamePaperAuthors(authors: seq<int>, weight: int, limit: nat)
      modifies this`adjList
      ensures var m := Min(|authors|, limit);
        adjList == AddAll(old(adjList), weight, SamePaperPairs(authors, m, m)) && numNodes == old(numNodes)
    {
      var m := Min(|authors|, limit);
      var i := 0;
      while i < |authors| && i < limit
        invariant 0 <= i <= m
        invariant adjList == AddAll(old(adjList), weight, SamePaperPairs(authors, i, m)) && numNodes == old(numNodes)
      {
        AddSamePaperRow(authors, weight, limit, i);
        AddAllAppend(old(adjList), weight, SamePaperPairs(authors, i, m), RowPairs(authors, i, m));
        assert SamePaperPairs(authors, i + 1, m) == SamePaperPairs(authors, i, m) + RowPairs(authors, i, m);
        i := i + 1;
      }
      assert i == m;
    }

    /** The inner loop of `add_same_paper_authors`: author i with each later author, both ways. */
    method AddSamePaperRow(authors: seq<int>, weight: int, limit: nat, i: nat)
      requires i < Min(|authors|, limit)
      modifies this`adjList
      ensures adjList == AddAll(old(adjList), weight, RowPairs(authors, i, Min(|authors|, limit)))
      ensures numNodes == old(numNodes)
    {
      var j := i + 1;
      while j < |authors| && j < limit
        invariant i + 1 <= j <= Min(|authors|, limit)
        invariant adjList == AddAll(old(adjList), weight, RowPairs(authors, i, j))
        invariant numNodes == old(numNodes)
      {
        ghost var mid := adjList;
        AddEdge(weight, authors[i], authors[j]);
        AddEdge(weight, authors[j], authors[i]);
        AddBoth(mid, weight, authors[i], authors[j]);
        AddAllAppend(old(adjList), weight, RowPairs(authors, i, j), [(authors[i], authors[j]), (authors[j], authors[i])]);
        j := j + 1;
      }
    }

    /**
     * `add_referenced_authors`, with `weight` the converted weight.  The
     * inner loop reads `referenced[j]` for `j` below `limit` until it meets
     * a 0, so it stays inside the eight-entry array when `limit` is at most
     * 8 or a 0 stops it.
     */
    method AddReferencedAuthors(authors: seq<int>, referenced: seq<int>, weight: int, limit: nat)
      requires |referenced| == 8 && (limit <= 8 || 0 in referenced)
      modifies this`adjList
      ensures var m, n := Min(|authors|, limit), ReferencedCount(referenced, limit);
        adjList == AddAll(old(adjList), weight, RefPairs(authors, m, referenced, n)) && numNodes == old(numNodes)
    {
      var m, n := Min(|authors|, limit), ReferencedCount(referenced, limit);
      var i := 0;
      while i < |authors| && i < limit
        invariant 0 <= i <= m
        invariant adjList == AddAll(old(adjList), weight, RefPairs(authors, i, referenced, n)) && numNodes == old(numNodes)
      {
        AddReferencedRow(authors[i], referenced, weight, limit);
        RefPairsStep(old(adjList), weight, authors, i, referenced, n);
        assert adjList == AddAll(old(adjList), weight, RefPairs(authors, i + 1, referenced, n));
        i := i + 1;
      }
      assert i == m;
    }

    /** The inner loop of `add_referenced_authors`: edges from `a` to the referenced authors before the first 0. */
    method AddReferencedRow(a: int, referenced: seq<int>, weight: int, limit: nat)
      requires |referenced| == 8 && (limit <= 8 || 0 in referenced)
      modifies this`adjList
      ensures adjList == AddAll(old(adjList), weight, RefRow(a, referenced, ReferencedCount(referenced, limit)))
      ensures numNodes == old(numNodes)
    {
      var n := ReferencedCount(referenced, limit);
      var j := 0;
      while j < limit
        invariant 0 <= j <= n
        invariant adjList == AddAll(old(adjList), weight, RefRow(a, referenced, j)) && numNodes == old(numNodes)
      {
        if referenced[j] == 0 {
          break;
        }
        AddEdge(weight, a, referenced[j]);
        AddAllAppend(old(adjList), weight, RefRow(a, referenced, j), [(a, referenced[j])]);
        j := j + 1;
      }
      assert j == n;
    }

    /**
     * The `node_data` constructor: each record adds the same-paper edges of
     * its authors with citation count 1, then for each cited paper the edges
     * to that paper's first eight authors; `num_nodes` is the number of keys.
     */
    constructor FromNodeData(nodeData: seq<PaperRecord>, ws: Weights)
      requires ws.limit <= 8
      ensures adjList == BuildFrom(nodeData, |nodeData|, AuthorMapping(nodeData), ws)
      ensures numNodes == |adjList|
    {
      adjList := map[];
      numNodes := 0;
      new;
      var mapping := BuildMapping(nodeData);
      var p := 0;
      while p < |nodeData|
        invariant 0 <= p <= |nodeData|
        invariant adjList == BuildFrom(nodeData, p, mapping, ws)
      {
        var paper := nodeData[p];
        AddSamePaperAuthors(paper.authors, ws.samePaper, ws.limit);
        AddPaperReferences(paper.authors, paper.cited, mapping, ws);
        p := p + 1;
      }
      numNodes := |adjList|;
    }

    /** The loop over one record's cited papers in the `node_data` constructor. */
    method AddPaperReferences(authors: seq<int>, cited: seq<int>, mapping: map<int, seq<int>>, ws: Weights)
      requires ws.limit <= 8
      modifies this`adjList
      ensures adjList == AddReferences(old(adjList), authors, cited, mapping, ws) && numNodes == old(numNodes)
    {
      var c := 0;
      while c < |cited|
        invariant 0 <= c <= |cited|
        invariant adjList == AddReferences(old(adjList), authors, cited[..c], mapping, ws) && numNodes == old(numNodes)
      {
        var arr := RefArray(Lookup(mapping, cited[c]));
        AddReferencedAuthors(authors, arr, ws.referenced, ws.limit);
        AddReferencesStep(old(adjList), authors, cited, c, mapping, ws);
        c := c + 1;
      }
      assert cited[..c] == cited;
    }
  }

  /** `AddReferences` over one more cited paper adds that paper's pairs. */
  lemma AddReferencesStep(g: AdjList, authors: seq<int>, cited: seq<int>, c: nat, mapping: map<int, seq<int>>, ws: Weights)
    requires ws.limit <= 8 && c < |cited|
    ensures var arr := RefArray(Lookup(mapping, cited[c]));
      AddReferences(g, authors, cited[..c + 1], mapping, ws)
        == AddAll(AddReferences(g, authors, cited[..c], mapping, ws), ws.referenced,
                  RefPairs(authors, Min(|authors|, ws.limit), arr, ReferencedCount(arr, ws.limit)))
  {
    assert cited[..c + 1][..c] == cited[..c];
    assert cited[..c + 1][c] == cited[c];
  }

  /** The first loop of the `node_data` constructor. */
  method BuildMapping(nodeData: seq<PaperRecord>) returns (mapping: map<int, seq<int>>)
    ensures mapping == AuthorMapping(nodeData)
  {
    mapping := map[];
    var p := 0;
    while p < |nodeData|
      invariant 0 <= p <= |nodeData|
      invariant mapping == AuthorMapping(nodeData[..p])
    {
      assert nodeData[..p + 1][..p] == nodeData[..p];
      mapping := mapping[nodeData[p].source := nodeData[p].authors];
      p := p + 1;
    }
    assert nodeData[..p] == nodeData;
  }

  /** Where the node record at the head of `b` ends: its 12-byte header, then 12 bytes per edge. */
  function RecordEnd(b: seq<byte>): nat
    requires 12 <= |b|
  {
    12 + 12 * DecodeNat(b[8..12])
  }

  /** The graph after reading the node record at the head of `b` into `g`. */
  function WithRecord(b: seq<byte>, g: AdjList): AdjList
    requires 12 <= |b| && RecordEnd(b) <= |b|
  {
    var id, k := DecodeInt(b[..8]), DecodeNat(b[8..12]);
    if k == 0 then g[id := Row(g, id)] else g[id := DecodeEdges(b[12..RecordEnd(b)], k, Row(g, id))]
  }

  /** The loops of the file constructor; `rest` holds the bytes not read yet. */
  method ReadGraph(data: seq<byte>) returns (g: AdjList)
    requires Decode(data).Some?
    ensures Some(g) == Decode(data)
  {
    var size := DecodeNat(data[..4]);
    var rest := data[4..];
    var i := 0;
    g := map[];
    while i < size
      invariant 0 <= i <= size
      invariant DecodeNodes(rest, size - i, g) == Decode(data)
    {
      rest, g := ReadNode(rest, g);
      i := i + 1;
    }
  }

  /** The inner loop of the file constructor: `adj_list[id][edge_id] = weight` per edge record. */
  method ReadEdges(b: seq<byte>, numEdges: nat, row0: map<int, int>) returns (row: map<int, int>)
    requires |b| >= 12 * numEdges
    ensures row == DecodeEdges(b, numEdges, row0)
  {
    row := row0;
    var j := 0;
    while j < numEdges
      invariant 0 <= j <= numEdges && |b| >= 12 * numEdges
      invariant DecodeEdges(b[12 * j..], numEdges - j, row) == DecodeEdges(b, numEdges, row0)
    {
      var rest := b[12 * j..];
      var edgeId := DecodeInt(b[12 * j..12 * j + 8]);
      var weight := DecodeInt(b[12 * j + 8..12 * j + 12]);
      assert rest[..8] == b[12 * j..12 * j + 8] && rest[8..12] == b[12 * j + 8..12 * j + 12];
      assert rest[12..] == b[12 * (j + 1)..];
      row := row[edgeId := weight];
      j := j + 1;
    }
  }
}
