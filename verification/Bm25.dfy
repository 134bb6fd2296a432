/** The in-memory keyword index: a chunk store, the ids in corpus order, and the index built from them. */
module Bm25 {
  import opened Wrappers
  import opened Text

  type Metadata = map<string, string>

  datatype Entry = Entry(text: string, metadata: Metadata)

  datatype Chunk = Chunk(id: string, text: string, metadata: Metadata)

  predicate BelongsTo(e: Entry, documentId: string) {
    "document_id" in e.metadata && e.metadata["document_id"] == documentId
  }

  // ---------------------------------------------------------------- the chunk store: a dict in insertion order

  datatype Store = Store(keys: seq<string>, entries: map<string, Entry>) {
    ghost predicate Valid() {
      && (forall k :: k in keys <==> k in entries)
      && (forall i, j :: 0 <= i < j < |keys| ==> keys[i] != keys[j])
    }
  }

  const EMPTY := Store([], map[])

  function Put(s: Store, id: string, e: Entry): Store {
    Store(if id in s.entries then s.keys else s.keys + [id], s.entries[id := e])
  }

  function PutAll(s: Store, chunks: seq<Chunk>): Store {
    if chunks == [] then s
    else
      var last := chunks[|chunks| - 1];
      Put(PutAll(s, chunks[..|chunks| - 1]), last.id, Entry(last.text, last.metadata))
  }

  /** The ids of a document's chunks, in store order. */
  function Owned(s: Store, keys: seq<string>, documentId: string): (ids: seq<string>)
    requires forall k :: k in keys ==> k in s.entries
    ensures forall k :: k in ids <==> k in keys && BelongsTo(s.entries[k], documentId)
  {
    if keys == [] then []
    else
      var last := keys[|keys| - 1];
      assert keys == keys[..|keys| - 1] + [last];
      Owned(s, keys[..|keys| - 1], documentId) + if BelongsTo(s.entries[last], documentId) then [last] else []
  }

  function Minus(keys: seq<string>, gone: seq<string>): seq<string> {
    if keys == [] then []
    else
      var last := keys[|keys| - 1];
      Minus(keys[..|keys| - 1], gone) + if last in gone then [] else [last]
  }

  /** The store after the ids of `gone` are deleted; the others keep their order. */
  function Deleted(s: Store, gone: seq<string>): Store {
    Store(Minus(s.keys, gone), map k | k in s.entries && k !in gone :: s.entries[k])
  }

  function Without(s: Store, documentId: string): Store
    requires s.Valid()
  {
    Deleted(s, Owned(s, s.keys, documentId))
  }

  lemma {:induction false} MinusExact(keys: seq<string>, gone: seq<string>)
    requires forall i, j :: 0 <= i < j < |keys| ==> keys[i] != keys[j]
    ensures forall k :: k in Minus(keys, gone) <==> k in keys && k !in gone
    ensures forall i, j :: 0 <= i < j < |Minus(keys, gone)| ==> Minus(keys, gone)[i] != Minus(keys, gone)[j]
  {
    if keys != [] {
      var rest, last := keys[..|keys| - 1], keys[|keys| - 1];
      MinusExact(rest, gone);
      assert keys == rest + [last];
    }
  }

  lemma DeletedValid(s: Store, gone: seq<string>)
    requires s.Valid()
    ensures Deleted(s, gone).Valid()
  {
    MinusExact(s.keys, gone);
  }

  lemma {:induction false} MinusMinus(keys: seq<string>, a: seq<string>, b: seq<string>)
    ensures Minus(Minus(keys, a), b) == Minus(keys, a + b)
  {
    if keys != [] {
      var rest, last := keys[..|keys| - 1], keys[|keys| - 1];
      MinusMinus(rest, a, b);
      if last !in a {
        assert (Minus(rest, a) + [last])[..|Minus(rest, a)|] == Minus(rest, a);
      } else {
        assert Minus(rest, a) + [] == Minus(rest, a);
      }
    }
  }

  lemma DeletedNothing(s: Store)
    ensures Deleted(s, []) == s
  {
    MinusNone(s.keys, []);
  }

  lemma DeletedAgain(s: Store, a: seq<string>, b: seq<string>)
    ensures Deleted(Deleted(s, a), b) == Deleted(s, a + b)
  {
    MinusMinus(s.keys, a, b);
  }

  lemma {:induction false} MinusConcat(a: seq<string>, b: seq<string>, gone: seq<string>)
    ensures Minus(a + b, gone) == Minus(a, gone) + Minus(b, gone)
  {
    if b == [] {
      assert a + b == a;
    } else {
      assert (a + b)[..|a + b| - 1] == a + b[..|b| - 1];
      MinusConcat(a, b[..|b| - 1], gone);
    }
  }

  lemma {:induction false} MinusNone(keys: seq<string>, gone: seq<string>)
    requires forall k :: k in keys ==> k !in gone
    ensures Minus(keys, gone) == keys
  {
    if keys != [] {
      MinusNone(keys[..|keys| - 1], gone);
    }
  }

  lemma {:induction false} MinusAll(keys: seq<string>, gone: seq<string>)
    requires forall k :: k in keys ==> k in gone
    ensures Minus(keys, gone) == []
  {
    if keys != [] {
      MinusAll(keys[..|keys| - 1], gone);
    }
  }

  lemma PutValid(s: Store, id: string, e: Entry)
    requires s.Valid()
    ensures Put(s, id, e).Valid()
  {
  }

  lemma {:induction false} PutAllValid(s: Store, chunks: seq<Chunk>)
    requires s.Valid()
    ensures PutAll(s, chunks).Valid()
  {
    if chunks != [] {
      var last := chunks[|chunks| - 1];
      PutAllValid(s, chunks[..|chunks| - 1]);
      PutValid(PutAll(s, chunks[..|chunks| - 1]), last.id, Entry(last.text, last.metadata));
    }
  }

  lemma {:induction false} PutAllUnwritten(s: Store, chunks: seq<Chunk>, id: string)
    requires forall i :: 0 <= i < |chunks| ==> chunks[i].id != id
    ensures id in PutAll(s, chunks).entries <==> id in s.entries
    ensures id in s.entries ==> PutAll(s, chunks).entries[id] == s.entries[id]
  {
    if chunks != [] {
      PutAllUnwritten(s, chunks[..|chunks| - 1], id);
    }
  }

  /** A chunk's id holds its text and metadata unless a later chunk comes under the same id. */
  lemma {:induction false} PutAllWritten(s: Store, chunks: seq<Chunk>, i: nat)
    requires i < |chunks| && forall j :: i < j < |chunks| ==> chunks[j].id != chunks[i].id
    ensures chunks[i].id in PutAll(s, chunks).entries
    ensures PutAll(s, chunks).entries[chunks[i].id].text == chunks[i].text
    ensures PutAll(s, chunks).entries[chunks[i].id].metadata == chunks[i].metadata
  {
    if i < |chunks| - 1 {
      PutAllWritten(s, chunks[..|chunks| - 1], i);
    }
  }

  /** Stored ids stay where they are, and new ones follow. */
  lemma {:induction false} PutAllFollows(s: Store, chunks: seq<Chunk>)
    ensures s.keys <= PutAll(s, chunks).keys
  {
    if chunks != [] {
      PutAllFollows(s, chunks[..|chunks| - 1]);
    }
  }

  lemma {:induction false} MinusInOrder(keys: seq<string>, gone: seq<string>, i: nat, j: nat) returns (p: nat, q: nat)
    requires i < j < |Minus(keys, gone)|
    ensures p < q < |keys| && keys[p] == Minus(keys, gone)[i] && keys[q] == Minus(keys, gone)[j]
  {
    var rest, last := keys[..|keys| - 1], keys[|keys| - 1];
    if j < |Minus(rest, gone)| {
      p, q := MinusInOrder(rest, gone, i, j);
    } else {
      assert Minus(keys, gone)[i] in Minus(rest, gone);
      p := MinusOne(rest, gone, i);
      q := |keys| - 1;
    }
  }

  lemma {:induction false} MinusOne(keys: seq<string>, gone: seq<string>, i: nat) returns (p: nat)
    requires i < |Minus(keys, gone)|
    ensures p < |keys| && keys[p] == Minus(keys, gone)[i]
  {
    if i < |Minus(keys[..|keys| - 1], gone)| {
      p := MinusOne(keys[..|keys| - 1], gone, i);
    } else {
      p := |keys| - 1;
    }
  }

  /** Exactly the chunks whose metadata names the document are gone; the others keep entry and order. */
  lemma WithoutExact(s: Store, documentId: string)
    requires s.Valid()
    ensures forall id :: id in Without(s, documentId).entries <==>
      id in s.entries
      && !("document_id" in s.entries[id].metadata && s.entries[id].metadata["document_id"] == documentId)
    ensures forall id :: id in Without(s, documentId).entries ==> Without(s, documentId).entries[id] == s.entries[id]
    ensures forall i, j :: 0 <= i < j < |Without(s, documentId).keys| ==>
      InOrder(s.keys, Without(s, documentId).keys[i], Without(s, documentId).keys[j])
  {
    var left := Without(s, documentId).keys;
    forall i, j | 0 <= i < j < |left|
      ensures InOrder(s.keys, left[i], left[j])
    {
      var p, q := MinusInOrder(s.keys, Owned(s, s.keys, documentId), i, j);
    }
  }

  ghost predicate InOrder(keys: seq<string>, first: string, second: string) {
    exists p, q :: 0 <= p < q < |keys| && keys[p] == first && keys[q] == second
  }

  // ---------------------------------------------------------------- search over a store

  /** The library's scorer: the score of one position of the corpus it indexed, for a query. */
  type Scorer = (seq<seq<string>>, seq<string>, nat) -> real

  /** The scores of one query, by position. */
  type Scores = nat -> real

  type Tokenizer = string -> seq<string>

  datatype Hit = Hit(id: string, entry: Entry, score: real)

  /** A scored corpus position. */
  datatype Candidate = Candidate(score: real, pos: nat)

  function Corpus(tokenize: Tokenizer, s: Store): seq<seq<string>>
    requires s.Valid()
  {
    seq(|s.keys|, i requires 0 <= i < |s.keys| => assert s.keys[i] in s.keys; tokenize(s.entries[s.keys[i]].text))
  }

  function ScoresOf(score: Scorer, corpus: seq<seq<string>>, queryTokens: seq<string>): Scores {
    (pos: nat) => score(corpus, queryTokens, pos)
  }

  predicate Passes(filter: Option<Metadata -> bool>, s: Store, pos: nat)
    requires s.Valid() && pos < |s.keys|
  {
    assert s.keys[pos] in s.keys;
    filter.Some? ==> filter.value(s.entries[s.keys[pos]].metadata)
  }

  /** The scored positions among the first `n` that pass the filter, in corpus order. */
  function Candidates(scores: Scores, s: Store, filter: Option<Metadata -> bool>, n: nat): seq<Candidate>
    requires s.Valid() && n <= |s.keys|
  {
    if n == 0 then []
    else
      Candidates(scores, s, filter, n - 1)
      + if Passes(filter, s, n - 1) then [Candidate(scores(n - 1), n - 1)] else []
  }

  function Insert(c: Candidate, cs: seq<Candidate>): seq<Candidate> {
    if cs == [] || cs[0].score <= c.score then [c] + cs else [cs[0]] + Insert(c, cs[1..])
  }

  /** The stable sort by falling score. */
  function SortByScore(cs: seq<Candidate>): seq<Candidate> {
    if cs == [] then [] else Insert(cs[0], SortByScore(cs[1..]))
  }

  function ToHits(s: Store, cs: seq<Candidate>): seq<Hit>
    requires s.Valid() && forall c :: c in cs ==> c.pos < |s.keys|
  {
    seq(|cs|, i requires 0 <= i < |cs| =>
      assert cs[i] in cs; assert s.keys[cs[i].pos] in s.keys;
      Hit(s.keys[cs[i].pos], s.entries[s.keys[cs[i].pos]], cs[i].score))
  }

  /** The best candidates, as many as the slice `[:topK]` leaves. */
  function Best(scores: Scores, s: Store, topK: int, filter: Option<Metadata -> bool>): seq<Candidate>
    requires s.Valid()
  {
    Take(SortByScore(Candidates(scores, s, filter, |s.keys|)), topK)
  }

  // ---------------------------------------------------------------- the top results

  /** Higher score first, and corpus order among equal scores. */
  predicate Better(a: Candidate, b: Candidate) {
    a.score > b.score || (a.score == b.score && a.pos < b.pos)
  }

  predicate Ranked(cs: seq<Candidate>) {
    forall i, j :: 0 <= i < j < |cs| ==> Better(cs[i], cs[j])
  }

  lemma {:induction false} InsertRanked(c: Candidate, cs: seq<Candidate>)
    requires Ranked(cs) && forall d :: d in cs ==> c.pos < d.pos
    ensures Ranked(Insert(c, cs)) && |Insert(c, cs)| == |cs| + 1
    ensures forall d :: d in Insert(c, cs) <==> d == c || d in cs
  {
    if cs != [] && cs[0].score > c.score {
      InsertRanked(c, cs[1..]);
      assert cs == [cs[0]] + cs[1..];
      assert forall d :: d in cs[1..] ==> Better(cs[0], d);
      assert forall d :: d in Insert(c, cs[1..]) ==> Better(cs[0], d);
    } else {
      assert forall d :: d in cs ==> Better(c, d) by {
        assert cs != [] ==> forall i :: 0 < i < |cs| ==> Better(cs[0], cs[i]);
      }
    }
  }

  predicate InCorpusOrder(cs: seq<Candidate>) {
    forall i, j :: 0 <= i < j < |cs| ==> cs[i].pos < cs[j].pos
  }

  lemma {:induction false} SortRanked(cs: seq<Candidate>)
    requires InCorpusOrder(cs)
    ensures Ranked(SortByScore(cs)) && |SortByScore(cs)| == |cs|
    ensures forall d :: d in SortByScore(cs) <==> d in cs
  {
    if cs != [] {
      SortRanked(cs[1..]);
      assert cs == [cs[0]] + cs[1..];
      InsertRanked(cs[0], SortByScore(cs[1..]));
    }
  }

  lemma {:induction false} CandidatesExact(scores: Scores, s: Store, filter: Option<Metadata -> bool>, n: nat)
    requires s.Valid() && n <= |s.keys|
    ensures var cs := Candidates(scores, s, filter, n);
      && InCorpusOrder(cs)
      && forall c :: c in cs <==> c.pos < n && Passes(filter, s, c.pos) && c.score == scores(c.pos)
  {
    if n > 0 {
      CandidatesExact(scores, s, filter, n - 1);
      hide Store.Valid, Passes;
    }
  }

  /** The chunks that pass the filter, each with its score. */
  ghost predicate Matching(scores: Scores, s: Store, filter: Option<Metadata -> bool>, c: Candidate)
    requires s.Valid()
  {
    c.pos < |s.keys| && Passes(filter, s, c.pos) && c.score == scores(c.pos)
  }

  /**
   The results are matching chunks, best first with ties in corpus order; every matching chunk that is
   left out ranks below all of them; and nothing is left out while there is room.
   */
  lemma TopResults(scores: Scores, s: Store, topK: int, filter: Option<Metadata -> bool>)
    requires s.Valid()
    ensures var best := Best(scores, s, topK, filter);
      var matching := |Candidates(scores, s, filter, |s.keys|)|;
      && (forall c :: c in best ==> Matching(scores, s, filter, c))
      && Ranked(best)
      && (forall c, d :: Matching(scores, s, filter, c) && c !in best && d in best ==> Better(d, c))
      && (0 <= topK ==> |best| == if topK <= matching then topK else matching)
  {
    var cs := Candidates(scores, s, filter, |s.keys|);
    CandidatesExact(scores, s, filter, |s.keys|);
    SortRanked(cs);
    CutOff(SortByScore(cs), topK);
    hide SortByScore, Candidates, Better, Ranked;
  }

  /** Cutting a ranked list leaves out only what ranks below everything kept. */
  lemma CutOff(sorted: seq<Candidate>, topK: int)
    requires Ranked(sorted)
    ensures var best := Take(sorted, topK);
      && Ranked(best)
      && (forall c :: c in best ==> c in sorted)
      && (forall c, d :: c in sorted && c !in best && d in best ==> Better(d, c))
  {
  }

  // ---------------------------------------------------------------- what a list of hits must be

  /** The chunk at the position passes the filter, if there is one. */
  predicate PassesAt(filter: Option<Metadata -> bool>, s: Store, p: nat)
    requires s.Valid()
  {
    p < |s.keys| && (assert s.keys[p] in s.keys; filter.Some? ==> filter.value(s.entries[s.keys[p]].metadata))
  }

  /** The hit is the stored chunk at the position, with the score of that position. */
  predicate HitAt(hit: Hit, s: Store, scores: Scores, p: nat)
    requires s.Valid()
  {
    && p < |s.keys| && hit.id == s.keys[p] && hit.score == scores(p)
    && hit.id in s.entries && hit.entry == s.entries[hit.id]
  }

  /** Position `p` comes before position `q` in a ranking. */
  predicate Ahead(scores: Scores, p: nat, q: nat) {
    scores(q) < scores(p) || (scores(q) == scores(p) && p < q)
  }

  /**
   The hits are chunks that pass the filter, highest score first and earlier positions first among equal scores;
   no chunk that passes and is left out comes before one of them; and none is left out while there is room.
   */
  ghost predicate TopHits(hits: seq<Hit>, s: Store, scores: Scores, filter: Option<Metadata -> bool>, topK: int)
    requires s.Valid()
  {
    exists ps: seq<nat> :: TopHitsAt(ps, hits, s, scores, filter, topK)
  }

  ghost predicate TopHitsAt(ps: seq<nat>, hits: seq<Hit>, s: Store, scores: Scores, filter: Option<Metadata -> bool>,
                            topK: int)
    requires s.Valid()
  {
    && |ps| == |hits|
    && (forall i :: 0 <= i < |ps| ==> PassesAt(filter, s, ps[i]) && HitAt(hits[i], s, scores, ps[i]))
    && (forall i, j :: 0 <= i < j < |ps| ==> Ahead(scores, ps[i], ps[j]))
    && (forall p: nat, i :: PassesAt(filter, s, p) && p !in ps && 0 <= i < |ps| ==> Ahead(scores, ps[i], p))
    && (0 <= topK ==> |ps| == AtMost(topK, |Passing(filter, s, |s.keys|)|))
  }

  function AtMost(limit: nat, n: nat): nat {
    if limit <= n then limit else n
  }

  function Passing(filter: Option<Metadata -> bool>, s: Store, n: nat): set<nat>
    requires s.Valid()
  {
    set p: nat | p < n && PassesAt(filter, s, p)
  }

  lemma {:induction false} CandidatesCounted(scores: Scores, s: Store, filter: Option<Metadata -> bool>, n: nat)
    requires s.Valid() && n <= |s.keys|
    ensures |Candidates(scores, s, filter, n)| == |Passing(filter, s, n)|
  {
    hide Store.Valid;
    if n > 0 {
      CandidatesCounted(scores, s, filter, n - 1);
      assert PassesAt(filter, s, n - 1) <==> Passes(filter, s, n - 1);
      hide PassesAt, Passes;
      assert Passing(filter, s, n) == Passing(filter, s, n - 1) + if PassesAt(filter, s, n - 1) then {n - 1} else {};
    } else {
      hide PassesAt;
      assert Passing(filter, s, 0) == {};
    }
  }

  function Positions(best: seq<Candidate>): seq<nat> {
    seq(|best|, i requires 0 <= i < |best| => best[i].pos)
  }

  lemma BestHit(scores: Scores, s: Store, filter: Option<Metadata -> bool>, best: seq<Candidate>, i: nat)
    requires s.Valid() && i < |best| && forall c :: c in best ==> c.pos < |s.keys| && Matching(scores, s, filter, c)
    ensures PassesAt(filter, s, best[i].pos) && best[i].score == scores(best[i].pos)
    ensures HitAt(ToHits(s, best)[i], s, scores, best[i].pos)
  {
    assert best[i] in best;
    assert s.keys[best[i].pos] in s.keys;
  }

  lemma LeftOutBehind(scores: Scores, s: Store, filter: Option<Metadata -> bool>, best: seq<Candidate>, p: nat, i: nat)
    requires s.Valid() && forall c :: c in best ==> Matching(scores, s, filter, c)
    requires forall c, d :: Matching(scores, s, filter, c) && c !in best && d in best ==> Better(d, c)
    requires PassesAt(filter, s, p) && p !in Positions(best) && i < |best|
    ensures Ahead(scores, best[i].pos, p)
  {
    var c := Candidate(scores(p), p);
    assert Matching(scores, s, filter, c);
    assert c !in best by {
      assert forall j :: 0 <= j < |best| ==> Positions(best)[j] == best[j].pos;
    }
    assert best[i] in best && Better(best[i], c) && Matching(scores, s, filter, best[i]);
  }

  lemma HitsInRank(scores: Scores, s: Store, filter: Option<Metadata -> bool>, best: seq<Candidate>)
    requires s.Valid() && Ranked(best) && forall c :: c in best ==> c.pos < |s.keys| && Matching(scores, s, filter, c)
    ensures var ps, hits := Positions(best), ToHits(s, best);
      && (forall i :: 0 <= i < |ps| ==> PassesAt(filter, s, ps[i]) && HitAt(hits[i], s, scores, ps[i]))
      && (forall i, j :: 0 <= i < j < |ps| ==> Ahead(scores, ps[i], ps[j]))
  {
    var ps, hits := Positions(best), ToHits(s, best);
    assert forall i, j :: 0 <= i < j < |best| ==> Better(best[i], best[j]);
    hide Store.Valid, Matching, PassesAt, HitAt, ToHits, Ranked, Better, Ahead;
    forall i | 0 <= i < |ps|
      ensures PassesAt(filter, s, ps[i]) && HitAt(hits[i], s, scores, ps[i]) && best[i].score == scores(ps[i])
    {
      BestHit(scores, s, filter, best, i);
    }
    forall i, j | 0 <= i < j < |ps|
      ensures Ahead(scores, ps[i], ps[j])
    {
      BetterIsAhead(scores, best[i], best[j]);
    }
  }

  /** The hits at the best positions are the top hits. */
  lemma RankingIsTopHits(scores: Scores, s: Store, topK: int, filter: Option<Metadata -> bool>)
    requires s.Valid()
    ensures TopHits(Ranking(scores, s, topK, filter), s, scores, filter, topK)
  {
    var best := Best(scores, s, topK, filter);
    TopResults(scores, s, topK, filter);
    CandidatesCounted(scores, s, filter, |s.keys|);
    assert forall c :: c in best ==> c.pos < |s.keys|;
    var ps, hits := Positions(best), ToHits(s, best);
    assert hits == Ranking(scores, s, topK, filter) && |hits| == |ps| == |best|;
    hide HitAt, PassesAt, Best, Matching, Better, Store.Valid, Candidates, Passing, Ranking, ToHits, Ahead, Ranked;
    HitsInRank(scores, s, filter, best);
    forall p: nat, i | PassesAt(filter, s, p) && p !in ps && 0 <= i < |ps|
      ensures Ahead(scores, ps[i], p)
    {
      LeftOutBehind(scores, s, filter, best, p, i);
    }
    assert TopHitsAt(ps, hits, s, scores, filter, topK);
  }

  /** In particular the ids are distinct and the scores never rise along the list. */
  lemma TopHitsInOrder(hits: seq<Hit>, s: Store, scores: Scores, filter: Option<Metadata -> bool>, topK: int)
    requires s.Valid() && TopHits(hits, s, scores, filter, topK)
    ensures forall i, j :: 0 <= i < j < |hits| ==> hits[i].id != hits[j].id && hits[j].score <= hits[i].score
  {
    var ps: seq<nat> :| TopHitsAt(ps, hits, s, scores, filter, topK);
    forall i, j | 0 <= i < j < |hits|
      ensures hits[i].id != hits[j].id && hits[j].score <= hits[i].score
    {
      assert HitAt(hits[i], s, scores, ps[i]) && HitAt(hits[j], s, scores, ps[j]) && Ahead(scores, ps[i], ps[j]);
    }
  }

  lemma BetterIsAhead(scores: Scores, a: Candidate, b: Candidate)
    requires Better(a, b) && a.score == scores(a.pos) && b.score == scores(b.pos)
    ensures Ahead(scores, a.pos, b.pos)
  {
  }

  // ---------------------------------------------------------------- adding a document and removing it again

  /** `t` is `s` with entries of one document added behind. */
  ghost predicate GrownBy(s: Store, t: Store, documentId: string) {
    && s.keys <= t.keys
    && (forall k :: k in t.entries <==> k in s.entries || k in t.keys[|s.keys|..])
    && (forall k :: k in s.entries ==> k in t.entries && t.entries[k] == s.entries[k])
    && (forall k :: k in t.keys[|s.keys|..] ==>
          k !in s.entries && k in t.entries && BelongsTo(t.entries[k], documentId))
  }

  lemma PutGrows(s: Store, t: Store, documentId: string, c: Chunk)
    requires s.Valid() && t.Valid() && GrownBy(s, t, documentId)
    requires c.id !in s.entries && BelongsTo(Entry(c.text, c.metadata), documentId)
    ensures GrownBy(s, Put(t, c.id, Entry(c.text, c.metadata)), documentId)
  {
    var u := Put(t, c.id, Entry(c.text, c.metadata));
    if c.id in t.entries {
      assert u.keys == t.keys;
    } else {
      assert u.keys[|s.keys|..] == t.keys[|s.keys|..] + [c.id];
    }
  }

  predicate FreshChunks(s: Store, chunks: seq<Chunk>, documentId: string) {
    forall c :: c in chunks ==> c.id !in s.entries && BelongsTo(Entry(c.text, c.metadata), documentId)
  }

  lemma {:induction false} PutAllGrows(s: Store, chunks: seq<Chunk>, documentId: string)
    requires s.Valid() && FreshChunks(s, chunks, documentId)
    ensures GrownBy(s, PutAll(s, chunks), documentId)
  {
    if chunks != [] {
      var rest, last := chunks[..|chunks| - 1], chunks[|chunks| - 1];
      assert last in chunks;
      PutAllGrows(s, rest, documentId);
      PutAllValid(s, rest);
      PutGrows(s, PutAll(s, rest), documentId, last);
    }
  }

  lemma OwnedIsSuffix(s: Store, t: Store, documentId: string)
    requires s.Valid() && t.Valid() && GrownBy(s, t, documentId)
    requires forall k :: k in s.entries ==> !BelongsTo(s.entries[k], documentId)
    ensures forall k :: k in t.keys ==> (k in Owned(t, t.keys, documentId) <==> k in t.keys[|s.keys|..])
  {
  }

  lemma MinusSuffix(keys: seq<string>, suffix: seq<string>, gone: seq<string>)
    requires forall k :: k in suffix ==> k in gone
    requires forall k :: k in keys ==> k !in gone
    ensures Minus(keys + suffix, gone) == keys
  {
    MinusConcat(keys, suffix, gone);
    MinusNone(keys, gone);
    MinusAll(suffix, gone);
  }

  lemma SameMap<T>(a: map<string, T>, b: map<string, T>)
    requires a.Keys == b.Keys && forall k :: k in b ==> a[k] == b[k]
    ensures a == b
  {
  }

  lemma DeleteSuffix(s: Store, t: Store, gone: seq<string>)
    requires s.Valid() && t.Valid() && s.keys <= t.keys
    requires forall k :: k in s.entries ==> k in t.entries && t.entries[k] == s.entries[k]
    requires forall k :: k in t.keys ==> (k in gone <==> k in t.keys[|s.keys|..])
    requires forall k :: k in t.keys[|s.keys|..] ==> k !in s.entries
    ensures Deleted(t, gone) == s
  {
    var suffix := t.keys[|s.keys|..];
    assert t.keys == s.keys + suffix;
    MinusSuffix(s.keys, suffix, gone);
    hide Minus;
    assert Deleted(t, gone).keys == s.keys;
    forall k ensures k in t.entries && k !in gone <==> k in s.entries {
      assert k in t.entries <==> k in s.keys || k in suffix;
    }
    var kept := Deleted(t, gone).entries;
    assert kept.Keys == s.entries.Keys;
    assert forall k :: k in s.entries ==> kept[k] == s.entries[k];
    hide Deleted;
    SameMap(kept, s.entries);
  }

  /** Removing a document right after its chunks were added under unused ids gives back the store, in the same order. */
  lemma AddThenRemove(s: Store, chunks: seq<Chunk>, documentId: string)
    requires s.Valid() && FreshChunks(s, chunks, documentId)
    requires forall k :: k in s.entries ==> !BelongsTo(s.entries[k], documentId)
    ensures PutAll(s, chunks).Valid()
    ensures Without(PutAll(s, chunks), documentId) == s
  {
    PutAllValid(s, chunks);
    PutAllGrows(s, chunks, documentId);
    var t := PutAll(s, chunks);
    OwnedIsSuffix(s, t, documentId);
    DeleteSuffix(s, t, Owned(t, t.keys, documentId));
  }

  // ---------------------------------------------------------------- the service

  lemma {:induction false} MinusShorter(keys: seq<string>, gone: seq<string>)
    ensures |Minus(keys, gone)| <= |keys|
    ensures (exists k :: k in keys && k in gone) ==> |Minus(keys, gone)| < |keys|
  {
    if keys != [] {
      MinusShorter(keys[..|keys| - 1], gone);
      assert keys == keys[..|keys| - 1] + [keys[|keys| - 1]];
    }
  }

  lemma PutNotEmpty(s: Store, chunks: seq<Chunk>)
    requires s.Valid() && chunks != []
    ensures PutAll(s, chunks).Valid() && PutAll(s, chunks).keys != []
  {
    PutAllValid(s, chunks);
    assert chunks[|chunks| - 1].id in PutAll(s, chunks).entries;
  }

  class BM25Service {
    const available: bool        // whether the scoring library could be imported
    const tokenize: Tokenizer
    var store: Store
    var bm25: Option<seq<seq<string>>>  // the corpus that the library's index was built from
    var indexIds: seq<string>

    /** What holds in every state, even after building the library's index has failed. */
    ghost predicate Usable()
      reads this
    {
      && store.Valid()
      && (bm25.Some? ==> available && indexIds == store.keys && store.keys != [])
    }

    /** Whenever there is an index, its ids are the stored ids, each once, and its corpus is their tokenised text. */
    ghost predicate Agrees()
      reads this
    {
      Usable() && (bm25.Some? ==> bm25.value == Corpus(tokenize, store))
    }

    /** The two agree, and there is an index if there can be one. */
    ghost predicate Valid()
      reads this
    {
      Agrees() && (available && store.keys != [] ==> bm25.Some?)
    }

    /** The instance stays in use even if its first index could not be built. */
    constructor (available: bool, tokenize: Tokenizer, loaded: Store, fails: bool)
      requires loaded.Valid()
      ensures Agrees() && this.available == available && this.tokenize == tokenize && store == loaded
      ensures !fails ==> Valid()
    {
      this.available, this.tokenize, store := available, tokenize, loaded;
      bm25, indexIds := None, [];
      new;
      if |store.keys| != 0 {
        var raised := RebuildIndex(fails);
      }
    }

    /** Building the library's index may raise; by then the new ids are in place. */
    method RebuildIndex(fails: bool) returns (raised: bool)
      requires store.Valid() && (available || bm25.None?)
      modifies this`bm25, this`indexIds
      ensures Usable() && (raised <==> available && store.keys != [] && fails)
      ensures indexIds == if available then store.keys else old(indexIds)
      ensures !raised ==> Valid()
      ensures raised ==> bm25 == old(bm25)
      ensures !raised && bm25.Some? ==> |bm25.value| == |store.keys| && forall i :: 0 <= i < |store.keys| ==>
        store.keys[i] in store.entries && bm25.value[i] == tokenize(store.entries[store.keys[i]].text)
    {
      if !available {
        return false;
      }
      if store.keys == [] {
        bm25, indexIds := None, [];
        return false;
      }
      indexIds := store.keys;
      var corpus := [];
      for i := 0 to |indexIds|
        invariant corpus == Corpus(tokenize, store)[..i]
      {
        assert indexIds[i] in store.keys;
        corpus := corpus + [tokenize(store.entries[indexIds[i]].text)];
      }
      if fails {
        return true;
      }
      bm25 := Some(corpus);
      return false;
    }

    /** After a failed rebuild the index is the old one, which agrees only if the texts still read the same. */
    method AddChunks(chunks: seq<Chunk>, fails: bool) returns (raised: bool)
      requires Usable()
      modifies this
      ensures Usable() && store == PutAll(old(store), chunks)
      ensures raised <==> available && chunks != [] && fails
      ensures old(Valid()) && !raised ==> Valid()
      ensures chunks != [] && !raised ==> Valid()
      ensures old(Agrees()) && raised ==>
        (Agrees() <==> old(bm25).None? || Corpus(tokenize, old(store)) == Corpus(tokenize, store))
    {
      if chunks == [] {
        return false;
      }
      PutNotEmpty(store, chunks);
      for i := 0 to |chunks|
        invariant store.Valid() && store == PutAll(old(store), chunks[..i])
        invariant bm25 == old(bm25)
      {
        var c := chunks[i];
        PutValid(store, c.id, Entry(c.text, c.metadata));
        store := Put(store, c.id, Entry(c.text, c.metadata));
        assert chunks[..i + 1][..i] == chunks[..i];
      }
      assert chunks[..|chunks|] == chunks;
      raised := RebuildIndex(fails);
    }

    /** After a failed rebuild the index still holds the removed texts. */
    method RemoveDocument(documentId: string, fails: bool) returns (raised: bool)
      requires Usable()
      modifies this
      ensures Usable() && store == Without(old(store), documentId)
      ensures raised <==> available && store != old(store) && store.keys != [] && fails
      ensures old(Valid()) && !raised ==> Valid()
      ensures store != old(store) && !raised ==> Valid()
      ensures old(Agrees()) && raised ==> (Agrees() <==> old(bm25).None?)
    {
      var idsToRemove := Owned(store, store.keys, documentId);
      if idsToRemove == [] {
        DeletedNothing(store);
        return false;
      }
      assert idsToRemove[0] in idsToRemove;
      MinusShorter(store.keys, idsToRemove);
      DeleteIds(idsToRemove);
      raised := RebuildIndex(fails);
    }

    method DeleteIds(ids: seq<string>)
      requires store.Valid()
      modifies this`store
      ensures store.Valid() && store == Deleted(old(store), ids)
    {
      DeletedNothing(store);
      hide Deleted;
      for i := 0 to |ids|
        invariant store.Valid() && store == Deleted(old(store), ids[..i])
      {
        DeletedValid(store, [ids[i]]);
        DeletedAgain(old(store), ids[..i], [ids[i]]);
        assert ids[..i + 1] == ids[..i] + [ids[i]];
        store := Deleted(store, [ids[i]]);
      }
      assert ids[..|ids|] == ids;
    }

    method ClearAll()
      requires Usable()
      modifies this
      ensures Valid() && store == EMPTY && indexIds == old(indexIds)
    {
      store := EMPTY;
      bm25 := None;
    }

    /** A position without a score raises; when store and index are in order, there is none. */
    method Search(score: Scorer, query: string, topK: int, filter: Option<Metadata -> bool>)
      returns (r: Result<seq<Hit>, ()>)
      requires Usable()
      ensures r.Err? <==> bm25.Some? && |bm25.value| < |store.keys|
      ensures bm25.None? ==> r == Ok([])
      ensures bm25.Some? && r.Ok? ==>
        r.value == Ranking(ScoresOf(score, bm25.value, tokenize(query)), store, topK, filter)
      ensures bm25.Some? && r.Ok? ==>
        var corpus, queryTokens := bm25.value, tokenize(query);
        TopHits(r.value, store, (p: nat) => score(corpus, queryTokens, p), filter, topK)
      ensures r.Ok? ==> forall i, j :: 0 <= i < j < |r.value| ==>
        r.value[i].id != r.value[j].id && r.value[j].score <= r.value[i].score
      ensures Valid() ==> r == Ok(SearchResults(available, score, tokenize, store, query, topK, filter))
    {
      if !available || bm25.None? || indexIds == [] {
        return Ok([]);
      }
      var scores := ScoresOf(score, bm25.value, tokenize(query));
      var candidates: seq<Candidate> := [];
      for i := 0 to |indexIds|
        invariant i <= |bm25.value| && candidates == Candidates(scores, store, filter, i)
      {
        if i >= |bm25.value| {
          return Err(());
        }
        if Passes(filter, store, i) {
          candidates := candidates + [Candidate(scores(i), i)];
        }
      }
      CandidatesExact(scores, store, filter, |indexIds|);
      SortRanked(candidates);
      candidates := Take(SortByScore(candidates), topK);
      RankingIsTopHits(scores, store, topK, filter);
      TopHitsInOrder(Ranking(scores, store, topK, filter), store, scores, filter, topK);
      hide TopHits;
      return Ok(ToHits(store, candidates));
    }
  }

  /** The chunks at the best positions. */
  function Ranking(scores: Scores, s: Store, topK: int, filter: Option<Metadata -> bool>): seq<Hit>
    requires s.Valid()
  {
    TopResults(scores, s, topK, filter);
    ToHits(s, Best(scores, s, topK, filter))
  }

  /** What a search answers: it depends on the store, not on how the store came about. */
  function SearchResults(available: bool, score: Scorer, tokenize: Tokenizer, s: Store, query: string, topK: int,
                         filter: Option<Metadata -> bool>): seq<Hit>
    requires s.Valid()
  {
    if !available || s.keys == [] then []
    else Ranking(ScoresOf(score, Corpus(tokenize, s), tokenize(query)), s, topK, filter)
  }
}
