/** Which documents fusion and the pass over several queries return, in terms of the lists themselves: how many, in
    which order, and which of several copies. */
module RetrievalResults {
  import opened StableSort
  import opened Retrieval
  import opened Wrappers

  // ---------------------------------------------------------------------
  // Fused scores
  // ---------------------------------------------------------------------

  /** A list adds 1 / (k + rank) for each place at which it names the id, ranks counting from 1; lists add up. */
  lemma {:induction false} ScoreSpelled(lists: seq<Ranking>, list: Ranking, k: int, id: string)
    requires (forall l :: l in lists ==> !(1 <= -k <= |l|)) && list != [] && !(1 <= -k <= |list|)
    ensures Score([], k, id) == 0.0 && ListScore([], k, id) == 0.0
    ensures Score(lists + [list], k, id) == Score(lists, k, id) + ListScore(list, k, id)
    ensures ListScore(list, k, id)
            == ListScore(list[..|list| - 1], k, id)
               + if list[|list| - 1] == id then 1.0 / ((k + |list|) as real) else 0.0
  {
    assert (lists + [list])[..|lists|] == lists;
  }

  // ---------------------------------------------------------------------
  // First appearance
  // ---------------------------------------------------------------------

  /** The lists name the id first at place a of list l. */
  ghost predicate FirstNamed(lists: seq<Ranking>, id: string, l: nat, a: nat) {
    && l < |lists| && a < |lists[l]| && lists[l][a] == id
    && (forall b :: 0 <= b < a ==> lists[l][b] != id)
    && forall m :: 0 <= m < l ==> id !in lists[m]
  }

  /** Where the ids that a list adds stand in it. */
  lemma {:induction false} EnteredPlaces(seen: seq<string>, list: Ranking) returns (at: seq<nat>)
    ensures var all := Entered(seen, list);
            && seen <= all && |at| == |all| - |seen|
            && (forall i :: 0 <= i < |at| ==> at[i] < |list| && list[at[i]] == all[|seen| + i])
            && (forall i, b :: 0 <= i < |at| && 0 <= b < at[i] ==> list[b] != all[|seen| + i])
            && (forall i, j :: 0 <= i < j < |at| ==> at[i] < at[j])
    ensures forall b :: 0 <= b < |list| ==> list[b] in Entered(seen, list)
  {
    at := [];
    if list != [] {
      var n := |list| - 1;
      at := EnteredPlaces(seen, list[..n]);
      var before := Entered(seen, list[..n]);
      forall b | 0 <= b < n ensures list[b] in before {
        assert list[..n][b] == list[b];
      }
      if list[n] !in before {
        at := at + [n];
      }
    }
  }

  /** The dictionary holds the ids in the order in which the lists first name them. */
  lemma {:induction false} EnteredInOrder(lists: seq<Ranking>, p: nat, q: nat, l: nat, a: nat, m: nat, b: nat)
    requires p < q < |AllEntered(lists)|
    requires FirstNamed(lists, AllEntered(lists)[p], l, a) && FirstNamed(lists, AllEntered(lists)[q], m, b)
    ensures l < m || (l == m && a < b)
  {
    hide Entered;
    var n := |lists| - 1;
    var before := AllEntered(lists[..n]);
    AllEnteredExact(lists[..n]);
    AllEnteredExact(lists);
    var at := EnteredPlaces(before, lists[n]);
    var x, y := AllEntered(lists)[p], AllEntered(lists)[q];
    NamedBefore(lists, x, l);
    NamedBefore(lists, y, m);
    if q < |before| {
      assert before[p] == x && before[q] == y && x in before && y in before;
      EnteredInOrder(lists[..n], p, q, l, a, m, b);
    } else if p < |before| {
      assert before[p] == x && x in before;
      assert y !in before by {
        assert forall i :: 0 <= i < |before| ==> before[i] == AllEntered(lists)[i];
      }
    } else {
      assert x !in before && y !in before by {
        assert forall i :: 0 <= i < |before| ==> before[i] == AllEntered(lists)[i];
      }
      assert at[p - |before|] == a && at[q - |before|] == b;
    }
  }

  /** The first list that names an id is the last list, or not, as the lists before it have it. */
  lemma {:induction false} NamedBefore(lists: seq<Ranking>, id: string, l: nat)
    requires l < |lists| && id in lists[l] && forall m :: 0 <= m < l ==> id !in lists[m]
    ensures l == |lists| - 1 <==> id !in AllEntered(lists[..|lists| - 1])
  {
    hide AllEntered;
    var n := |lists| - 1;
    AllEnteredExact(lists[..n]);
    if l < n {
      assert lists[..n][l] == lists[l] && lists[l] in lists[..n];
    }
  }

  // ---------------------------------------------------------------------
  // What fusion returns
  // ---------------------------------------------------------------------

  /** x goes before y: a higher fused score, or the same and named first. */
  ghost predicate Ahead(lists: seq<Ranking>, k: int, x: string, y: string)
    requires forall l :: l in lists ==> !(1 <= -k <= |l|)
  {
    || Score(lists, k, x) > Score(lists, k, y)
    || (&& Score(lists, k, x) == Score(lists, k, y)
        && forall l, a, m, b :: FirstNamed(lists, x, l, a) && FirstNamed(lists, y, m, b) ==> l < m || (l == m && a < b))
  }

  lemma {:induction false} DistinctCount(s: seq<string>)
    requires DistinctIds(s)
    ensures |set id | id in s| == |s|
  {
    var all := set id | id in s;
    if s == [] {
      assert all == {};
    } else {
      var n := |s| - 1;
      DistinctCount(s[..n]);
      assert s == s[..n] + [s[n]];
      assert all == (set id | id in s[..n]) + {s[n]};
      assert s[n] !in s[..n];
    }
  }

  /** The ids of the result: as many as asked for or as there are (a negative number cuts from the end), each once,
      and each ahead of all behind it and of all left out. This determines the result. */
  lemma {:induction false} FusedExact(lists: seq<Ranking>, k: int, topN: int)
    requires forall l :: l in lists ==> !(1 <= -k <= |l|)
    ensures var r, n := Fused(lists, k, topN), |set l, id | l in lists && id in l :: id|;
            && |r| == (if topN >= n then n else if topN >= 0 then topN else if n + topN >= 0 then n + topN else 0)
            && (forall i :: 0 <= i < |r| ==> exists l :: l in lists && r[i] in l)
            && (forall i, j :: 0 <= i < j < |r| ==> r[i] != r[j] && Ahead(lists, k, r[i], r[j]))
            && (forall i, l, y :: 0 <= i < |r| && l in lists && y in l && y !in r ==> Ahead(lists, k, r[i], y))
            && (forall l, y :: l in lists && y in l && y !in r && topN >= 0 ==> |r| == topN)
  {
    hide Ahead, Score, AllEntered, FirstNamed, SortDesc, Descending, Scorer;
    var r, entered, f := Fused(lists, k, topN), AllEntered(lists), Scorer(lists, k);
    var sorted := SortDesc(entered, f);
    AllEnteredExact(lists);
    ScorerIs(lists, k);
    DistinctCount(entered);
    FusedSound(lists, k, topN);
    assert (set id | id in entered) == set l, id | l in lists && id in l :: id;
    var at := SortPlaces(entered, f);
    assert r <= sorted;
    forall i, j | 0 <= i < j < |sorted| ensures sorted[i] != sorted[j] && Ahead(lists, k, sorted[i], sorted[j]) {
      AheadOf(lists, k, at[i], at[j]);
    }
    forall i | 0 <= i < |r| ensures exists l :: l in lists && r[i] in l {
      assert r[i] in r;
    }
    forall id | id in entered && id !in r ensures exists j :: |r| <= j < |sorted| && sorted[j] == id {
      var j := SortedHas(entered, f, id);
    }
  }

  lemma {:induction false} ScorerIs(lists: seq<Ranking>, k: int)
    requires forall l :: l in lists ==> !(1 <= -k <= |l|)
    ensures forall id :: Scorer(lists, k)(id) == Score(lists, k, id)
  {
  }

  lemma {:induction false} SortedHas(s: seq<string>, f: string -> real, x: string) returns (j: nat)
    requires x in s
    ensures j < |SortDesc(s, f)| && SortDesc(s, f)[j] == x
  {
    SortSorts(s, f);
    assert x in multiset(SortDesc(s, f));
    j :| 0 <= j < |SortDesc(s, f)| && SortDesc(s, f)[j] == x;
  }

  lemma {:induction false} AheadOf(lists: seq<Ranking>, k: int, p: nat, q: nat)
    requires (forall l :: l in lists ==> !(1 <= -k <= |l|)) && p < |AllEntered(lists)| && q < |AllEntered(lists)|
    requires var x, y := AllEntered(lists)[p], AllEntered(lists)[q];
             Score(lists, k, x) > Score(lists, k, y) || (Score(lists, k, x) == Score(lists, k, y) && p < q)
    ensures p != q && AllEntered(lists)[p] != AllEntered(lists)[q]
    ensures Ahead(lists, k, AllEntered(lists)[p], AllEntered(lists)[q])
  {
    hide AllEntered, Score, FirstNamed;
    AllEnteredExact(lists);
    var x, y := AllEntered(lists)[p], AllEntered(lists)[q];
    if p < q {
      forall l: nat, a: nat, m: nat, b: nat | FirstNamed(lists, x, l, a) && FirstNamed(lists, y, m, b)
        ensures l < m || (l == m && a < b)
      {
        EnteredInOrder(lists, p, q, l, a, m, b);
      }
    }
  }

  // ---------------------------------------------------------------------
  // What the pass over several queries returns
  // ---------------------------------------------------------------------

  /** Every query fuses with constant 60 and keeps five; its hits carry that score, whatever was stored before. */
  lemma {:induction false} HitsExact(search: Search)
    ensures |Hits(search)| == |Fused(Rankings(search), 60, 5)|
    ensures forall i :: 0 <= i < |Hits(search)| ==>
              && Hits(search)[i].doc.docId == Fused(Rankings(search), 60, 5)[i]
              && Hits(search)[i].score == Score(Rankings(search), 60, Hits(search)[i].doc.docId)
              && LastListed(search, Hits(search)[i].doc)
  {
    hide Score, LastOf, Flatten, Fused, Rankings, Hits, LastListed;
    HitsAre(search);
    forall i | 0 <= i < |Hits(search)| ensures LastListed(search, Hits(search)[i].doc) {
      assert Hits(search)[i] in Hits(search);
      LastOfListed(search, Hits(search)[i].doc);
    }
  }

  /** A query adds its hits behind those of the queries before it. */
  lemma {:induction false} HitsJoin(searches: seq<Search>, search: Search)
    ensures AllHits([]) == [] && AllHits(searches + [search]) == AllHits(searches) + Hits(search)
  {
    hide Hits;
    assert (searches + [search])[..|searches|] == searches;
  }

  /** The entry kept for a document: the first of its hits that no other hit of it outscores. */
  ghost predicate Winner(hits: seq<Hit>, b: Hit, a: nat) {
    && a < |hits| && hits[a] == b
    && forall i | 0 <= i < |hits| && i != a && hits[i].doc.docId == b.doc.docId
                  && (b.doc.docId != "" || hits[i].doc == b.doc) ::
         if i < a then hits[i].score < b.score else hits[i].score <= b.score
  }

  /** Document d has its first hit at place a. */
  ghost predicate FirstHit(hits: seq<Hit>, d: Document, a: nat) {
    && a < |hits| && hits[a].doc.docId == d.docId && (d.docId != "" || hits[a].doc == d)
    && forall i | 0 <= i < a :: hits[i].doc.docId != d.docId || (d.docId == "" && hits[i].doc != d)
  }

  /** After any number of hits: entries are winners, in the order of the first hits of their documents. */
  ghost predicate Standing(hits: seq<Hit>, best: seq<Hit>, win: seq<nat>, first: seq<nat>) {
    && |win| == |first| == |best|
    && (forall i :: 0 <= i < |best| ==> Winner(hits, best[i], win[i]) && FirstHit(hits, best[i].doc, first[i]))
    && (forall i, j :: 0 <= i < j < |best| ==> first[i] < first[j])
  }

  lemma {:induction false} KeySpelled(d: Document, e: Document)
    ensures KeyOf(d) == KeyOf(e) <==> d.docId == e.docId && (d.docId != "" || d == e)
  {
  }

  lemma {:induction false} OneMoreStanding(hits: seq<Hit>, h: Hit, best: seq<Hit>, win: seq<nat>, first: seq<nat>)
    returns (win': seq<nat>, first': seq<nat>)
    requires Standing(hits, best, win, first) && DistinctKeys(best) && forall x :: x in hits ==> Covers(best, x)
    ensures Standing(hits + [h], Keep(best, h), win', first')
  {
    hide Standing, Keep, DistinctKeys, Covers, KeyOf;
    if i: nat :| i < |best| && KeyOf(best[i].doc) == KeyOf(h.doc) {
      KeepFound(best, h, i);
      win', first' := StandingFound(hits, h, best, win, first, i);
    } else {
      KeepNew(best, h);
      forall x | x in hits ensures KeyOf(x.doc) != KeyOf(h.doc) {
        CoveredKey(best, x);
      }
      win', first' := StandingNew(hits, h, best, win, first);
    }
  }

  lemma {:induction false} CoveredKey(best: seq<Hit>, x: Hit)
    requires Covers(best, x)
    ensures exists i :: 0 <= i < |best| && KeyOf(best[i].doc) == KeyOf(x.doc)
  {
    hide KeyOf;
    var b :| b in best && KeyOf(b.doc) == KeyOf(x.doc) && b.score >= x.score;
    var i :| 0 <= i < |best| && best[i] == b;
  }

  lemma {:induction false} WinnerStays(hits: seq<Hit>, h: Hit, b: Hit, a: nat)
    requires Winner(hits, b, a) && (KeyOf(h.doc) != KeyOf(b.doc) || h.score <= b.score)
    ensures Winner(hits + [h], b, a)
  {
    KeySpelled(h.doc, b.doc);
  }

  lemma {:induction false} WinnerLoses(hits: seq<Hit>, h: Hit, b: Hit, a: nat)
    requires Winner(hits, b, a) && KeyOf(h.doc) == KeyOf(b.doc) && h.score > b.score
    ensures Winner(hits + [h], h, |hits|)
  {
    KeySpelled(h.doc, b.doc);
    var more := hits + [h];
    forall i: nat | i < |hits| && hits[i].doc.docId == h.doc.docId && (h.doc.docId != "" || hits[i].doc == h.doc)
      ensures more[i].score < h.score
    {
      assert more[i] == hits[i];
    }
  }

  lemma {:induction false} FirstStays(hits: seq<Hit>, h: Hit, d: Document, a: nat)
    requires FirstHit(hits, d, a)
    ensures FirstHit(hits + [h], d, a)
    ensures KeyOf(h.doc) == KeyOf(d) ==> FirstHit(hits + [h], h.doc, a)
  {
    KeySpelled(h.doc, d);
  }

  lemma {:induction false} StandingFound(hits: seq<Hit>, h: Hit, best: seq<Hit>, win: seq<nat>, first: seq<nat>, i: nat)
    returns (win': seq<nat>, first': seq<nat>)
    requires Standing(hits, best, win, first) && DistinctKeys(best) && i < |best| && KeyOf(best[i].doc) == KeyOf(h.doc)
    ensures Standing(hits + [h], best[i := if h.score > best[i].score then h else best[i]], win', first')
  {
    hide Winner, FirstHit, KeyOf;
    win', first' := if h.score > best[i].score then win[i := |hits|] else win, first;
    var best' := best[i := if h.score > best[i].score then h else best[i]];
    forall j: nat | j < |best|
      ensures Winner(hits + [h], best'[j], win'[j]) && FirstHit(hits + [h], best'[j].doc, first'[j])
    {
      FirstStays(hits, h, best[j].doc, first[j]);
      if j == i && h.score > best[i].score {
        WinnerLoses(hits, h, best[j], win[j]);
      } else {
        assert j != i ==> KeyOf(h.doc) != KeyOf(best[j].doc);
        WinnerStays(hits, h, best[j], win[j]);
      }
    }
  }

  lemma {:induction false} StandingNew(hits: seq<Hit>, h: Hit, best: seq<Hit>, win: seq<nat>, first: seq<nat>)
    returns (win': seq<nat>, first': seq<nat>)
    requires Standing(hits, best, win, first) && forall x :: x in hits ==> KeyOf(x.doc) != KeyOf(h.doc)
    ensures Standing(hits + [h], best + [h], win', first')
  {
    hide Winner, FirstHit, KeyOf;
    win', first' := win + [|hits|], first + [|hits|];
    forall j: nat | j < |best|
      ensures Winner(hits + [h], best[j], win[j]) && FirstHit(hits + [h], best[j].doc, first[j]) && first[j] < |hits|
    {
      PlaceOfWinner(hits, best[j], win[j], first[j]);
      FirstStays(hits, h, best[j].doc, first[j]);
      WinnerStays(hits, h, best[j], win[j]);
    }
    NewHit(hits, h);
  }

  lemma {:induction false} PlaceOfWinner(hits: seq<Hit>, b: Hit, a: nat, f: nat)
    requires Winner(hits, b, a) && FirstHit(hits, b.doc, f)
    ensures b in hits && f < |hits|
  {
  }

  lemma {:induction false} NewHit(hits: seq<Hit>, h: Hit)
    requires forall x :: x in hits ==> KeyOf(x.doc) != KeyOf(h.doc)
    ensures Winner(hits + [h], h, |hits|) && FirstHit(hits + [h], h.doc, |hits|)
  {
    forall i | 0 <= i < |hits| ensures (hits + [h])[i].doc.docId != h.doc.docId || (h.doc.docId == "" && hits[i].doc != h.doc) {
      assert hits[i] in hits;
      KeySpelled(hits[i].doc, h.doc);
    }
  }

  lemma {:induction false} BestStanding(hits: seq<Hit>) returns (win: seq<nat>, first: seq<nat>)
    ensures Standing(hits, Best(hits), win, first)
  {
    hide Standing, Keep, DistinctKeys, Covers;
    if hits == [] {
      win, first := [], [];
      NothingStanding();
    } else {
      var n := |hits| - 1;
      win, first := BestStanding(hits[..n]);
      BestExact(hits[..n]);
      win, first := OneMoreStanding(hits[..n], hits[n], Best(hits[..n]), win, first);
      assert hits == hits[..n] + [hits[n]];
    }
  }

  lemma {:induction false} NothingStanding()
    ensures Standing([], Best([]), [], [])
  {
  }

  /** What the pass returns, in terms of the hits of the queries in turn: for each document (the same id, or the same
      object if the id is empty) the first of its best hits; entries by descending score, ties in the order in which
      the documents were first hit. This determines the list. */
  lemma {:induction false} RankedInOrder(searches: seq<Search>) returns (win: seq<nat>, first: seq<nat>)
    ensures var hits, r := AllHits(searches), Ranked(searches);
            && |win| == |first| == |r|
            && (forall i :: 0 <= i < |r| ==> Winner(hits, r[i], win[i]) && FirstHit(hits, r[i].doc, first[i]))
            && (forall i, j :: 0 <= i < j < |r| ==>
                  first[i] != first[j]
                  && (r[i].score > r[j].score || (r[i].score == r[j].score && first[i] < first[j])))
    ensures forall h | h in AllHits(searches) ::
              exists b :: b in Ranked(searches) && b.doc.docId == h.doc.docId && (h.doc.docId != "" || b.doc == h.doc)
  {
    hide Winner, FirstHit, AllHits, Best, SortDesc, Covers, DistinctKeys, KeyOf, Descending;
    var hits, best, r := AllHits(searches), Best(AllHits(searches)), Ranked(searches);
    var win0, first0 := BestStanding(hits);
    var at := SortPlaces(best, HitScore());
    win := seq(|r|, i requires 0 <= i < |r| => win0[at[i]]);
    first := seq(|r|, i requires 0 <= i < |r| => first0[at[i]]);
    forall i, j | 0 <= i < j < |r| ensures first[i] != first[j] {
      assert at[i] != at[j];
      assert if at[i] < at[j] then first0[at[i]] < first0[at[j]] else first0[at[j]] < first0[at[i]];
    }
    RankedExact(searches);
    forall h | h in hits
      ensures exists b :: b in r && b.doc.docId == h.doc.docId && (h.doc.docId != "" || b.doc == h.doc)
    {
      CoveredDoc(r, h);
    }
  }

  lemma {:induction false} CoveredDoc(r: seq<Hit>, h: Hit)
    requires Covers(r, h)
    ensures exists b :: b in r && b.doc.docId == h.doc.docId && (h.doc.docId != "" || b.doc == h.doc)
  {
    var b :| b in r && KeyOf(b.doc) == KeyOf(h.doc) && b.score >= h.score;
    KeySpelled(b.doc, h.doc);
  }

  /** A single query returns its hits as they are: the five best ids, or all if there are fewer. */
  lemma {:induction false} OneQuery(search: Search)
    ensures Ranked([search]) == Hits(search)
    ensures var n := |set l, id | l in Rankings(search) && id in l :: id|;
            |Ranked([search])| == if n < 5 then n else 5
  {
    hide Hits, Fused, Score, Rankings, SortDesc, Best;
    var hits := Hits(search);
    HitsJoin([], search);
    assert [] + [search] == [search] && [] + hits == hits;
    HitsExact(search);
    FusedExact(Rankings(search), 60, 5);
    FusedSound(Rankings(search), 60, 5);
    forall i, j | 0 <= i < j < |hits| ensures KeyOf(hits[i].doc) != KeyOf(hits[j].doc) {
      KeySpelled(hits[i].doc, hits[j].doc);
    }
    BestOfDistinct(hits);
    HitsDescend(search);
    SortOfSorted(hits);
  }

  lemma {:induction false} HitsDescend(search: Search)
    ensures Descending(Hits(search), HitScore())
  {
    hide Hits, Fused, Score, Rankings;
    HitsExact(search);
    FusedSound(Rankings(search), 60, 5);
    ScorerIs(Rankings(search), 60);
    var ids := Fused(Rankings(search), 60, 5);
    forall i, j | 0 <= i < j < |Hits(search)| ensures HitScore()(Hits(search)[i]) >= HitScore()(Hits(search)[j]) {
      DescendingAt(ids, Scorer(Rankings(search), 60), i, j);
    }
  }

  lemma {:induction false} BestOfDistinct(hits: seq<Hit>)
    requires DistinctKeys(hits)
    ensures Best(hits) == hits
  {
    hide Keep, KeyOf;
    if hits != [] {
      var n := |hits| - 1;
      BestOfDistinct(hits[..n]);
      KeepNew(hits[..n], hits[n]);
      assert hits == hits[..n] + [hits[n]];
    }
  }

  lemma {:induction false} SortOfSorted(hits: seq<Hit>)
    requires Descending(hits, HitScore())
    ensures SortDesc(hits, HitScore()) == hits
  {
    hide Descending, SortDesc, WithScore;
    SortSorts(hits, HitScore());
    forall v ensures WithScore(SortDesc(hits, HitScore()), HitScore(), v) == WithScore(hits, HitScore(), v) {
      SortKeepsClass(hits, HitScore(), v);
    }
    StableSortIsUnique(SortDesc(hits, HitScore()), hits, HitScore());
  }
}
