/** Reciprocal rank fusion over shared document objects, and the multi-query pass that keeps each
    document once with its best score. */
module Retrieval {
  import opened StableSort
  import opened Wrappers

  /** A retrieved document. Lists share these objects; fusing rewrites their score in place. */
  class Document {
    const docId: string
    const content: string
    var score: real

    constructor (docId: string, content: string)
      ensures this.docId == docId && this.content == content && score == 0.0
    {
      this.docId := docId;
      this.content := content;
      score := 0.0;
    }
  }

  // ---------------------------------------------------------------------
  // The score, on ids
  // ---------------------------------------------------------------------

  type Ranking = seq<string>

  /** No rank of the list makes the denominator zero. */
  predicate Divides(k: int, n: nat) {
    !(1 <= -k <= n)
  }

  /** The sum of 1 / (k + rank) over the ranks at which the list names the document. */
  function ListScore(list: Ranking, k: int, id: string): real
    requires Divides(k, |list|)
  {
    if list == [] then 0.0 else
      var n := |list| - 1;
      ListScore(list[..n], k, id) + if list[n] == id then 1.0 / ((k + |list|) as real) else 0.0
  }

  /** The fused score: the sum over all lists. */
  function Score(lists: seq<Ranking>, k: int, id: string): real
    requires forall l :: l in lists ==> Divides(k, |l|)
  {
    if lists == [] then 0.0 else
      Score(lists[..|lists| - 1], k, id) + ListScore(lists[|lists| - 1], k, id)
  }

  lemma {:induction false} ScoreJoins(a: seq<Ranking>, b: seq<Ranking>, k: int, id: string)
    requires (forall l :: l in a ==> Divides(k, |l|)) && (forall l :: l in b ==> Divides(k, |l|))
    ensures Score(a + b, k, id) == Score(a, k, id) + Score(b, k, id)
  {
    if b == [] {
      assert a + b == a;
    } else {
      var n := |b| - 1;
      ScoreJoins(a, b[..n], k, id);
      assert (a + b)[..|a + b| - 1] == a + b[..n];
    }
  }

  /** Taking one list out, wherever it stands, takes its score out. */
  lemma {:induction false} ScoreWithout(lists: seq<Ranking>, i: nat, k: int, id: string)
    requires i < |lists| && forall l :: l in lists ==> Divides(k, |l|)
    ensures forall l :: l in lists[..i] + lists[i + 1..] ==> Divides(k, |l|)
    ensures Score(lists, k, id) == Score(lists[..i] + lists[i + 1..], k, id) + ListScore(lists[i], k, id)
  {
    hide Divides, ListScore;
    var before, one, after := lists[..i], [lists[i]], lists[i + 1..];
    assert lists == before + (one + after);
    assert one[..0] == [];
    ScoreJoins(before, one + after, k, id);
    ScoreJoins(one, after, k, id);
    ScoreJoins(before, after, k, id);
  }

  lemma {:induction false} OneLess<T>(a: seq<T>, i: nat)
    requires i < |a|
    ensures multiset(a[..i] + a[i + 1..]) == multiset(a) - multiset{a[i]}
  {
    assert a == a[..i] + [a[i]] + a[i + 1..];
  }

  lemma {:induction false} RemoveSame<T>(a: seq<T>, b: seq<T>, i: nat)
    requires a != [] && multiset(a) == multiset(b) && i < |b| && b[i] == a[|a| - 1]
    ensures multiset(a[..|a| - 1]) == multiset(b[..i] + b[i + 1..])
  {
    OneLess(a, |a| - 1);
    OneLess(b, i);
    assert a[..|a| - 1] + a[|a|..] == a[..|a| - 1];
  }

  /** The fused score does not depend on the order in which the lists are given. */
  lemma {:induction false} ScoreIgnoresListOrder(a: seq<Ranking>, b: seq<Ranking>, k: int, id: string)
    requires multiset(a) == multiset(b)
    requires (forall l :: l in a ==> Divides(k, |l|)) && (forall l :: l in b ==> Divides(k, |l|))
    ensures Score(a, k, id) == Score(b, k, id)
    decreases |a|
  {
    hide Divides, ListScore;
    if a != [] {
      var n := |a| - 1;
      assert a[n] in multiset(b);
      var i :| 0 <= i < |b| && b[i] == a[n];
      RemoveSame(a, b, i);
      ScoreWithout(b, i, k, id);
      ScoreIgnoresListOrder(a[..n], b[..i] + b[i + 1..], k, id);
    } else {
      assert |multiset(b)| == 0;
    }
  }

  // ---------------------------------------------------------------------
  // Better ranks, better place
  // ---------------------------------------------------------------------

  predicate DistinctIds(s: seq<string>) {
    forall i, j :: 0 <= i < j < |s| ==> s[i] != s[j]
  }

  /** In this list d is ranked at least as well as e: wherever e is, d is before it. */
  predicate NoWorse(list: Ranking, d: string, e: string) {
    forall j :: 0 <= j < |list| && list[j] == e ==> d in list[..j]
  }

  lemma {:induction false} ListScoreAt(list: Ranking, k: nat, id: string, i: nat)
    requires DistinctIds(list) && i < |list| && list[i] == id
    ensures ListScore(list, k, id) == 1.0 / ((k + i + 1) as real)
  {
    var n := |list| - 1;
    if i == n {
      assert forall j :: 0 <= j < n ==> list[j] != list[n];
      ListScoreAbsent(list[..n], k, id);
    } else {
      assert list[n] != list[i];
      ListScoreAt(list[..n], k, id, i);
    }
  }

  lemma {:induction false} ListScoreAbsent(list: Ranking, k: nat, id: string)
    requires id !in list
    ensures ListScore(list, k, id) == 0.0
  {
    if list != [] {
      assert list[|list| - 1] in list;
      ListScoreAbsent(list[..|list| - 1], k, id);
    }
  }

  lemma {:induction false} ReciprocalFalls(a: nat, b: nat)
    requires 0 < a < b
    ensures 0.0 < 1.0 / (b as real) < 1.0 / (a as real)
  {
    var x, y := a as real, b as real;
    var p, q := 1.0 / x, 1.0 / y;
    assert p * x == 1.0 && q * y == 1.0;
    if q >= p {
      MulLess(p, x, y);
    }
  }

  lemma {:induction false} MulLess(p: real, x: real, y: real)
    requires p > 0.0 && x < y
    ensures p * x < p * y
  {
  }

  /** In one list, no worse a rank gives no less a score, and a place in the list gives strictly more. */
  lemma {:induction false} ListDominates(list: Ranking, k: nat, d: string, e: string)
    requires DistinctIds(list) && d != e && NoWorse(list, d, e)
    ensures ListScore(list, k, d) >= ListScore(list, k, e)
    ensures d in list ==> ListScore(list, k, d) > ListScore(list, k, e)
  {
    if e in list {
      var j :| 0 <= j < |list| && list[j] == e;
      var i :| 0 <= i < j && list[..j][i] == d;
      ListScoreAt(list, k, e, j);
      ListScoreAt(list, k, d, i);
      ReciprocalFalls(k + i + 1, k + j + 1);
    } else {
      ListScoreAbsent(list, k, e);
      if d in list {
        var i :| 0 <= i < |list| && list[i] == d;
        ListScoreAt(list, k, d, i);
        ReciprocalFalls(k + i + 1, k + i + 2);
      } else {
        ListScoreAbsent(list, k, d);
      }
    }
  }

  /** A document that no list ranks below another, and some list ranks at all, scores strictly higher. */
  lemma {:induction false} Dominates(lists: seq<Ranking>, k: nat, d: string, e: string)
    requires d != e && forall l :: l in lists ==> DistinctIds(l)
    requires forall l, j :: l in lists && 0 <= j < |l| && l[j] == e ==> d in l[..j]
    ensures Score(lists, k, d) >= Score(lists, k, e)
    ensures (exists l :: l in lists && d in l) ==> Score(lists, k, d) > Score(lists, k, e)
  {
    if lists != [] {
      var n := |lists| - 1;
      assert lists == lists[..n] + [lists[n]];
      Dominates(lists[..n], k, d, e);
      assert lists[n] in lists;
      ListDominates(lists[n], k, d, e);
    }
  }

  // ---------------------------------------------------------------------
  // Fusion on ids
  // ---------------------------------------------------------------------

  /** The ids of the lists in order of first appearance: the order of the score dictionary. */
  function Entered(seen: seq<string>, list: Ranking): seq<string> {
    if list == [] then seen else
      var before, id := Entered(seen, list[..|list| - 1]), list[|list| - 1];
      if id in before then before else before + [id]
  }

  function AllEntered(lists: seq<Ranking>): seq<string> {
    if lists == [] then [] else Entered(AllEntered(lists[..|lists| - 1]), lists[|lists| - 1])
  }

  /** `s[:n]`, negative n counting from the end. */
  function Take<T>(s: seq<T>, n: int): seq<T> {
    if n >= |s| then s else if n >= 0 then s[..n] else if |s| + n >= 0 then s[..|s| + n] else []
  }

  function Scorer(lists: seq<Ranking>, k: int): string -> real
    requires forall l :: l in lists ==> Divides(k, |l|)
  {
    id => if forall l :: l in lists ==> Divides(k, |l|) then Score(lists, k, id) else 0.0
  }

  /** Ids by descending fused score, ties in order of first appearance, cut to the first n. */
  function Fused(lists: seq<Ranking>, k: int, topN: int): seq<string>
    requires forall l :: l in lists ==> Divides(k, |l|)
  {
    Take(SortDesc(AllEntered(lists), Scorer(lists, k)), topN)
  }

  lemma {:induction false} EnteredExact(seen: seq<string>, list: Ranking)
    requires DistinctIds(seen)
    ensures DistinctIds(Entered(seen, list))
    ensures forall id :: id in Entered(seen, list) <==> id in seen || id in list
  {
    if list != [] {
      var n := |list| - 1;
      EnteredExact(seen, list[..n]);
      assert list == list[..n] + [list[n]];
    }
  }

  lemma {:induction false} AllEnteredExact(lists: seq<Ranking>)
    ensures DistinctIds(AllEntered(lists))
    ensures forall id :: id in AllEntered(lists) <==> exists l :: l in lists && id in l
  {
    if lists != [] {
      var n := |lists| - 1;
      AllEnteredExact(lists[..n]);
      EnteredExact(AllEntered(lists[..n]), lists[n]);
      assert lists == lists[..n] + [lists[n]];
    }
  }

  lemma {:induction false} DistinctByMultiset(a: seq<string>, b: seq<string>)
    requires DistinctIds(a) && multiset(a) == multiset(b)
    ensures DistinctIds(b)
  {
    forall i, j | 0 <= i < j < |b| ensures b[i] != b[j] {
      if b[i] == b[j] {
        assert b == b[..i] + [b[i]] + b[i + 1..j] + [b[j]] + b[j + 1..];
        assert multiset(b)[b[i]] >= 2;
        OnceEach(a, b[i]);
      }
    }
  }

  lemma {:induction false} OnceEach(a: seq<string>, x: string)
    requires DistinctIds(a)
    ensures multiset(a)[x] <= 1
  {
    if a != [] {
      var n := |a| - 1;
      OnceEach(a[..n], x);
      assert a == a[..n] + [a[n]];
      if a[n] == x {
        assert x !in a[..n];
      }
    }
  }

  lemma {:induction false} SortedEntries(lists: seq<Ranking>, k: int)
    requires forall l :: l in lists ==> Divides(k, |l|)
    ensures var sorted := SortDesc(AllEntered(lists), Scorer(lists, k));
            && DistinctIds(sorted) && Descending(sorted, Scorer(lists, k))
            && forall id :: id in sorted <==> exists l :: l in lists && id in l
  {
    hide Divides;
    var all, f := AllEntered(lists), Scorer(lists, k);
    var sorted := SortDesc(all, f);
    AllEnteredExact(lists);
    SortSorts(all, f);
    DistinctByMultiset(all, sorted);
    forall id ensures id in sorted <==> id in all {
      assert id in sorted <==> id in multiset(sorted);
      assert id in all <==> id in multiset(all);
    }
  }

  /** What fusion returns: retrieved ids, each once, best score first. */
  lemma {:induction false} FusedSound(lists: seq<Ranking>, k: int, topN: int)
    requires forall l :: l in lists ==> Divides(k, |l|)
    ensures DistinctIds(Fused(lists, k, topN)) && Descending(Fused(lists, k, topN), Scorer(lists, k))
    ensures forall id :: id in Fused(lists, k, topN) ==> exists l :: l in lists && id in l
  {
    hide Divides, Scorer;
    SortedEntries(lists, k);
    var sorted := SortDesc(AllEntered(lists), Scorer(lists, k));
    var r := Fused(lists, k, topN);
    assert r <= sorted;
    forall i | 0 <= i < |r| ensures r[i] == sorted[i] && r[i] in sorted {
    }
  }

  /** No omitted document beats a kept one. */
  lemma {:induction false} KeptBeatsOmitted(lists: seq<Ranking>, k: int, topN: int, kept: string, other: string)
    requires forall l :: l in lists ==> Divides(k, |l|)
    requires kept in Fused(lists, k, topN) && exists l :: l in lists && other in l
    ensures other in Fused(lists, k, topN) || Score(lists, k, kept) >= Score(lists, k, other)
  {
    hide Divides;
    SortedEntries(lists, k);
    var f := Scorer(lists, k);
    var sorted := SortDesc(AllEntered(lists), f);
    var r := Fused(lists, k, topN);
    assert r <= sorted;
    var i :| 0 <= i < |r| && r[i] == kept;
    assert other in sorted;
    var j :| 0 <= j < |sorted| && sorted[j] == other;
    assert sorted[i] == kept;
    if j >= |r| {
      DescendingAt(sorted, f, i, j);
    } else {
      assert r[j] == sorted[j];
    }
  }

  lemma {:induction false} DescendingAt(s: seq<string>, f: string -> real, i: nat, j: nat)
    requires Descending(s, f) && i < j < |s|
    ensures f(s[i]) >= f(s[j])
  {
  }

  /** A dominating document is kept whenever the dominated one is, and stands before it. */
  lemma {:induction false} DominatorFirst(lists: seq<Ranking>, k: nat, topN: int, d: string, e: string, j: nat)
    requires d != e && forall l :: l in lists ==> DistinctIds(l)
    requires forall l, i :: l in lists && 0 <= i < |l| && l[i] == e ==> d in l[..i]
    requires exists l :: l in lists && d in l
    requires j < |Fused(lists, k, topN)| && Fused(lists, k, topN)[j] == e
    ensures d in Fused(lists, k, topN)[..j]
  {
    hide Descending, Fused;
    var r, f := Fused(lists, k, topN), Scorer(lists, k);
    FusedSound(lists, k, topN);
    Dominates(lists, k, d, e);
    assert e in r;
    KeptBeatsOmitted(lists, k, topN, e, d);
    var i :| 0 <= i < |r| && r[i] == d;
    if i < j {
      assert r[..j][i] == d;
    } else if j < i {
      DescendingAt(r, f, j, i);
    }
  }

  // ---------------------------------------------------------------------
  // Fusion on shared objects
  // ---------------------------------------------------------------------

  function IdsOf(docs: seq<Document>): (ids: Ranking)
    ensures |ids| == |docs| && forall i :: 0 <= i < |docs| ==> ids[i] == docs[i].docId
  {
    if docs == [] then [] else IdsOf(docs[..|docs| - 1]) + [docs[|docs| - 1].docId]
  }

  function Rankings(lists: seq<seq<Document>>): (rs: seq<Ranking>)
    ensures |rs| == |lists| && forall i :: 0 <= i < |lists| ==> rs[i] == IdsOf(lists[i])
  {
    if lists == [] then [] else Rankings(lists[..|lists| - 1]) + [IdsOf(lists[|lists| - 1])]
  }

  function Flatten(lists: seq<seq<Document>>): seq<Document> {
    if lists == [] then [] else Flatten(lists[..|lists| - 1]) + lists[|lists| - 1]
  }

  function DocsOf(lists: seq<seq<Document>>): set<Document> {
    set l, d | l in lists && d in l :: d
  }

  lemma {:induction false} FlattenDocs(lists: seq<seq<Document>>)
    ensures forall d :: d in Flatten(lists) ==> d in DocsOf(lists)
    ensures forall d :: d in DocsOf(lists) ==> d in Flatten(lists)
  {
    if lists != [] {
      var n := |lists| - 1;
      FlattenDocs(lists[..n]);
      assert lists == lists[..n] + [lists[n]];
    }
  }

  /** The last document with an id: later lists overwrite earlier ones. */
  function LastOf(docs: seq<Document>, id: string): Option<Document> {
    if docs == [] then None
    else if docs[|docs| - 1].docId == id then Some(docs[|docs| - 1])
    else LastOf(docs[..|docs| - 1], id)
  }

  /** The document stands somewhere in the lists, and no later place holds one with its id. */
  ghost predicate LastListed(lists: seq<seq<Document>>, d: Document) {
    exists l, j :: 0 <= l < |lists| && 0 <= j < |lists[l]| && lists[l][j] == d
                   && (forall i :: j < i < |lists[l]| ==> lists[l][i].docId != d.docId)
                   && forall m, i :: l < m < |lists| && 0 <= i < |lists[m]| ==> lists[m][i].docId != d.docId
  }

  lemma {:induction false} LastOfList(docs: seq<Document>, id: string) returns (j: nat)
    requires LastOf(docs, id).Some?
    ensures j < |docs| && docs[j] == LastOf(docs, id).value && forall i :: j < i < |docs| ==> docs[i].docId != id
  {
    var n := |docs| - 1;
    if docs[n].docId == id {
      j := n;
    } else {
      j := LastOfList(docs[..n], id);
      assert forall i :: 0 <= i < n ==> docs[i] == docs[..n][i];
    }
  }

  lemma {:induction false} LastOfJoined(a: seq<Document>, b: seq<Document>, id: string)
    ensures LastOf(a + b, id) == if LastOf(b, id).Some? then LastOf(b, id) else LastOf(a, id)
  {
    if b == [] {
      assert a + b == a;
    } else {
      assert (a + b)[..|a + b| - 1] == a + b[..|b| - 1];
      LastOfJoined(a, b[..|b| - 1], id);
    }
  }

  lemma {:induction false} LastOfListed(lists: seq<seq<Document>>, d: Document)
    requires LastOf(Flatten(lists), d.docId) == Some(d)
    ensures LastListed(lists, d)
  {
    hide LastOf;
    if lists == [] {
      LastOfNothing(d.docId);
    } else {
      var n := |lists| - 1;
      LastOfJoined(Flatten(lists[..n]), lists[n], d.docId);
      if LastOf(lists[n], d.docId).Some? {
        var j := LastOfList(lists[n], d.docId);
      } else {
        LastOfListed(lists[..n], d);
        LastOfAbsent(lists[n], d.docId);
        var l, j :| 0 <= l < n && 0 <= j < |lists[..n][l]| && lists[..n][l][j] == d
                    && (forall i :: j < i < |lists[..n][l]| ==> lists[..n][l][i].docId != d.docId)
                    && forall m, i :: l < m < n && 0 <= i < |lists[..n][m]| ==> lists[..n][m][i].docId != d.docId;
        assert lists[l] == lists[..n][l];
        forall m, i | l < m < |lists| && 0 <= i < |lists[m]| ensures lists[m][i].docId != d.docId {
          if m < n { assert lists[..n][m][i] == lists[m][i]; }
        }
      }
    }
  }

  lemma {:induction false} AllLastListed(lists: seq<seq<Document>>, docs: seq<Document>)
    requires forall d :: d in docs ==> LastOf(Flatten(lists), d.docId) == Some(d)
    ensures forall d :: d in docs ==> LastListed(lists, d)
  {
    hide LastListed, LastOf, Flatten;
    forall d | d in docs ensures LastListed(lists, d) {
      LastOfListed(lists, d);
    }
  }

  lemma {:induction false} LastOfNothing(id: string)
    ensures LastOf([], id) == None
  {
  }

  lemma {:induction false} LastOfAbsent(docs: seq<Document>, id: string)
    requires LastOf(docs, id).None?
    ensures forall i :: 0 <= i < |docs| ==> docs[i].docId != id
  {
    if docs != [] {
      LastOfAbsent(docs[..|docs| - 1], id);
      assert forall i :: 0 <= i < |docs| - 1 ==> docs[i] == docs[..|docs| - 1][i];
    }
  }

  function Got(scores: map<string, real>, id: string): real {
    if id in scores then scores[id] else 0.0
  }

  /** The score gathered from some whole lists and the beginning of one more. */
  function Gathered(lists: seq<Ranking>, list: Ranking, k: int, id: string): real
    requires (forall l :: l in lists ==> Divides(k, |l|)) && Divides(k, |list|)
  {
    Score(lists, k, id) + ListScore(list, k, id)
  }

  /** The accumulators after some whole lists and the beginning of one more. */
  ghost predicate Accumulated(lists: seq<seq<Document>>, part: seq<Document>, k: int, scores: map<string, real>,
                              order: seq<string>, docMap: map<string, Document>)
  {
    && (forall l :: l in Rankings(lists) ==> Divides(k, |l|)) && Divides(k, |part|)
    && order == Entered(AllEntered(Rankings(lists)), IdsOf(part))
    && (forall id :: id in order <==> id in scores) && scores.Keys == docMap.Keys
    && (forall id :: Got(scores, id) == Gathered(Rankings(lists), IdsOf(part), k, id))
    && (forall id :: id in docMap ==> LastOf(Flatten(lists) + part, id) == Some(docMap[id]))
  }

  lemma {:induction false} IdsOfMore(part: seq<Document>, doc: Document)
    ensures IdsOf(part + [doc]) == IdsOf(part) + [doc.docId]
    ensures IdsOf(part + [doc])[..|part|] == IdsOf(part)
  {
    assert (part + [doc])[..|part|] == part;
  }

  lemma {:induction false} GatherMore(lists: seq<Ranking>, part: seq<Document>, k: int, scores: map<string, real>,
                                      doc: Document, x: string)
    requires (forall l :: l in lists ==> Divides(k, |l|)) && Divides(k, |part|) && Divides(k, |part| + 1)
    requires forall id :: Got(scores, id) == Gathered(lists, IdsOf(part), k, id)
    ensures k + |part| + 1 != 0
    ensures Got(scores[doc.docId := Got(scores, doc.docId) + 1.0 / ((k + |part| + 1) as real)], x)
            == Gathered(lists, IdsOf(part + [doc]), k, x)
  {
    hide Score, IdsOf;
    IdsOfMore(part, doc);
    assert Got(scores, x) == Gathered(lists, IdsOf(part), k, x);
  }

  lemma {:induction false} LastOfMore(docs: seq<Document>, doc: Document, id: string)
    ensures LastOf(docs + [doc], id) == if doc.docId == id then Some(doc) else LastOf(docs, id)
  {
    assert (docs + [doc])[..|docs|] == docs;
  }

  lemma {:induction false} Accumulate(lists: seq<seq<Document>>, part: seq<Document>, k: int, scores: map<string, real>,
                                      order: seq<string>, docMap: map<string, Document>, doc: Document)
    requires Accumulated(lists, part, k, scores, order, docMap) && Divides(k, |part| + 1)
    ensures k + |part| + 1 != 0
    ensures Accumulated(lists, part + [doc], k,
                        scores[doc.docId := Got(scores, doc.docId) + 1.0 / ((k + |part| + 1) as real)],
                        if doc.docId in scores then order else order + [doc.docId], docMap[doc.docId := doc])
  {
    hide Score, AllEntered, Rankings, IdsOf, Gathered, LastOf, Flatten, Got;
    var more, id := part + [doc], doc.docId;
    IdsOfMore(part, doc);
    var scores' := scores[id := Got(scores, id) + 1.0 / ((k + |part| + 1) as real)];
    forall x ensures Got(scores', x) == Gathered(Rankings(lists), IdsOf(more), k, x) {
      GatherMore(Rankings(lists), part, k, scores, doc, x);
    }
    var docMap' := docMap[id := doc];
    assert Flatten(lists) + more == (Flatten(lists) + part) + [doc];
    forall x | x in docMap' ensures LastOf(Flatten(lists) + more, x) == Some(docMap'[x]) {
      LastOfMore(Flatten(lists) + part, doc, x);
    }
  }

  /** A list worked through to its end is one more whole list. */
  lemma {:induction false} ListJoins(lists: seq<seq<Document>>, list: seq<Document>)
    ensures Rankings(lists + [list]) == Rankings(lists) + [IdsOf(list)]
    ensures AllEntered(Rankings(lists + [list])) == Entered(AllEntered(Rankings(lists)), IdsOf(list))
    ensures Flatten(lists + [list]) == Flatten(lists) + list
  {
    assert (lists + [list])[..|lists|] == lists;
    assert Rankings(lists + [list])[..|lists|] == Rankings(lists);
  }

  lemma {:induction false} GatheredJoins(lists: seq<Ranking>, list: Ranking, k: int, id: string)
    requires (forall l :: l in lists ==> Divides(k, |l|)) && Divides(k, |list|)
    ensures Gathered(lists + [list], [], k, id) == Gathered(lists, list, k, id)
  {
    assert (lists + [list])[..|lists|] == lists;
  }

  lemma {:induction false} ListDone(lists: seq<seq<Document>>, list: seq<Document>, k: int, scores: map<string, real>,
                                    order: seq<string>, docMap: map<string, Document>)
    requires Accumulated(lists, list, k, scores, order, docMap)
    ensures Accumulated(lists + [list], [], k, scores, order, docMap)
  {
    hide Entered, AllEntered, Rankings, IdsOf, Gathered, LastOf, Flatten, Got, Divides;
    var more := lists + [list];
    ListJoins(lists, list);
    NoneRead(AllEntered(Rankings(more)), k);
    forall x ensures Got(scores, x) == Gathered(Rankings(more), IdsOf([]), k, x) {
      assert Got(scores, x) == Gathered(Rankings(lists), IdsOf(list), k, x);
      GatheredJoins(Rankings(lists), IdsOf(list), k, x);
    }
    assert Flatten(more) + [] == Flatten(lists) + list;
  }

  lemma {:induction false} NoneRead(seen: seq<string>, k: int)
    ensures IdsOf([]) == [] && Entered(seen, []) == seen && Divides(k, 0)
  {
  }

  lemma {:induction false} SameScorerSameSort(s: seq<string>, f: string -> real, g: string -> real)
    requires forall id :: f(id) == g(id)
    ensures SortDesc(s, f) == SortDesc(s, g)
  {
    if s != [] {
      SameScorerSameSort(s[..|s| - 1], f, g);
      SameScorerSameInsert(SortDesc(s[..|s| - 1], f), s[|s| - 1], f, g);
    }
  }

  lemma {:induction false} SameScorerSameInsert(s: seq<string>, x: string, f: string -> real, g: string -> real)
    requires forall id :: f(id) == g(id)
    ensures InsertDesc(s, x, f) == InsertDesc(s, x, g)
  {
    if s != [] { SameScorerSameInsert(s[..|s| - 1], x, f, g); }
  }

  lemma {:induction false} LastOfHasId(docs: seq<Document>, id: string)
    ensures LastOf(docs, id).Some? ==> LastOf(docs, id).value.docId == id && LastOf(docs, id).value in docs
  {
    if docs != [] && docs[|docs| - 1].docId != id {
      LastOfHasId(docs[..|docs| - 1], id);
      assert docs == docs[..|docs| - 1] + [docs[|docs| - 1]];
    }
  }

  /** Fuse ranked lists of shared documents. A zero denominator fails before anything is written; otherwise
      the kept documents, and no others, carry their fused score. */
  method ReciprocalRankFusion(lists: seq<seq<Document>>, k: int, topN: int) returns (r: Option<seq<Document>>)
    modifies DocsOf(lists)
    ensures r.None? <==> exists i :: 0 <= i < |lists| && 1 <= -k <= |lists[i]|
    ensures r.None? ==> forall d :: d in DocsOf(lists) ==> d.score == old(d.score)
    ensures r.Some? ==> forall l :: l in Rankings(lists) ==> !(1 <= -k <= |l|)
    ensures r.Some? ==>
              && IdsOf(r.value) == Fused(Rankings(lists), k, topN)
              && (forall d :: d in r.value ==> d in DocsOf(lists) && d.score == Score(Rankings(lists), k, d.docId)
                                               && LastListed(lists, d)
                                               && LastOf(Flatten(lists), d.docId) == Some(d))
              && (forall d :: d in DocsOf(lists) && d !in r.value ==> d.score == old(d.score))
  {
    hide Accumulated, Score, Fused, AllEntered, LastOf, LastListed, Flatten, Rankings, Divides, Got, SortDesc, Take;
    var sums := SumScores(lists, k);
    ZeroDenominator(lists, k);
    if sums == None {
      return None;
    }
    var (scores, order, docMap) := sums.value;
    SummedFacts(lists, k, scores, order, docMap);
    var sortedIds := SortDesc(order, (id: string) => Got(scores, id));
    KeptAreMapped(lists, k, scores, order, docMap, topN);
    MappedAreListed(lists, docMap);
    var kept := Take(sortedIds, topN);
    var results := WriteScores(DocsOf(lists), scores, docMap, kept);
    assert IdsOf(results) == kept;
    AllLastListed(lists, results);
    r := Some(results);
  }

  lemma {:induction false} ZeroDenominator(lists: seq<seq<Document>>, k: int)
    ensures (exists l :: l in Rankings(lists) && !Divides(k, |l|)) <==> exists i :: 0 <= i < |lists| && 1 <= -k <= |lists[i]|
    ensures (forall l :: l in Rankings(lists) ==> Divides(k, |l|)) ==> forall l :: l in Rankings(lists) ==> !(1 <= -k <= |l|)
  {
    var rs := Rankings(lists);
    if i :| 0 <= i < |lists| && 1 <= -k <= |lists[i]| {
      assert rs[i] in rs && |rs[i]| == |lists[i]|;
    }
  }

  lemma {:induction false} SummedFacts(lists: seq<seq<Document>>, k: int, scores: map<string, real>,
                                       order: seq<string>, docMap: map<string, Document>)
    requires Accumulated(lists, [], k, scores, order, docMap)
    ensures forall l :: l in Rankings(lists) ==> Divides(k, |l|)
    ensures order == AllEntered(Rankings(lists)) && (forall id :: id in order <==> id in scores)
    ensures scores.Keys == docMap.Keys && forall id :: Got(scores, id) == Score(Rankings(lists), k, id)
    ensures forall id :: id in docMap ==> scores[id] == Score(Rankings(lists), k, id)
                                          && LastOf(Flatten(lists), id) == Some(docMap[id])
  {
    hide Score, AllEntered, LastOf, Flatten, Rankings;
    assert Flatten(lists) + [] == Flatten(lists);
    forall id ensures Got(scores, id) == Score(Rankings(lists), k, id) {
      assert Got(scores, id) == Gathered(Rankings(lists), IdsOf([]), k, id);
    }
    forall id | id in docMap ensures scores[id] == Score(Rankings(lists), k, id) {
      assert Got(scores, id) == scores[id];
    }
  }

  lemma {:induction false} KeptAreMapped(lists: seq<seq<Document>>, k: int, scores: map<string, real>,
                                         order: seq<string>, docMap: map<string, Document>, topN: int)
    requires forall l :: l in Rankings(lists) ==> Divides(k, |l|)
    requires order == AllEntered(Rankings(lists)) && (forall id :: id in order <==> id in scores)
    requires scores.Keys == docMap.Keys && forall id :: Got(scores, id) == Score(Rankings(lists), k, id)
    ensures var kept := Take(SortDesc(order, (id: string) => Got(scores, id)), topN);
            && kept == Fused(Rankings(lists), k, topN) && DistinctIds(kept)
            && forall i :: 0 <= i < |kept| ==> kept[i] in docMap
  {
    hide Score, Rankings, Divides, AllEntered, Descending;
    var f, rs := (id: string) => Got(scores, id), Rankings(lists);
    SameScorerSameSort(order, f, Scorer(rs, k));
    FusedSound(rs, k, topN);
    AllEnteredExact(rs);
    var kept := Fused(rs, k, topN);
    forall i | 0 <= i < |kept| ensures kept[i] in docMap {
      assert kept[i] in kept;
    }
  }

  /** The outer loop: every list, every document. */
  method SumScores(lists: seq<seq<Document>>, k: int)
    returns (r: Option<(map<string, real>, seq<string>, map<string, Document>)>)
    ensures r.None? <==> exists l :: l in Rankings(lists) && !Divides(k, |l|)
    ensures r.Some? ==> Accumulated(lists, [], k, r.value.0, r.value.1, r.value.2)
  {
    hide *;
    var scores: map<string, real>, order: seq<string>, docMap: map<string, Document> := map[], [], map[];
    NothingSummed(k);
    assert lists[..0] == [];
    for i := 0 to |lists|
      invariant Accumulated(lists[..i], [], k, scores, order, docMap)
    {
      var sums := SumList(lists[..i], lists[i], k, scores, order, docMap);
      if sums == None {
        assert |Rankings(lists)[i]| == |lists[i]|;
        return None;
      }
      scores, order, docMap := sums.value.0, sums.value.1, sums.value.2;
      assert lists[..i + 1] == lists[..i] + [lists[i]];
      ListDone(lists[..i], lists[i], k, scores, order, docMap);
    }
    assert lists[..|lists|] == lists;
    SummedFacts(lists, k, scores, order, docMap);
    r := Some((scores, order, docMap));
  }

  /** The inner loop: the documents of one list. */
  method SumList(lists: seq<seq<Document>>, list: seq<Document>, k: int, scores0: map<string, real>,
                 order0: seq<string>, docMap0: map<string, Document>)
    returns (r: Option<(map<string, real>, seq<string>, map<string, Document>)>)
    requires Accumulated(lists, [], k, scores0, order0, docMap0)
    ensures r.None? <==> !Divides(k, |list|)
    ensures r.Some? ==> Accumulated(lists, list, k, r.value.0, r.value.1, r.value.2)
  {
    hide Accumulated, Got;
    var scores, order, docMap := scores0, order0, docMap0;
    assert list[..0] == [];
    for j := 0 to |list|
      invariant Accumulated(lists, list[..j], k, scores, order, docMap)
      invariant Divides(k, j)
    {
      var doc := list[j];
      if k + (j + 1) == 0 {
        return None;
      }
      Accumulate(lists, list[..j], k, scores, order, docMap, doc);
      assert list[..j + 1] == list[..j] + [doc];
      GotIs(scores, doc.docId);
      order := if doc.docId in scores then order else order + [doc.docId];
      scores := scores[doc.docId := (if doc.docId in scores then scores[doc.docId] else 0.0) + 1.0 / ((k + (j + 1)) as real)];
      docMap := docMap[doc.docId := doc];
    }
    assert list[..|list|] == list;
    r := Some((scores, order, docMap));
  }

  lemma {:induction false} GotIs(scores: map<string, real>, id: string)
    ensures Got(scores, id) == if id in scores then scores[id] else 0.0
  {
  }

  lemma {:induction false} NothingSummed(k: int)
    ensures Accumulated([], [], k, map[], [], map[])
  {
  }

  /** The last loop: each kept document gets its score, nothing else is touched. */
  method WriteScores(docs: set<Document>, scores: map<string, real>, docMap: map<string, Document>, kept: seq<string>)
    returns (results: seq<Document>)
    requires DistinctIds(kept) && scores.Keys == docMap.Keys
    requires forall i :: 0 <= i < |kept| ==> kept[i] in docMap
    requires forall id :: id in docMap ==> docMap[id] in docs && docMap[id].docId == id
    modifies docs
    ensures |results| == |kept|
    ensures forall i :: 0 <= i < |kept| ==> results[i] == docMap[kept[i]] && results[i].score == scores[kept[i]]
    ensures forall d :: d in docs && d !in results ==> d.score == old(d.score)
  {
    results := [];
    for i := 0 to |kept|
      invariant |results| == i
      invariant forall j :: 0 <= j < i ==> results[j] == docMap[kept[j]]
      invariant forall j :: 0 <= j < i ==> results[j].score == scores[kept[j]]
      invariant forall d :: d in docs && d !in results ==> d.score == old(d.score)
    {
      var doc := docMap[kept[i]];
      assert forall j :: 0 <= j < i ==> results[j].docId == kept[j] && results[j] != doc;
      doc.score := scores[kept[i]];
      results := results + [doc];
    }
  }

  lemma {:induction false} MappedAreListed(lists: seq<seq<Document>>, docMap: map<string, Document>)
    requires forall id :: id in docMap ==> LastOf(Flatten(lists), id) == Some(docMap[id])
    ensures forall id :: id in docMap ==> docMap[id] in DocsOf(lists) && docMap[id].docId == id
  {
    hide Flatten, LastOf, DocsOf;
    FlattenDocs(lists);
    forall id | id in docMap ensures docMap[id] in DocsOf(lists) && docMap[id].docId == id {
      LastOfHasId(Flatten(lists), id);
    }
  }

  // ---------------------------------------------------------------------
  // Several queries over the same documents
  // ---------------------------------------------------------------------

  /** The fusion constant and the number of documents each query keeps. */
  const SMOOTHING := 60
  const KEPT := 5

  /** Documents are told apart by id, or by object when the id is empty. */
  datatype Key = ById(id: string) | ByObject(doc: Document)

  /** A document with the score read when its query returned. */
  datatype Hit = Hit(doc: Document, score: real)

  type Search = seq<seq<Document>>

  function KeyOf(doc: Document): Key {
    if doc.docId != "" then ById(doc.docId) else ByObject(doc)
  }

  function HitScore(): Hit -> real {
    (h: Hit) => h.score
  }

  function HitsFor(search: Search, ids: seq<string>): seq<Hit> {
    if ids == [] then [] else
      var n := |ids| - 1;
      HitsFor(search, ids[..n]) +
      match LastOf(Flatten(search), ids[n])
      case None => []
      case Some(doc) => [Hit(doc, Score(Rankings(search), SMOOTHING, ids[n]))]
  }

  /** What one query contributes. No document's stored score enters it. */
  function Hits(search: Search): seq<Hit> {
    HitsFor(search, Fused(Rankings(search), SMOOTHING, KEPT))
  }

  function AllHits(searches: seq<Search>): seq<Hit> {
    if searches == [] then [] else AllHits(searches[..|searches| - 1]) + Hits(searches[|searches| - 1])
  }

  function AllDocs(searches: seq<Search>): set<Document> {
    set s, l, d | s in searches && l in s && d in l :: d
  }

  /** Replace the entry with the same key if it scored less; add one behind if there is none. */
  function Keep(best: seq<Hit>, h: Hit): seq<Hit> {
    if best == [] then [h]
    else if KeyOf(best[0].doc) == KeyOf(h.doc) then [if h.score > best[0].score then h else best[0]] + best[1..]
    else [best[0]] + Keep(best[1..], h)
  }

  /** The entries after some hits, in the order their keys first came. */
  function Best(hits: seq<Hit>): seq<Hit> {
    if hits == [] then [] else Keep(Best(hits[..|hits| - 1]), hits[|hits| - 1])
  }

  predicate DistinctKeys(best: seq<Hit>) {
    forall i, j :: 0 <= i < j < |best| ==> KeyOf(best[i].doc) != KeyOf(best[j].doc)
  }

  /** Some entry stands for the hit and scores at least as much. */
  predicate Covers(best: seq<Hit>, h: Hit) {
    exists b :: b in best && KeyOf(b.doc) == KeyOf(h.doc) && b.score >= h.score
  }

  lemma {:induction false} KeepFound(best: seq<Hit>, h: Hit, i: nat)
    requires DistinctKeys(best) && i < |best| && KeyOf(best[i].doc) == KeyOf(h.doc)
    ensures Keep(best, h) == best[i := if h.score > best[i].score then h else best[i]]
  {
    if i > 0 { KeepFound(best[1..], h, i - 1); }
  }

  lemma {:induction false} KeepNew(best: seq<Hit>, h: Hit)
    requires forall b :: b in best ==> KeyOf(b.doc) != KeyOf(h.doc)
    ensures Keep(best, h) == best + [h]
  {
    if best != [] {
      assert best[0] in best;
      KeepNew(best[1..], h);
    }
  }

  lemma {:induction false} KeepExact(best: seq<Hit>, h: Hit)
    requires DistinctKeys(best)
    ensures DistinctKeys(Keep(best, h))
    ensures forall b :: b in Keep(best, h) ==> b in best || b == h
    ensures Covers(Keep(best, h), h)
    ensures forall x :: x in best ==> Covers(Keep(best, h), x)
  {
    var more := Keep(best, h);
    if i: nat :| i < |best| && KeyOf(best[i].doc) == KeyOf(h.doc) {
      KeepFound(best, h, i);
      assert more[i] in more;
      forall x | x in best ensures Covers(more, x) {
        var j :| 0 <= j < |best| && best[j] == x;
        assert more[j] in more;
      }
    } else {
      KeepNew(best, h);
      assert more[|best|] == h;
      forall x | x in best ensures Covers(more, x) {
        assert x in more;
      }
    }
  }

  lemma {:induction false} StaysCovered(best: seq<Hit>, h: Hit, x: Hit)
    requires DistinctKeys(best) && Covers(best, x)
    ensures Covers(Keep(best, h), x)
  {
    hide Keep, DistinctKeys, KeyOf;
    KeepExact(best, h);
    var b :| b in best && KeyOf(b.doc) == KeyOf(x.doc) && b.score >= x.score;
    assert Covers(Keep(best, h), b);
  }

  /** Each key once, every entry one of the hits, and no hit scores more than its entry. */
  lemma {:induction false} BestExact(hits: seq<Hit>)
    ensures DistinctKeys(Best(hits))
    ensures forall b :: b in Best(hits) ==> b in hits
    ensures forall h :: h in hits ==> Covers(Best(hits), h)
  {
    if hits != [] {
      hide Keep, DistinctKeys, Covers;
      var n := |hits| - 1;
      BestExact(hits[..n]);
      KeepExact(Best(hits[..n]), hits[n]);
      assert hits == hits[..n] + [hits[n]];
      forall h | h in hits ensures Covers(Best(hits), h) {
        if h in hits[..n] {
          StaysCovered(Best(hits[..n]), hits[n], h);
        }
      }
    }
  }

  /** What the pass returns: the best hits, highest score first. */
  function Ranked(searches: seq<Search>): seq<Hit> {
    SortDesc(Best(AllHits(searches)), HitScore())
  }

  lemma {:induction false} DistinctKeysByMultiset(a: seq<Hit>, b: seq<Hit>)
    requires DistinctKeys(a) && multiset(a) == multiset(b)
    ensures DistinctKeys(b)
  {
    forall i, j | 0 <= i < j < |b| ensures KeyOf(b[i].doc) != KeyOf(b[j].doc) {
      assert b[i] in multiset(a) && b[j] in multiset(a);
      if KeyOf(b[i].doc) == KeyOf(b[j].doc) {
        assert b[i] == b[j];
        assert b == b[..i] + [b[i]] + b[i + 1..j] + [b[j]] + b[j + 1..];
        assert multiset(b)[b[i]] >= 2;
        HitOnce(a, b[i]);
      }
    }
  }

  lemma {:induction false} HitOnce(a: seq<Hit>, h: Hit)
    requires DistinctKeys(a)
    ensures multiset(a)[h] <= 1
  {
    if a != [] {
      var n := |a| - 1;
      HitOnce(a[..n], h);
      assert a == a[..n] + [a[n]];
      if a[n] == h {
        assert h !in a[..n];
      }
    }
  }

  /** Every key once, best score first, every entry a retrieval of some query, and none outscored by another
      retrieval of the same document: the score is the maximum over the queries. */
  lemma {:induction false} RankedExact(searches: seq<Search>)
    ensures DistinctKeys(Ranked(searches)) && Descending(Ranked(searches), HitScore())
    ensures forall b :: b in Ranked(searches) ==> b in AllHits(searches)
    ensures forall h :: h in AllHits(searches) ==> Covers(Ranked(searches), h)
  {
    hide AllHits, Best, SortDesc, DistinctKeys, Descending, Covers;
    var best, ranked := Best(AllHits(searches)), Ranked(searches);
    BestExact(AllHits(searches));
    SortSorts(best, HitScore());
    DistinctKeysByMultiset(best, ranked);
    SameMembers(best, ranked);
    forall h | h in AllHits(searches) ensures Covers(ranked, h) {
      CoversSame(best, ranked, h);
    }
  }

  lemma {:induction false} SameMembers(a: seq<Hit>, b: seq<Hit>)
    requires multiset(a) == multiset(b)
    ensures forall h :: h in a ==> h in b
    ensures forall h :: h in b ==> h in a
  {
    forall h | h in a ensures h in b {
      assert h in multiset(a);
    }
    forall h | h in b ensures h in a {
      assert h in multiset(b);
    }
  }

  lemma {:induction false} CoversSame(a: seq<Hit>, b: seq<Hit>, h: Hit)
    requires Covers(a, h) && forall x :: x in a ==> x in b
    ensures Covers(b, h)
  {
  }

  lemma {:induction false} AllHitsAre(searches: seq<Search>)
    ensures forall h :: h in AllHits(searches) ==> exists s :: s in searches && h in Hits(s)
    ensures forall s, h :: s in searches && h in Hits(s) ==> h in AllHits(searches)
  {
    if searches != [] {
      var n := |searches| - 1;
      AllHitsAre(searches[..n]);
      assert searches == searches[..n] + [searches[n]];
    }
  }

  lemma {:induction false} LastOfSome(docs: seq<Document>, id: string)
    ensures LastOf(docs, id).Some? <==> id in IdsOf(docs)
  {
    if docs != [] { LastOfSome(docs[..|docs| - 1], id); }
  }

  lemma {:induction false} FlattenIds(search: Search, id: string)
    ensures id in IdsOf(Flatten(search)) <==> exists l :: l in Rankings(search) && id in l
  {
    FlattenDocs(search);
    var all := Flatten(search);
    if i :| 0 <= i < |all| && all[i].docId == id {
      assert all[i] in DocsOf(search);
      var l :| 0 <= l < |search| && all[i] in search[l];
      IdListed(search[l], all[i]);
      assert Rankings(search)[l] in Rankings(search);
    }
    forall l: nat, j: nat | l < |search| && j < |search[l]| && search[l][j].docId == id ensures id in IdsOf(all) {
      assert search[l] in search && search[l][j] in search[l];
      assert search[l][j] in DocsOf(search);
      IdListed(all, search[l][j]);
    }
  }

  lemma {:induction false} IdListed(docs: seq<Document>, doc: Document)
    requires doc in docs
    ensures doc.docId in IdsOf(docs)
  {
    var i :| 0 <= i < |docs| && docs[i] == doc;
    assert IdsOf(docs)[i] == doc.docId;
  }

  lemma {:induction false} HitsForAre(search: Search, ids: seq<string>)
    requires forall i :: 0 <= i < |ids| ==> LastOf(Flatten(search), ids[i]).Some?
    ensures |HitsFor(search, ids)| == |ids|
    ensures forall i | 0 <= i < |ids| ::
              && LastOf(Flatten(search), ids[i]) == Some(HitsFor(search, ids)[i].doc)
              && HitsFor(search, ids)[i].score == Score(Rankings(search), SMOOTHING, ids[i])
  {
    hide Score, LastOf, Flatten;
    if ids != [] { HitsForAre(search, ids[..|ids| - 1]); }
  }

  /** A query's hits are its fused ids, each with its last document and its fused score. */
  lemma {:induction false} HitsAre(search: Search)
    ensures IdsOf(seq(|Hits(search)|, i requires 0 <= i < |Hits(search)| => Hits(search)[i].doc))
            == Fused(Rankings(search), SMOOTHING, KEPT)
    ensures forall h :: h in Hits(search) ==> LastOf(Flatten(search), h.doc.docId) == Some(h.doc)
                                              && h.score == Score(Rankings(search), SMOOTHING, h.doc.docId)
  {
    hide Score, LastOf, Flatten, Fused, Rankings;
    var ids := Fused(Rankings(search), SMOOTHING, KEPT);
    FusedSound(Rankings(search), SMOOTHING, KEPT);
    forall i | 0 <= i < |ids| ensures LastOf(Flatten(search), ids[i]).Some? {
      assert ids[i] in ids;
      FlattenIds(search, ids[i]);
      LastOfSome(Flatten(search), ids[i]);
    }
    HitsForAre(search, ids);
    forall i | 0 <= i < |ids| ensures Hits(search)[i].doc.docId == ids[i] {
      LastOfHasId(Flatten(search), ids[i]);
    }
  }

  /** By id: a chunk is returned for it iff some query kept it, with the largest of its fused scores. */
  lemma {:induction false} BestScorePerId(searches: seq<Search>, id: string)
    requires id != ""
    ensures (exists b :: b in Ranked(searches) && b.doc.docId == id)
            <==> exists s :: s in searches && id in Fused(Rankings(s), 60, 5)
    ensures forall b, s | b in Ranked(searches) && b.doc.docId == id && s in searches
                          && id in Fused(Rankings(s), 60, 5) ::
              b.score >= Score(Rankings(s), 60, id)
    ensures forall b | b in Ranked(searches) && b.doc.docId == id ::
              exists s :: s in searches && id in Fused(Rankings(s), 60, 5)
                          && b.score == Score(Rankings(s), 60, id)
  {
    hide Ranked, Score, Fused, Rankings, AllHits, Hits, DistinctKeys, Descending, Covers, KeyOf;
    forall s | s in searches && id in Fused(Rankings(s), 60, 5)
      ensures exists b :: b in Ranked(searches) && b.doc.docId == id
      ensures forall b :: b in Ranked(searches) && b.doc.docId == id ==> b.score >= Score(Rankings(s), 60, id)
    {
      RetrievedIsRanked(searches, s, id);
    }
    forall b | b in Ranked(searches) && b.doc.docId == id
      ensures exists s :: s in searches && id in Fused(Rankings(s), 60, 5)
                          && b.score == Score(Rankings(s), 60, id)
    {
      RankedIsRetrieved(searches, b);
    }
  }

  lemma {:induction false} RetrievedIsRanked(searches: seq<Search>, s: Search, id: string)
    requires id != "" && s in searches && id in Fused(Rankings(s), SMOOTHING, KEPT)
    ensures exists b :: b in Ranked(searches) && b.doc.docId == id
    ensures forall b :: b in Ranked(searches) && b.doc.docId == id ==> b.score >= Score(Rankings(s), SMOOTHING, id)
  {
    hide Ranked, Score, Fused, Rankings, AllHits, Hits, DistinctKeys, Descending, Covers, KeyOf;
    RankedExact(searches);
    AllHitsAre(searches);
    var h := HitOf(s, id);
    assert h in AllHits(searches);
    EntryOf(Ranked(searches), h);
  }

  /** The entry that covers a hit with an id is the one with that id. */
  lemma {:induction false} EntryOf(best: seq<Hit>, h: Hit)
    requires DistinctKeys(best) && Covers(best, h) && h.doc.docId != ""
    ensures exists b :: b in best && b.doc.docId == h.doc.docId
    ensures forall b :: b in best && b.doc.docId == h.doc.docId ==> b.score >= h.score
  {
    var c :| c in best && KeyOf(c.doc) == KeyOf(h.doc) && c.score >= h.score;
    assert c.doc.docId == h.doc.docId;
    var j :| 0 <= j < |best| && best[j] == c;
    forall b | b in best && b.doc.docId == h.doc.docId ensures b.score >= h.score {
      var i :| 0 <= i < |best| && best[i] == b;
      assert i == j;
    }
  }

  lemma {:induction false} RankedIsRetrieved(searches: seq<Search>, b: Hit)
    requires b in Ranked(searches)
    ensures exists s :: s in searches && b.doc.docId in Fused(Rankings(s), SMOOTHING, KEPT)
                        && b.score == Score(Rankings(s), SMOOTHING, b.doc.docId)
  {
    hide Ranked, Score, Fused, Rankings, AllHits, Hits, DistinctKeys, Descending, Covers;
    RankedExact(searches);
    AllHitsAre(searches);
    assert b in AllHits(searches);
    var s :| s in searches && b in Hits(s);
    HitHasId(s, b);
  }

  lemma {:induction false} HitOf(search: Search, id: string) returns (h: Hit)
    requires id in Fused(Rankings(search), SMOOTHING, KEPT)
    ensures h in Hits(search) && h.doc.docId == id && h.score == Score(Rankings(search), SMOOTHING, id)
  {
    hide Hits, Score, Fused, Rankings;
    HitsAre(search);
    var ids := Fused(Rankings(search), SMOOTHING, KEPT);
    var i :| 0 <= i < |ids| && ids[i] == id;
    h := Hits(search)[i];
  }

  lemma {:induction false} HitHasId(search: Search, h: Hit)
    requires h in Hits(search)
    ensures h.doc.docId in Fused(Rankings(search), SMOOTHING, KEPT)
    ensures h.score == Score(Rankings(search), SMOOTHING, h.doc.docId)
  {
    hide Hits, Score, Fused, Rankings;
    HitsAre(search);
    var i :| 0 <= i < |Hits(search)| && Hits(search)[i] == h;
    assert Fused(Rankings(search), SMOOTHING, KEPT)[i] == h.doc.docId;
  }

  /** The dictionary and the entry list it stands for. */
  ghost predicate Mirrors(order: seq<Key>, byId: map<Key, Hit>, best: seq<Hit>) {
    && |order| == |best| && DistinctKeys(best)
    && (forall i :: 0 <= i < |best| ==> order[i] == KeyOf(best[i].doc) && order[i] in byId && byId[order[i]] == best[i])
    && (forall key :: key in byId ==> key in order)
  }

  lemma {:induction false} MirrorNew(order: seq<Key>, byId: map<Key, Hit>, best: seq<Hit>, h: Hit)
    requires Mirrors(order, byId, best) && KeyOf(h.doc) !in byId
    ensures Mirrors(order + [KeyOf(h.doc)], byId[KeyOf(h.doc) := h], Keep(best, h))
  {
    hide KeyOf, Keep, Covers;
    var key := KeyOf(h.doc);
    KeepExact(best, h);
    forall b | b in best ensures KeyOf(b.doc) != key {
      var i :| 0 <= i < |best| && best[i] == b;
      assert order[i] in byId;
    }
    KeepNew(best, h);
  }

  lemma {:induction false} MirrorOld(order: seq<Key>, byId: map<Key, Hit>, best: seq<Hit>, h: Hit)
    requires Mirrors(order, byId, best) && KeyOf(h.doc) in byId
    ensures var key := KeyOf(h.doc);
            Mirrors(order, if h.score > byId[key].score then byId[key := h] else byId, Keep(best, h))
  {
    hide KeyOf, Keep, Covers;
    var key := KeyOf(h.doc);
    KeepExact(best, h);
    var i :| 0 <= i < |order| && order[i] == key;
    KeepFound(best, h, i);
    assert KeyOf(best[i].doc) == key;
  }

  lemma {:induction false} NothingKept()
    ensures Mirrors([], map[], Best(AllHits([])))
  {
  }

  lemma {:induction false} AllHitsMore(searches: seq<Search>, q: nat)
    requires q < |searches|
    ensures AllHits(searches[..q + 1]) == AllHits(searches[..q]) + Hits(searches[q])
  {
    assert searches[..q + 1][..q] == searches[..q];
  }

  lemma {:induction false} BestMore(hits: seq<Hit>, h: Hit)
    ensures Best(hits + [h]) == Keep(Best(hits), h)
  {
    assert (hits + [h])[..|hits|] == hits;
  }

  /** One query after the other over shared documents, each rewriting the scores the last one wrote. */
  method QuerySyllabus(searches: seq<Search>) returns (chunks: seq<Hit>)
    modifies AllDocs(searches)
    ensures chunks == Ranked(searches)
  {
    hide Best, Hits, AllHits, Mirrors, HitsFor, Fused, Rankings, Score, Flatten, LastOf;
    var order: seq<Key>, byId: map<Key, Hit> := [], map[];
    NothingKept();
    for q := 0 to |searches|
      invariant Mirrors(order, byId, Best(AllHits(searches[..q])))
    {
      assert DocsOf(searches[q]) <= AllDocs(searches);
      var docs := RunSearch(searches[q]);
      order, byId := KeepAll(docs, Hits(searches[q]), order, byId, AllHits(searches[..q]));
      AllHitsMore(searches, q);
    }
    assert searches[..|searches|] == searches;
    chunks := SortedValues(order, byId, Best(AllHits(searches)));
  }

  /** Fuse one query's lists and read off its hits. */
  method RunSearch(search: Search) returns (docs: seq<Document>)
    modifies DocsOf(search)
    ensures |docs| == |Hits(search)|
    ensures forall i :: 0 <= i < |docs| ==> Hits(search)[i] == Hit(docs[i], docs[i].score)
  {
    hide Hits, HitsFor, Fused, Rankings, Score, Flatten, LastOf;
    var fused := ReciprocalRankFusion(search, SMOOTHING, KEPT);
    docs := fused.value;
    HitsAre(search);
    forall i | 0 <= i < |docs| ensures Hits(search)[i] == Hit(docs[i], docs[i].score) {
      assert docs[i] in docs && Hits(search)[i] in Hits(search);
      assert IdsOf(docs)[i] == docs[i].docId == Hits(search)[i].doc.docId;
    }
  }

  /** Enter one query's documents into the dictionary. */
  method KeepAll(docs: seq<Document>, ghost hits: seq<Hit>, order0: seq<Key>, byId0: map<Key, Hit>, ghost before: seq<Hit>)
    returns (order: seq<Key>, byId: map<Key, Hit>)
    requires Mirrors(order0, byId0, Best(before))
    requires |docs| == |hits| && forall i :: 0 <= i < |docs| ==> hits[i] == Hit(docs[i], docs[i].score)
    ensures Mirrors(order, byId, Best(before + hits))
  {
    hide Mirrors, Best, Keep, KeyOf;
    order, byId := order0, byId0;
    assert before + hits[..0] == before;
    for i := 0 to |docs|
      invariant Mirrors(order, byId, Best(before + hits[..i]))
    {
      var key, score := KeyOf(docs[i]), docs[i].score;
      BestMore(before + hits[..i], hits[i]);
      assert before + hits[..i + 1] == before + hits[..i] + [hits[i]];
      if key !in byId {
        MirrorNew(order, byId, Best(before + hits[..i]), hits[i]);
        order, byId := order + [key], byId[key := Hit(docs[i], score)];
      } else {
        MirrorOld(order, byId, Best(before + hits[..i]), hits[i]);
        if score > byId[key].score {
          byId := byId[key := Hit(docs[i], score)];
        }
      }
    }
    assert before + hits[..|docs|] == before + hits;
  }

  method SortedValues(order: seq<Key>, byId: map<Key, Hit>, ghost best: seq<Hit>) returns (sorted: seq<Hit>)
    requires Mirrors(order, byId, best)
    ensures sorted == SortDesc(best, HitScore())
  {
    var values := seq(|order|, i requires 0 <= i < |order| && order[i] in byId => byId[order[i]]);
    assert values == best;
    sorted := SortDesc(values, HitScore());
  }
}
