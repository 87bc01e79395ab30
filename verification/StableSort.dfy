/** What the built-in stable sort with `reverse=True` does: descending by score, equal scores in
    their original order. */
module StableSort {

  predicate Descending<T>(s: seq<T>, score: T -> real) {
    forall i, j :: 0 <= i < j < |s| ==> score(s[i]) >= score(s[j])
  }

  /** The elements with a given score, in order. */
  function WithScore<T>(s: seq<T>, score: T -> real, v: real): seq<T> {
    if s == [] then [] else
      WithScore(s[..|s| - 1], score, v) + if score(s[|s| - 1]) == v then [s[|s| - 1]] else []
  }

  /** Insert behind every element that scores at least as much. */
  function InsertDesc<T>(s: seq<T>, x: T, score: T -> real): seq<T> {
    if s == [] then [x]
    else if score(s[|s| - 1]) >= score(x) then s + [x]
    else InsertDesc(s[..|s| - 1], x, score) + [s[|s| - 1]]
  }

  function SortDesc<T>(s: seq<T>, score: T -> real): seq<T> {
    if s == [] then [] else InsertDesc(SortDesc(s[..|s| - 1], score), s[|s| - 1], score)
  }

  lemma {:induction false} InsertSorts<T>(s: seq<T>, x: T, score: T -> real)
    requires Descending(s, score)
    ensures Descending(InsertDesc(s, x, score), score)
    ensures multiset(InsertDesc(s, x, score)) == multiset(s) + multiset{x}
  {
    if s != [] && score(s[|s| - 1]) < score(x) {
      var n := |s| - 1;
      var r := InsertDesc(s[..n], x, score);
      InsertSorts(s[..n], x, score);
      assert s == s[..n] + [s[n]];
      AppendLow(s[..n], x, r, s[n], score);
    }
  }

  lemma {:induction false} AppendLow<T>(s: seq<T>, x: T, r: seq<T>, low: T, score: T -> real)
    requires multiset(r) == multiset(s) + multiset{x} && Descending(r, score)
    requires score(x) >= score(low) && forall i :: 0 <= i < |s| ==> score(s[i]) >= score(low)
    ensures Descending(r + [low], score)
  {
    forall i | 0 <= i < |r| ensures score(r[i]) >= score(low) {
      assert r[i] in multiset(r);
      assert r[i] in s || r[i] == x;
    }
  }

  lemma {:induction false} ClassAppend<T>(s: seq<T>, x: T, score: T -> real, v: real)
    ensures WithScore(s + [x], score, v) == WithScore(s, score, v) + if score(x) == v then [x] else []
  {
    assert (s + [x])[..|s|] == s;
  }

  lemma {:induction false} InsertKeepsClass<T>(s: seq<T>, x: T, score: T -> real, v: real)
    ensures WithScore(InsertDesc(s, x, score), score, v)
            == WithScore(s, score, v) + if score(x) == v then [x] else []
  {
    hide WithScore;
    if s == [] || score(s[|s| - 1]) >= score(x) {
      ClassAppend(s, x, score, v);
      assert s == [] ==> s + [x] == [x];
    } else {
      var n := |s| - 1;
      InsertKeepsClass(s[..n], x, score, v);
      ClassAppend(InsertDesc(s[..n], x, score), s[n], score, v);
      ClassAppend(s[..n], s[n], score, v);
      assert s == s[..n] + [s[n]];
    }
  }

  /** The sorted list is a descending permutation... */
  lemma {:induction false} SortSorts<T>(s: seq<T>, score: T -> real)
    ensures Descending(SortDesc(s, score), score)
    ensures multiset(SortDesc(s, score)) == multiset(s)
  {
    hide InsertDesc;
    if s != [] {
      var n := |s| - 1;
      SortSorts(s[..n], score);
      InsertSorts(SortDesc(s[..n], score), s[n], score);
      assert s == s[..n] + [s[n]];
    }
  }

  /** ...that keeps every score class in its original order. */
  lemma {:induction false} SortKeepsClass<T>(s: seq<T>, score: T -> real, v: real)
    ensures WithScore(SortDesc(s, score), score, v) == WithScore(s, score, v)
  {
    if s != [] {
      var n := |s| - 1;
      SortKeepsClass(s[..n], score, v);
      InsertKeepsClass(SortDesc(s[..n], score), s[n], score, v);
    }
  }

  /** The new element goes behind all that score at least as much and in front of the rest. */
  lemma {:induction false} InsertAt<T>(s: seq<T>, x: T, score: T -> real) returns (k: nat)
    requires Descending(s, score)
    ensures k <= |s| && InsertDesc(s, x, score) == s[..k] + [x] + s[k..]
    ensures forall i :: 0 <= i < k ==> score(s[i]) >= score(x)
    ensures forall i :: k <= i < |s| ==> score(s[i]) < score(x)
  {
    var n := |s| - 1;
    if s == [] || score(s[n]) >= score(x) {
      k := |s|;
    } else {
      k := InsertAt(s[..n], x, score);
      assert s[..n][..k] == s[..k] && s[..n][k..] + [s[n]] == s[k..];
      assert forall i :: 0 <= i < n ==> s[..n][i] == s[i];
    }
  }

  /** Positions `at` rearrange s into r, higher scores first and equal scores by place in s. */
  ghost predicate Arranges<T>(at: seq<nat>, s: seq<T>, r: seq<T>, score: T -> real) {
    && |at| == |s| == |r|
    && (forall i :: 0 <= i < |s| ==> at[i] < |s| && r[i] == s[at[i]])
    && (forall i, j :: 0 <= i < j < |s| ==>
          score(s[at[i]]) > score(s[at[j]]) || (score(s[at[i]]) == score(s[at[j]]) && at[i] < at[j]))
  }

  lemma {:induction false} ArrangeNothing<T>(s: seq<T>, score: T -> real) returns (at: seq<nat>)
    requires s == []
    ensures Arranges(at, s, s, score)
  {
    at := [];
  }

  lemma {:induction false} ArrangeOneMore<T>(at: seq<nat>, s: seq<T>, r: seq<T>, x: T, k: nat, score: T -> real)
    returns (at': seq<nat>)
    requires Arranges(at, s, r, score) && k <= |r|
    requires forall i :: 0 <= i < k ==> score(r[i]) >= score(x)
    requires forall i :: k <= i < |r| ==> score(r[i]) < score(x)
    ensures Arranges(at', s + [x], r[..k] + [x] + r[k..], score)
  {
    at' := at[..k] + [|s|] + at[k..];
    var s', r' := s + [x], r[..k] + [x] + r[k..];
    forall i | 0 <= i < |s'| ensures at'[i] < |s'| && r'[i] == s'[at'[i]] {
      if i != k {
        var i' := if i < k then i else i - 1;
        assert at'[i] == at[i'] && r'[i] == r[i'];
      }
    }
    forall i, j | 0 <= i < j < |s'|
      ensures score(r'[i]) > score(r'[j]) || (score(r'[i]) == score(r'[j]) && at'[i] < at'[j])
    {
      if i != k && j != k {
        var i', j' := if i < k then i else i - 1, if j < k then j else j - 1;
        assert at'[i] == at[i'] && r'[i] == r[i'] && at'[j] == at[j'] && r'[j] == r[j'];
      }
    }
  }

  /** In positions: the sorted list rearranges s, higher scores first and equal scores by place in s. */
  lemma {:induction false} SortPlaces<T>(s: seq<T>, score: T -> real) returns (at: seq<nat>)
    ensures |at| == |s| == |SortDesc(s, score)|
    ensures forall i :: 0 <= i < |s| ==> at[i] < |s| && SortDesc(s, score)[i] == s[at[i]]
    ensures forall i, j :: 0 <= i < j < |s| ==>
              score(s[at[i]]) > score(s[at[j]]) || (score(s[at[i]]) == score(s[at[j]]) && at[i] < at[j])
  {
    at := SortArranges(s, score);
  }

  lemma {:induction false} SortArranges<T>(s: seq<T>, score: T -> real) returns (at: seq<nat>)
    ensures Arranges(at, s, SortDesc(s, score), score)
  {
    hide InsertDesc, Arranges;
    if s == [] {
      at := ArrangeNothing(s, score);
    } else {
      var n := |s| - 1;
      var before := SortArranges(s[..n], score);
      SortSorts(s[..n], score);
      var k := InsertAt(SortDesc(s[..n], score), s[n], score);
      at := ArrangeOneMore(before, s[..n], SortDesc(s[..n], score), s[n], k, score);
      assert s == s[..n] + [s[n]];
    }
  }

  lemma {:induction false} WithScoreMembers<T>(s: seq<T>, score: T -> real, v: real)
    ensures forall x :: x in WithScore(s, score, v) ==> x in s && score(x) == v
    ensures forall x :: x in s && score(x) == v ==> x in WithScore(s, score, v)
  {
    if s != [] {
      var n := |s| - 1;
      WithScoreMembers(s[..n], score, v);
      assert s == s[..n] + [s[n]];
    }
  }

  /** A score class is a subsequence: its elements stand in the list in the same order. */
  lemma {:induction false} WithScorePlaces<T>(s: seq<T>, score: T -> real, v: real, a: nat, b: nat) returns (i: nat, j: nat)
    requires a < b < |WithScore(s, score, v)|
    ensures i < j < |s| && s[i] == WithScore(s, score, v)[a] && s[j] == WithScore(s, score, v)[b]
  {
    var n := |s| - 1;
    if b < |WithScore(s[..n], score, v)| {
      i, j := WithScorePlaces(s[..n], score, v, a, b);
    } else {
      WithScoreMembers(s[..n], score, v);
      assert WithScore(s[..n], score, v)[a] in s[..n];
      i :| 0 <= i < n && s[i] == WithScore(s[..n], score, v)[a];
      j := n;
    }
  }

  lemma {:induction false} ClassWithoutLast<T>(a: seq<T>, score: T -> real, v: real)
    requires a != []
    ensures var x, cls := a[|a| - 1], WithScore(a, score, v);
            && (score(x) == v ==> cls != [] && cls[|cls| - 1] == x && WithScore(a[..|a| - 1], score, v) == cls[..|cls| - 1])
            && (score(x) != v ==> WithScore(a[..|a| - 1], score, v) == cls)
  {
  }

  /** Those three facts leave no freedom: a descending list with the same score classes is the sorted list. */
  lemma {:induction false} StableSortIsUnique<T>(a: seq<T>, b: seq<T>, score: T -> real)
    requires Descending(a, score) && Descending(b, score)
    requires forall v :: WithScore(a, score, v) == WithScore(b, score, v)
    ensures a == b
  {
    hide WithScore;
    if a == [] {
      if b != [] { LowestIsClass(b, a, score); }
    } else {
      LowestIsClass(a, b, score);
      LowestIsClass(b, a, score);
      var m, n := |a| - 1, |b| - 1;
      ClassWithoutLast(a, score, score(a[m]));
      ClassWithoutLast(b, score, score(a[m]));
      forall v ensures WithScore(a[..m], score, v) == WithScore(b[..n], score, v) {
        ClassWithoutLast(a, score, v);
        ClassWithoutLast(b, score, v);
      }
      StableSortIsUnique(a[..m], b[..n], score);
      assert a == a[..m] + [a[m]] && b == b[..n] + [b[n]];
    }
  }

  lemma {:induction false} LowestIsClass<T>(a: seq<T>, b: seq<T>, score: T -> real)
    requires Descending(a, score) && Descending(b, score) && a != []
    requires forall v :: WithScore(a, score, v) == WithScore(b, score, v)
    ensures b != [] && score(b[|b| - 1]) <= score(a[|a| - 1])
  {
    var x := a[|a| - 1];
    WithScoreMembers(a, score, score(x));
    WithScoreMembers(b, score, score(x));
    assert x in WithScore(a, score, score(x));
    assert x in b;
  }
}
