/** Index combinations in the order `itertools.combinations` yields them. */
module Combinations {

  /** A strictly increasing choice of indices from lo up to, but not including, n. */
  predicate IsCombo(c: seq<nat>, lo: nat, n: nat) {
    c == [] || (lo <= c[0] < n && IsCombo(c[1..], c[0] + 1, n))
  }

  lemma {:induction false} ComboSpelledOut(c: seq<nat>, lo: nat, n: nat)
    ensures IsCombo(c, lo, n) <==>
            && (forall i :: 0 <= i < |c| ==> lo <= c[i] < n)
            && (forall i, j :: 0 <= i < j < |c| ==> c[i] < c[j])
  {
    if c != [] {
      ComboSpelledOut(c[1..], c[0] + 1, n);
      assert forall i :: 1 <= i < |c| ==> c[i] == c[1..][i - 1];
      assert forall i :: 0 <= i < |c| - 1 ==> c[1..][i] == c[i + 1];
    }
  }

  function PrependAll(x: nat, cs: seq<seq<nat>>): (r: seq<seq<nat>>)
    ensures |r| == |cs| && forall i :: 0 <= i < |cs| ==> r[i] == [x] + cs[i]
  {
    if cs == [] then [] else [[x] + cs[0]] + PrependAll(x, cs[1..])
  }

  function Combos(lo: nat, n: nat, k: nat): seq<seq<nat>>
    requires lo <= n
    decreases n - lo
  {
    if k == 0 then [[]]
    else if lo == n then []
    else PrependAll(lo, Combos(lo + 1, n, k - 1)) + Combos(lo + 1, n, k)
  }

  /** Dictionary order on index choices. */
  predicate LexLess(a: seq<nat>, b: seq<nat>) {
    b != [] && (a == [] || a[0] < b[0] || (a[0] == b[0] && LexLess(a[1..], b[1..])))
  }

  /** Between choices of one size: the first place where they differ decides. */
  lemma {:induction false} LexSpelledOut(a: seq<nat>, b: seq<nat>)
    requires |a| == |b|
    ensures LexLess(a, b) <==> exists k :: 0 <= k < |a| && a[..k] == b[..k] && a[k] < b[k]
  {
    if a != [] {
      LexSpelledOut(a[1..], b[1..]);
      assert a[..0] == b[..0];
      if a[0] == b[0] && LexLess(a[1..], b[1..]) {
        var k :| 0 <= k < |a| - 1 && a[1..][..k] == b[1..][..k] && a[1..][k] < b[1..][k];
        assert a[..k + 1] == [a[0]] + a[1..][..k] && b[..k + 1] == [b[0]] + b[1..][..k];
        assert a[k + 1] < b[k + 1];
      }
      if k :| 0 <= k < |a| && a[..k] == b[..k] && a[k] < b[k] {
        if k == 0 {
          assert a[0] < b[0];
        } else {
          assert a[0] == a[..k][0] == b[0];
          assert a[1..][..k - 1] == a[..k][1..] == b[1..][..k - 1];
          assert a[1..][k - 1] < b[1..][k - 1];
        }
      }
    }
  }

  lemma {:induction false} CombosSplit(lo: nat, n: nat, k: nat)
    requires lo <= n && k > 0
    ensures lo == n ==> Combos(lo, n, k) == []
    ensures lo < n ==> Combos(lo, n, k) == PrependAll(lo, Combos(lo + 1, n, k - 1)) + Combos(lo + 1, n, k)
  {
  }

  lemma {:induction false} CombosNone(lo: nat, n: nat)
    requires lo <= n
    ensures Combos(lo, n, 0) == [[]]
  {
  }

  lemma {:induction false} CombosSound(lo: nat, n: nat, k: nat, i: nat)
    requires lo <= n && i < |Combos(lo, n, k)|
    ensures |Combos(lo, n, k)[i]| == k && IsCombo(Combos(lo, n, k)[i], lo, n)
    decreases n - lo
  {
    hide Combos;
    if k == 0 {
      CombosNone(lo, n);
    } else {
      CombosSplit(lo, n, k);
      var rest := Combos(lo + 1, n, k - 1);
      if i < |rest| {
        CombosSound(lo + 1, n, k - 1, i);
        assert ([lo] + rest[i])[1..] == rest[i];
      } else {
        CombosSound(lo + 1, n, k, i - |rest|);
      }
    }
  }

  lemma {:induction false} CombosFind(lo: nat, n: nat, k: nat, c: seq<nat>) returns (i: nat)
    requires lo <= n && |c| == k && IsCombo(c, lo, n)
    ensures i < |Combos(lo, n, k)| && Combos(lo, n, k)[i] == c
    decreases n - lo
  {
    hide Combos;
    if k == 0 {
      CombosNone(lo, n);
      i := 0;
    } else {
      CombosSplit(lo, n, k);
      var rest := Combos(lo + 1, n, k - 1);
      if c[0] == lo {
        i := CombosFind(lo + 1, n, k - 1, c[1..]);
        assert [lo] + c[1..] == c;
      } else {
        i := CombosFind(lo + 1, n, k, c);
        i := i + |rest|;
      }
    }
  }

  /** The enumeration holds every choice of k indices, and nothing else. */
  lemma {:induction false} CombosExact(lo: nat, n: nat, k: nat, c: seq<nat>)
    requires lo <= n
    ensures c in Combos(lo, n, k) <==> |c| == k && IsCombo(c, lo, n)
  {
    if c in Combos(lo, n, k) {
      var i :| 0 <= i < |Combos(lo, n, k)| && Combos(lo, n, k)[i] == c;
      CombosSound(lo, n, k, i);
    } else if |c| == k && IsCombo(c, lo, n) {
      var i := CombosFind(lo, n, k, c);
    }
  }

  /** The enumeration is in dictionary order, so it repeats nothing. */
  lemma {:induction false} CombosOrdered(lo: nat, n: nat, k: nat, i: nat, j: nat)
    requires lo <= n && i < j < |Combos(lo, n, k)|
    ensures LexLess(Combos(lo, n, k)[i], Combos(lo, n, k)[j])
    decreases n - lo
  {
    hide Combos, LexLess;
    CombosNone(lo, n);
    CombosSplit(lo, n, k);
    var rest := Combos(lo + 1, n, k - 1);
    if j < |rest| {
      CombosOrdered(lo + 1, n, k - 1, i, j);
      LexPrepend(lo, rest[i], rest[j]);
    } else if i < |rest| {
      CombosSound(lo + 1, n, k, j - |rest|);
      LexHead(lo, rest[i], Combos(lo + 1, n, k)[j - |rest|]);
    } else {
      CombosOrdered(lo + 1, n, k, i - |rest|, j - |rest|);
    }
  }

  lemma {:induction false} LexPrepend(x: nat, a: seq<nat>, b: seq<nat>)
    requires LexLess(a, b)
    ensures LexLess([x] + a, [x] + b)
  {
    assert ([x] + a)[1..] == a && ([x] + b)[1..] == b;
  }

  lemma {:induction false} LexHead(x: nat, a: seq<nat>, b: seq<nat>)
    requires b != [] && x < b[0]
    ensures LexLess([x] + a, b)
  {
  }

  lemma {:induction false} LexIrreflexive(a: seq<nat>, b: seq<nat>)
    ensures LexLess(a, b) ==> !LexLess(b, a) && a != b
  {
    if a != [] && b != [] && a[0] == b[0] { LexIrreflexive(a[1..], b[1..]); }
  }
}
