/** The schedule constraint solver: hard filter, enumeration with one try per course-code multiset,
    time-conflict and credit tests, ranking. */
module ScheduleSolver {
  import opened Combinations
  import opened StableSort
  import opened Wrappers

  type Time = int

  datatype MeetingTime = MeetingTime(days: seq<string>, start: Time, end: Time)

  datatype CourseSection = CourseSection(courseCode: string, section: string, credits: int,
                                         meetings: seq<MeetingTime>, prereqs: seq<string>)

  datatype Constraints = Constraints(daysExcluded: seq<string>, timeRange: Option<(Time, Time)>,
                                     minCourses: int, maxCourses: int,
                                     minCredits: Option<int>, maxCredits: Option<int>)

  datatype ScheduleOption = ScheduleOption(courses: seq<CourseSection>, totalCredits: int, rankScore: real)

  // ---------------------------------------------------------------------
  // Tests on meetings, sections and options
  // ---------------------------------------------------------------------

  predicate SharesDay(a: seq<string>, b: seq<string>) {
    exists d :: d in a && d in b
  }

  predicate Overlaps(a: MeetingTime, b: MeetingTime) {
    SharesDay(a.days, b.days) && a.start < b.end && b.start < a.end
  }

  predicate MeetsHardConstraints(s: CourseSection, completed: set<string>, c: Constraints) {
    && (forall m :: m in s.meetings ==> !SharesDay(m.days, c.daysExcluded))
    && (forall p :: p in s.prereqs ==> p in completed)
    && (c.timeRange.Some? ==>
          forall m :: m in s.meetings ==> c.timeRange.value.0 <= m.start && m.end <= c.timeRange.value.1)
  }

  /** The sections that pass the hard filter, in order. */
  function Valid(candidates: seq<CourseSection>, completed: set<string>, c: Constraints): seq<CourseSection> {
    if candidates == [] then [] else
      (if MeetsHardConstraints(candidates[0], completed, c) then [candidates[0]] else [])
      + Valid(candidates[1..], completed, c)
  }

  function Meetings(combo: seq<CourseSection>): seq<MeetingTime> {
    if combo == [] then [] else combo[0].meetings + Meetings(combo[1..])
  }

  predicate HasTimeConflict(combo: seq<CourseSection>) {
    exists i, j :: 0 <= i < j < |Meetings(combo)| && Overlaps(Meetings(combo)[i], Meetings(combo)[j])
  }

  function TotalCredits(combo: seq<CourseSection>): int {
    if combo == [] then 0 else combo[0].credits + TotalCredits(combo[1..])
  }

  predicate MeetsCreditBounds(credits: int, c: Constraints) {
    && (c.minCredits.Some? ==> c.minCredits.value <= credits)
    && (c.maxCredits.Some? ==> credits <= c.maxCredits.value)
  }

  function Codes(combo: seq<CourseSection>): multiset<string> {
    if combo == [] then multiset{} else multiset{combo[0].courseCode} + Codes(combo[1..])
  }

  predicate Feasible(combo: seq<CourseSection>, c: Constraints) {
    !HasTimeConflict(combo) && MeetsCreditBounds(TotalCredits(combo), c)
  }

  function Pick(valid: seq<CourseSection>, idx: seq<nat>): (combo: seq<CourseSection>)
    requires forall i :: 0 <= i < |idx| ==> idx[i] < |valid|
    ensures |combo| == |idx| && forall i :: 0 <= i < |idx| ==> combo[i] == valid[idx[i]]
  {
    if idx == [] then [] else [valid[idx[0]]] + Pick(valid, idx[1..])
  }

  function ScoreOf(combo: seq<CourseSection>): real {
    |combo| as real + 0.01 * TotalCredits(combo) as real
  }

  function OptionOf(combo: seq<CourseSection>): ScheduleOption {
    ScheduleOption(combo, TotalCredits(combo), ScoreOf(combo))
  }

  const RankScore: ScheduleOption -> real := (o: ScheduleOption) => o.rankScore

  // ---------------------------------------------------------------------
  // The search
  // ---------------------------------------------------------------------

  datatype Outcome = Options(options: seq<ScheduleOption>) | NegativeSize

  /** Sections picked by an increasing choice of indices. */
  predicate IsSelection(idx: seq<nat>, n: nat) {
    IsCombo(idx, 0, n)
  }

  lemma {:induction false} SelectionInRange(idx: seq<nat>, n: nat)
    requires IsSelection(idx, n)
    ensures forall i :: 0 <= i < |idx| ==> idx[i] < n
  {
    ComboSpelledOut(idx, 0, n);
  }

  function Chosen(valid: seq<CourseSection>, idx: seq<nat>): seq<CourseSection>
    requires IsSelection(idx, |valid|)
  {
    SelectionInRange(idx, |valid|);
    Pick(valid, idx)
  }

  /** All selections tried, sizes ascending and each size in dictionary order. */
  ghost function Tried(n: nat, lo: nat, hi: int): seq<seq<nat>>
    decreases hi - lo
  {
    if hi < lo then [] else Tried(n, lo, hi - 1) + Combos(0, n, hi)
  }

  ghost predicate Selections(tried: seq<seq<nat>>, n: nat) {
    forall i :: 0 <= i < |tried| ==> IsSelection(tried[i], n)
  }

  /** The codes of the first `upto` selections. */
  ghost predicate SeenBefore(valid: seq<CourseSection>, tried: seq<seq<nat>>, upto: nat, codes: multiset<string>)
    requires Selections(tried, |valid|) && upto <= |tried|
  {
    exists j :: 0 <= j < upto && Codes(Chosen(valid, tried[j])) == codes
  }

  /** What is kept of the tried selections: the first one of each code multiset, if it is feasible. */
  ghost function Kept(valid: seq<CourseSection>, c: Constraints, tried: seq<seq<nat>>, upto: nat): seq<ScheduleOption>
    requires Selections(tried, |valid|) && upto <= |tried|
  {
    if upto == 0 then [] else
      var combo := Chosen(valid, tried[upto - 1]);
      Kept(valid, c, tried, upto - 1)
      + if !SeenBefore(valid, tried, upto - 1, Codes(combo)) && Feasible(combo, c) then [OptionOf(combo)] else []
  }

  lemma {:induction false} TriedExact(n: nat, lo: nat, hi: int)
    ensures Selections(Tried(n, lo, hi), n)
    ensures forall i :: 0 <= i < |Tried(n, lo, hi)| ==> lo <= |Tried(n, lo, hi)[i]| <= hi
    decreases hi - lo
  {
    if lo <= hi {
      TriedExact(n, lo, hi - 1);
      forall i | 0 <= i < |Combos(0, n, hi)|
        ensures |Combos(0, n, hi)[i]| == hi && IsSelection(Combos(0, n, hi)[i], n)
      {
        CombosSound(0, n, hi, i);
      }
    }
  }

  lemma {:induction false} TriedFind(n: nat, lo: nat, hi: int, idx: seq<nat>) returns (i: nat)
    requires IsSelection(idx, n) && lo <= |idx| <= hi
    ensures i < |Tried(n, lo, hi)| && Tried(n, lo, hi)[i] == idx
    decreases hi - lo
  {
    hide Combos, IsCombo;
    if |idx| == hi {
      i := CombosFind(0, n, hi, idx);
      i := i + |Tried(n, lo, hi - 1)|;
    } else {
      i := TriedFind(n, lo, hi - 1, idx);
    }
  }

  /** Among selections of one size, the order of trying is dictionary order. */
  lemma {:induction false} TriedOrdered(n: nat, lo: nat, hi: int, i: nat, j: nat)
    requires i < j < |Tried(n, lo, hi)| && |Tried(n, lo, hi)[i]| == |Tried(n, lo, hi)[j]|
    ensures LexLess(Tried(n, lo, hi)[i], Tried(n, lo, hi)[j])
    decreases hi - lo
  {
    var before := Tried(n, lo, hi - 1);
    TriedExact(n, lo, hi - 1);
    if j < |before| {
      TriedOrdered(n, lo, hi - 1, i, j);
    } else {
      CombosSound(0, n, hi, j - |before|);
      assert i >= |before|;
      CombosOrdered(0, n, hi, i - |before|, j - |before|);
    }
  }

  /** The options returned for a non-negative minimum size. */
  ghost function Solution(candidates: seq<CourseSection>, completed: set<string>, c: Constraints): seq<ScheduleOption>
    requires c.minCourses >= 0
  {
    var valid := Valid(candidates, completed, c);
    var tried := Tried(|valid|, c.minCourses, c.maxCourses);
    TriedExact(|valid|, c.minCourses, c.maxCourses);
    SortDesc(Kept(valid, c, tried, |tried|), RankScore)
  }

  /** The solver: a non-negative range of sizes is searched; a negative size makes the enumeration fail. */
  method Solve(candidates: seq<CourseSection>, completed: set<string>, c: Constraints) returns (r: Outcome)
    ensures r.NegativeSize? <==> c.minCourses < 0 && c.minCourses <= c.maxCourses
    ensures c.minCourses >= 0 ==> r == Options(Solution(candidates, completed, c))
    ensures c.maxCourses < c.minCourses < 0 ==> r == Options([])
  {
    hide Kept, SeenBefore, Combos, SortDesc, Valid, Chosen;
    var valid := Valid(candidates, completed, c);
    var results: seq<ScheduleOption> := [];
    var seen: set<multiset<string>> := {};
    if c.minCourses < 0 {
      if c.minCourses <= c.maxCourses { return NegativeSize; }
      return Options([]);
    }
    NothingTried(valid, c);
    var size := c.minCourses;
    while size <= c.maxCourses
      invariant c.minCourses <= size && (size <= c.maxCourses + 1 || size == c.minCourses)
      invariant Progress(valid, c, Tried(|valid|, c.minCourses, size - 1), |Tried(|valid|, c.minCourses, size - 1)|,
                         results, seen)
      decreases c.maxCourses - size
    {
      results, seen := TrySize(valid, c, size, results, seen);
      size := size + 1;
    }
    assert Tried(|valid|, c.minCourses, size - 1) == Tried(|valid|, c.minCourses, c.maxCourses);
    r := Options(SortDesc(results, RankScore));
  }

  lemma {:induction false} NothingTried(valid: seq<CourseSection>, c: Constraints)
    requires c.minCourses >= 0
    ensures Progress(valid, c, Tried(|valid|, c.minCourses, c.minCourses - 1),
                     |Tried(|valid|, c.minCourses, c.minCourses - 1)|, [], {})
  {
  }

  /** All combinations of one size. */
  method TrySize(valid: seq<CourseSection>, c: Constraints, size: nat,
                 results0: seq<ScheduleOption>, seen0: set<multiset<string>>)
    returns (results: seq<ScheduleOption>, seen: set<multiset<string>>)
    requires 0 <= c.minCourses <= size
    requires Progress(valid, c, Tried(|valid|, c.minCourses, size - 1), |Tried(|valid|, c.minCourses, size - 1)|,
                      results0, seen0)
    ensures Progress(valid, c, Tried(|valid|, c.minCourses, size), |Tried(|valid|, c.minCourses, size)|, results, seen)
  {
    hide Kept, SeenBefore, Combos, Chosen;
    results, seen := results0, seen0;
    var combos := Combos(0, |valid|, size);
    ghost var before, tried := Tried(|valid|, c.minCourses, size - 1), Tried(|valid|, c.minCourses, size);
    TriedExact(|valid|, c.minCourses, size);
    ProgressExtends(valid, c, before, combos, results, seen);
    for i := 0 to |combos|
      invariant Progress(valid, c, tried, |before| + i, results, seen)
    {
      assert tried[|before| + i] == combos[i];
      results, seen := TryCombo(valid, c, tried, |before| + i, combos[i], results, seen);
    }
  }

  ghost predicate Progress(valid: seq<CourseSection>, c: Constraints, tried: seq<seq<nat>>, upto: nat,
                           results: seq<ScheduleOption>, seen: set<multiset<string>>)
  {
    && Selections(tried, |valid|) && upto <= |tried|
    && results == Kept(valid, c, tried, upto)
    && forall codes :: codes in seen <==> SeenBefore(valid, tried, upto, codes)
  }

  lemma {:induction false} KeptPrefix(valid: seq<CourseSection>, c: Constraints, a: seq<seq<nat>>, b: seq<seq<nat>>, upto: nat)
    requires Selections(a, |valid|) && Selections(a + b, |valid|) && upto <= |a|
    ensures Kept(valid, c, a + b, upto) == Kept(valid, c, a, upto)
    ensures forall codes :: SeenBefore(valid, a + b, upto, codes) <==> SeenBefore(valid, a, upto, codes)
  {
    assert forall j :: 0 <= j < upto ==> (a + b)[j] == a[j];
    if upto > 0 { KeptPrefix(valid, c, a, b, upto - 1); }
  }

  lemma {:induction false} ProgressExtends(valid: seq<CourseSection>, c: Constraints, a: seq<seq<nat>>, b: seq<seq<nat>>,
                                           results: seq<ScheduleOption>, seen: set<multiset<string>>)
    requires Progress(valid, c, a, |a|, results, seen) && Selections(a + b, |valid|)
    ensures Progress(valid, c, a + b, |a|, results, seen)
  {
    KeptPrefix(valid, c, a, b, |a|);
  }

  /** One turn of the inner loop. */
  method TryCombo(valid: seq<CourseSection>, c: Constraints, ghost tried: seq<seq<nat>>, ghost at: nat, idx: seq<nat>,
                  results: seq<ScheduleOption>, seen: set<multiset<string>>)
    returns (results': seq<ScheduleOption>, seen': set<multiset<string>>)
    requires at < |tried| && tried[at] == idx && Progress(valid, c, tried, at, results, seen)
    ensures Progress(valid, c, tried, at + 1, results', seen')
  {
    hide Codes, Chosen, HasTimeConflict, TotalCredits, MeetsCreditBounds;
    results', seen' := results, seen;
    var combo := Chosen(valid, idx);
    var key := Codes(combo);
    if key in seen {
      return;
    }
    seen' := seen + {key};
    if HasTimeConflict(combo) {
      return;
    }
    var option := OptionOf(combo);
    if !MeetsCreditBounds(option.totalCredits, c) {
      return;
    }
    results' := results + [option];
  }

  // ---------------------------------------------------------------------
  // Which options come out
  // ---------------------------------------------------------------------

  /** A selection of an allowed size that comes before every other one with the same course codes. */
  ghost predicate FirstOfCodes(valid: seq<CourseSection>, idx: seq<nat>)
    requires IsSelection(idx, |valid|)
  {
    forall other | IsSelection(other, |valid|) && other != idx
                   && Codes(Chosen(valid, other)) == Codes(Chosen(valid, idx)) :: LexLess(idx, other)
  }

  lemma {:induction false} CodesCount(combo: seq<CourseSection>)
    ensures |Codes(combo)| == |combo|
  {
    if combo != [] { CodesCount(combo[1..]); }
  }

  /** The seen-set test picks out exactly the dictionary-first selection of each code multiset. */
  lemma {:induction false} UnseenIsFirst(valid: seq<CourseSection>, lo: nat, hi: int, i: nat)
    requires i < |Tried(|valid|, lo, hi)| && Selections(Tried(|valid|, lo, hi), |valid|)
    ensures var tried := Tried(|valid|, lo, hi);
            !SeenBefore(valid, tried, i, Codes(Chosen(valid, tried[i]))) <==> FirstOfCodes(valid, tried[i])
  {
    var n, tried := |valid|, Tried(|valid|, lo, hi);
    var idx := tried[i];
    TriedExact(n, lo, hi);
    CodesCount(Chosen(valid, idx));
    if SeenBefore(valid, tried, i, Codes(Chosen(valid, idx))) {
      var j :| 0 <= j < i && Codes(Chosen(valid, tried[j])) == Codes(Chosen(valid, idx));
      CodesCount(Chosen(valid, tried[j]));
      TriedOrdered(n, lo, hi, j, i);
      LexIrreflexive(tried[j], idx);
    } else {
      forall other | IsSelection(other, n) && other != idx && Codes(Chosen(valid, other)) == Codes(Chosen(valid, idx))
        ensures LexLess(idx, other)
      {
        CodesCount(Chosen(valid, other));
        var j := TriedFind(n, lo, hi, other);
        TriedOrdered(n, lo, hi, i, j);
      }
    }
  }

  /** An option is kept for a selection when it is first and feasible. */
  ghost predicate KeptFor(valid: seq<CourseSection>, c: Constraints, tried: seq<seq<nat>>, i: nat)
    requires Selections(tried, |valid|) && i < |tried|
  {
    var combo := Chosen(valid, tried[i]);
    !SeenBefore(valid, tried, i, Codes(combo)) && Feasible(combo, c)
  }

  lemma {:induction false} KeptMembers(valid: seq<CourseSection>, c: Constraints, tried: seq<seq<nat>>, upto: nat,
                                       o: ScheduleOption)
    requires Selections(tried, |valid|) && upto <= |tried|
    ensures o in Kept(valid, c, tried, upto) <==>
            exists i :: 0 <= i < upto && KeptFor(valid, c, tried, i) && o == OptionOf(Chosen(valid, tried[i]))
  {
    hide Codes, Feasible, SeenBefore, OptionOf, Chosen;
    if upto > 0 {
      KeptMembers(valid, c, tried, upto - 1, o);
      assert KeptFor(valid, c, tried, upto - 1) ==>
          OptionOf(Chosen(valid, tried[upto - 1])) in Kept(valid, c, tried, upto);
    }
  }

  /** No two kept options have the same course codes. */
  lemma {:induction false} KeptDistinct(valid: seq<CourseSection>, c: Constraints, tried: seq<seq<nat>>, upto: nat,
                                        k: nat, l: nat)
    requires Selections(tried, |valid|) && upto <= |tried| && k < l < |Kept(valid, c, tried, upto)|
    ensures Codes(Kept(valid, c, tried, upto)[k].courses) != Codes(Kept(valid, c, tried, upto)[l].courses)
  {
    hide Codes, Feasible, Chosen, HasTimeConflict;
    var before := Kept(valid, c, tried, upto - 1);
    if l < |before| {
      KeptDistinct(valid, c, tried, upto - 1, k, l);
    } else {
      KeptMembers(valid, c, tried, upto - 1, before[k]);
      var i :| 0 <= i < upto - 1 && KeptFor(valid, c, tried, i) && before[k] == OptionOf(Chosen(valid, tried[i]));
    }
  }

  /** The selection behind an option. */
  ghost predicate Chooses(valid: seq<CourseSection>, c: Constraints, idx: seq<nat>, o: ScheduleOption) {
    && IsSelection(idx, |valid|) && c.minCourses <= |idx| <= c.maxCourses
    && o == OptionOf(Chosen(valid, idx))
  }

  lemma {:induction false} SolutionMembers(candidates: seq<CourseSection>, completed: set<string>, c: Constraints,
                                           o: ScheduleOption)
    requires c.minCourses >= 0
    ensures var valid := Valid(candidates, completed, c);
            var tried := Tried(|valid|, c.minCourses, c.maxCourses);
            Selections(tried, |valid|)
            && (o in Solution(candidates, completed, c) <==>
                exists i :: 0 <= i < |tried| && KeptFor(valid, c, tried, i) && o == OptionOf(Chosen(valid, tried[i])))
  {
    hide KeptFor, OptionOf, Chosen, SortDesc;
    var valid := Valid(candidates, completed, c);
    var tried := Tried(|valid|, c.minCourses, c.maxCourses);
    TriedExact(|valid|, c.minCourses, c.maxCourses);
    var kept := Kept(valid, c, tried, |tried|);
    SortSorts(kept, RankScore);
    assert o in SortDesc(kept, RankScore) <==> o in multiset(SortDesc(kept, RankScore));
    assert o in kept <==> o in multiset(kept);
    KeptMembers(valid, c, tried, |tried|, o);
  }

  /** Exactly which options are returned: one for each dictionary-first selection that is feasible. */
  lemma {:induction false} SolutionExact(candidates: seq<CourseSection>, completed: set<string>, c: Constraints,
                                         o: ScheduleOption)
    requires c.minCourses >= 0
    ensures var valid := Valid(candidates, completed, c);
            o in Solution(candidates, completed, c) <==>
            exists idx :: Chooses(valid, c, idx, o) && FirstOfCodes(valid, idx) && Feasible(Chosen(valid, idx), c)
  {
    hide Feasible, FirstOfCodes, OptionOf, Codes, Solution, Chosen, SeenBefore;
    var valid := Valid(candidates, completed, c);
    var tried := Tried(|valid|, c.minCourses, c.maxCourses);
    TriedExact(|valid|, c.minCourses, c.maxCourses);
    SolutionMembers(candidates, completed, c, o);
    if o in Solution(candidates, completed, c) {
      var i :| 0 <= i < |tried| && KeptFor(valid, c, tried, i) && o == OptionOf(Chosen(valid, tried[i]));
      UnseenIsFirst(valid, c.minCourses, c.maxCourses, i);
      assert Chooses(valid, c, tried[i], o);
    }
    if idx :| Chooses(valid, c, idx, o) && FirstOfCodes(valid, idx) && Feasible(Chosen(valid, idx), c) {
      var i := TriedFind(|valid|, c.minCourses, c.maxCourses, idx);
      UnseenIsFirst(valid, c.minCourses, c.maxCourses, i);
      assert KeptFor(valid, c, tried, i);
    }
  }

  /** Exact completeness: an option with the given course codes is returned iff the dictionary-first
      selection of sections with those codes is conflict-free and within the credit bounds. */
  lemma {:induction false} CompleteIffFirstFeasible(candidates: seq<CourseSection>, completed: set<string>,
                                                    c: Constraints, codes: multiset<string>)
    requires c.minCourses >= 0
    ensures var valid := Valid(candidates, completed, c);
            (exists o :: o in Solution(candidates, completed, c) && Codes(o.courses) == codes) <==>
            exists idx :: IsSelection(idx, |valid|) && c.minCourses <= |idx| <= c.maxCourses
                          && Codes(Chosen(valid, idx)) == codes
                          && FirstOfCodes(valid, idx) && Feasible(Chosen(valid, idx), c)
  {
    hide Feasible, FirstOfCodes, Codes, Solution;
    var valid := Valid(candidates, completed, c);
    if o :| o in Solution(candidates, completed, c) && Codes(o.courses) == codes {
      SolutionExact(candidates, completed, c, o);
      var idx :| Chooses(valid, c, idx, o) && FirstOfCodes(valid, idx) && Feasible(Chosen(valid, idx), c);
    }
    if idx :| IsSelection(idx, |valid|) && c.minCourses <= |idx| <= c.maxCourses
              && Codes(Chosen(valid, idx)) == codes
              && FirstOfCodes(valid, idx) && Feasible(Chosen(valid, idx), c) {
      var o := OptionOf(Chosen(valid, idx));
      assert Chooses(valid, c, idx, o);
      SolutionExact(candidates, completed, c, o);
    }
  }

  /** No two returned options have the same course codes. */
  lemma {:induction false} OptionsHaveDistinctCodes(candidates: seq<CourseSection>, completed: set<string>,
                                                    c: Constraints, o: ScheduleOption, p: ScheduleOption)
    requires c.minCourses >= 0
    requires multiset{o, p} <= multiset(Solution(candidates, completed, c))
    ensures Codes(o.courses) != Codes(p.courses)
  {
    hide Codes;
    var valid := Valid(candidates, completed, c);
    var tried := Tried(|valid|, c.minCourses, c.maxCourses);
    TriedExact(|valid|, c.minCourses, c.maxCourses);
    var kept := Kept(valid, c, tried, |tried|);
    SortSorts(kept, RankScore);
    var k, l := TwoPlaces(kept, o, p);
    KeptDistinct(valid, c, tried, |tried|, if k < l then k else l, if k < l then l else k);
  }

  lemma {:induction false} TwoPlaces<T>(s: seq<T>, a: T, b: T) returns (k: nat, l: nat)
    requires multiset{a, b} <= multiset(s)
    ensures k < |s| && l < |s| && k != l && s[k] == a && s[l] == b
  {
    assert a in multiset(s);
    k :| 0 <= k < |s| && s[k] == a;
    assert s == s[..k] + [s[k]] + s[k + 1..];
    assert multiset(s) == multiset(s[..k]) + multiset{a} + multiset(s[k + 1..]);
    assert b in multiset(s[..k]) + multiset(s[k + 1..]);
    if b in s[..k] {
      l :| 0 <= l < k && s[l] == b;
    } else {
      assert b in s[k + 1..];
      var m :| 0 <= m < |s| - k - 1 && s[k + 1..][m] == b;
      l := k + 1 + m;
    }
  }

  /** The hard filter keeps, in order, exactly the sections without a meeting on an excluded day, with every
      prerequisite completed, and inside the time range if there is one. */
  lemma {:induction false} ValidIsFilter(a: seq<CourseSection>, s: CourseSection, b: seq<CourseSection>,
                                         completed: set<string>, c: Constraints)
    ensures Valid([], completed, c) == []
    ensures Valid(a + [s] + b, completed, c)
            == Valid(a, completed, c)
               + (if && (forall m, d :: m in s.meetings && d in m.days ==> d !in c.daysExcluded)
                     && (forall p :: p in s.prereqs ==> p in completed)
                     && (forall m :: m in s.meetings && c.timeRange.Some? ==>
                           c.timeRange.value.0 <= m.start && m.end <= c.timeRange.value.1)
                  then [s] else [])
               + Valid(b, completed, c)
  {
    hide MeetsHardConstraints, Valid;
    NoneValid(completed, c);
    ValidSplits(a, [s] + b, completed, c);
    ValidSplits([s], b, completed, c);
    assert a + ([s] + b) == a + [s] + b;
    OneValid(s, completed, c);
    RuleSpelled(s, completed, c);
  }

  lemma {:induction false} ValidSplits(a: seq<CourseSection>, b: seq<CourseSection>, completed: set<string>, c: Constraints)
    ensures Valid(a + b, completed, c) == Valid(a, completed, c) + Valid(b, completed, c)
  {
    hide MeetsHardConstraints;
    if a == [] {
      assert a + b == b;
    } else {
      assert (a + b)[1..] == a[1..] + b;
      ValidSplits(a[1..], b, completed, c);
    }
  }

  lemma {:induction false} RuleSpelled(s: CourseSection, completed: set<string>, c: Constraints)
    ensures MeetsHardConstraints(s, completed, c) <==>
            && (forall m, d :: m in s.meetings && d in m.days ==> d !in c.daysExcluded)
            && (forall p :: p in s.prereqs ==> p in completed)
            && (forall m :: m in s.meetings && c.timeRange.Some? ==>
                  c.timeRange.value.0 <= m.start && m.end <= c.timeRange.value.1)
  {
  }

  /** The sections that pass stand in the order of the candidates. */
  lemma {:induction false} ValidPlaces(candidates: seq<CourseSection>, completed: set<string>, c: Constraints)
    returns (at: seq<nat>)
    ensures |at| == |Valid(candidates, completed, c)|
    ensures forall i :: 0 <= i < |at| ==>
              at[i] < |candidates| && candidates[at[i]] == Valid(candidates, completed, c)[i]
              && MeetsHardConstraints(candidates[at[i]], completed, c)
    ensures forall i, j :: 0 <= i < j < |at| ==> at[i] < at[j]
  {
    hide MeetsHardConstraints, Valid;
    at := [];
    if candidates == [] {
      NoneValid(completed, c);
    } else {
      var n := |candidates| - 1;
      at := ValidPlaces(candidates[..n], completed, c);
      assert candidates == candidates[..n] + [candidates[n]];
      ValidSplits(candidates[..n], [candidates[n]], completed, c);
      OneValid(candidates[n], completed, c);
      if MeetsHardConstraints(candidates[n], completed, c) {
        at := at + [n];
      }
    }
  }

  lemma {:induction false} NoneValid(completed: set<string>, c: Constraints)
    ensures Valid([], completed, c) == []
  {
  }

  lemma {:induction false} OneValid(s: CourseSection, completed: set<string>, c: Constraints)
    ensures Valid([s], completed, c) == if MeetsHardConstraints(s, completed, c) then [s] else []
  {
    hide MeetsHardConstraints;
    assert [s][1..] == [];
    assert Valid([s][1..], completed, c) == [];
  }

  /** A selection is feasible iff no two different meetings of it share a day and overlap in time, and the credits
      are within the bounds. */
  lemma {:induction false} FeasibleIff(combo: seq<CourseSection>, c: Constraints)
    ensures Feasible(combo, c) <==>
            && (forall i, k, j, l | 0 <= i < |combo| && 0 <= k < |combo[i].meetings|
                                    && 0 <= j < |combo| && 0 <= l < |combo[j].meetings| && (i != j || k != l) ::
                  var m, n := combo[i].meetings[k], combo[j].meetings[l];
                  (forall d :: d in m.days ==> d !in n.days) || m.end <= n.start || n.end <= m.start)
            && (c.minCredits.Some? ==> c.minCredits.value <= TotalCredits(combo))
            && (c.maxCredits.Some? ==> TotalCredits(combo) <= c.maxCredits.value)
  {
    hide Meetings, TotalCredits;
    if HasTimeConflict(combo) {
      var p, q :| 0 <= p < q < |Meetings(combo)| && Overlaps(Meetings(combo)[p], Meetings(combo)[q]);
      var i, k := PlaceOwner(combo, p);
      var j, l := PlaceOwner(combo, q);
      assert i != j || k != l;
    } else {
      forall i: nat, k: nat, j: nat, l: nat
        | i < |combo| && k < |combo[i].meetings| && j < |combo| && l < |combo[j].meetings| && (i != j || k != l)
        ensures !Overlaps(combo[i].meetings[k], combo[j].meetings[l])
      {
        DifferentPlaces(combo, i, k, j, l);
      }
    }
  }

  lemma {:induction false} DifferentPlaces(combo: seq<CourseSection>, i: nat, k: nat, j: nat, l: nat)
    requires i < |combo| && k < |combo[i].meetings| && j < |combo| && l < |combo[j].meetings| && (i != j || k != l)
    requires !HasTimeConflict(combo)
    ensures !Overlaps(combo[i].meetings[k], combo[j].meetings[l])
  {
    hide Meetings;
    var p := MeetingPlace(combo, i, k);
    var q := MeetingPlace(combo, j, l);
    if i < j { MeetingsGrow(combo, i, j); }
    if j < i { MeetingsGrow(combo, j, i); }
    assert Overlaps(Meetings(combo)[p], Meetings(combo)[q]) <==> Overlaps(Meetings(combo)[q], Meetings(combo)[p]);
  }

  lemma {:induction false} CreditsAdd(combo: seq<CourseSection>, s: CourseSection)
    ensures TotalCredits([]) == 0
    ensures TotalCredits(combo + [s]) == TotalCredits(combo) + s.credits
  {
    if combo == [] {
      assert [] + [s] == [s] && [s][1..] == [];
      assert TotalCredits([s]) == s.credits + TotalCredits([]);
    } else {
      assert (combo + [s])[1..] == combo[1..] + [s];
      CreditsAdd(combo[1..], s);
    }
  }

  lemma {:induction false} CodesSpelled(combo: seq<CourseSection>)
    ensures Codes(combo) == multiset(seq(|combo|, i requires 0 <= i < |combo| => combo[i].courseCode))
  {
    var codes := seq(|combo|, i requires 0 <= i < |combo| => combo[i].courseCode);
    if combo != [] {
      CodesSpelled(combo[1..]);
      assert codes == [combo[0].courseCode]
                      + seq(|combo[1..]|, i requires 0 <= i < |combo[1..]| => combo[1..][i].courseCode);
    }
  }

  /** Soundness, in terms of the sections themselves: an option takes candidates in their order; each keeps off the
      excluded days, has its prerequisites completed and fits the time range; no two meetings overlap; size and
      credits are within bounds; total and score are those of the courses. */
  lemma {:induction false} SolutionSound(candidates: seq<CourseSection>, completed: set<string>, c: Constraints,
                                         o: ScheduleOption) returns (at: seq<nat>)
    requires c.minCourses >= 0 && o in Solution(candidates, completed, c)
    ensures |at| == |o.courses| && forall i, j :: 0 <= i < j < |at| ==> at[i] < at[j]
    ensures forall i :: 0 <= i < |at| ==> at[i] < |candidates| && o.courses[i] == candidates[at[i]]
    ensures forall s, m, d :: s in o.courses && m in s.meetings && d in m.days ==> d !in c.daysExcluded
    ensures forall s, p :: s in o.courses && p in s.prereqs ==> p in completed
    ensures forall s, m :: s in o.courses && m in s.meetings && c.timeRange.Some? ==>
              c.timeRange.value.0 <= m.start && m.end <= c.timeRange.value.1
    ensures forall i, k, j, l | 0 <= i < |o.courses| && 0 <= k < |o.courses[i].meetings|
                                && 0 <= j < |o.courses| && 0 <= l < |o.courses[j].meetings| && (i != j || k != l) ::
              var m, n := o.courses[i].meetings[k], o.courses[j].meetings[l];
              (forall d :: d in m.days ==> d !in n.days) || m.end <= n.start || n.end <= m.start
    ensures c.minCourses <= |o.courses| <= c.maxCourses
    ensures c.minCredits.Some? ==> c.minCredits.value <= o.totalCredits
    ensures c.maxCredits.Some? ==> o.totalCredits <= c.maxCredits.value
    ensures o.totalCredits == TotalCredits(o.courses)
    ensures o.rankScore == |o.courses| as real + 0.01 * o.totalCredits as real
  {
    hide Solution, MeetsHardConstraints, Feasible;
    at := SolutionPlaces(candidates, completed, c, o);
    AllMeet(o.courses, completed, c);
    FeasibleIff(o.courses, c);
  }

  lemma {:induction false} SolutionPlaces(candidates: seq<CourseSection>, completed: set<string>, c: Constraints,
                                          o: ScheduleOption) returns (at: seq<nat>)
    requires c.minCourses >= 0 && o in Solution(candidates, completed, c)
    ensures |at| == |o.courses| && forall i, j :: 0 <= i < j < |at| ==> at[i] < at[j]
    ensures forall i :: 0 <= i < |at| ==> at[i] < |candidates| && o.courses[i] == candidates[at[i]]
    ensures forall s :: s in o.courses ==> MeetsHardConstraints(s, completed, c)
    ensures c.minCourses <= |o.courses| <= c.maxCourses && Feasible(o.courses, c) && o == OptionOf(o.courses)
  {
    hide Solution, FirstOfCodes, MeetsHardConstraints, Feasible, Valid, Chosen, IsSelection, TotalCredits;
    var valid := Valid(candidates, completed, c);
    SolutionExact(candidates, completed, c, o);
    var idx :| Chooses(valid, c, idx, o) && FirstOfCodes(valid, idx) && Feasible(Chosen(valid, idx), c);
    at := ChosenPlaces(candidates, completed, c, idx);
    forall s | s in o.courses ensures MeetsHardConstraints(s, completed, c) {
      var i :| 0 <= i < |o.courses| && o.courses[i] == s;
    }
  }

  /** A selection of the sections that pass takes candidates that pass, in their order. */
  lemma {:induction false} ChosenPlaces(candidates: seq<CourseSection>, completed: set<string>, c: Constraints, idx: seq<nat>)
    returns (at: seq<nat>)
    requires IsSelection(idx, |Valid(candidates, completed, c)|)
    ensures var combo := Chosen(Valid(candidates, completed, c), idx);
            && |at| == |combo| == |idx|
            && (forall i :: 0 <= i < |at| ==>
                  at[i] < |candidates| && combo[i] == candidates[at[i]] && MeetsHardConstraints(combo[i], completed, c))
            && forall i, j :: 0 <= i < j < |at| ==> at[i] < at[j]
  {
    hide MeetsHardConstraints, Valid;
    ComboSpelledOut(idx, 0, |Valid(candidates, completed, c)|);
    var places := ValidPlaces(candidates, completed, c);
    at := seq(|idx|, i requires 0 <= i < |idx| => places[idx[i]]);
  }

  lemma {:induction false} AllMeet(courses: seq<CourseSection>, completed: set<string>, c: Constraints)
    requires forall s :: s in courses ==> MeetsHardConstraints(s, completed, c)
    ensures forall s, m, d :: s in courses && m in s.meetings && d in m.days ==> d !in c.daysExcluded
    ensures forall s, p :: s in courses && p in s.prereqs ==> p in completed
    ensures forall s, m :: s in courses && m in s.meetings && c.timeRange.Some? ==>
              c.timeRange.value.0 <= m.start && m.end <= c.timeRange.value.1
  {
  }

  // ---------------------------------------------------------------------
  // Distinct course codes
  // ---------------------------------------------------------------------

  ghost predicate DistinctCodes(valid: seq<CourseSection>) {
    forall i, j :: 0 <= i < j < |valid| ==> valid[i].courseCode != valid[j].courseCode
  }

  lemma {:induction false} CodeHasPlace(combo: seq<CourseSection>, code: string) returns (i: nat)
    requires code in Codes(combo)
    ensures i < |combo| && combo[i].courseCode == code
  {
    if combo[0].courseCode == code {
      i := 0;
    } else {
      i := CodeHasPlace(combo[1..], code);
      i := i + 1;
    }
  }

  lemma {:induction false} SameCodesSameFirst(valid: seq<CourseSection>, a: seq<nat>, b: seq<nat>, lo: nat)
    requires DistinctCodes(valid) && IsCombo(a, lo, |valid|) && IsCombo(b, lo, |valid|)
    requires forall i :: 0 <= i < |a| ==> a[i] < |valid|
    requires forall i :: 0 <= i < |b| ==> b[i] < |valid|
    requires Codes(Pick(valid, a)) == Codes(Pick(valid, b)) && a != [] && b != []
    ensures a[0] == b[0]
  {
    ComboSpelledOut(a, lo, |valid|);
    ComboSpelledOut(b, lo, |valid|);
    assert valid[a[0]].courseCode in Codes(Pick(valid, a));
    assert valid[b[0]].courseCode in Codes(Pick(valid, b));
    var i := CodeHasPlace(Pick(valid, b), valid[a[0]].courseCode);
    var j := CodeHasPlace(Pick(valid, a), valid[b[0]].courseCode);
    assert b[i] == a[0] && a[j] == b[0];
  }

  lemma {:induction false} CodesOfRest(valid: seq<CourseSection>, idx: seq<nat>)
    requires idx != [] && forall i :: 0 <= i < |idx| ==> idx[i] < |valid|
    ensures Codes(Pick(valid, idx[1..])) == Codes(Pick(valid, idx)) - multiset{valid[idx[0]].courseCode}
  {
    assert Pick(valid, idx)[1..] == Pick(valid, idx[1..]);
  }

  lemma {:induction false} SameCodesSameSelection(valid: seq<CourseSection>, a: seq<nat>, b: seq<nat>, lo: nat)
    requires DistinctCodes(valid) && IsCombo(a, lo, |valid|) && IsCombo(b, lo, |valid|)
    requires forall i :: 0 <= i < |a| ==> a[i] < |valid|
    requires forall i :: 0 <= i < |b| ==> b[i] < |valid|
    requires Codes(Pick(valid, a)) == Codes(Pick(valid, b))
    ensures a == b
    decreases |a|
  {
    hide Codes, Pick, DistinctCodes;
    CodesCount(Pick(valid, a));
    CodesCount(Pick(valid, b));
    if a == [] {
      assert |b| == 0;
    } else {
      SameCodesSameFirst(valid, a, b, lo);
      CodesOfRest(valid, a);
      CodesOfRest(valid, b);
      SameCodesSameSelection(valid, a[1..], b[1..], a[0] + 1);
      assert a == [a[0]] + a[1..] && b == [b[0]] + b[1..];
    }
  }

  /** With distinct course codes the options are in bijection with the feasible selections. */
  lemma {:induction false} DistinctCodesComplete(candidates: seq<CourseSection>, completed: set<string>,
                                                 c: Constraints, idx: seq<nat>)
    requires c.minCourses >= 0 && DistinctCodes(Valid(candidates, completed, c))
    requires IsSelection(idx, |Valid(candidates, completed, c)|) && c.minCourses <= |idx| <= c.maxCourses
    ensures var valid := Valid(candidates, completed, c);
            && (OptionOf(Chosen(valid, idx)) in Solution(candidates, completed, c) <==> Feasible(Chosen(valid, idx), c))
            && forall other | IsSelection(other, |valid|)
                              && OptionOf(Chosen(valid, other)) == OptionOf(Chosen(valid, idx)) :: other == idx
  {
    hide Solution, Feasible, Codes;
    var valid := Valid(candidates, completed, c);
    var o := OptionOf(Chosen(valid, idx));
    SelectionInRange(idx, |valid|);
    forall other | IsSelection(other, |valid|) && Codes(Chosen(valid, other)) == Codes(Chosen(valid, idx))
      ensures other == idx
    {
      SelectionInRange(other, |valid|);
      SameCodesSameSelection(valid, other, idx, 0);
    }
    assert FirstOfCodes(valid, idx);
    SolutionExact(candidates, completed, c, o);
    assert Chooses(valid, c, idx, o);
  }

  // ---------------------------------------------------------------------
  // Naive completeness fails
  // ---------------------------------------------------------------------

  const EarlyA := CourseSection("A", "001", 3, [MeetingTime(["M"], 600, 660)], [])
  const LateA := CourseSection("A", "002", 3, [MeetingTime(["M"], 700, 760)], [])
  const OnlyB := CourseSection("B", "001", 3, [MeetingTime(["M"], 630, 690)], [])
  const Pairs := Constraints([], None, 2, 2, None, None)

  lemma {:induction false} ExampleSections()
    ensures Valid([EarlyA, LateA, OnlyB], {}, Pairs) == [EarlyA, LateA, OnlyB]
  {
    assert [EarlyA, LateA, OnlyB][1..] == [LateA, OnlyB] && [LateA, OnlyB][1..] == [OnlyB] && [OnlyB][1..] == [];
    assert Valid([OnlyB], {}, Pairs) == [OnlyB] + Valid([], {}, Pairs);
    assert Valid([LateA, OnlyB], {}, Pairs) == [LateA] + Valid([OnlyB], {}, Pairs);
  }

  lemma {:induction false} PairFacts(a: CourseSection, b: CourseSection)
    requires |a.meetings| == 1 && |b.meetings| == 1
    ensures Meetings([a, b]) == [a.meetings[0], b.meetings[0]]
    ensures Codes([a, b]) == multiset{a.courseCode, b.courseCode}
  {
    assert [a, b][1..] == [b] && [b][1..] == [];
    assert Meetings([b]) == b.meetings + Meetings([]);
    assert Codes([b]) == multiset{b.courseCode} + Codes([]);
  }

  /** Course A has an early section that clashes with B and a late one that does not. The early pair uses
      up the codes {A, B}, so no option has them although the late pair is feasible. */
  lemma {:induction false} NaiveCompletenessFails(o: ScheduleOption)
    ensures Feasible([LateA, OnlyB], Pairs) && Chosen([EarlyA, LateA, OnlyB], [1, 2]) == [LateA, OnlyB]
    ensures o in Solution([EarlyA, LateA, OnlyB], {}, Pairs) ==> Codes(o.courses) != Codes([LateA, OnlyB])
  {
    hide Solution, Valid, Codes, Meetings, FirstOfCodes, TotalCredits, HasTimeConflict;
    var all := [EarlyA, LateA, OnlyB];
    PairFacts(EarlyA, OnlyB);
    PairFacts(LateA, OnlyB);
    PairFacts(EarlyA, LateA);
    ExampleConflicts();
    ExampleSections();
    ExampleSelection(1, 2);
    ExampleSelection(0, 2);
    ExampleSelection(0, 1);
    if o in Solution(all, {}, Pairs) {
      SolutionExact(all, {}, Pairs, o);
      var idx :| Chooses(all, Pairs, idx, o) && FirstOfCodes(all, idx) && Feasible(Chosen(all, idx), Pairs);
      FirstPairOrLater(idx);
      if idx == [1, 2] { EarlierPairWins(); }
    }
  }

  lemma {:induction false} ExampleConflicts()
    ensures HasTimeConflict([EarlyA, OnlyB]) && !HasTimeConflict([LateA, OnlyB])
  {
    hide Meetings;
    PairFacts(EarlyA, OnlyB);
    PairFacts(LateA, OnlyB);
    assert "M" in EarlyA.meetings[0].days && "M" in OnlyB.meetings[0].days;
    assert Overlaps(Meetings([EarlyA, OnlyB])[0], Meetings([EarlyA, OnlyB])[1]);
  }

  lemma {:induction false} ExampleSelection(i: nat, j: nat)
    requires i < j < 3
    ensures IsSelection([i, j], 3)
    ensures Chosen([EarlyA, LateA, OnlyB], [i, j]) == [[EarlyA, LateA, OnlyB][i], [EarlyA, LateA, OnlyB][j]]
  {
    ComboSpelledOut([i, j], 0, 3);
  }

  lemma {:induction false} EarlierPairWins()
    ensures IsSelection([1, 2], 3) && !FirstOfCodes([EarlyA, LateA, OnlyB], [1, 2])
  {
    hide Codes;
    ExampleSelection(1, 2);
    ExampleSelection(0, 2);
    PairFacts(EarlyA, OnlyB);
    PairFacts(LateA, OnlyB);
    assert [0, 2][0] != [1, 2][0];
    assert !LexLess([1, 2], [0, 2]);
  }

  /** The selections of two out of three. */
  lemma {:induction false} FirstPairOrLater(idx: seq<nat>)
    requires IsSelection(idx, 3) && |idx| == 2
    ensures idx in [[0, 1], [0, 2], [1, 2]]
  {
    ComboSpelledOut(idx, 0, 3);
    assert idx == [idx[0], idx[1]];
  }

  // ---------------------------------------------------------------------
  // What a conflict means
  // ---------------------------------------------------------------------

  ghost predicate Covers(m: MeetingTime, day: string, t: Time) {
    day in m.days && m.start <= t < m.end
  }

  ghost predicate Proper(m: MeetingTime) {
    m.start < m.end
  }

  /** Two meetings meet at some instant iff the overlap test passes and neither is empty or reversed. */
  lemma {:induction false} OverlapMeansCommonInstant(a: MeetingTime, b: MeetingTime)
    ensures (exists day, t :: Covers(a, day, t) && Covers(b, day, t)) <==> Overlaps(a, b) && Proper(a) && Proper(b)
  {
    if Overlaps(a, b) && Proper(a) && Proper(b) {
      var day :| day in a.days && day in b.days;
      var t := if a.start < b.start then b.start else a.start;
      assert Covers(a, day, t) && Covers(b, day, t);
    }
  }

  /** No instant of any day is covered by two of the meetings. */
  ghost predicate NoDoubleBooking(ms: seq<MeetingTime>) {
    forall i, j, day, t :: 0 <= i < j < |ms| ==> !(Covers(ms[i], day, t) && Covers(ms[j], day, t))
  }

  /** A selection that passes the pairwise test books no instant twice; for proper meetings the converse holds. */
  lemma {:induction false} ConflictFreeMeansNoDoubleBooking(combo: seq<CourseSection>)
    ensures !HasTimeConflict(combo) ==> NoDoubleBooking(Meetings(combo))
    ensures (forall m :: m in Meetings(combo) ==> Proper(m)) ==>
              (!HasTimeConflict(combo) <==> NoDoubleBooking(Meetings(combo)))
  {
    var ms := Meetings(combo);
    forall i, j | 0 <= i < j < |ms|
      ensures (exists day, t :: Covers(ms[i], day, t) && Covers(ms[j], day, t))
              <==> Overlaps(ms[i], ms[j]) && Proper(ms[i]) && Proper(ms[j])
    {
      OverlapMeansCommonInstant(ms[i], ms[j]);
    }
    if HasTimeConflict(combo) && (forall m :: m in ms ==> Proper(m)) {
      var i, j :| 0 <= i < j < |ms| && Overlaps(ms[i], ms[j]);
      assert ms[i] in ms && ms[j] in ms;
      var day, t :| Covers(ms[i], day, t) && Covers(ms[j], day, t);
    }
  }

  /** Places of a section's meetings in the flattened list. */
  lemma {:induction false} MeetingPlace(combo: seq<CourseSection>, i: nat, k: nat) returns (p: nat)
    requires i < |combo| && k < |combo[i].meetings|
    ensures p < |Meetings(combo)| && Meetings(combo)[p] == combo[i].meetings[k]
    ensures p == k + |Meetings(combo[..i])|
  {
    if i == 0 {
      assert combo[..0] == [];
      p := k;
    } else {
      p := MeetingPlace(combo[1..], i - 1, k);
      assert combo[..i][1..] == combo[1..][..i - 1];
      p := p + |combo[0].meetings|;
    }
  }

  lemma {:induction false} PlaceOwner(combo: seq<CourseSection>, p: nat) returns (i: nat, k: nat)
    requires p < |Meetings(combo)|
    ensures i < |combo| && k < |combo[i].meetings| && Meetings(combo)[p] == combo[i].meetings[k]
    ensures p == k + |Meetings(combo[..i])|
  {
    if p < |combo[0].meetings| {
      i, k := 0, p;
      assert combo[..0] == [];
    } else {
      i, k := PlaceOwner(combo[1..], p - |combo[0].meetings|);
      assert combo[..i + 1][1..] == combo[1..][..i];
      i := i + 1;
    }
  }

  lemma {:induction false} MeetingsGrow(combo: seq<CourseSection>, i: nat, j: nat)
    requires i < j <= |combo|
    ensures |Meetings(combo[..i])| + |combo[i].meetings| <= |Meetings(combo[..j])|
  {
    if i == 0 {
      assert combo[..0] == [];
    } else {
      MeetingsGrow(combo[1..], i - 1, j - 1);
      assert combo[..i][1..] == combo[1..][..i - 1] && combo[..j][1..] == combo[1..][..j - 1];
    }
  }

  /** Leaving sections out never creates a conflict. */
  lemma {:induction false} SubSelectionStaysFree(combo: seq<CourseSection>, idx: seq<nat>)
    requires IsSelection(idx, |combo|) && !HasTimeConflict(combo)
    ensures !HasTimeConflict(Chosen(combo, idx))
  {
    ComboSpelledOut(idx, 0, |combo|);
    var sub := Chosen(combo, idx);
    forall p, q | 0 <= p < q < |Meetings(sub)| ensures !Overlaps(Meetings(sub)[p], Meetings(sub)[q]) {
      var i, k := PlaceOwner(sub, p);
      var j, l := PlaceOwner(sub, q);
      if j < i { MeetingsGrow(sub, j, i); }
      var p' := MeetingPlace(combo, idx[i], k);
      var q' := MeetingPlace(combo, idx[j], l);
      if i < j { MeetingsGrow(combo, idx[i], idx[j]); }
      assert p' < q';
    }
  }

  // ---------------------------------------------------------------------
  // Ranking
  // ---------------------------------------------------------------------

  /** The intended order: more courses first, ties by more credits. */
  predicate Before(a: ScheduleOption, b: ScheduleOption) {
    |a.courses| > |b.courses| || (|a.courses| == |b.courses| && a.totalCredits > b.totalCredits)
  }

  predicate Scored(o: ScheduleOption) {
    o == OptionOf(o.courses)
  }

  /** With more courses, an option scores higher exactly while the other one's credit lead stays below
      100 for each extra course. */
  lemma {:induction false} ScoreOrderIff(a: ScheduleOption, b: ScheduleOption)
    requires Scored(a) && Scored(b) && |a.courses| >= |b.courses|
    ensures a.rankScore > b.rankScore <==> b.totalCredits - a.totalCredits < 100 * (|a.courses| - |b.courses|)
  {
  }

  /** The order of the list: higher scores first; equal scores by size, then by the dictionary order of the
      selections. */
  lemma {:induction false} SolutionOrder(candidates: seq<CourseSection>, completed: set<string>, c: Constraints,
                                         i: nat, j: nat) returns (a: seq<nat>, b: seq<nat>)
    requires c.minCourses >= 0 && i < j < |Solution(candidates, completed, c)|
    ensures var valid, s := Valid(candidates, completed, c), Solution(candidates, completed, c);
            && Chooses(valid, c, a, s[i]) && Chooses(valid, c, b, s[j])
            && |a| == |s[i].courses| && |b| == |s[j].courses|
            && s[i].rankScore >= s[j].rankScore
            && (s[i].rankScore == s[j].rankScore ==>
                  |a| < |b| || (|a| == |b| && exists k :: 0 <= k < |a| && a[..k] == b[..k] && a[k] < b[k]))
  {
    hide Chosen, OptionOf, Kept, SortDesc;
    var valid := Valid(candidates, completed, c);
    var n, lo, hi := |valid|, c.minCourses, c.maxCourses;
    var tried := Tried(n, lo, hi);
    TriedExact(n, lo, hi);
    var kept := Kept(valid, c, tried, |tried|);
    var at := SortPlaces(kept, RankScore);
    var from := KeptPlaces(valid, c, tried, |tried|);
    a, b := tried[from[at[i]]], tried[from[at[j]]];
    ChosenSize(valid, c, a, kept[at[i]]);
    ChosenSize(valid, c, b, kept[at[j]]);
    if at[i] < at[j] {
      TriedBySize(n, lo, hi, from[at[i]], from[at[j]]);
      if |a| == |b| {
        TriedOrdered(n, lo, hi, from[at[i]], from[at[j]]);
        LexSpelledOut(a, b);
      }
    }
  }

  lemma {:induction false} KeptPlaces(valid: seq<CourseSection>, c: Constraints, tried: seq<seq<nat>>, upto: nat)
    returns (from: seq<nat>)
    requires Selections(tried, |valid|) && upto <= |tried|
    ensures |from| == |Kept(valid, c, tried, upto)|
    ensures forall k :: 0 <= k < |from| ==>
              from[k] < upto && Kept(valid, c, tried, upto)[k] == OptionOf(Chosen(valid, tried[from[k]]))
    ensures forall k, l :: 0 <= k < l < |from| ==> from[k] < from[l]
  {
    hide Codes, Feasible, SeenBefore, OptionOf, Chosen;
    from := [];
    if upto > 0 {
      from := KeptPlaces(valid, c, tried, upto - 1);
      var combo := Chosen(valid, tried[upto - 1]);
      if !SeenBefore(valid, tried, upto - 1, Codes(combo)) && Feasible(combo, c) {
        from := from + [upto - 1];
      }
    }
  }

  /** No option stands behind one that the intended order puts after it. */
  ghost predicate IntentOrdered(s: seq<ScheduleOption>) {
    forall i, j :: 0 <= i < j < |s| ==> !Before(s[j], s[i])
  }

  /** No shorter option leads a longer one by 100 credits or more for each course it lacks. */
  ghost predicate LeadsStaySmall(s: seq<ScheduleOption>) {
    forall o, p | o in s && p in s && |o.courses| > |p.courses| ::
      p.totalCredits - o.totalCredits < 100 * (|o.courses| - |p.courses|)
  }

  /** The list returned follows the intended order exactly when no shorter option in it leads a longer one by
      100 credits or more for each course it lacks. */
  lemma {:induction false} RankingExactIff(candidates: seq<CourseSection>, completed: set<string>, c: Constraints)
    requires c.minCourses >= 0
    ensures IntentOrdered(Solution(candidates, completed, c)) <==> LeadsStaySmall(Solution(candidates, completed, c))
  {
    hide Solution, OptionOf, MeetsHardConstraints;
    var s := Solution(candidates, completed, c);
    SolutionDescends(candidates, completed, c);
    if LeadsStaySmall(s) {
      forall i, j | 0 <= i < j < |s| ensures !Before(s[j], s[i]) {
        assert s[i] in s && s[j] in s;
        assert RankScore(s[i]) >= RankScore(s[j]);
        if |s[j].courses| >= |s[i].courses| { ScoreOrderIff(s[j], s[i]); }
      }
    }
    if !LeadsStaySmall(s) {
      var o, p :| o in s && p in s && |o.courses| > |p.courses|
                  && p.totalCredits - o.totalCredits >= 100 * (|o.courses| - |p.courses|);
      var i, j := LeaderComesFirst(candidates, completed, c, o, p);
      assert Before(s[j], s[i]);
    }
  }

  lemma {:induction false} SolutionDescends(candidates: seq<CourseSection>, completed: set<string>, c: Constraints)
    requires c.minCourses >= 0
    ensures Descending(Solution(candidates, completed, c), RankScore)
    ensures forall o :: o in Solution(candidates, completed, c) ==> Scored(o)
  {
    var valid := Valid(candidates, completed, c);
    var tried := Tried(|valid|, c.minCourses, c.maxCourses);
    TriedExact(|valid|, c.minCourses, c.maxCourses);
    SortSorts(Kept(valid, c, tried, |tried|), RankScore);
    forall o | o in Solution(candidates, completed, c) ensures Scored(o) {
      SolutionMembers(candidates, completed, c, o);
    }
  }

  /** A shorter option whose lead is too large is returned in front of the longer one: by its score, or on a
      tie because the search finds shorter options first. */
  lemma {:induction false} LeaderComesFirst(candidates: seq<CourseSection>, completed: set<string>, c: Constraints,
                                            o: ScheduleOption, p: ScheduleOption) returns (i: nat, j: nat)
    requires c.minCourses >= 0
    requires o in Solution(candidates, completed, c) && p in Solution(candidates, completed, c)
    requires |o.courses| > |p.courses| && p.totalCredits - o.totalCredits >= 100 * (|o.courses| - |p.courses|)
    ensures i < j < |Solution(candidates, completed, c)|
    ensures Solution(candidates, completed, c)[i] == p && Solution(candidates, completed, c)[j] == o
  {
    hide Solution, OptionOf;
    var s := Solution(candidates, completed, c);
    SolutionDescends(candidates, completed, c);
    ScoreOrderIff(o, p);
    i :| 0 <= i < |s| && s[i] == p;
    j :| 0 <= j < |s| && s[j] == o;
    if j < i {
      var a, b := SolutionOrder(candidates, completed, c, j, i);
    }
  }

  lemma {:induction false} ChosenSize(valid: seq<CourseSection>, c: Constraints, idx: seq<nat>, o: ScheduleOption)
    requires Chooses(valid, c, idx, o)
    ensures |o.courses| == |idx|
  {
    SelectionInRange(idx, |valid|);
  }

  lemma {:induction false} TriedBySize(n: nat, lo: nat, hi: int, i: nat, j: nat)
    requires i < j < |Tried(n, lo, hi)|
    ensures |Tried(n, lo, hi)[i]| <= |Tried(n, lo, hi)[j]|
    decreases hi - lo
  {
    var before := Tried(n, lo, hi - 1);
    TriedExact(n, lo, hi);
    if j < |before| {
      TriedBySize(n, lo, hi - 1, i, j);
    } else {
      CombosSound(0, n, hi, j - |before|);
    }
  }

  /** The intended order is kept whenever any two credit totals differ by less than 100... */
  lemma {:induction false} RankingFollowsIntent(candidates: seq<CourseSection>, completed: set<string>, c: Constraints)
    requires c.minCourses >= 0
    requires forall o, p | o in Solution(candidates, completed, c) && p in Solution(candidates, completed, c) ::
               p.totalCredits - o.totalCredits < 100
    ensures IntentOrdered(Solution(candidates, completed, c))
  {
    hide Solution, Before;
    RankingExactIff(candidates, completed, c);
  }

  /** ...which a caller can see to by credit bounds less than 100 apart. */
  lemma {:induction false} CreditBoundsKeepIntent(candidates: seq<CourseSection>, completed: set<string>, c: Constraints)
    requires c.minCourses >= 0 && c.minCredits.Some? && c.maxCredits.Some?
    requires c.maxCredits.value - c.minCredits.value < 100
    ensures IntentOrdered(Solution(candidates, completed, c))
  {
    hide Solution, Before;
    var s := Solution(candidates, completed, c);
    forall o | o in s ensures MeetsCreditBounds(o.totalCredits, c) {
      var at := SolutionSound(candidates, completed, c, o);
    }
    RankingFollowsIntent(candidates, completed, c);
  }

  const Big := CourseSection("BIG", "001", 103, [], [])
  const One := CourseSection("ONE", "001", 1, [], [])
  const Two := CourseSection("TWO", "001", 2, [], [])
  const HundredApart := Constraints([], None, 1, 2, Some(3), Some(103))

  /** The bound is tight: with credit bounds 100 apart, one course of 103 credits is returned before the two
      courses of 1 and 2. */
  lemma {:induction false} RankingBoundTight() returns (i: nat, j: nat)
    ensures var s := Solution([Big, One, Two], {}, HundredApart);
            && i < j < |s| && s[i] == OptionOf([Big]) && s[j] == OptionOf([One, Two])
            && Before(s[j], s[i]) && !IntentOrdered(s)
  {
    hide Solution;
    var all, c := [Big, One, Two], HundredApart;
    CreditSections();
    ComboSpelledOut([0], 0, 3);
    ComboSpelledOut([1, 2], 0, 3);
    assert Chosen(all, [0]) == [Big] && Chosen(all, [1, 2]) == [One, Two];
    DistinctCodesComplete(all, {}, c, [0]);
    DistinctCodesComplete(all, {}, c, [1, 2]);
    i, j := LeaderComesFirst(all, {}, c, OptionOf([One, Two]), OptionOf([Big]));
  }

  lemma {:induction false} CreditSections()
    ensures Valid([Big, One, Two], {}, HundredApart) == [Big, One, Two]
    ensures DistinctCodes([Big, One, Two])
    ensures TotalCredits([Big]) == 103 && TotalCredits([One, Two]) == 3
    ensures Feasible([Big], HundredApart) && Feasible([One, Two], HundredApart)
  {
    assert [Big, One, Two][1..] == [One, Two] && [One, Two][1..] == [Two] && [Two][1..] == [];
    assert Valid([Two], {}, HundredApart) == [Two] + Valid([], {}, HundredApart);
    assert Valid([One, Two], {}, HundredApart) == [One] + Valid([Two], {}, HundredApart);
    assert Big.courseCode[0] != One.courseCode[0] && Big.courseCode[0] != Two.courseCode[0];
    assert One.courseCode[0] != Two.courseCode[0];
    assert [Big][1..] == [];
    assert TotalCredits([Two]) == 2 && TotalCredits([]) == 0;
    assert Meetings([]) == [] && Meetings([Big]) == [] && Meetings([Two]) == [] && Meetings([One, Two]) == [];
  }
}
