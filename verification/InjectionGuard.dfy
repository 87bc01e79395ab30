/** The pattern guard against prompt injection, with the tier that turns its score into a verdict. */
module InjectionGuard {

  /** A compiled pattern: its score, the text it was compiled from, and what it matches. */
  datatype Pattern = Pattern(score: real, source: string, matches: string -> bool)

  /** A history turn: plain text, or a message object with its content ("" if it has none) and its
      printed form. */
  datatype Turn = Plain(text: string) | Message(content: string, printed: string)

  datatype Label = Injection | Benign

  datatype GuardResult = GuardResult(kind: Label, score: real, detail: string)

  const HISTORY_DISCOUNT: real := 0.8
  const HISTORY_TURNS := 3

  function First(s: string, n: nat): string {
    if |s| <= n then s else s[..n]
  }

  function ContentOf(turn: Turn): string {
    match turn
    case Plain(text) => text
    case Message(content, printed) => if content != "" then content else printed
  }

  function Recent(history: seq<Turn>): seq<Turn> {
    if |history| <= HISTORY_TURNS then history else history[|history| - HISTORY_TURNS..]
  }

  // ---------------------------------------------------------------------
  // The score
  // ---------------------------------------------------------------------

  /** A match, with the score it counts for. */
  datatype Match = Match(score: real, detail: string)

  /** The matches in the current text, in pattern order. */
  function InText(patterns: seq<Pattern>, text: string): seq<Match> {
    if patterns == [] then [] else
      var n := |patterns| - 1;
      InText(patterns[..n], text) +
      if patterns[n].matches(text) then [Match(patterns[n].score, First(patterns[n].source, 60))] else []
  }

  /** The matches in one history turn, discounted. */
  function InTurn(patterns: seq<Pattern>, content: string): seq<Match> {
    if patterns == [] then [] else
      var n := |patterns| - 1;
      InTurn(patterns[..n], content) +
      if patterns[n].matches(content)
      then [Match(patterns[n].score * HISTORY_DISCOUNT, "history:" + First(patterns[n].source, 50))] else []
  }

  function InTurns(patterns: seq<Pattern>, turns: seq<Turn>): seq<Match> {
    if turns == [] then [] else
      InTurns(patterns, turns[..|turns| - 1]) + InTurn(patterns, ContentOf(turns[|turns| - 1]))
  }

  function Matches(patterns: seq<Pattern>, text: string, history: seq<Turn>): seq<Match> {
    InText(patterns, text) + InTurns(patterns, Recent(history))
  }

  /** The running maximum: a later match replaces the best one only if it scores strictly more. */
  function Best(matches: seq<Match>): Match {
    if matches == [] then Match(0.0, "") else
      var best, last := Best(matches[..|matches| - 1]), matches[|matches| - 1];
      if last.score > best.score then last else best
  }

  function ResultOf(best: Match): GuardResult {
    if best.score >= 0.5 then GuardResult(Injection, best.score, best.detail)
    else GuardResult(Benign, 1.0 - best.score, best.detail)
  }

  /** The running maximum is the first match of highest positive score. */
  lemma {:induction false} BestIsFirstHighest(matches: seq<Match>)
    ensures Best(matches).score >= 0.0
    ensures forall m :: m in matches ==> m.score <= Best(matches).score
    ensures Best(matches) == Match(0.0, "") ||
            exists i :: 0 <= i < |matches| && matches[i] == Best(matches) && matches[i].score > 0.0
                        && forall j :: 0 <= j < i ==> matches[j].score < matches[i].score
  {
    if matches != [] {
      var n := |matches| - 1;
      var before := matches[..n];
      BestIsFirstHighest(before);
      assert matches == before + [matches[n]];
      if matches[n].score > Best(before).score {
        forall j | 0 <= j < n ensures matches[j].score < matches[n].score {
          assert matches[j] in before;
        }
      } else if Best(before) != Match(0.0, "") {
        var i :| 0 <= i < |before| && before[i] == Best(before) && before[i].score > 0.0
                 && forall j :: 0 <= j < i ==> before[j].score < before[i].score;
        assert matches[i] == Best(matches);
        assert forall j :: 0 <= j < i ==> matches[j] == before[j];
      }
    }
  }

  lemma {:induction false} BestMore(matches: seq<Match>, m: Match)
    ensures Best(matches + [m]) == if m.score > Best(matches).score then m else Best(matches)
  {
    assert (matches + [m])[..|matches|] == matches;
  }

  lemma {:induction false} NoMatch()
    ensures Best([]) == Match(0.0, "")
  {
  }

  /** Scan the current text, then the recent turns at a discount. */
  method Classify(patterns: seq<Pattern>, text: string, history: seq<Turn>) returns (r: GuardResult)
    ensures r == ResultOf(Best(Matches(patterns, text, history)))
    ensures var b := Best(Matches(patterns, text, history));
            && r.detail == b.detail
            && (b.score >= 0.5 ==> r.kind == Injection && r.score == b.score)
            && (b.score < 0.5 ==> r.kind == Benign && r.score == 1.0 - b.score)
  {
    hide Best;
    var maxScore, matched := 0.0, "";
    assert Best([]) == Match(0.0, "") by { NoMatch(); }
    for i := 0 to |patterns|
      invariant Match(maxScore, matched) == Best(InText(patterns[..i], text))
    {
      assert patterns[..i + 1][..i] == patterns[..i];
      if patterns[i].matches(text) {
        BestMore(InText(patterns[..i], text), Match(patterns[i].score, First(patterns[i].source, 60)));
        if patterns[i].score > maxScore {
          maxScore, matched := patterns[i].score, First(patterns[i].source, 60);
        }
      } else {
        assert InText(patterns[..i + 1], text) == InText(patterns[..i], text);
      }
    }
    assert patterns[..|patterns|] == patterns;
    var recent := Recent(history);
    ghost var found := InText(patterns, text);
    assert found + InTurns(patterns, recent[..0]) == found;
    for t := 0 to |recent|
      invariant Match(maxScore, matched) == Best(found + InTurns(patterns, recent[..t]))
    {
      ghost var before := found + InTurns(patterns, recent[..t]);
      maxScore, matched := ScanTurn(patterns, ContentOf(recent[t]), maxScore, matched, before);
      assert recent[..t + 1][..t] == recent[..t];
      assert before + InTurn(patterns, ContentOf(recent[t])) == found + InTurns(patterns, recent[..t + 1]);
    }
    assert recent[..|recent|] == recent;
    r := ResultOf(Match(maxScore, matched));
  }

  /** The inner loop over one turn. */
  method ScanTurn(patterns: seq<Pattern>, content: string, score0: real, detail0: string, ghost before: seq<Match>)
    returns (maxScore: real, matched: string)
    requires Match(score0, detail0) == Best(before)
    ensures Match(maxScore, matched) == Best(before + InTurn(patterns, content))
  {
    hide Best;
    maxScore, matched := score0, detail0;
    assert before + InTurn(patterns[..0], content) == before;
    for i := 0 to |patterns|
      invariant Match(maxScore, matched) == Best(before + InTurn(patterns[..i], content))
    {
      ghost var found := before + InTurn(patterns[..i], content);
      assert patterns[..i + 1][..i] == patterns[..i];
      if patterns[i].matches(content) {
        var discounted := patterns[i].score * HISTORY_DISCOUNT;
        var detail := "history:" + First(patterns[i].source, 50);
        BestMore(found, Match(discounted, detail));
        assert found + [Match(discounted, detail)] == before + InTurn(patterns[..i + 1], content);
        if discounted > maxScore {
          maxScore, matched := discounted, detail;
        }
      } else {
        assert InTurn(patterns[..i + 1], content) == InTurn(patterns[..i], content);
      }
    }
    assert patterns[..|patterns|] == patterns;
  }

  // ---------------------------------------------------------------------
  // The tier
  // ---------------------------------------------------------------------

  const DENY_THRESHOLD: real := 0.9
  const FLAG_THRESHOLD: real := 0.5

  datatype Decision = Allow | Deny | FlagForReview

  datatype Reason = Harmless | Uncertain | HighConfidence | TimedOut | Raised | MalformedScore

  /** A score as any client may hand it over. */
  datatype Score = Finite(value: real) | Infinite | NotANumber | Unreadable

  /** What awaiting a client comes to. */
  datatype Outcome = Timeout | Exception | Answered(kind: Label, score: Score)

  datatype TierResult = TierResult(decision: Decision, reason: Reason)

  predicate WellFormed(score: Score) {
    score.Finite? && 0.0 <= score.value <= 1.0
  }

  function ResultFromScore(kind: Label, score: real): TierResult {
    if kind == Injection && score >= DENY_THRESHOLD then TierResult(Deny, HighConfidence)
    else if kind == Injection && score >= FLAG_THRESHOLD then TierResult(FlagForReview, Uncertain)
    else TierResult(Allow, Harmless)
  }

  /** Every failure is routed to review. */
  function CheckInjection(outcome: Outcome): TierResult {
    match outcome
    case Timeout => TierResult(FlagForReview, TimedOut)
    case Exception => TierResult(FlagForReview, Raised)
    case Answered(kind, score) =>
      if !WellFormed(score) then TierResult(FlagForReview, MalformedScore) else ResultFromScore(kind, score.value)
  }

  /** The tier over the pattern guard. */
  function Verdict(patterns: seq<Pattern>, text: string, history: seq<Turn>): TierResult {
    var r := ResultOf(Best(Matches(patterns, text, history)));
    CheckInjection(Answered(r.kind, Finite(r.score)))
  }

  // ---------------------------------------------------------------------
  // When it denies, flags and allows
  // ---------------------------------------------------------------------

  ghost predicate Unit(patterns: seq<Pattern>) {
    forall p :: p in patterns ==> 0.0 <= p.score <= 1.0
  }

  /** Some pattern of at least this score matches. */
  ghost predicate Hits(patterns: seq<Pattern>, content: string, least: real) {
    exists p :: p in patterns && p.score >= least && p.matches(content)
  }

  ghost predicate Reaches(matches: seq<Match>, level: real) {
    exists m :: m in matches && m.score >= level
  }

  lemma {:induction false} ReachesEither(a: seq<Match>, b: seq<Match>, level: real)
    ensures Reaches(a + b, level) <==> Reaches(a, level) || Reaches(b, level)
  {
  }

  lemma {:induction false} ReachesOne(m: Match, level: real)
    ensures Reaches([m], level) <==> m.score >= level
    ensures !Reaches([], level)
  {
    assert m in [m];
  }

  lemma {:induction false} HitsLast(patterns: seq<Pattern>, content: string, least: real)
    requires patterns != []
    ensures var n := |patterns| - 1;
            Hits(patterns, content, least)
            <==> Hits(patterns[..n], content, least) || (patterns[n].score >= least && patterns[n].matches(content))
  {
    var n := |patterns| - 1;
    assert patterns == patterns[..n] + [patterns[n]];
  }

  lemma {:induction false} TextReaches(patterns: seq<Pattern>, text: string, level: real)
    ensures Reaches(InText(patterns, text), level) <==> Hits(patterns, text, level)
  {
    if patterns != [] {
      hide Hits, Reaches;
      var n := |patterns| - 1;
      TextReaches(patterns[..n], text, level);
      HitsLast(patterns, text, level);
      var m := Match(patterns[n].score, First(patterns[n].source, 60));
      ReachesOne(m, level);
      ReachesEither(InText(patterns[..n], text), if patterns[n].matches(text) then [m] else [], level);
    }
  }

  lemma {:induction false} TurnReaches(patterns: seq<Pattern>, content: string, level: real)
    ensures Reaches(InTurn(patterns, content), level) <==> Hits(patterns, content, level / HISTORY_DISCOUNT)
  {
    var least := level / HISTORY_DISCOUNT;
    if patterns != [] {
      hide Hits, Reaches;
      var n := |patterns| - 1;
      TurnReaches(patterns[..n], content, level);
      HitsLast(patterns, content, least);
      var m := Match(patterns[n].score * HISTORY_DISCOUNT, "history:" + First(patterns[n].source, 50));
      ReachesOne(m, level);
      ReachesEither(InTurn(patterns[..n], content), if patterns[n].matches(content) then [m] else [], level);
    }
  }

  lemma {:induction false} TurnsReach(patterns: seq<Pattern>, turns: seq<Turn>, level: real)
    ensures Reaches(InTurns(patterns, turns), level)
            <==> exists t :: t in turns && Hits(patterns, ContentOf(t), level / HISTORY_DISCOUNT)
  {
    hide Hits, InTurn, ContentOf;
    if turns != [] {
      var n := |turns| - 1;
      TurnsReach(patterns, turns[..n], level);
      TurnReaches(patterns, ContentOf(turns[n]), level);
      ReachesEither(InTurns(patterns, turns[..n]), InTurn(patterns, ContentOf(turns[n])), level);
      assert turns == turns[..n] + [turns[n]];
    }
  }

  lemma {:induction false} BestReaches(matches: seq<Match>, level: real)
    requires level > 0.0
    ensures Best(matches).score >= level <==> Reaches(matches, level)
  {
    BestIsFirstHighest(matches);
  }

  /** The score reaches a level iff some pattern does: in the text outright, in a recent turn after the discount. */
  lemma {:induction false} ScoreReaches(patterns: seq<Pattern>, text: string, history: seq<Turn>, level: real)
    requires level > 0.0
    ensures Best(Matches(patterns, text, history)).score >= level
            <==> Hits(patterns, text, level)
                 || exists t :: t in Recent(history) && Hits(patterns, ContentOf(t), level / HISTORY_DISCOUNT)
  {
    hide Best, Hits, Reaches, InText, InTurns, ContentOf;
    BestReaches(Matches(patterns, text, history), level);
    TextReaches(patterns, text, level);
    TurnsReach(patterns, Recent(history), level);
    ReachesEither(InText(patterns, text), InTurns(patterns, Recent(history)), level);
  }

  /** With scores in [0, 1] the guard's own score is in [0, 1], so it is never taken for malformed. */
  lemma {:induction false} ScoresStayInRange(patterns: seq<Pattern>, text: string, history: seq<Turn>)
    requires Unit(patterns)
    ensures 0.0 <= Best(Matches(patterns, text, history)).score <= 1.0
    ensures 0.0 <= ResultOf(Best(Matches(patterns, text, history))).score <= 1.0
    ensures Verdict(patterns, text, history).reason != MalformedScore
  {
    hide Best, Matches;
    var best := Best(Matches(patterns, text, history)).score;
    BestIsFirstHighest(Matches(patterns, text, history));
    if best > 1.0 {
      ScoreReaches(patterns, text, history, best);
    }
  }

  /** For any patterns scored in [0, 1]: deny iff the text itself matches a pattern scored at least 0.9. History
      alone, whatever it holds, reaches at most the discount and so at most a flag. */
  lemma {:induction false} DeniesIff(patterns: seq<Pattern>, text: string, history: seq<Turn>)
    requires forall p :: p in patterns ==> 0.0 <= p.score <= 1.0
    ensures Verdict(patterns, text, history).decision == Deny
            <==> exists p :: p in patterns && p.score >= 0.9 && p.matches(text)
  {
    hide Best, Matches;
    ScoresStayInRange(patterns, text, history);
    ScoreReaches(patterns, text, history, DENY_THRESHOLD);
  }

  /** Flag iff nothing in the text is worth a denial, but it matches a pattern scored at least 0.5, or one of the last
      three turns matches one scored at least 0.5 / 0.8. The text of a turn is its content, or its printed form if
      that is empty. */
  lemma {:induction false} FlagsIff(patterns: seq<Pattern>, text: string, history: seq<Turn>)
    requires forall p :: p in patterns ==> 0.0 <= p.score <= 1.0
    ensures Verdict(patterns, text, history).decision == FlagForReview
            <==> && (forall p :: p in patterns && p.score >= 0.9 ==> !p.matches(text))
                 && (|| (exists p :: p in patterns && p.score >= 0.5 && p.matches(text))
                     || exists i, p ::
                          && 0 <= i < |history| && |history| - 3 <= i && p in patterns && p.score >= 0.5 / 0.8
                          && p.matches(match history[i]
                                       case Plain(t) => t
                                       case Message(c, printed) => if c != "" then c else printed))
  {
    hide Best, Matches, Recent, ContentOf;
    ScoresStayInRange(patterns, text, history);
    ScoreReaches(patterns, text, history, DENY_THRESHOLD);
    ScoreReaches(patterns, text, history, FLAG_THRESHOLD);
    RecentHits(patterns, history, FLAG_THRESHOLD / HISTORY_DISCOUNT);
  }

  /** The recent turns are the last three. */
  lemma {:induction false} RecentHits(patterns: seq<Pattern>, history: seq<Turn>, least: real)
    ensures (exists t :: t in Recent(history) && Hits(patterns, ContentOf(t), least))
            <==> exists i, p ::
                   && 0 <= i < |history| && |history| - 3 <= i && p in patterns && p.score >= least
                   && p.matches(match history[i]
                                case Plain(t) => t
                                case Message(c, printed) => if c != "" then c else printed)
  {
    hide Hits;
    var recent := Recent(history);
    var skipped := |history| - |recent|;
    if t :| t in recent && Hits(patterns, ContentOf(t), least) {
      var k :| 0 <= k < |recent| && recent[k] == t;
      var p := HitBy(patterns, ContentOf(t), least);
      assert history[skipped + k] == t;
    }
    forall i: nat, p | i < |history| && |history| - 3 <= i && p in patterns && p.score >= least
                       && p.matches(ContentOf(history[i]))
      ensures exists t :: t in recent && Hits(patterns, ContentOf(t), least)
    {
      assert recent[i - skipped] == history[i] && history[i] in recent;
      IsHit(patterns, p, ContentOf(history[i]), least);
    }
  }

  lemma {:induction false} HitBy(patterns: seq<Pattern>, content: string, least: real) returns (p: Pattern)
    requires Hits(patterns, content, least)
    ensures p in patterns && p.score >= least && p.matches(content)
  {
    p :| p in patterns && p.score >= least && p.matches(content);
  }

  lemma {:induction false} IsHit(patterns: seq<Pattern>, p: Pattern, content: string, least: real)
    requires p in patterns && p.score >= least && p.matches(content)
    ensures Hits(patterns, content, least)
  {
  }

  /** Turns before the last three never matter, not even to the detail reported. */
  lemma {:induction false} OlderTurnsIgnored(patterns: seq<Pattern>, text: string, older: seq<Turn>, others: seq<Turn>,
                                             recent: seq<Turn>)
    requires |recent| >= 3
    ensures Matches(patterns, text, older + recent) == Matches(patterns, text, others + recent)
    ensures Verdict(patterns, text, older + recent) == Verdict(patterns, text, others + recent)
  {
    assert Recent(older + recent) == recent[|recent| - HISTORY_TURNS..];
    assert Recent(others + recent) == recent[|recent| - HISTORY_TURNS..];
  }

  /** What a kept match reports: the score and the first 60 characters of a pattern that the text matches, or 0.8 of
      the score and the first 50 of one that a recent turn matches, marked as history. */
  lemma {:induction false} DetailSpelled(patterns: seq<Pattern>, text: string, history: seq<Turn>)
    ensures var b := Best(Matches(patterns, text, history));
            || b == Match(0.0, "")
            || (exists p :: && p in patterns && p.matches(text)
                            && b == Match(p.score, if |p.source| <= 60 then p.source else p.source[..60]))
            || exists i, p ::
                 && 0 <= i < |history| && |history| - 3 <= i && p in patterns
                 && p.matches(match history[i]
                              case Plain(t) => t
                              case Message(c, printed) => if c != "" then c else printed)
                 && b == Match(p.score * 0.8, "history:" + if |p.source| <= 50 then p.source else p.source[..50])
  {
    hide Best, InText, InTurns;
    var all := Matches(patterns, text, history);
    BestIsFirstHighest(all);
    if i: nat :| i < |all| && all[i] == Best(all) && all[i].score > 0.0 {
      var n := |InText(patterns, text)|;
      if i < n {
        var p := TextMatch(patterns, text, i);
      } else {
        var k, p := TurnsMatch(patterns, Recent(history), i - n);
        assert Recent(history)[k] == history[|history| - |Recent(history)| + k];
      }
    }
  }

  lemma {:induction false} TextMatch(patterns: seq<Pattern>, text: string, i: nat) returns (p: Pattern)
    requires i < |InText(patterns, text)|
    ensures p in patterns && p.matches(text) && InText(patterns, text)[i] == Match(p.score, First(p.source, 60))
  {
    var n := |patterns| - 1;
    assert patterns == patterns[..n] + [patterns[n]];
    if i < |InText(patterns[..n], text)| {
      p := TextMatch(patterns[..n], text, i);
    } else {
      p := patterns[n];
    }
  }

  lemma {:induction false} TurnMatch(patterns: seq<Pattern>, content: string, i: nat) returns (p: Pattern)
    requires i < |InTurn(patterns, content)|
    ensures p in patterns && p.matches(content)
    ensures InTurn(patterns, content)[i] == Match(p.score * HISTORY_DISCOUNT, "history:" + First(p.source, 50))
  {
    var n := |patterns| - 1;
    assert patterns == patterns[..n] + [patterns[n]];
    if i < |InTurn(patterns[..n], content)| {
      p := TurnMatch(patterns[..n], content, i);
    } else {
      p := patterns[n];
    }
  }

  lemma {:induction false} TurnsMatch(patterns: seq<Pattern>, turns: seq<Turn>, i: nat) returns (k: nat, p: Pattern)
    requires i < |InTurns(patterns, turns)|
    ensures k < |turns| && p in patterns && p.matches(ContentOf(turns[k]))
    ensures InTurns(patterns, turns)[i] == Match(p.score * HISTORY_DISCOUNT, "history:" + First(p.source, 50))
  {
    hide InTurn, ContentOf;
    var n := |turns| - 1;
    var before := InTurns(patterns, turns[..n]);
    if i < |before| {
      k, p := TurnsMatch(patterns, turns[..n], i);
    } else {
      p := TurnMatch(patterns, ContentOf(turns[n]), i - |before|);
      k := n;
    }
  }

  /** What each way of ending comes to: failures and scores outside [0, 1] are flagged, and an answer is judged by its
      score. */
  lemma {:induction false} OutcomesJudged(outcome: Outcome)
    ensures outcome == Timeout || outcome == Exception ==> CheckInjection(outcome).decision == FlagForReview
    ensures outcome.Answered? && (!outcome.score.Finite? || outcome.score.value < 0.0 || outcome.score.value > 1.0) ==>
              CheckInjection(outcome) == TierResult(FlagForReview, MalformedScore)
    ensures outcome.Answered? && outcome.score.Finite? && 0.0 <= outcome.score.value <= 1.0 ==>
              CheckInjection(outcome)
              == if outcome.kind == Benign || outcome.score.value < 0.5 then TierResult(Allow, Harmless)
                 else if outcome.score.value < 0.9 then TierResult(FlagForReview, Uncertain)
                 else TierResult(Deny, HighConfidence)
  {
  }

  /** The shipped scores, in pattern order. */
  const SCORES: seq<real> := [1.0, 0.95, 0.95, 0.9, 0.9, 0.85, 0.7, 0.5]

  /** The shipped guard: the first five patterns deny, the other three flag, and in the last three turns every pattern
      but the polite one flags. */
  lemma {:induction false} ShippedVerdict(patterns: seq<Pattern>, text: string, history: seq<Turn>)
    requires |patterns| == 8 && forall i :: 0 <= i < 8 ==> patterns[i].score == SCORES[i]
    ensures Verdict(patterns, text, history).decision ==
            if exists k :: 0 <= k < 5 && patterns[k].matches(text) then Deny
            else if || (exists k :: 5 <= k < 8 && patterns[k].matches(text))
                    || exists i, k ::
                         && 0 <= i < |history| && |history| - 3 <= i && 0 <= k < 7
                         && patterns[k].matches(match history[i]
                                                case Plain(t) => t
                                                case Message(c, printed) => if c != "" then c else printed)
            then FlagForReview
            else Allow
  {
    hide Verdict, ContentOf;
    assert forall p :: p in patterns ==> 0.0 <= p.score <= 1.0;
    DeniesIff(patterns, text, history);
    FlagsIff(patterns, text, history);
    ShippedHits(patterns, text);
    forall i | 0 <= i < |history|
      ensures (exists p :: p in patterns && p.score >= 0.5 / 0.8 && p.matches(ContentOf(history[i])))
              <==> exists k :: 0 <= k < 7 && patterns[k].matches(ContentOf(history[i]))
    {
      ShippedHits(patterns, ContentOf(history[i]));
    }
  }

  /** Which shipped patterns have the scores in question. */
  lemma {:induction false} ShippedHits(patterns: seq<Pattern>, content: string)
    requires |patterns| == 8 && forall i :: 0 <= i < 8 ==> patterns[i].score == SCORES[i]
    ensures (exists p :: p in patterns && p.score >= 0.9 && p.matches(content))
            <==> exists k :: 0 <= k < 5 && patterns[k].matches(content)
    ensures (exists p :: p in patterns && p.score >= 0.5 / 0.8 && p.matches(content))
            <==> exists k :: 0 <= k < 7 && patterns[k].matches(content)
    ensures (exists p :: p in patterns && p.score >= 0.5 && p.matches(content))
            <==> exists k :: 0 <= k < 8 && patterns[k].matches(content)
  {
  }
}
