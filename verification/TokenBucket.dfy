/** One token bucket that nobody evicts: the reference that the server is compared
    with. It lets through all that the window bound allows, and no more. */
module TokenBucket {
  import opened Lex
  import opened RateLimit
  import opened RateRuns
  import opened RateBounds

  function Count(verdicts: seq<bool>): nat {
    if verdicts == [] then 0 else Count(verdicts[..|verdicts| - 1]) + if verdicts[|verdicts| - 1] then 1 else 0
  }

  lemma CountAppend(verdicts: seq<bool>, ok: bool)
    ensures Count(verdicts + [ok]) == Count(verdicts) + if ok then 1 else 0
  {
    assert (verdicts + [ok])[..|verdicts|] == verdicts;
  }

  predicate Ascending(start: real, times: seq<real>, end: real) {
    if times == [] then start <= end
    else times[|times| - 1] <= end && Ascending(start, times[..|times| - 1], times[|times| - 1])
  }

  /** A lone bucket obeys the bound too. */
  lemma {:induction false} LoneBound(rule: Rule, start: real, times: seq<real>, end: real)
    requires Ascending(start, times, end)
    ensures start <= end && Sound(Lone(rule, start, times), end) && Lone(rule, start, times).rule == rule
    ensures Count(LoneVerdicts(rule, start, times)) as real + Level(Some(Bucket(Lone(rule, start, times), end)), rule, end)
            <= Top(rule) + Earned(rule.perSecond, end - start)
  {
    RefillIsEarned(rule.perSecond, end - start);
    Nonnegative(rule.perSecond, end - start);
    if times != [] {
      var before, at := times[..|times| - 1], times[|times| - 1];
      LoneBound(rule, start, before, at);
      var lone := Lone(rule, start, before);
      var (l, ok) := Take(lone, at);
      CountAppend(LoneVerdicts(rule, start, before), ok);
      LevelAtCall(Some(Bucket(lone, at)), rule, at);
      SoundStays(lone, at, at);
      LevelGrows(Some(Bucket(l, at)), rule, at, end);
      RefillSum(rule.perSecond, at - start, end - at);
    }
  }

  lemma AscendingAppend(start: real, times: seq<real>, end: real, at: real)
    requires Ascending(start, times, end) && end <= at
    ensures Ascending(start, times + [at], at) && Ascending(start, times, at)
  {
    assert (times + [at])[..|times|] == times;
    AscendingLater(start, times, end, at);
  }

  lemma AscendingLater(start: real, times: seq<real>, end: real, at: real)
    requires Ascending(start, times, end) && end <= at
    ensures Ascending(start, times, at)
  {
  }

  // ---- A token bucket refuses no more than the bound asks ----

  /** What the window from call `j` on still has room for. */
  function Room(rule: Rule, times: seq<real>, verdicts: seq<bool>, j: nat, now: real): real
    requires j < |times| == |verdicts|
  {
    rule.burst as real + Refill(rule.perSecond, now - times[j]) - Count(verdicts[j..]) as real
  }

  /** `level` is the least room over all windows that end now, or a burst. */
  ghost predicate LeastRoom(rule: Rule, times: seq<real>, verdicts: seq<bool>, now: real, level: real)
    requires |times| == |verdicts|
  {
    level <= rule.burst as real &&
    (forall j :: 0 <= j < |times| ==> level <= Room(rule, times, verdicts, j, now)) &&
    (level == rule.burst as real || exists j :: 0 <= j < |times| && level == Room(rule, times, verdicts, j, now))
  }

  lemma {:induction false} VerdictPerCall(rule: Rule, start: real, times: seq<real>)
    ensures |LoneVerdicts(rule, start, times)| == |times|
  {
    if times != [] {
      VerdictPerCall(rule, start, times[..|times| - 1]);
    }
  }

  lemma {:induction false} LastIsLatest(start: real, times: seq<real>, now: real, j: nat)
    requires Ascending(start, times, now) && j < |times|
    ensures times[j] <= now
  {
    if j < |times| - 1 {
      LastIsLatest(start, times[..|times| - 1], times[|times| - 1], j);
    }
  }

  /** One more call, let through or not, at the level before it. */
  lemma RoomAfter(rule: Rule, times: seq<real>, verdicts: seq<bool>, at: real, ok: bool, j: nat, now: real)
    requires |times| == |verdicts| && j <= |times| && at <= now && (j < |times| ==> times[j] <= at)
    ensures var moved := Refill(rule.perSecond, now - at) - if ok then 1.0 else 0.0;
            Room(rule, times + [at], verdicts + [ok], j, now) ==
            if j < |times| then Room(rule, times, verdicts, j, at) + moved else rule.burst as real + moved
    ensures j < |times| && !ok ==> Room(rule, times + [at], verdicts + [ok], j, now) == Room(rule, times, verdicts, j, now)
  {
    if j < |times| {
      assert (verdicts + [ok])[j..] == verdicts[j..] + [ok];
      CountAppend(verdicts[j..], ok);
      RefillSum(rule.perSecond, at - times[j], now - at);
    } else {
      assert (verdicts + [ok])[j..] == [ok] && [] + [ok] == [ok];
      CountAppend([], ok);
    }
  }

  lemma LeastAfterTaken(rule: Rule, start: real, times: seq<real>, verdicts: seq<bool>, at: real, now: real, level: real)
    requires |times| == |verdicts| && Ascending(start, times, at) && at <= now && LeastRoom(rule, times, verdicts, at, level)
    ensures var moved := level - 1.0 + Refill(rule.perSecond, now - at);
            LeastRoom(rule, times + [at], verdicts + [true], now,
                      if moved > rule.burst as real then rule.burst as real else moved)
  {
    forall j | 0 <= j <= |times|
      ensures Room(rule, times + [at], verdicts + [true], j, now) ==
              (if j < |times| then Room(rule, times, verdicts, j, at) else rule.burst as real) +
              Refill(rule.perSecond, now - at) - 1.0
    {
      if j < |times| {
        LastIsLatest(start, times, at, j);
      }
      RoomAfter(rule, times, verdicts, at, true, j, now);
    }
    var tightest := |times|;
    if level != rule.burst as real {
      tightest :| 0 <= tightest < |times| && level == Room(rule, times, verdicts, tightest, at);
    }
    assert Room(rule, times + [at], verdicts + [true], tightest, now) == level - 1.0 + Refill(rule.perSecond, now - at);
  }

  lemma LeastAfterRefused(rule: Rule, start: real, times: seq<real>, verdicts: seq<bool>, at: real, now: real, level: real)
    requires |times| == |verdicts| && Ascending(start, times, at) && at <= now && LeastRoom(rule, times, verdicts, now, level)
    ensures LeastRoom(rule, times + [at], verdicts + [false], now, level)
  {
    Nonnegative(rule.perSecond, now - at);
    forall j | 0 <= j <= |times|
      ensures Room(rule, times + [at], verdicts + [false], j, now) ==
              if j < |times| then Room(rule, times, verdicts, j, now) else rule.burst as real + Refill(rule.perSecond, now - at)
    {
      if j < |times| {
        LastIsLatest(start, times, at, j);
      }
      RoomAfter(rule, times, verdicts, at, false, j, now);
    }
  }

  /** What a lone bucket has available is the least room of any window. */
  lemma {:induction false} AvailableIsLeastRoom(rule: Rule, start: real, times: seq<real>, now: real)
    requires Ascending(start, times, now)
    ensures |LoneVerdicts(rule, start, times)| == |times|
    ensures LeastRoom(rule, times, LoneVerdicts(rule, start, times), now, Available(Lone(rule, start, times), now))
  {
    VerdictPerCall(rule, start, times);
    Nonnegative(rule.perSecond, now - start);
    if times != [] {
      var before, at := times[..|times| - 1], times[|times| - 1];
      var lone := Lone(rule, start, before);
      VerdictPerCall(rule, start, before);
      LoneRule(rule, start, before);
      assert times == before + [at];
      AscendingLater(start, before, at, now);
      AvailableIsLeastRoom(rule, start, before, at);
      AvailableIsLeastRoom(rule, start, before, now);
      if Take(lone, at).1 {
        LeastAfterTaken(rule, start, before, LoneVerdicts(rule, start, before), at, now, Available(lone, at));
      } else {
        LeastAfterRefused(rule, start, before, LoneVerdicts(rule, start, before), at, now, Available(lone, now));
      }
    }
  }

  /** A lone bucket lets a call through exactly when every window that ends with it
      stays within burst + rate * length: it refuses nothing that the bound allows. */
  lemma RefusesExactly(rule: Rule, start: real, times: seq<real>, at: real)
    requires Ascending(start, times, at)
    ensures |LoneVerdicts(rule, start, times)| == |times|
    ensures Take(Lone(rule, start, times), at).1 <==>
            rule.burst >= 1 &&
            forall j :: 0 <= j < |times| ==>
              Count(LoneVerdicts(rule, start, times)[j..]) as real + 1.0
              <= rule.burst as real + Earned(rule.perSecond, at - times[j])
  {
    forall j | 0 <= j < |times|
      ensures Refill(rule.perSecond, at - times[j]) == Earned(rule.perSecond, at - times[j])
    {
      RefillIsEarned(rule.perSecond, at - times[j]);
    }
    AvailableIsLeastRoom(rule, start, times, at);
    LoneRule(rule, start, times);
    var verdicts := LoneVerdicts(rule, start, times);
    assert forall j :: 0 <= j < |times| ==>
      (Room(rule, times, verdicts, j, at) >= 1.0 <==>
       Count(verdicts[j..]) as real + 1.0 <= rule.burst as real + Refill(rule.perSecond, at - times[j]));
  }
}
