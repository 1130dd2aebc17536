/** The RUN_ONCE_IN guard of include/glb_log.h: code at one site runs at most once in a number of seconds. */
module RateLimiter {
  import opened Arithmetic

  class Site {
    var lastCall: int  // the static variable of the macro

    constructor ()
      ensures lastCall == 0
    {
      lastCall := 0;
    }

    /** One pass over the macro at the given time: true when the code behind it runs. */
    method Enter(freq: int, now: int) returns (run: bool)
      requires -INT_MAX - 1 <= lastCall + freq <= INT_MAX
      modifies this
      ensures run <==> old(lastCall) + freq <= now
      ensures lastCall == if run then now else old(lastCall)
    {
      if lastCall + freq > now {
        return false;
      }
      lastCall := now;
      run := true;
    }
  }

  /** The times at which the code runs when the site is passed at the given times. */
  function Runs(times: seq<int>, freq: int): (r: seq<int>) {
    if times == [] then []
    else
      var earlier, now := Runs(times[..|times| - 1], freq), times[|times| - 1];
      if Last(earlier) + freq <= now then earlier + [now] else earlier
  }

  /** The time of the last run, 0 before the first. */
  function Last(runs: seq<int>): (r: int) {
    if runs == [] then 0 else runs[|runs| - 1]
  }

  /** Successive runs are freq apart, and the first is freq after the epoch; no clock is too erratic for that. */
  lemma {:induction false} RunsAreSpaced(times: seq<int>, freq: int)
    ensures Runs(times, freq) != [] ==> Runs(times, freq)[0] >= freq
    ensures forall i, j | 0 <= i < |Runs(times, freq)| && j == i + 1 < |Runs(times, freq)| ::
              Runs(times, freq)[i] + freq <= Runs(times, freq)[j]
  {
    if times != [] {
      RunsAreSpaced(times[..|times| - 1], freq);
    }
  }

  lemma {:induction false} RunsSpread(times: seq<int>, freq: int, i: nat, j: nat)
    requires i <= j < |Runs(times, freq)|
    ensures Runs(times, freq)[i] + (j - i) * freq <= Runs(times, freq)[j]
    decreases j - i
  {
    if i < j {
      RunsSpread(times, freq, i, j - 1);
      RunsAreSpaced(times, freq);
      var k := j - 1;
      assert Runs(times, freq)[k] + freq <= Runs(times, freq)[j];
      OnceMore(k - i, freq);
      assert k - i + 1 == j - i;
    }
  }

  /** A window of w seconds holds at most w / freq + 1 runs. */
  lemma WindowBound(times: seq<int>, freq: int, i: nat, j: nat, w: nat)
    requires freq > 0 && i <= j < |Runs(times, freq)|
    requires Runs(times, freq)[j] - Runs(times, freq)[i] <= w
    ensures j - i + 1 <= w / freq + 1
  {
    RunsSpread(times, freq, i, j);
    QuotientIsLeast(j - i, freq, w);
  }

  /** A choice among the passes that keeps the distance RUN_ONCE_IN asks for. */
  ghost predicate Schedule(times: seq<int>, freq: int, s: seq<int>) {
    && (forall t | t in s :: t in times)
    && (s != [] ==> s[0] >= freq)
    && (forall i, j | 0 <= i < |s| && j == i + 1 < |s| :: s[i] + freq <= s[j])
  }

  lemma {:induction false} RunsAreSchedule(times: seq<int>, freq: int)
    ensures Schedule(times, freq, Runs(times, freq))
  {
    RunsAreSpaced(times, freq);
    if times != [] {
      RunsAreSchedule(times[..|times| - 1], freq);
    }
  }

  lemma {:induction false} ScheduleIsIncreasing(times: seq<int>, freq: int, s: seq<int>, i: nat, j: nat)
    requires freq > 0 && Schedule(times, freq, s) && i < j < |s|
    ensures s[i] < s[j]
    decreases j - i
  {
    var k := j - 1;
    assert s[k] + freq <= s[j];
    if i < k {
      ScheduleIsIncreasing(times, freq, s, i, k);
    }
  }

  lemma LatestIsLast(times: seq<int>, t: int)
    requires NonDecreasing(times) && t in times
    ensures t <= times[|times| - 1] && (t in times[..|times| - 1] || t == times[|times| - 1])
  {
    assert times == times[..|times| - 1] + [times[|times| - 1]];
  }

  /** All but the last choice of a schedule, and the last too unless it is the latest pass, come from earlier passes. */
  lemma ScheduleUsesEarlierPasses(times: seq<int>, freq: int, s: seq<int>, j: nat)
    requires freq > 0 && NonDecreasing(times) && Schedule(times, freq, s) && times != []
    requires j < |s| && (j < |s| - 1 || s[j] in times[..|times| - 1])
    ensures s[j] in times[..|times| - 1]
  {
    if j < |s| - 1 {
      ScheduleIsIncreasing(times, freq, s, j, |s| - 1);
      assert s[j] in times && s[|s| - 1] in times;
      LatestIsLast(times, s[j]);
      LatestIsLast(times, s[|s| - 1]);
    }
  }

  /** If the guard has kept up with all but the last choice of a schedule, it keeps up with the last one as well. */
  lemma KeepsUp(times: seq<int>, freq: int, s: seq<int>)
    requires freq > 0 && NonDecreasing(times) && Schedule(times, freq, s) && times != [] && s != []
    requires var before := Runs(times[..|times| - 1], freq);
             |s| - 1 <= |before| && forall j | 0 <= j < |s| - 1 :: before[j] <= s[j]
    requires s[|s| - 1] == times[|times| - 1]
    ensures |s| <= |Runs(times, freq)| && forall j | 0 <= j < |s| :: Runs(times, freq)[j] <= s[j]
  {
    var before, now, n := Runs(times[..|times| - 1], freq), times[|times| - 1], |s| - 1;
    var runs := Runs(times, freq);
    RunsAreSchedule(times, freq);
    if |before| == n {
      if n > 0 {
        var k := n - 1;
        assert before[k] <= s[k] && s[k] + freq <= s[n];
      }
      assert runs == before + [now];
    }
    assert runs[n] in runs && runs[n] in times;
    LatestIsLast(times, runs[n]);
  }

  /**
   On a clock that does not go back the guard wastes nothing: it runs the code at least as often, and each time
   at least as early, as any other schedule that keeps the distance.
   */
  lemma {:induction false} RunsAreOptimal(times: seq<int>, freq: int, s: seq<int>)
    requires freq > 0 && NonDecreasing(times) && Schedule(times, freq, s)
    ensures |s| <= |Runs(times, freq)|
    ensures forall j | 0 <= j < |s| :: Runs(times, freq)[j] <= s[j]
    decreases |times|
  {
    if s != [] {
      assert s[|s| - 1] in s && s[|s| - 1] in times;
      var init, n := times[..|times| - 1], |s| - 1;
      if s[n] in init {
        forall j | 0 <= j < |s| ensures s[j] in init {
          ScheduleUsesEarlierPasses(times, freq, s, j);
        }
        RunsAreOptimal(init, freq, s);
      } else {
        forall j | 0 <= j < n ensures s[j] in init {
          ScheduleUsesEarlierPasses(times, freq, s, j);
        }
        LatestIsLast(times, s[n]);
        RunsAreOptimal(init, freq, s[..n]);
        KeepsUp(times, freq, s);
      }
    }
  }

  /** A site passed at the given times runs exactly at the times of the model. */
  method Drive(times: seq<int>, freq: int) returns (runs: seq<int>)
    requires -INT_MAX - 1 <= freq <= INT_MAX
    requires forall t | t in times :: -INT_MAX - 1 <= t + freq <= INT_MAX
    ensures runs == Runs(times, freq)
  {
    var site := new Site();
    runs := [];
    for i := 0 to |times|
      invariant runs == Runs(times[..i], freq) && site.lastCall == Last(runs)
      invariant forall t | t in runs :: t in times
    {
      assert times[..i + 1][..i] == times[..i];
      assert runs != [] ==> runs[|runs| - 1] in times;
      var run := site.Enter(freq, times[i]);
      if run {
        runs := runs + [times[i]];
      }
    }
    assert times[..|times|] == times;
  }
}
