/** `is_stable_file`: poll a file's size every `interval` ticks until two
    consecutive samples are equal and non-zero, the file disappears, `stat`
    fails otherwise, or `max_wait` ticks have been waited. The file system is a supplied sequence
    of observations: `sizes(k)` is what the k-th `stat` sees. */
module Stability {

  /** What one `stat` call sees: no file (`FileNotFoundError`), another
      error such as `PermissionError`, or the file's size. */
  datatype Observation = Missing | Unreadable | Size(bytes: nat)

  /** How the polling ended: the source returns true only for Stable, false
      for Vanished and TimedOut, and lets the `stat` error of StatRaised out. */
  datatype Verdict = Stable | Vanished | TimedOut | StatRaised

  /** The verdict and the number of `stat` calls made. */
  datatype Polling = Polling(verdict: Verdict, samples: nat)

  /** ceil(maxWait / interval), or 0 when there is nothing to wait for. */
  function SampleBudget(interval: nat, maxWait: int): nat
    requires interval > 0
  {
    if maxWait <= 0 then 0 else (maxWait + interval - 1) / interval
  }

  /** The loop from the state where `k` samples have been taken, `last` is the
      previous size (-1 before the first) and `waited` ticks have passed. */
  function PollFrom(sizes: nat -> Observation, k: nat, last: int, waited: int,
                    interval: nat, maxWait: int): Polling
    requires interval > 0
    decreases maxWait - waited
  {
    if waited >= maxWait then Polling(TimedOut, k)
    else match sizes(k)
      case Missing => Polling(Vanished, k + 1)
      case Unreadable => Polling(StatRaised, k + 1)
      case Size(n) =>
        if n == last && n > 0 then Polling(Stable, k + 1)
        else PollFrom(sizes, k + 1, n, waited + interval, interval, maxWait)
  }

  /** The whole run of `is_stable_file`. */
  function Poll(sizes: nat -> Observation, interval: nat, maxWait: int): Polling
    requires interval > 0
  {
    PollFrom(sizes, 0, -1, 0, interval, maxWait)
  }

  /** `last` agrees with the samples taken so far. */
  predicate LastIsPrevious(sizes: nat -> Observation, k: nat, last: int) {
    if k == 0 then last == -1 else last >= 0 && sizes(k - 1) == Size(last)
  }

  /** Sample `j` repeats sample `j - 1` with a non-zero size. */
  predicate Repeats(sizes: nat -> Observation, j: nat) {
    j >= 1 && sizes(j).Size? && sizes(j) == sizes(j - 1) && sizes(j).bytes > 0
  }

  // ---------------------------------------------------------------------------
  // The loop

  /** Polls the sizes; `samples` is the number of `stat` calls made, and
      `raised` says that a `stat` error other than a missing file escaped. */
  method IsStableFile(sizes: nat -> Observation, interval: nat, maxWait: int)
    returns (stable: bool, raised: bool, samples: nat)
    requires interval > 0
    ensures stable == Poll(sizes, interval, maxWait).verdict.Stable?
    ensures raised == Poll(sizes, interval, maxWait).verdict.StatRaised?
    ensures raised ==> !stable && samples >= 1 && sizes(samples - 1).Unreadable?
    ensures samples == Poll(sizes, interval, maxWait).samples
    ensures stable ==> samples >= 2 && Repeats(sizes, samples - 1)
    ensures samples <= SampleBudget(interval, maxWait)
  {
    var lastSize := -1;
    var waited := 0;
    samples := 0;
    raised := false;
    while waited < maxWait
      invariant waited == samples * interval
      invariant LastIsPrevious(sizes, samples, lastSize)
      invariant PollFrom(sizes, samples, lastSize, waited, interval, maxWait)
             == Poll(sizes, interval, maxWait)
      invariant !raised
      decreases maxWait - waited
    {
      var observed := sizes(samples);
      samples := samples + 1;
      if observed.Missing? {
        stable := false;
        break;
      }
      if observed.Unreadable? {
        stable, raised := false, true;
        break;
      }
      var size := observed.bytes;
      if size == lastSize && size > 0 {
        stable := true;
        break;
      }
      lastSize := size;
      waited := waited + interval;
    }
    if waited >= maxWait {
      stable := false;
    }
    Characterization(sizes, interval, maxWait);
  }

  // ---------------------------------------------------------------------------
  // Properties of the polling

  /** The loop keeps going after `j` samples exactly when fewer than
      ceil(maxWait / interval) have been taken. */
  lemma {:induction false} BudgetIsCeiling(interval: nat, maxWait: int, j: nat)
    requires interval > 0
    ensures j * interval < maxWait <==> j < SampleBudget(interval, maxWait)
  {
    if maxWait > 0 {
      var b := SampleBudget(interval, maxWait);
      var r := (maxWait + interval - 1) % interval;
      assert maxWait + interval - 1 == b * interval + r;
      if j < b {
        MulMonotone(j, b - 1, interval);
        assert (b - 1) * interval == b * interval - interval;
      } else {
        MulMonotone(b, j, interval);
      }
    } else {
      assert j * interval >= 0;
    }
  }

  lemma {:induction false} MulMonotone(a: nat, b: nat, c: nat)
    requires a <= b
    ensures a * c <= b * c
  {
  }

  /** Sample `j` was present and did not settle the loop. */
  predicate Quiet(sizes: nat -> Observation, j: nat) {
    sizes(j).Size? && !Repeats(sizes, j)
  }

  /** Every sample before the last one was present and did not settle the
      loop; the last one vanished, could not be read, repeated its
      predecessor, or was quiet too and time ran out, after exactly
      ceil(maxWait / interval) samples. */
  lemma Characterization(sizes: nat -> Observation, interval: nat, maxWait: int)
    requires interval > 0
    ensures var p := Poll(sizes, interval, maxWait);
      && p.samples <= SampleBudget(interval, maxWait)
      && (forall j :: 0 <= j < p.samples - 1 ==> Quiet(sizes, j))
      && (p.verdict.Vanished? ==> p.samples >= 1 && sizes(p.samples - 1).Missing?)
      && (p.verdict.StatRaised? ==> p.samples >= 1 && sizes(p.samples - 1).Unreadable?)
      && (p.verdict.Stable? ==> p.samples >= 2 && Repeats(sizes, p.samples - 1))
      && (p.verdict.TimedOut? ==> p.samples == SampleBudget(interval, maxWait)
                                   && forall j :: 0 <= j < p.samples ==> Quiet(sizes, j))
  {
    var p := Poll(sizes, interval, maxWait);
    EndingFrom(sizes, 0, -1, 0, interval, maxWait);
    WaitingFrom(sizes, 0, -1, 0, interval, maxWait);
    BudgetIsCeiling(interval, maxWait, p.samples);
    if p.samples > 0 {
      BudgetIsCeiling(interval, maxWait, p.samples - 1);
    }
  }

  /** How the loop ends, counted from sample `k` on. */
  lemma {:induction false} EndingFrom(sizes: nat -> Observation, k: nat, last: int, waited: int,
                                      interval: nat, maxWait: int)
    requires interval > 0 && LastIsPrevious(sizes, k, last)
    ensures var p := PollFrom(sizes, k, last, waited, interval, maxWait);
      && p.samples >= k
      && (forall j :: k <= j < p.samples - 1 ==> Quiet(sizes, j))
      && (p.verdict.Vanished? ==> p.samples > k && sizes(p.samples - 1).Missing?)
      && (p.verdict.StatRaised? ==> p.samples > k && sizes(p.samples - 1).Unreadable?)
      && (p.verdict.Stable? ==> p.samples > k && Repeats(sizes, p.samples - 1))
      && (p.verdict.TimedOut? ==> p.samples == k || Quiet(sizes, p.samples - 1))
    decreases maxWait - waited
  {
    if waited < maxWait && sizes(k).Size? {
      var n := sizes(k).bytes;
      if !(n == last && n > 0) {
        assert Quiet(sizes, k);
        EndingFrom(sizes, k + 1, n, waited + interval, interval, maxWait);
      }
    }
  }

  /** The time waited when the loop ends: every sample was taken while less
      than maxWait had been waited, and a timeout has waited at least maxWait. */
  lemma {:induction false} WaitingFrom(sizes: nat -> Observation, k: nat, last: int, waited: int,
                                       interval: nat, maxWait: int)
    requires interval > 0 && waited == k * interval
    ensures var p := PollFrom(sizes, k, last, waited, interval, maxWait);
      && p.samples >= k
      && (p.samples == k || (p.samples - 1) * interval < maxWait)
      && (p.verdict.TimedOut? ==> p.samples * interval >= maxWait)
      && (!p.verdict.TimedOut? ==> p.samples > k)
    decreases maxWait - waited
  {
    if waited < maxWait && sizes(k).Size? {
      var n := sizes(k).bytes;
      if !(n == last && n > 0) {
        assert (k + 1) * interval == waited + interval;
        WaitingFrom(sizes, k + 1, n, waited + interval, interval, maxWait);
      }
    }
  }

  /** The loop takes at most ceil(maxWait / interval) samples, none at all when
      maxWait <= 0, and a timeout happens exactly at that many. */
  lemma SamplesWithinBudget(sizes: nat -> Observation, interval: nat, maxWait: int)
    requires interval > 0
    ensures Poll(sizes, interval, maxWait).samples <= SampleBudget(interval, maxWait)
    ensures Poll(sizes, interval, maxWait).verdict.TimedOut? ==>
      Poll(sizes, interval, maxWait).samples == SampleBudget(interval, maxWait)
    ensures maxWait <= 0 ==> Poll(sizes, interval, maxWait) == Polling(TimedOut, 0)
  {
    Characterization(sizes, interval, maxWait);
  }

  /** A file that is still empty at every sample never counts as stable. */
  lemma {:induction false} EmptyFileNeverStable(sizes: nat -> Observation, interval: nat, maxWait: int)
    requires interval > 0
    requires forall j :: 0 <= j < SampleBudget(interval, maxWait) ==> sizes(j) == Size(0)
    ensures Poll(sizes, interval, maxWait) == Polling(TimedOut, SampleBudget(interval, maxWait))
  {
    Characterization(sizes, interval, maxWait);
  }

  /** A vanished file ends the polling at once: the sample that saw it missing is the last one. */
  lemma {:induction false} MissingStopsPolling(sizes: nat -> Observation, interval: nat, maxWait: int, j: nat)
    requires interval > 0
    requires sizes(j).Missing? && j < Poll(sizes, interval, maxWait).samples
    ensures Poll(sizes, interval, maxWait) == Polling(Vanished, j + 1)
  {
    Characterization(sizes, interval, maxWait);
    assert !Quiet(sizes, j);
  }

  /** A `stat` error other than a missing file ends the polling at once and
      leaves `is_stable_file` with that error. */
  lemma {:induction false} StatErrorStopsPolling(sizes: nat -> Observation, interval: nat, maxWait: int, j: nat)
    requires interval > 0
    requires sizes(j).Unreadable? && j < Poll(sizes, interval, maxWait).samples
    ensures Poll(sizes, interval, maxWait) == Polling(StatRaised, j + 1)
  {
    Characterization(sizes, interval, maxWait);
    assert !Quiet(sizes, j);
  }

  /** Two equal non-zero samples in a row within the budget, with the file
      present up to then, make the file stable no later than the second of them. */
  lemma {:induction false} RepeatWithinBudgetIsStable(sizes: nat -> Observation, interval: nat, maxWait: int, j: nat)
    requires interval > 0
    requires j < SampleBudget(interval, maxWait) && Repeats(sizes, j)
    requires forall i :: 0 <= i < j ==> sizes(i).Size?
    ensures Poll(sizes, interval, maxWait).verdict == Stable
    ensures Poll(sizes, interval, maxWait).samples <= j + 1
  {
    Characterization(sizes, interval, maxWait);
    assert !Quiet(sizes, j);
  }
}
