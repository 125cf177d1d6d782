/**
  The book's page sequencer (`Book` in src/components/Book.jsx).

  The requested page `page` is set by the user interface; the settled page
  `delayed` trails it one step at a time. Each step is taken by `goToPage`:
  when the two differ it moves `delayed` one page toward `page` and schedules
  exactly one timer whose firing takes the next step. A change of `page`
  clears the outstanding timer and immediately takes a first step from the
  current `delayed` toward the new target.

  Timers are not clocks here: a scheduled timer is the delay it was scheduled
  with, and its firing is the event `Fire`.
*/
module Sequencer {
  import opened Wrappers

  /** Delay (ms) of the timer scheduled while far from the target. */
  const FastDelay: nat := 50
  /** Delay (ms) of the timer scheduled when within two pages of the target. */
  const SlowDelay: nat := 150

  function Abs(x: int): (n: nat) {
    if x < 0 then -x else x
  }

  /** -1, 0 or +1: the direction from `from` toward `to`. */
  function Direction(from: int, to: int): (d: int) {
    if from < to then 1 else if to < from then -1 else 0
  }

  /** `x` lies on the closed segment between `a` and `b` (in either order). */
  predicate Between(a: int, x: int, b: int) {
    (a <= x <= b) || (b <= x <= a)
  }

  /** The delay chosen for a step whose gap, measured before the step, is `gap`. */
  function DelayFor(gap: nat): (d: nat) {
    if gap > 2 then FastDelay else SlowDelay
  }

  /** The outcome of one call of `goToPage`: the new settled page and the
      timer it schedules, if any. */
  datatype StepResult = StepResult(delayed: int, timer: Option<nat>)

  /** One `goToPage` step toward `page` from `delayed`. */
  function Step(page: int, delayed: int): (r: StepResult)
    ensures page == delayed <==> r.timer.None?
    ensures page == delayed ==> r.delayed == delayed
    ensures page != delayed ==>
              && Abs(r.delayed - delayed) == 1
              && Abs(page - r.delayed) == Abs(page - delayed) - 1
              && Between(delayed, r.delayed, page)
    ensures page != delayed ==> r.timer == Some(DelayFor(Abs(page - delayed)))
  {
    if page == delayed then
      StepResult(delayed, None)
    else
      var timer := Some(DelayFor(Abs(page - delayed)));
      if page > delayed then StepResult(delayed + 1, timer)
      else StepResult(delayed - 1, timer)
  }

  /** The book's sequencing state. At most one timer is outstanding, by
      construction of `pending`. */
  datatype BookState = BookState(page: int, delayed: int, pending: Option<nat>)

  function Gap(s: BookState): (g: nat) {
    Abs(s.page - s.delayed)
  }

  /** The invariant of every reachable state: an idle sequencer has settled,
      and the pending timer's delay matches the gap it was scheduled for. */
  predicate Valid(s: BookState) {
    match s.pending
    case None => s.delayed == s.page
    case Some(d) =>
      (d == FastDelay && Gap(s) >= 2) || (d == SlowDelay && Gap(s) <= 1)
  }

  /** The state right after mounting with requested page `p`: `delayed` is
      initialised from `page`, and the mount-time step finds nothing to do. */
  function Init(p: int): (s: BookState)
    ensures s.page == p && s.delayed == p && s.pending.None?
    ensures Valid(s)
  {
    var r := Step(p, p);
    BookState(p, r.delayed, r.timer)
  }

  /** The outstanding timer fires and runs `goToPage` again. Without an
      outstanding timer there is nothing to fire. */
  function Fire(s: BookState): (t: BookState)
    ensures t.page == s.page
    ensures s.pending.None? ==> t == s
    ensures s.pending.Some? && s.delayed != s.page ==>
              Gap(t) == Gap(s) - 1 && Between(s.delayed, t.delayed, s.page)
    ensures s.pending.Some? && s.delayed == s.page ==> t.delayed == s.delayed && t.pending.None?
    ensures s.pending.Some? ==> t.pending == Step(s.page, s.delayed).timer
    ensures Valid(s) ==> Valid(t)
  {
    match s.pending
    case None => s
    case Some(_) =>
      var r := Step(s.page, s.delayed);
      BookState(s.page, r.delayed, r.timer)
  }

  /** The requested page changes to `p`. An unchanged value does not re-run the
      effect; a new one clears the pending timer and takes a first step at once. */
  function Retarget(s: BookState, p: int): (t: BookState)
    ensures t.page == p
    ensures p == s.page ==> t == s
    ensures p != s.page ==> t.pending == Step(p, s.delayed).timer
    ensures p != s.page && p != s.delayed ==>
              Abs(t.delayed - s.delayed) == 1 && Gap(t) == Abs(p - s.delayed) - 1
    ensures Between(s.delayed, t.delayed, p) || p == s.page
    ensures Valid(s) ==> Valid(t)
  {
    if p == s.page then s
    else
      var r := Step(p, s.delayed);
      BookState(p, r.delayed, r.timer)
  }

  /** What can happen to the sequencer: its timer fires, or the user
      interface sets the requested page. */
  datatype Event = TimerFires | RequestPage(p: int)

  function Apply(s: BookState, e: Event): (t: BookState)
    ensures Valid(s) ==> Valid(t)
  {
    match e
    case TimerFires => Fire(s)
    case RequestPage(p) => Retarget(s, p)
  }

  /** Every state reached from a valid one by any sequence of events is valid. */
  function ApplyAll(s: BookState, es: seq<Event>): (t: BookState)
    ensures Valid(s) ==> Valid(t)
    decreases |es|
  {
    if |es| == 0 then s else ApplyAll(Apply(s, es[0]), es[1..])
  }

  /** The timer fires `n` times in a row with no change of requested page.
      The settled page never overshoots: it stays between where it started
      and the requested page. */
  function Run(s: BookState, n: nat): (t: BookState)
    ensures t.page == s.page
    ensures Valid(s) ==> Valid(t) && Between(s.delayed, t.delayed, s.page)
    decreases n
  {
    if n == 0 then s else Run(Fire(s), n - 1)
  }

  /** While the gap is open, `k` firings move the settled page exactly `k`
      pages toward the requested page, and the `k+1`-th step schedules the
      timer its gap calls for: 50 ms while more than two pages remain. */
  lemma {:induction false} RunPosition(s: BookState, k: nat)
    requires Valid(s)
    requires k <= Gap(s)
    ensures Run(s, k).page == s.page
    ensures Run(s, k).delayed == s.delayed + k * Direction(s.delayed, s.page)
    ensures Gap(Run(s, k)) == Gap(s) - k
    ensures Valid(Run(s, k))
    ensures k < Gap(s) ==> Run(s, k + 1).pending == Some(DelayFor(Gap(s) - k))
    decreases k
  {
    if k == 0 {
      if Gap(s) > 0 {
        assert Run(s, 1) == Fire(s);
      }
    } else {
      var f := Fire(s);
      assert f.delayed == s.delayed + Direction(s.delayed, s.page);
      RunPosition(f, k - 1);
      assert Run(s, k) == Run(f, k - 1);
      if k < Gap(s) {
        assert Run(s, k + 1) == Run(f, k);
      }
    }
  }

  /** Convergence: with the requested page fixed, the settled page reaches it
      after exactly `Gap(s)` firings and not before; one firing more drains
      the last timer, after which the sequencer is idle for good. */
  lemma Converges(s: BookState)
    requires Valid(s)
    ensures Run(s, Gap(s)).delayed == s.page
    ensures forall k: nat :: k < Gap(s) ==> Run(s, k).delayed != s.page
    ensures Run(s, Gap(s) + 1).delayed == s.page && Run(s, Gap(s) + 1).pending.None?
  {
    RunPosition(s, Gap(s));
    forall k: nat | k < Gap(s)
      ensures Run(s, k).delayed != s.page
    {
      RunPosition(s, k);
    }
    RunAfter(s, Gap(s));
  }

  lemma {:induction false} RunAfter(s: BookState, n: nat)
    requires Valid(s)
    requires n == Gap(s)
    ensures Run(s, n + 1) == Fire(Run(s, n))
    decreases n
  {
    if n > 0 {
      RunAfter(Fire(s), n - 1);
    }
  }

  /** After a change of the requested page to `p`, the settled page moves
      from where it stood toward `p` and never passes it, however many
      timers fire. */
  lemma RetargetNeverOvershoots(s: BookState, p: int, n: nat)
    requires Valid(s)
    ensures Run(Retarget(s, p), n).page == p
    ensures Between(s.delayed, Run(Retarget(s, p), n).delayed, p)
  {
  }
}
