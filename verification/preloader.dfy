/** The loading screen (`Preloader.updateProgress` and `simulateLoading`).

    Every 200 ms the simulated load adds a random amount in `[0, 15)` to the
    progress, stopping at 100. Each update sets the bar width, the
    percentage label (the progress rounded down) and, when the band index
    `floor(progress / 20)` names one of the five messages, the loading text;
    at 100 the index is 5, past the end of the list, and the text stays as
    it was. The random amounts are a parameter here. */
module Preloader {

  const LoadingMessages: seq<string> := [
    "Initializing...",
    "Loading Resources...",
    "Preparing Experience...",
    "Almost Ready...",
    "Welcome!"
  ]

  /** Width of the progress band each message covers. */
  const BandWidth: real := 20.0

  /** Progress is complete at this value. */
  const Complete: real := 100.0

  /** The largest random increment is just below this value (`Math.random() * 15`). */
  const MaxIncrement: real := 15.0

  /** The preloader's bar width (percent), percentage label and text. */
  datatype View = View(barWidth: real, percentLabel: int, text: string)

  /** `progress` lies in band `k`, the range `[20 k, 20 (k + 1))`. */
  predicate InBand(progress: real, k: int) {
    k as real * BandWidth <= progress < (k + 1) as real * BandWidth
  }

  /** `Math.floor(progress / 20)`. */
  function MessageIndex(progress: real): int {
    (progress / BandWidth).Floor
  }

  /** The loading text after an update: the message of the band the progress
      lies in, or the previous text outside the five bands. */
  function LoadingText(text: string, progress: real): (r: string)
    ensures forall k :: 0 <= k < |LoadingMessages| && InBand(progress, k) ==> r == LoadingMessages[k]
    ensures progress < 0.0 || progress >= Complete ==> r == text
  {
    var i := MessageIndex(progress);
    BandIndex(progress);
    if 0 <= i < |LoadingMessages| then LoadingMessages[i] else text
  }

  /** `floor(p / 20)` is `k` exactly on the band `[20 k, 20 (k + 1))`. */
  lemma BandIndex(p: real)
    ensures forall k :: InBand(p, k) ==> MessageIndex(p) == k
  {
    forall k | InBand(p, k)
      ensures MessageIndex(p) == k
    {
      var q := p / BandWidth;
      assert k as real <= q < (k + 1) as real;
    }
  }

  /** `updateProgress`. */
  function UpdateProgress(v: View, progress: real): (r: View)
    ensures r.barWidth == progress
    ensures r.percentLabel as real <= progress < r.percentLabel as real + 1.0
    ensures r.text == LoadingText(v.text, progress)
  {
    View(progress, progress.Floor, LoadingText(v.text, progress))
  }

  /** The simulated load: the progress so far, what is displayed, and
      whether the timer has been cleared. */
  datatype Loader = Loader(progress: real, view: View, finished: bool)

  function Start(initial: View): Loader {
    Loader(0.0, initial, false)
  }

  /** One timer tick with random increment `delta`. */
  function Tick(l: Loader, delta: real): (r: Loader)
    requires !l.finished
    // the tick that reaches 100 clears the timer, and progress never passes 100
    ensures r.finished <==> l.progress + delta >= Complete
    ensures r.progress == if r.finished then Complete else l.progress + delta
    // the display follows the capped progress
    ensures r.view == UpdateProgress(l.view, r.progress)
  {
    var p := l.progress + delta;
    if p >= Complete then Loader(Complete, UpdateProgress(l.view, Complete), true)
    else Loader(p, UpdateProgress(l.view, p), false)
  }

  /** The ticks of a run, one increment each, until the load finishes. */
  function Simulate(l: Loader, deltas: seq<real>): (r: Loader)
    // a cleared timer fires no more
    ensures l.finished ==> r == l
    // a load still running has added up every increment
    ensures !r.finished ==> r.progress == l.progress + Sum(deltas)
    decreases |deltas|
  {
    if |deltas| == 0 || l.finished then l else Simulate(Tick(l, deltas[0]), deltas[1..])
  }

  function Sum(deltas: seq<real>): real {
    if |deltas| == 0 then 0.0 else deltas[0] + Sum(deltas[1..])
  }

  /** An increment `Math.random() * 15` can produce. */
  predicate IsIncrement(delta: real) {
    0.0 <= delta < MaxIncrement
  }

  /** What holds between ticks: progress stays within `[0, 100]`, at 80 or
      more the text is the last message, and a finished load stands at 100
      with the label reading 100. */
  predicate Consistent(l: Loader) {
    && 0.0 <= l.progress <= Complete
    && (l.progress >= 80.0 ==> l.view.text == LoadingMessages[4])
    && (l.finished ==> l.progress == Complete && l.view.percentLabel == 100)
  }

  /** A tick keeps the loader consistent and never moves progress backwards. */
  lemma TickConsistent(l: Loader, delta: real)
    requires Consistent(l) && !l.finished && IsIncrement(delta)
    ensures Consistent(Tick(l, delta))
    ensures Tick(l, delta).progress >= l.progress
  {
    var p := l.progress + delta;
    if p >= Complete {
      // the previous tick was already past 85, so it showed the last message,
      // and the update at 100 leaves the text alone
      assert l.progress >= 80.0;
    } else if p >= 80.0 {
      assert InBand(p, 4);
    }
  }

  lemma {:induction false} SimulateConsistent(l: Loader, deltas: seq<real>)
    requires Consistent(l)
    requires forall k :: 0 <= k < |deltas| ==> IsIncrement(deltas[k])
    ensures Consistent(Simulate(l, deltas))
    ensures Simulate(l, deltas).progress >= l.progress
    decreases |deltas|
  {
    if |deltas| > 0 && !l.finished {
      TickConsistent(l, deltas[0]);
      SimulateConsistent(Tick(l, deltas[0]), deltas[1..]);
    }
  }

  /** However the random increments fall, a finished load shows "Welcome!"
      and "100%": the final update at 100 keeps the text of the tick before,
      which was already in the last band because no increment reaches 15. */
  lemma FinishedLoadSaysWelcome(initial: View, deltas: seq<real>)
    requires forall k :: 0 <= k < |deltas| ==> IsIncrement(deltas[k])
    ensures Simulate(Start(initial), deltas).finished ==>
              Simulate(Start(initial), deltas).view.text == "Welcome!" &&
              Simulate(Start(initial), deltas).view.percentLabel == 100
  {
    SimulateConsistent(Start(initial), deltas);
  }

  /** No message is skipped: an increment below one band width moves the
      band index forward by at most one. */
  lemma NoMessageSkipped(p: real, delta: real)
    requires 0.0 <= delta < BandWidth
    ensures MessageIndex(p) <= MessageIndex(p + delta) <= MessageIndex(p) + 1
  {
    var i := MessageIndex(p);
    var q := p / BandWidth;
    var q' := (p + delta) / BandWidth;
    assert q <= q' < q + 1.0;
    assert i as real <= q < i as real + 1.0;
    assert MessageIndex(p + delta) == q'.Floor;
  }

  /** At 100 the index is 5, past the last message, so the text is kept. */
  lemma CompleteKeepsText(text: string)
    ensures MessageIndex(Complete) == |LoadingMessages|
    ensures LoadingText(text, Complete) == text
  {
    BandIndex(Complete);
    assert InBand(Complete, 5);
  }

  /** For a whole-number progress the band index is plain integer division. */
  lemma WholeProgressIndex(n: int)
    ensures MessageIndex(n as real) == n / 20
  {
    BandIndex(n as real);
    assert InBand(n as real, n / 20);
  }
}
