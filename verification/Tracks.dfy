/** The track manager: predict, associate, update, coast, create, publish. The filter and the distance are
    parameters. */
module Tracks {
  import opened Machine
  import opened PlotAssociation

  datatype Lifecycle = Tentative | Confirmed | Coasting | Lost

  datatype Config = Config(confirmHits: nat, coastAfterMisses: nat, lostAfterMisses: nat, gate: Gate)

  /** The filter equations, the distance and the array a plot came from. */
  datatype Physics<!F, !P> = Physics(predict: F -> F, update: (F, P) -> F, init: P -> F, distance: (F, P) -> real, arrayOf: P -> u8)

  datatype Track<F> = Track(
    id: nat, lifecycle: Lifecycle, filter: F, hits: nat, misses: nat, coastFrames: nat, arrayId: u8, createTs: u64, updateTs: u64)

  /** A batch of plots; either pointer may be null. */
  datatype Batch<P> = NullBatch | Batch(ts: u64, plots: Option<seq<P>>)

  // ----- one track -----

  function Hit<F, P>(c: Config, ph: Physics<F, P>, s: Track<F>, plot: P, ts: u64): Track<F> {
    var hits := s.hits + 1;
    s.(filter := ph.update(s.filter, plot), hits := hits, misses := 0, arrayId := ph.arrayOf(plot), updateTs := ts,
       lifecycle := if s.lifecycle.Tentative? && hits >= c.confirmHits then Confirmed
                    else if s.lifecycle.Coasting? then Confirmed else s.lifecycle)
  }

  function Missed<F>(c: Config, s: Track<F>, ts: u64): Track<F> {
    var misses := s.misses + 1;
    s.(misses := misses, coastFrames := misses, updateTs := ts,
       lifecycle := if misses >= c.lostAfterMisses then Lost
                    else if misses >= c.coastAfterMisses then Coasting else s.lifecycle)
  }

  function Created<F, P>(ph: Physics<F, P>, id: nat, plot: P, ts: u64): Track<F> {
    Track(id, Tentative, ph.init(plot), 1, 0, 0, ph.arrayOf(plot), ts, ts)
  }

  function Predicted<F, P>(ph: Physics<F, P>, s: Track<F>): Track<F> {
    s.(filter := ph.predict(s.filter))
  }

  // ----- one call -----

  function Plots<P>(batches: seq<Batch<P>>): seq<P> {
    if batches == [] then []
    else
      var b := batches[|batches| - 1];
      Plots(batches[..|batches| - 1]) + if b.NullBatch? || b.plots.None? then [] else b.plots.value
  }

  predicate Usable<P>(b: Batch<P>) {
    b.Batch? && b.plots.Some?
  }

  /** How many plots the batches hold; a null batch and one without a list hold none. */
  function PlotCount<P>(batches: seq<Batch<P>>): nat {
    if batches == [] then 0
    else
      var b := batches[|batches| - 1];
      PlotCount(batches[..|batches| - 1]) + if Usable(b) then |b.plots.value| else 0
  }

  /** The plots of a call are those of all its usable batches, one batch after the other and each in its own order. */
  lemma {:induction false} PlotsInBatchOrder<P>(batches: seq<Batch<P>>, k: nat, j: nat)
    requires k < |batches| && Usable(batches[k]) && j < |batches[k].plots.value|
    ensures |Plots(batches)| == PlotCount(batches)
    ensures PlotCount(batches[..k]) + j < |Plots(batches)| && Plots(batches)[PlotCount(batches[..k]) + j] == batches[k].plots.value[j]
  {
    var m := |batches| - 1;
    PlotsCounted(batches);
    if k == m {
      PlotsCounted(batches[..m]);
    } else {
      PlotsInBatchOrder(batches[..m], k, j);
      assert batches[..m][..k] == batches[..k];
    }
  }

  lemma {:induction false} PlotsCounted<P>(batches: seq<Batch<P>>)
    ensures |Plots(batches)| == PlotCount(batches)
  {
    if batches != [] {
      PlotsCounted(batches[..|batches| - 1]);
    }
  }

  function Latest<P>(batches: seq<Batch<P>>): u64 {
    if batches == [] then 0
    else
      var b, before := batches[|batches| - 1], Latest(batches[..|batches| - 1]);
      if b.NullBatch? || b.plots.None? || b.ts <= before then before else b.ts
  }

  /** The stamp of a call is the greatest among the batches that count, and 0 when none does. */
  lemma {:induction false} LatestIsGreatest<P>(batches: seq<Batch<P>>)
    ensures forall i :: 0 <= i < |batches| && batches[i].Batch? && batches[i].plots.Some? ==> batches[i].ts <= Latest(batches)
    ensures Latest(batches) == 0
      || exists i :: 0 <= i < |batches| && batches[i].Batch? && batches[i].plots.Some? && batches[i].ts == Latest(batches)
  {
    if batches != [] {
      var m := |batches| - 1;
      LatestIsGreatest(batches[..m]);
      assert forall i :: 0 <= i < m ==> batches[..m][i] == batches[i];
    }
  }

  function AllPredicted<F, P>(ph: Physics<F, P>, states: seq<Track<F>>): (r: seq<Track<F>>)
    ensures |r| == |states|
  {
    seq(|states|, i requires 0 <= i < |states| => Predicted(ph, states[i]))
  }

  function Predictions<F>(states: seq<Track<F>>): (r: seq<Prediction<F>>)
    ensures |r| == |states|
  {
    seq(|states|, i requires 0 <= i < |states| => Prediction(states[i].id, states[i].filter))
  }

  /** A track after its hit or miss. */
  function Judged<F, P>(c: Config, ph: Physics<F, P>, s: Track<F>, pick: Option<nat>, plots: seq<P>, ts: u64): Track<F> {
    if pick.Some? && pick.value < |plots| then Hit(c, ph, s, plots[pick.value], ts) else Missed(c, s, ts)
  }

  function AllJudged<F, P>(c: Config, ph: Physics<F, P>, states: seq<Track<F>>, choice: seq<Option<nat>>, plots: seq<P>, ts: u64): (r: seq<Track<F>>)
    requires |choice| == |states|
    ensures |r| == |states|
  {
    seq(|states|, i requires 0 <= i < |states| => Judged(c, ph, states[i], choice[i], plots, ts))
  }

  /** One new track for each index of `which`, numbered from `next`. */
  function AllCreated<F, P>(ph: Physics<F, P>, next: nat, which: seq<nat>, plots: seq<P>, ts: u64): (r: seq<Track<F>>)
    requires forall i :: 0 <= i < |which| ==> which[i] < |plots|
    ensures |r| == |which|
  {
    seq(|which|, i requires 0 <= i < |which| => Created(ph, next + i, plots[which[i]], ts))
  }

  function Published<F>(states: seq<Track<F>>): seq<Track<F>> {
    if states == [] then []
    else
      var s := states[|states| - 1];
      Published(states[..|states| - 1]) + if s.lifecycle.Lost? then [] else [s]
  }

  /** `after` is what a call makes of `before`, for the greedy matching of the predicted tracks. */
  ghost predicate CallGives<F, P>(c: Config, ph: Physics<F, P>, before: seq<Track<F>>, batches: seq<Batch<P>>, choice: seq<Option<nat>>,
                                  after: seq<Track<F>>) {
    var predicted := AllPredicted(ph, before);
    var plots := Plots(batches);
    && |choice| == |before|
    && Greedy(ph.distance, Predictions(predicted), plots, c.gate, choice)
    && var which := Leftover(TakenBy(choice), |plots|);
       && (forall i :: 0 <= i < |which| ==> which[i] < |plots|)
       && after == AllJudged(c, ph, predicted, choice, plots, Latest(batches))
                   + AllCreated(ph, |before| + 1, which, plots, Latest(batches))
  }

  // ----- every run -----

  /** A run: the batches of each call, the matching it found, and the states after it. */
  ghost predicate Run<F, P>(c: Config, ph: Physics<F, P>, calls: seq<seq<Batch<P>>>, choices: seq<seq<Option<nat>>>, trace: seq<seq<Track<F>>>) {
    && |choices| == |calls| && |trace| == |calls| + 1 && trace[0] == []
    && forall i :: 0 <= i < |calls| ==> CallGives(c, ph, trace[i], calls[i], choices[i], trace[i + 1])
  }

  /** Identifiers are 1, 2, 3, ... along the list. */
  ghost predicate Numbered<F>(states: seq<Track<F>>) {
    forall i :: 0 <= i < |states| ==> states[i].id == i + 1
  }

  ghost predicate Phase<F>(c: Config, s: Track<F>) {
    && s.hits >= 1
    && (s.misses >= c.lostAfterMisses ==> s.lifecycle.Lost?)
    && (s.lifecycle.Coasting? <==> c.coastAfterMisses <= s.misses < c.lostAfterMisses)
    && (s.lifecycle.Tentative? ==> s.hits == 1 || s.hits < c.confirmHits)
    && (s.misses > 0 ==> s.coastFrames == s.misses)
  }

  ghost predicate Consistent<F>(c: Config, states: seq<Track<F>>) {
    Numbered(states) && forall i :: 0 <= i < |states| ==> Phase(c, states[i])
  }

  lemma JudgedKeepsPhase<F, P>(c: Config, ph: Physics<F, P>, s: Track<F>, pick: Option<nat>, plots: seq<P>, ts: u64)
    requires 1 <= c.coastAfterMisses <= c.lostAfterMisses && Phase(c, s)
    ensures Phase(c, Judged(c, ph, Predicted(ph, s), pick, plots, ts))
  {
  }

  /** A lost track is published again exactly when, after a hit that reset its misses, it misses often enough
      to coast; the hit itself does not bring it back. */
  lemma LostReturnsIff<F, P>(c: Config, ph: Physics<F, P>, s: Track<F>, pick: Option<nat>, plots: seq<P>, ts: u64)
    requires s.lifecycle.Lost? && (pick.Some? ==> pick.value < |plots|)
    ensures !Judged(c, ph, s, pick, plots, ts).lifecycle.Lost?
       <==> pick.None? && c.coastAfterMisses <= s.misses + 1 < c.lostAfterMisses
  {
  }

  lemma CallKeepsConsistency<F, P>(c: Config, ph: Physics<F, P>, before: seq<Track<F>>, batches: seq<Batch<P>>, choice: seq<Option<nat>>,
                                   after: seq<Track<F>>)
    requires 1 <= c.coastAfterMisses <= c.lostAfterMisses
    requires Consistent(c, before) && CallGives(c, ph, before, batches, choice, after)
    ensures Consistent(c, after)
  {
    var plots, ts := Plots(batches), Latest(batches);
    hide Plots, Latest, Leftover, TakenBy, Greedy;
    forall i | 0 <= i < |after| ensures Phase(c, after[i]) {
      if i < |before| {
        JudgedKeepsPhase(c, ph, before[i], choice[i], plots, ts);
      }
    }
  }

  lemma JudgedKeepsId<F, P>(c: Config, ph: Physics<F, P>, before: seq<Track<F>>, choice: seq<Option<nat>>, plots: seq<P>, ts: u64)
    requires |choice| == |before|
    ensures var after := AllJudged(c, ph, AllPredicted(ph, before), choice, plots, ts);
      forall i :: 0 <= i < |before| ==> after[i].id == before[i].id && after[i].createTs == before[i].createTs && after[i].updateTs == ts
  {
  }

  /** Every call keeps every identifier where it was and adds one track for each plot that was not associated. */
  lemma CallGrowsTheList<F, P>(c: Config, ph: Physics<F, P>, before: seq<Track<F>>, batches: seq<Batch<P>>, choice: seq<Option<nat>>,
                               after: seq<Track<F>>)
    requires Numbered(before) && CallGives(c, ph, before, batches, choice, after)
    ensures |after| + |TakenBy(choice)| == |before| + |Plots(batches)|
    ensures forall i :: 0 <= i < |before| ==> after[i].id == before[i].id && after[i].createTs == before[i].createTs
    ensures forall i :: |before| <= i < |after| ==> after[i].id > |before| && after[i].lifecycle.Tentative?
    ensures forall i :: 0 <= i < |after| ==> after[i].updateTs == Latest(batches)
  {
    hide Greedy, TakenBy, Leftover, Plots, Latest, Missed, Hit;
    var predictions := Predictions(AllPredicted(ph, before));
    JudgedKeepsId(c, ph, before, choice, Plots(batches), Latest(batches));
    ListedCount(ph.distance, predictions, Plots(batches), c.gate, choice);
    PlotsArePartitioned(ph.distance, predictions, Plots(batches), c.gate, choice);
  }

  lemma {:induction false} EveryRunIsConsistent<F, P>(c: Config, ph: Physics<F, P>, calls: seq<seq<Batch<P>>>,
                                                      choices: seq<seq<Option<nat>>>, trace: seq<seq<Track<F>>>)
    requires 1 <= c.coastAfterMisses <= c.lostAfterMisses && Run(c, ph, calls, choices, trace)
    ensures Consistent(c, trace[|calls|])
  {
    hide CallGives, Phase;
    if calls != [] {
      var m := |calls| - 1;
      EveryRunIsConsistent(c, ph, calls[..m], choices[..m], trace[..m + 1]);
      CallKeepsConsistency(c, ph, trace[m], calls[m], choices[m], trace[m + 1]);
    }
  }

  /** An identifier, once given, names the same track for the rest of the run. */
  lemma {:induction false} IdentifiersAreNeverReused<F, P>(c: Config, ph: Physics<F, P>, calls: seq<seq<Batch<P>>>,
                                                           choices: seq<seq<Option<nat>>>, trace: seq<seq<Track<F>>>, from: nat, i: nat)
    requires 1 <= c.coastAfterMisses <= c.lostAfterMisses && Run(c, ph, calls, choices, trace)
    requires from <= |calls| && i < |trace[from]|
    ensures i < |trace[|calls|]| && trace[|calls|][i].id == trace[from][i].id == i + 1
    ensures trace[|calls|][i].createTs == trace[from][i].createTs
    decreases |calls|
  {
    hide CallGives, Phase;
    EveryRunIsConsistent(c, ph, calls, choices, trace);
    if from < |calls| {
      var m := |calls| - 1;
      IdentifiersAreNeverReused(c, ph, calls[..m], choices[..m], trace[..m + 1], from, i);
      EveryRunIsConsistent(c, ph, calls[..m], choices[..m], trace[..m + 1]);
      CallGrowsTheList(c, ph, trace[m], calls[m], choices[m], trace[m + 1]);
      CallExtends(c, ph, trace[m], calls[m], choices[m], trace[m + 1]);
    }
  }

  lemma CallExtends<F, P>(c: Config, ph: Physics<F, P>, before: seq<Track<F>>, batches: seq<Batch<P>>, choice: seq<Option<nat>>,
                          after: seq<Track<F>>)
    requires CallGives(c, ph, before, batches, choice, after)
    ensures |after| >= |before|
  {
  }

  lemma {:induction false} PublishedAreTheNotLost<F>(states: seq<Track<F>>)
    ensures forall i :: 0 <= i < |states| && !states[i].lifecycle.Lost? ==> states[i] in Published(states)
    ensures forall a :: 0 <= a < |Published(states)| ==> Published(states)[a] in states && !Published(states)[a].lifecycle.Lost?
  {
    if states != [] {
      var m := |states| - 1;
      PublishedAreTheNotLost(states[..m]);
      assert forall i :: 0 <= i < m ==> states[..m][i] == states[i];
    }
  }

  /** The published list is exactly the tracks that are not lost, in order of identifier. */
  lemma {:induction false} PublishedInOrder<F>(states: seq<Track<F>>)
    requires Numbered(states)
    ensures forall a :: 0 <= a < |Published(states)| ==> 1 <= Published(states)[a].id <= |states|
    ensures forall a, b :: 0 <= a < b < |Published(states)| ==> Published(states)[a].id < Published(states)[b].id
  {
    if states != [] {
      var m := |states| - 1;
      PublishedInOrder(states[..m]);
    }
  }

  // ----- every plot counts once -----

  function TotalHits<F>(states: seq<Track<F>>): nat {
    if states == [] then 0 else TotalHits(states[..|states| - 1]) + states[|states| - 1].hits
  }

  function TotalPlots<P>(calls: seq<seq<Batch<P>>>): nat {
    if calls == [] then 0 else TotalPlots(calls[..|calls| - 1]) + |Plots(calls[|calls| - 1])|
  }

  lemma {:induction false} TotalHitsConcat<F>(a: seq<Track<F>>, b: seq<Track<F>>)
    ensures TotalHits(a + b) == TotalHits(a) + TotalHits(b)
  {
    if b == [] {
      assert a + b == a;
    } else {
      var m := |b| - 1;
      assert (a + b)[..|a + b| - 1] == a + b[..m];
      TotalHitsConcat(a, b[..m]);
    }
  }

  lemma {:induction false} MatchedIsTaken<F, P>(metric: (F, P) -> real, predictions: seq<Prediction<F>>, plots: seq<P>, gate: Gate,
                                                choice: seq<Option<nat>>)
    requires Greedy(metric, predictions, plots, gate, choice)
    ensures Matched(choice) == |TakenBy(choice)| && InRange(choice, |plots|)
  {
    if choice != [] {
      var m := |choice| - 1;
      GreedyPrefix(metric, predictions, plots, gate, choice, m);
      MatchedIsTaken(metric, predictions, plots, gate, choice[..m]);
      assert Picks(metric, predictions[m].filter, plots, gate, TakenBy(choice[..m]), choice[m]);
    }
  }

  lemma {:induction false} JudgedHits<F, P>(c: Config, ph: Physics<F, P>, states: seq<Track<F>>, choice: seq<Option<nat>>, plots: seq<P>, ts: u64)
    requires |choice| == |states| && InRange(choice, |plots|)
    ensures TotalHits(AllJudged(c, ph, AllPredicted(ph, states), choice, plots, ts)) == TotalHits(states) + Matched(choice)
  {
    if states != [] {
      var m := |states| - 1;
      JudgedHits(c, ph, states[..m], choice[..m], plots, ts);
      assert AllJudged(c, ph, AllPredicted(ph, states), choice, plots, ts)[..m]
          == AllJudged(c, ph, AllPredicted(ph, states[..m]), choice[..m], plots, ts);
    }
  }

  lemma {:induction false} CreatedHits<F, P>(ph: Physics<F, P>, next: nat, which: seq<nat>, plots: seq<P>, ts: u64)
    requires forall i :: 0 <= i < |which| ==> which[i] < |plots|
    ensures TotalHits(AllCreated(ph, next, which, plots, ts)) == |which|
  {
    if which != [] {
      var m := |which| - 1;
      CreatedHits(ph, next, which[..m], plots, ts);
      assert AllCreated(ph, next, which, plots, ts)[..m] == AllCreated(ph, next, which[..m], plots, ts);
    }
  }

  lemma CallCountsEveryPlot<F, P>(c: Config, ph: Physics<F, P>, before: seq<Track<F>>, batches: seq<Batch<P>>, choice: seq<Option<nat>>,
                                  after: seq<Track<F>>)
    requires CallGives(c, ph, before, batches, choice, after)
    ensures TotalHits(after) == TotalHits(before) + |Plots(batches)|
  {
    hide Greedy, TakenBy, Leftover, Plots, Latest, TotalHits, InRange, AllCreated, AllJudged;
    var plots, ts := Plots(batches), Latest(batches);
    var predictions := Predictions(AllPredicted(ph, before));
    var which := Leftover(TakenBy(choice), |plots|);
    MatchedIsTaken(ph.distance, predictions, plots, c.gate, choice);
    ListedCount(ph.distance, predictions, plots, c.gate, choice);
    LeftoverCount(TakenBy(choice), |plots|);
    JudgedHits(c, ph, before, choice, plots, ts);
    CreatedHits(ph, |before| + 1, which, plots, ts);
    TotalHitsConcat(AllJudged(c, ph, AllPredicted(ph, before), choice, plots, ts), AllCreated(ph, |before| + 1, which, plots, ts));
  }

  /** Over every run the hits of all tracks, lost ones included, add up to the plots received: each plot went to
      exactly one track, old or new. */
  lemma {:induction false} EveryPlotIsOneHit<F, P>(c: Config, ph: Physics<F, P>, calls: seq<seq<Batch<P>>>,
                                                   choices: seq<seq<Option<nat>>>, trace: seq<seq<Track<F>>>)
    requires Run(c, ph, calls, choices, trace)
    ensures TotalHits(trace[|calls|]) == TotalPlots(calls)
  {
    hide CallGives;
    if calls != [] {
      var m := |calls| - 1;
      EveryPlotIsOneHit(c, ph, calls[..m], choices[..m], trace[..m + 1]);
      CallCountsEveryPlot(c, ph, trace[m], calls[m], choices[m], trace[m + 1]);
    }
  }

  // ----- the hits, one association at a time -----

  function ApplyHits<F, P>(c: Config, ph: Physics<F, P>, states: seq<Track<F>>, list: seq<Association>, plots: seq<P>, ts: u64): (r: seq<Track<F>>)
    requires forall n :: 0 <= n < |list| ==> 1 <= list[n].trackId <= |states| && list[n].plotIndex < |plots|
    ensures |r| == |states|
  {
    if list == [] then states
    else
      var a := list[|list| - 1];
      var before := ApplyHits(c, ph, states, list[..|list| - 1], plots, ts);
      before[a.trackId - 1 := Hit(c, ph, before[a.trackId - 1], plots[a.plotIndex], ts)]
  }

  function Marked(list: seq<Association>, id: nat): bool {
    exists n :: 0 <= n < |list| && list[n].trackId == id
  }

  /** The matching only names existing plots. */
  ghost predicate InRange(choice: seq<Option<nat>>, n: nat) {
    forall t :: 0 <= t < |choice| && choice[t].Some? ==> choice[t].value < n
  }

  /** Track `i` after the hits of the first choices. */
  function AfterHit<F, P>(c: Config, ph: Physics<F, P>, s: Track<F>, i: nat, choice: seq<Option<nat>>, plots: seq<P>, ts: u64): Track<F> {
    if i < |choice| && choice[i].Some? && choice[i].value < |plots| then Hit(c, ph, s, plots[choice[i].value], ts) else s
  }

  lemma {:induction false} MarkedByChoice<F, P>(metric: (F, P) -> real, states: seq<Track<F>>, choice: seq<Option<nat>>, plots: seq<P>)
    requires Numbered(states) && |choice| <= |states| && InRange(choice, |plots|)
    ensures var list := Listed(metric, Predictions(states), plots, choice);
      && (forall n :: 0 <= n < |list| ==> 1 <= list[n].trackId <= |choice| && list[n].plotIndex < |plots|)
      && forall id: nat :: 1 <= id <= |states| ==> (Marked(list, id) <==> id <= |choice| && choice[id - 1].Some?)
  {
    hide Marked;
    var list := Listed(metric, Predictions(states), plots, choice);
    if choice == [] {
      NoneMarked();
    } else {
      var m := |choice| - 1;
      MarkedByChoice(metric, states, choice[..m], plots);
      var short := Listed(metric, Predictions(states), plots, choice[..m]);
      assert Listed(metric, Predictions(states), plots, choice[..m]) == short;
      assert forall n :: 0 <= n < |short| ==> 1 <= short[n].trackId <= m && short[n].plotIndex < |plots|;
      assert forall id: nat :: 1 <= id <= |states| ==> (Marked(short, id) <==> id <= m && choice[..m][id - 1].Some?);
      if choice[m].Some? {
        assert list == short + [list[|short|]] && list[|short|].trackId == m + 1;
        MarkedMore(short, list[|short|]);
      } else {
        assert list == short;
      }
    }
  }

  lemma NoneMarked()
    ensures forall id :: !Marked([], id)
  {
  }

  /** Each track is as its own choice leaves it. */
  ghost predicate HitAsChosen<F, P>(c: Config, ph: Physics<F, P>, states: seq<Track<F>>, choice: seq<Option<nat>>, plots: seq<P>, ts: u64,
                                    after: seq<Track<F>>) {
    |after| == |states| && forall i :: 0 <= i < |states| ==> after[i] == AfterHit(c, ph, states[i], i, choice, plots, ts)
  }

  lemma OneMoreChoice<F, P>(c: Config, ph: Physics<F, P>, states: seq<Track<F>>, choice: seq<Option<nat>>, plots: seq<P>, ts: u64,
                            after: seq<Track<F>>)
    requires choice != [] && |choice| <= |states| && InRange(choice, |plots|)
    requires HitAsChosen(c, ph, states, choice[..|choice| - 1], plots, ts, after)
    ensures var m := |choice| - 1;
      HitAsChosen(c, ph, states, choice, plots, ts,
                  if choice[m].Some? then after[m := Hit(c, ph, after[m], plots[choice[m].value], ts)] else after)
  {
    hide Hit;
  }

  lemma ApplyOneMore<F, P>(c: Config, ph: Physics<F, P>, states: seq<Track<F>>, list: seq<Association>, a: Association, plots: seq<P>, ts: u64)
    requires forall n :: 0 <= n < |list| ==> 1 <= list[n].trackId <= |states| && list[n].plotIndex < |plots|
    requires 1 <= a.trackId <= |states| && a.plotIndex < |plots|
    ensures var before := ApplyHits(c, ph, states, list, plots, ts);
      ApplyHits(c, ph, states, list + [a], plots, ts)
      == before[a.trackId - 1 := Hit(c, ph, before[a.trackId - 1], plots[a.plotIndex], ts)]
  {
    hide Hit;
    assert (list + [a])[..|list|] == list;
  }

  lemma ListedLast<F, P>(metric: (F, P) -> real, states: seq<Track<F>>, choice: seq<Option<nat>>, plots: seq<P>)
    requires choice != [] && |choice| <= |states| && InRange(choice, |plots|) && Numbered(states)
    ensures var m := |choice| - 1;
      var short := Listed(metric, Predictions(states), plots, choice[..m]);
      Listed(metric, Predictions(states), plots, choice)
      == if choice[m].Some? then short + [Association(m + 1, choice[m].value, metric(states[m].filter, plots[choice[m].value]))] else short
  {
  }

  lemma NoHits<F, P>(c: Config, ph: Physics<F, P>, states: seq<Track<F>>, plots: seq<P>, ts: u64)
    ensures Listed(ph.distance, Predictions(states), plots, []) == []
    ensures HitAsChosen(c, ph, states, [], plots, ts, ApplyHits(c, ph, states, [], plots, ts))
  {
    hide Hit;
  }

  /** Applying the listed associations in turn is judging each track by its own choice. */
  lemma {:induction false} HitsByChoice<F, P>(c: Config, ph: Physics<F, P>, states: seq<Track<F>>, choice: seq<Option<nat>>, plots: seq<P>, ts: u64)
    requires Numbered(states) && |choice| <= |states| && InRange(choice, |plots|)
    ensures var list := Listed(ph.distance, Predictions(states), plots, choice);
      && (forall n :: 0 <= n < |list| ==> 1 <= list[n].trackId <= |states| && list[n].plotIndex < |plots|)
      && HitAsChosen(c, ph, states, choice, plots, ts, ApplyHits(c, ph, states, list, plots, ts))
  {
    hide Hit, Marked, HitAsChosen, ApplyHits, Listed, Numbered;
    if choice == [] {
      NoHits(c, ph, states, plots, ts);
    } else {
      MarkedByChoice(ph.distance, states, choice, plots);
      var m := |choice| - 1;
      HitsByChoice(c, ph, states, choice[..m], plots, ts);
      ListedLast(ph.distance, states, choice, plots);
      var short := Listed(ph.distance, Predictions(states), plots, choice[..m]);
      OneMoreChoice(c, ph, states, choice, plots, ts, ApplyHits(c, ph, states, short, plots, ts));
      if choice[m].Some? {
        ApplyOneMore(c, ph, states, short, Association(m + 1, choice[m].value, ph.distance(states[m].filter, plots[choice[m].value])), plots, ts);
      }
    }
  }

  lemma MarkedMore(list: seq<Association>, a: Association)
    ensures forall id :: Marked(list + [a], id) <==> Marked(list, id) || id == a.trackId
  {
    forall id ensures Marked(list + [a], id) <==> Marked(list, id) || id == a.trackId {
      if Marked(list, id) {
        var n :| 0 <= n < |list| && list[n].trackId == id;
        assert (list + [a])[n].trackId == id;
      }
      assert (list + [a])[|list|] == a;
    }
  }

  lemma ChoiceInRange<F, P>(metric: (F, P) -> real, predictions: seq<Prediction<F>>, plots: seq<P>, gate: Gate, choice: seq<Option<nat>>)
    requires Greedy(metric, predictions, plots, gate, choice)
    ensures InRange(choice, |plots|)
  {
  }

  lemma LeftoverInRange(taken: set<nat>, n: nat)
    ensures forall i :: 0 <= i < |Leftover(taken, n)| ==> Leftover(taken, n)[i] < n
  {
  }

  // ----- the manager -----

  class TrackManager<F(0), P> {
    const config: Config
    const physics: Physics<F, P>
    const associator: PlotAssociator<F, P>
    var nextTrackId: nat
    var states: seq<Track<F>>
    var tracks: seq<Track<F>>

    ghost predicate Valid()
      reads this
    {
      Numbered(states) && nextTrackId == |states| + 1 && tracks == Published(states)
    }

    constructor (config: Config, physics: Physics<F, P>)
      ensures Valid() && this.config == config && this.physics == physics && states == [] && fresh(associator)
    {
      this.config := config;
      this.physics := physics;
      associator := new PlotAssociator();
      nextTrackId := 1;
      states := [];
      tracks := [];
    }

    method CollectPlots(batches: seq<Batch<P>>) returns (plots: seq<P>, latestTs: u64)
      ensures plots == Plots(batches) && latestTs == Latest(batches)
    {
      plots, latestTs := [], 0;
      for n := 0 to |batches|
        invariant plots == Plots(batches[..n]) && latestTs == Latest(batches[..n])
      {
        assert batches[..n + 1][..n] == batches[..n];
        var batch := batches[n];
        if batch.Batch? && batch.plots.Some? {
          if latestTs < batch.ts {
            latestTs := batch.ts;
          }
          for i := 0 to |batch.plots.value|
            invariant plots == Plots(batches[..n]) + batch.plots.value[..i]
          {
            plots := plots + [batch.plots.value[i]];
          }
          assert batch.plots.value[..|batch.plots.value|] == batch.plots.value;
        }
      }
      assert batches[..|batches|] == batches;
    }

    method FindTrack(id: nat) returns (k: nat)
      ensures k <= |states| && (k < |states| ==> states[k].id == id)
      ensures forall j :: 0 <= j < k ==> states[j].id != id
    {
      k := 0;
      while k < |states| && states[k].id != id
        invariant k <= |states| && forall j :: 0 <= j < k ==> states[j].id != id
      {
        k := k + 1;
      }
    }

    method Predict() returns (predictions: seq<Prediction<F>>)
      modifies this`states
      ensures states == AllPredicted(physics, old(states))
      ensures predictions == Predictions(states)
    {
      predictions := [];
      for i := 0 to |states|
        invariant |states| == |old(states)| && |predictions| == i
        invariant forall j :: 0 <= j < |states| ==> states[j] == if j < i then Predicted(physics, old(states)[j]) else old(states)[j]
        invariant forall j :: 0 <= j < i ==> predictions[j] == Prediction(states[j].id, states[j].filter)
      {
        states := states[i := Predicted(physics, states[i])];
        predictions := predictions + [Prediction(states[i].id, states[i].filter)];
      }
    }

    method UpdateMatched(associations: seq<Association>, plots: seq<P>, ts: u64) returns (matched: seq<bool>)
      requires Numbered(states)
      requires forall n :: 0 <= n < |associations| ==> 1 <= associations[n].trackId <= |states| && associations[n].plotIndex < |plots|
      modifies this`states
      ensures states == ApplyHits(config, physics, old(states), associations, plots, ts)
      ensures |matched| == |states| && forall i: nat :: i < |states| ==> (matched[i] <==> Marked(associations, i + 1))
    {
      hide Hit, Marked;
      matched := seq(|states|, _ => false);
      NoneMarked();
      for n := 0 to |associations|
        invariant |states| == |old(states)| == |matched| && Numbered(states)
        invariant states == ApplyHits(config, physics, old(states), associations[..n], plots, ts)
        invariant forall i: nat :: i < |matched| ==> (matched[i] <==> Marked(associations[..n], i + 1))
      {
        var a := associations[n];
        var k := FindTrack(a.trackId);
        assert k == a.trackId - 1 by { assert states[a.trackId - 1].id == a.trackId; }
        assert associations[..n + 1] == associations[..n] + [a];
        assert associations[..n + 1][..n] == associations[..n];
        MarkedMore(associations[..n], a);
        HitKeepsId(config, physics, states[k], plots[a.plotIndex], ts);
        matched := matched[k := true];
        states := states[k := Hit(config, physics, states[k], plots[a.plotIndex], ts)];
      }
      assert associations[..|associations|] == associations;
    }

    method CountMisses(matched: seq<bool>, ts: u64)
      requires |matched| == |states|
      modifies this`states
      ensures |states| == |old(states)|
      ensures forall i :: 0 <= i < |states| ==> states[i] == if matched[i] then old(states)[i] else Missed(config, old(states)[i], ts)
    {
      for i := 0 to |states|
        invariant |states| == |old(states)|
        invariant forall j :: 0 <= j < |states| ==>
          states[j] == if matched[j] || j >= i then old(states)[j] else Missed(config, old(states)[j], ts)
      {
        if !matched[i] {
          states := states[i := Missed(config, states[i], ts)];
        }
      }
    }

    method CreateTracks(which: seq<nat>, plots: seq<P>, ts: u64)
      requires forall i :: 0 <= i < |which| ==> which[i] < |plots|
      modifies this`states, this`nextTrackId
      ensures states == old(states) + AllCreated(physics, old(nextTrackId), which, plots, ts)
      ensures nextTrackId == old(nextTrackId) + |which|
    {
      for n := 0 to |which|
        invariant nextTrackId == old(nextTrackId) + n
        invariant states == old(states) + AllCreated(physics, old(nextTrackId), which[..n], plots, ts)
      {
        states := states + [Created(physics, nextTrackId, plots[which[n]], ts)];
        nextTrackId := nextTrackId + 1;
      }
      assert which[..|which|] == which;
    }

    method SyncSnapshots()
      modifies this`tracks
      ensures tracks == Published(states)
    {
      tracks := [];
      for n := 0 to |states|
        invariant tracks == Published(states[..n])
      {
        assert states[..n + 1][..n] == states[..n];
        if !states[n].lifecycle.Lost? {
          tracks := tracks + [states[n]];
        }
      }
      assert states[..|states|] == states;
    }

    method ProcessPlots(batches: seq<Batch<P>>) returns (published: seq<Track<F>>, ghost choice: seq<Option<nat>>)
      requires Valid()
      modifies this, associator
      ensures Valid() && published == tracks
      ensures CallGives(config, physics, old(states), batches, choice, states)
    {
      hide Plots, Latest, Greedy, TakenBy, Leftover, Listed, Hit, Missed, Marked, Published, ApplyHits;
      var plots, latestTs := CollectPlots(batches);
      var predictions := Predict();
      ghost var predicted := states;
      var associations;
      associations, choice := associator.Associate(physics.distance, predictions, plots, config.gate);
      ChoiceInRange(physics.distance, predictions, plots, config.gate, choice);
      MarkedByChoice(physics.distance, predicted, choice, plots);
      HitsByChoice(config, physics, predicted, choice, plots, latestTs);
      var matched := UpdateMatched(associations, plots, latestTs);
      CountMisses(matched, latestTs);
      assert states == AllJudged(config, physics, predicted, choice, plots, latestTs);
      LeftoverInRange(TakenBy(choice), |plots|);
      CreateTracks(associator.unassociatedPlots, plots, latestTs);
      SyncSnapshots();
      published := tracks;
      assert CallGives(config, physics, old(states), batches, choice, states);
      CallKeepsNumbers(config, physics, old(states), batches, choice, states);
    }
  }

  lemma HitKeepsId<F, P>(c: Config, ph: Physics<F, P>, s: Track<F>, plot: P, ts: u64)
    ensures Hit(c, ph, s, plot, ts).id == s.id
  {
  }

  lemma CallKeepsNumbers<F, P>(c: Config, ph: Physics<F, P>, before: seq<Track<F>>, batches: seq<Batch<P>>, choice: seq<Option<nat>>,
                               after: seq<Track<F>>)
    requires Numbered(before) && CallGives(c, ph, before, batches, choice, after)
    ensures Numbered(after)
  {
  }
}
