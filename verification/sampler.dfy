/**
 * The CPU sampler of both agents (`cpu_sampler`): every period it clamps a
 * sample into [0, 100], stores it through `set_cpu_usage_internal`, reads the
 * threshold back from the store, and raises the alert (trap and e-mail) only
 * on a rising edge of `cpu > threshold`.
 */
module Sampler {
  import opened Wrappers
  import opened Values
  import opened ObjectStore

  /** `max(0, min(100, cpu))`. */
  function Clamp(sample: int): (c: int)
    ensures 0 <= c <= 100
    ensures 0 <= sample <= 100 ==> c == sample
    ensures sample < 0 ==> c == 0
    ensures sample > 100 ==> c == 100
  {
    if sample < 0 then 0 else if sample > 100 then 100 else sample
  }

  /** What one iteration decides: the stored CPU value, the new `last_over`,
      and whether the alert is raised. */
  datatype Edge = Edge(cpu: int, over: bool, notify: bool)

  function Step(lastOver: bool, sample: int, threshold: int): Edge {
    var cpu := Clamp(sample);
    var over := cpu > threshold;
    Edge(cpu, over, over && !lastOver)
  }

  /** One sample together with the threshold the store held when it was taken. */
  datatype Reading = Reading(sample: int, threshold: int)

  predicate Over(r: Reading) {
    Clamp(r.sample) > r.threshold
  }

  /** Whether the comparison held before reading `i`: at the previous sample,
      or in the starting state for the first one. */
  predicate OverBefore(lastOver: bool, rs: seq<Reading>, i: nat)
    requires i <= |rs|
  {
    if i == 0 then lastOver else Over(rs[i - 1])
  }

  /** The decisions of consecutive iterations; `last_over` carries from one to the next. */
  function Trace(lastOver: bool, rs: seq<Reading>): (t: seq<Edge>)
    ensures |t| == |rs|
    ensures forall i :: 0 <= i < |rs| ==>
              t[i] == Step(if i == 0 then lastOver else t[i - 1].over, rs[i].sample, rs[i].threshold)
    decreases |rs|
  {
    if |rs| == 0 then []
    else
      var e := Step(lastOver, rs[0].sample, rs[0].threshold);
      var u := Trace(e.over, rs[1..]);
      assert forall i :: 1 <= i < |rs| ==> ([e] + u)[i] == u[i - 1] && rs[1..][i - 1] == rs[i];
      [e] + u
  }

  /** In every iteration the stored value is the clamped sample, `last_over`
      becomes the strict comparison with the threshold, and the alert fires
      exactly when that comparison holds now and did not hold at the previous
      sample (or, for the first sample, in the starting state). */
  lemma {:induction false} AlertsExactlyOnRisingEdges(lastOver: bool, rs: seq<Reading>)
    ensures forall i :: 0 <= i < |rs| ==>
              && 0 <= Trace(lastOver, rs)[i].cpu <= 100
              && Trace(lastOver, rs)[i].cpu == Clamp(rs[i].sample)
              && (Trace(lastOver, rs)[i].over <==> Over(rs[i]))
    ensures forall i :: 0 <= i < |rs| ==>
              (Trace(lastOver, rs)[i].notify <==> Over(rs[i]) && !OverBefore(lastOver, rs, i))
    decreases |rs|
  {
    if |rs| > 0 {
      var e := Step(lastOver, rs[0].sample, rs[0].threshold);
      var rest := rs[1..];
      AlertsExactlyOnRisingEdges(e.over, rest);
      var t := Trace(lastOver, rs);
      var u := Trace(e.over, rest);
      assert t == [e] + u;
      forall i | 1 <= i < |rs|
        ensures t[i] == u[i - 1] && rest[i - 1] == rs[i]
        ensures OverBefore(e.over, rest, i - 1) == OverBefore(lastOver, rs, i)
      {
        if i >= 2 {
          assert rest[i - 2] == rs[i - 1];
        }
      }
    }
  }

  /** No second alert while the value stays over the threshold, and none on a falling edge. */
  lemma NoRepeatedAlerts(lastOver: bool, rs: seq<Reading>)
    ensures forall i :: 0 <= i < |rs| - 1 && Trace(lastOver, rs)[i].notify ==> !Trace(lastOver, rs)[i + 1].notify
    ensures forall i :: 0 <= i < |rs| && !Over(rs[i]) ==> !Trace(lastOver, rs)[i].notify
  {
    AlertsExactlyOnRisingEdges(lastOver, rs);
    var t := Trace(lastOver, rs);
    forall i | 0 <= i < |rs| - 1 && t[i].notify
      ensures !t[i + 1].notify
    {
      assert OverBefore(lastOver, rs, i + 1);
    }
  }

  /** Samples 70, 85, 90, 60, 95 against a threshold of 80 raise exactly two
      alerts: at 85 (first rising edge) and at 95 (rising again after 60). */
  lemma ThresholdScenario()
    ensures var t := Trace(false, [Reading(70, 80), Reading(85, 80), Reading(90, 80), Reading(60, 80), Reading(95, 80)]);
            forall i :: 0 <= i < 5 ==> (t[i].notify <==> i == 1 || i == 4)
  {
    var rs := [Reading(70, 80), Reading(85, 80), Reading(90, 80), Reading(60, 80), Reading(95, 80)];
    AlertsExactlyOnRisingEdges(false, rs);
    assert !Over(rs[0]) && Over(rs[1]) && Over(rs[2]) && !Over(rs[3]) && Over(rs[4]);
  }

  /** Which agent's loop: mini_agent.py reads managerEmail only when the alert
      fires, inside `send_trap`, and calls `.encode` on it there; mini_agent_malo.py
      reads `str()` of it in every iteration, right after the threshold. */
  datatype Variant = JsonSampler | MaloSampler

  /** Reading managerEmail raises in every iteration: mini_agent_malo.py
      indexes it even when no alert fires. */
  predicate TickFails(variant: Variant, st: Store) {
    variant == MaloSampler && "managerEmail" !in st.values
  }

  /** Raising the alert raises: mini_agent.py's `send_trap` indexes
      managerEmail and calls `.encode` on it, which a number does not have.
      `str()` in mini_agent_malo.py accepts any value. */
  predicate AlertFails(variant: Variant, st: Store) {
    variant == JsonSampler && ("managerEmail" !in st.values || st.values["managerEmail"].Num?)
  }

  /** The e-mail read raises in an iteration that decides `notify`. */
  predicate EmailFails(variant: Variant, st: Store, notify: bool) {
    TickFails(variant, st) || (notify && AlertFails(variant, st))
  }

  /** One iteration against the store: the store it leaves, and the decision
      when the iteration completes. An iteration that raises ends the sampler
      task; the sample stays stored when the write happened before the raise. */
  datatype Tick = Decided(store: Store, edge: Edge) | Raised(store: Store)

  function SampleTick(variant: Variant, st: Store, lastOver: bool, sample: int): (r: Tick)
    requires Valid(st)
    ensures Valid(r.store) && SameRegistry(st, r.store)
    ensures "cpuUsage" !in st.values ==> r == Raised(st)
    ensures "cpuUsage" in st.values ==> r.store == SetCpuUsage(st, Clamp(sample))
    ensures r.Decided? <==>
              && "cpuUsage" in st.values && "cpuThreshold" in st.values
              && IntOf(st.values["cpuThreshold"]).Some?
              && !EmailFails(variant, st, Step(lastOver, sample, IntOf(st.values["cpuThreshold"]).value).notify)
    ensures r.Decided? ==> r.edge == Step(lastOver, sample, IntOf(st.values["cpuThreshold"]).value)
  {
    if "cpuUsage" !in st.values then Raised(st)
    else
      var st' := SetCpuUsage(st, Clamp(sample));
      if "cpuThreshold" !in st'.values then Raised(st')
      else match IntOf(st'.values["cpuThreshold"])
        case None => Raised(st')
        case Some(threshold) =>
          var e := Step(lastOver, sample, threshold);
          if EmailFails(variant, st', e.notify) then Raised(st') else Decided(st', e)
  }

  /** Consecutive iterations of the sampler loop: the final store and the
      decisions taken, stopping at the first iteration that raises. */
  datatype Run = Run(store: Store, edges: seq<Edge>)

  /** The stored reading after a run: the clamped sample of the last
      iteration started, which is the one that raised if the run stopped early. */
  function LastStarted(samples: seq<int>, completed: nat): (k: nat)
    requires 0 < |samples|
    ensures k < |samples|
  {
    if completed < |samples| then completed else |samples| - 1
  }

  function RunSampler(variant: Variant, st: Store, lastOver: bool, samples: seq<int>): (r: Run)
    requires Valid(st)
    ensures Valid(r.store) && SameRegistry(st, r.store)
    ensures |r.edges| <= |samples|
    ensures r.store.values.Keys == st.values.Keys
    ensures forall n :: n in st.values && n != "cpuUsage" ==> r.store.values[n] == st.values[n]
    ensures |samples| == 0 || "cpuUsage" !in st.values ==> r == Run(st, [])
    ensures |samples| > 0 && "cpuUsage" in st.values ==>
              r.store.values["cpuUsage"] == Num(Clamp(samples[LastStarted(samples, |r.edges|)]))
    decreases |samples|
  {
    if |samples| == 0 then Run(st, [])
    else match SampleTick(variant, st, lastOver, samples[0])
      case Raised(st') => Run(st', [])
      case Decided(st', e) =>
        var rest := RunSampler(variant, st', e.over, samples[1..]);
        assert |samples| > 1 ==> samples[1..][LastStarted(samples[1..], |rest.edges|)]
                                 == samples[LastStarted(samples, 1 + |rest.edges|)];
        Run(rest.store, [e] + rest.edges)
  }

  /** The readings of a run against a threshold that does not change. */
  function Against(samples: seq<int>, threshold: int): (rs: seq<Reading>)
    ensures |rs| == |samples|
    ensures forall i :: 0 <= i < |samples| ==> rs[i] == Reading(samples[i], threshold)
  {
    seq(|samples|, i requires 0 <= i < |samples| => Reading(samples[i], threshold))
  }

  /** The position of the first alert of a trace, or its length when none fires. */
  function FirstAlert(t: seq<Edge>): (k: nat)
    ensures k <= |t|
    ensures forall i :: 0 <= i < k ==> !t[i].notify
    ensures k < |t| ==> t[k].notify
  {
    if |t| == 0 then 0
    else if t[0].notify then 0
    else
      var k := FirstAlert(t[1..]);
      assert forall i :: 1 <= i < 1 + k ==> t[i] == t[1..][i - 1];
      1 + k
  }

  /** Unfolding one reading of a trace against a fixed threshold. */
  lemma TraceAgainstStep(lastOver: bool, samples: seq<int>, threshold: int)
    requires |samples| > 0
    ensures var e := Step(lastOver, samples[0], threshold);
            Trace(lastOver, Against(samples, threshold)) == [e] + Trace(e.over, Against(samples[1..], threshold))
  {
    assert Against(samples, threshold)[1..] == Against(samples[1..], threshold);
  }

  /** The decisions a run completes: all of them, or those before the first alert. */
  function Completed(t: seq<Edge>, alertFails: bool): seq<Edge> {
    if alertFails then t[..FirstAlert(t)] else t
  }

  lemma CompletedStep(e: Edge, u: seq<Edge>, alertFails: bool)
    ensures e.notify && alertFails ==> Completed([e] + u, alertFails) == []
    ensures !(e.notify && alertFails) ==> Completed([e] + u, alertFails) == [e] + Completed(u, alertFails)
  {
    var t := [e] + u;
    assert t[1..] == u;
    if alertFails && !e.notify {
      assert FirstAlert(t) == 1 + FirstAlert(u);
      assert t[..FirstAlert(t)] == [e] + u[..FirstAlert(u)];
    }
  }

  /** With a convertible threshold, one iteration stores the clamped sample
      and then either completes with `Step`'s decision or raises in the
      e-mail read; the next iteration finds the same threshold and e-mail. */
  lemma TickWithThreshold(variant: Variant, st: Store, lastOver: bool, sample: int, threshold: int)
    requires Valid(st) && "cpuUsage" in st.values && "cpuThreshold" in st.values
    requires IntOf(st.values["cpuThreshold"]) == Some(threshold)
    ensures var e := Step(lastOver, sample, threshold);
            var st' := SetCpuUsage(st, Clamp(sample));
            && SampleTick(variant, st, lastOver, sample)
                 == (if EmailFails(variant, st, e.notify) then Raised(st') else Decided(st', e))
            && "cpuUsage" in st'.values && "cpuThreshold" in st'.values
            && IntOf(st'.values["cpuThreshold"]) == Some(threshold)
            && TickFails(variant, st') == TickFails(variant, st)
            && AlertFails(variant, st') == AlertFails(variant, st)
  {
    var st' := SetCpuUsage(st, Clamp(sample));
    assert "managerEmail" in st.values ==> st'.values["managerEmail"] == st.values["managerEmail"];
  }

  /** The sampler writes only cpuUsage, so the threshold it reads back stays
      the one the store held: the loop over the store takes the decisions of
      `Trace` against that threshold, up to the first iteration whose e-mail
      read raises. */
  lemma RunFollowsTrace(variant: Variant, st: Store, lastOver: bool, samples: seq<int>, threshold: int)
    requires Valid(st) && "cpuUsage" in st.values && "cpuThreshold" in st.values
    requires IntOf(st.values["cpuThreshold"]) == Some(threshold)
    ensures var t := Trace(lastOver, Against(samples, threshold));
            var edges := RunSampler(variant, st, lastOver, samples).edges;
            && (TickFails(variant, st) ==> edges == [])
            && (!TickFails(variant, st) && AlertFails(variant, st) ==> edges == t[..FirstAlert(t)])
            && (!TickFails(variant, st) && !AlertFails(variant, st) ==> edges == t)
  {
    RunCompletes(variant, st, lastOver, samples, threshold);
  }

  lemma {:induction false} RunCompletes(variant: Variant, st: Store, lastOver: bool, samples: seq<int>, threshold: int)
    requires Valid(st) && "cpuUsage" in st.values && "cpuThreshold" in st.values
    requires IntOf(st.values["cpuThreshold"]) == Some(threshold)
    ensures RunSampler(variant, st, lastOver, samples).edges
              == if TickFails(variant, st) && |samples| > 0 then []
                 else Completed(Trace(lastOver, Against(samples, threshold)), AlertFails(variant, st))
    decreases |samples|
  {
    if |samples| > 0 {
      var e := Step(lastOver, samples[0], threshold);
      var u := Trace(e.over, Against(samples[1..], threshold));
      TraceAgainstStep(lastOver, samples, threshold);
      CompletedStep(e, u, AlertFails(variant, st));
      TickWithThreshold(variant, st, lastOver, samples[0], threshold);
      if !EmailFails(variant, st, e.notify) {
        var st' := SetCpuUsage(st, Clamp(samples[0]));
        RunCompletes(variant, st', e.over, samples[1..], threshold);
        if |samples| == 1 {
          assert u == [];
        }
      }
    }
  }

  /** A threshold `int()` rejects ends the loop in its first iteration, before
      any decision but after that iteration stored its sample. */
  lemma RunHaltsOnBadThreshold(variant: Variant, st: Store, lastOver: bool, samples: seq<int>)
    requires Valid(st) && "cpuThreshold" in st.values && IntOf(st.values["cpuThreshold"]).None?
    ensures RunSampler(variant, st, lastOver, samples).edges == []
    ensures |samples| > 0 && "cpuUsage" in st.values ==>
              RunSampler(variant, st, lastOver, samples).store == SetCpuUsage(st, Clamp(samples[0]))
  {
  }
}
