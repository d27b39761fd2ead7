/**
 * The agent's event loop: the command responders and `cpu_sampler` run as
 * tasks on one asyncio loop, which switches between them only at an `await`.
 * A SET request is served without awaiting, and so is one sampler iteration
 * between two `asyncio.sleep` calls, so a run of the agent is a sequence of
 * such atomic events. GET and GETNEXT do not change the store and are not
 * events here.
 */
module Schedule {
  import opened Wrappers
  import opened Values
  import opened ObjectStore
  import opened Responders
  import opened Sampler
  import opened Enterprise
  import opened JsonAgent

  datatype Event = Iteration(sample: int) | SetRequest(req: seq<Write>)

  /** The samples the schedule offers the sampler, in order. */
  function Samples(events: seq<Event>): (s: seq<int>)
    ensures |s| <= |events|
  {
    if |events| == 0 then []
    else match events[0]
      case Iteration(sample) => [sample] + Samples(events[1..])
      case SetRequest(_) => Samples(events[1..])
  }

  /** What one event does: the store it leaves, whether the sampler task is
      still running, and for an iteration that completes, the reading it took
      and the decision it made. */
  datatype Outcome = Outcome(store: Store, running: bool, decided: Option<(Reading, Edge)>)

  /** One event. A SET request is served whole (`SetOutcome`); an iteration
      of a running sampler is `SampleTick`, and one that raises ends the task. */
  function Apply(variant: Variant, st: Store, lastOver: bool, running: bool, ev: Event): (o: Outcome)
    requires Valid(st)
    ensures Valid(o.store) && SameRegistry(st, o.store)
    ensures ev.SetRequest? ==> o.running == running && o.decided.None?
    ensures ev.Iteration? && !running ==> o == Outcome(st, false, None)
    ensures o.running ==> running
    ensures ev.Iteration? ==> (o.running <==> o.decided.Some?)
    ensures o.decided.Some? ==>
              && ev.Iteration? && o.running
              && o.decided.value.0.sample == ev.sample
              && "cpuThreshold" in st.values
              && IntOf(st.values["cpuThreshold"]) == Some(o.decided.value.0.threshold)
              && o.decided.value.1 == Step(lastOver, ev.sample, o.decided.value.0.threshold)
  {
    match ev
    case SetRequest(req) => Outcome(SetOutcome(st, req).1, running, None)
    case Iteration(sample) =>
      if !running then Outcome(st, false, None)
      else match SampleTick(variant, st, lastOver, sample)
        case Raised(st') => Outcome(st', false, None)
        case Decided(st', e) =>
          Outcome(st', true, Some((Reading(sample, IntOf(st.values["cpuThreshold"]).value), e)))
  }

  /** A SET event is the SET responder's whole effect, and an iteration of a
      running sampler is one `SampleTick`. */
  lemma ApplyIsEvent(variant: Variant, st: Store, lastOver: bool, running: bool, ev: Event)
    requires Valid(st)
    ensures var o := Apply(variant, st, lastOver, running, ev);
            && (ev.SetRequest? ==> o.store == SetOutcome(st, ev.req).1)
            && (ev.Iteration? && running ==>
                  && o.store == SampleTick(variant, st, lastOver, ev.sample).store
                  && (o.decided.Some? <==> SampleTick(variant, st, lastOver, ev.sample).Decided?))
  {
  }

  /** The agent after a schedule: its store, whether the sampler task is
      still running, and for each iteration that completed, the reading it
      took (its sample and the threshold it read back from the store at that
      moment) and the decision it made. */
  datatype History = History(store: Store, running: bool, readings: seq<Reading>, edges: seq<Edge>)

  /** Runs a schedule. An iteration that raises ends the sampler task: later
      iterations do not happen, while SET requests are still served. */
  function Interleave(variant: Variant, st: Store, lastOver: bool, running: bool, events: seq<Event>): (h: History)
    requires Valid(st)
    ensures Valid(h.store) && SameRegistry(st, h.store)
    ensures |h.edges| == |h.readings| <= |Samples(events)|
    ensures !running ==> h.readings == [] && !h.running
    decreases |events|
  {
    if |events| == 0 then History(st, running, [], [])
    else
      var o := Apply(variant, st, lastOver, running, events[0]);
      if o.decided.None? then Interleave(variant, o.store, lastOver, o.running, events[1..])
      else
        var (r, e) := o.decided.value;
        var h := Interleave(variant, o.store, e.over, true, events[1..]);
        History(h.store, h.running, [r] + h.readings, [e] + h.edges)
  }

  /** The decisions of an interleaved run are the `Trace` of the readings its
      iterations took: `last_over` carries from one iteration to the next
      across any requests served in between. */
  lemma {:induction false} InterleaveFollowsTrace(variant: Variant, st: Store, lastOver: bool, running: bool,
                                                  events: seq<Event>)
    requires Valid(st)
    ensures var h := Interleave(variant, st, lastOver, running, events);
            h.edges == Trace(lastOver, h.readings)
    decreases |events|
  {
    if |events| > 0 {
      var o := Apply(variant, st, lastOver, running, events[0]);
      if o.decided.None? {
        InterleaveFollowsTrace(variant, o.store, lastOver, o.running, events[1..]);
      } else {
        var (r, e) := o.decided.value;
        InterleaveFollowsTrace(variant, o.store, e.over, true, events[1..]);
        var h := Interleave(variant, o.store, e.over, true, events[1..]);
        assert ([r] + h.readings)[1..] == h.readings;
      }
    }
  }

  /** No varbind of any SET request in the schedule names cpuThreshold. */
  ghost predicate LeavesThreshold(st: Store, events: seq<Event>) {
    forall k, i ::
      && 0 <= k < |events| && events[k].SetRequest? && 0 <= i < |events[k].req|
      && events[k].req[i].oid in st.oidMap
      ==> st.oidMap[events[k].req[i].oid] != "cpuThreshold"
  }

  /** A SET that names no varbind of cpuThreshold leaves its value alone. */
  lemma SetKeepsThreshold(st: Store, req: seq<Write>)
    requires Valid(st) && "cpuThreshold" in st.values && !Touches(st, req, "cpuThreshold")
    ensures "cpuThreshold" in SetOutcome(st, req).1.values
    ensures SetOutcome(st, req).1.values["cpuThreshold"] == st.values["cpuThreshold"]
  {
    if FirstInvalid(st, req).None? {
      CommitAllFrame(st, req);
    }
  }

  /** What `LeavesThreshold` says of the first event and of the rest, over a
      store with the same OID map. */
  lemma LeavesThresholdSplit(st: Store, st': Store, events: seq<Event>)
    requires |events| > 0 && LeavesThreshold(st, events) && st'.oidMap == st.oidMap
    ensures events[0].SetRequest? ==> !Touches(st, events[0].req, "cpuThreshold")
    ensures LeavesThreshold(st', events[1..])
  {
    var rest := events[1..];
    forall k, i | 0 <= k < |rest| && rest[k].SetRequest? && 0 <= i < |rest[k].req| && rest[k].req[i].oid in st'.oidMap
      ensures st'.oidMap[rest[k].req[i].oid] != "cpuThreshold"
    {
      assert rest[k] == events[k + 1];
    }
  }

  /** The readings a run takes from the samples after the first event, seen
      from the whole schedule: a first iteration adds its own reading in front. */
  lemma SamplesSplit(events: seq<Event>, threshold: int, readings: seq<Reading>)
    requires |events| > 0 && |readings| <= |Samples(events[1..])|
    requires readings == Against(Samples(events[1..])[..|readings|], threshold)
    ensures |Samples(events)| == |Samples(events[1..])| + (if events[0].Iteration? then 1 else 0)
    ensures events[0].SetRequest? ==> readings == Against(Samples(events)[..|readings|], threshold)
    ensures events[0].Iteration? ==>
              [Reading(events[0].sample, threshold)] + readings
                == Against(Samples(events)[..1 + |readings|], threshold)
  {
    if events[0].Iteration? {
      var x := events[0].sample;
      var rest := Samples(events[1..]);
      assert Samples(events) == [x] + rest;
      assert Samples(events)[..1 + |readings|] == [x] + rest[..|readings|];
      AgainstCons(x, rest[..|readings|], threshold);
    }
  }

  /** A reading in front of a run's readings is the reading of a sample in
      front of its samples. */
  lemma AgainstCons(x: int, samples: seq<int>, threshold: int)
    ensures Against([x] + samples, threshold) == [Reading(x, threshold)] + Against(samples, threshold)
  {
    var lhs := Against([x] + samples, threshold);
    var rhs := [Reading(x, threshold)] + Against(samples, threshold);
    forall i | 0 <= i < |lhs|
      ensures lhs[i] == rhs[i]
    {
      if i > 0 {
        assert ([x] + samples)[i] == samples[i - 1];
      }
    }
  }

  /** An event that is not a SET naming cpuThreshold leaves its value alone:
      the sampler writes only cpuUsage. */
  lemma ApplyKeepsThreshold(variant: Variant, st: Store, lastOver: bool, running: bool, ev: Event)
    requires Valid(st) && "cpuThreshold" in st.values
    requires ev.SetRequest? ==> !Touches(st, ev.req, "cpuThreshold")
    ensures var o := Apply(variant, st, lastOver, running, ev);
            "cpuThreshold" in o.store.values && o.store.values["cpuThreshold"] == st.values["cpuThreshold"]
  {
    if ev.SetRequest? {
      SetKeepsThreshold(st, ev.req);
    }
  }

  /** When no request writes the threshold, every completed iteration reads
      the threshold the store started with, and the iterations take the
      schedule's samples in order. */
  lemma {:induction false} ReadingsKeepThreshold(variant: Variant, st: Store, lastOver: bool, running: bool,
                                                 events: seq<Event>, threshold: int)
    requires Valid(st) && "cpuThreshold" in st.values && IntOf(st.values["cpuThreshold"]) == Some(threshold)
    requires LeavesThreshold(st, events)
    ensures var h := Interleave(variant, st, lastOver, running, events);
            h.readings == Against(Samples(events)[..|h.readings|], threshold)
    decreases |events|
  {
    if |events| > 0 {
      var ev := events[0];
      var o := Apply(variant, st, lastOver, running, ev);
      LeavesThresholdSplit(st, o.store, events);
      ApplyKeepsThreshold(variant, st, lastOver, running, ev);
      if o.decided.None? {
        ReadingsKeepThreshold(variant, o.store, lastOver, o.running, events[1..], threshold);
        var h := Interleave(variant, o.store, lastOver, o.running, events[1..]);
        SamplesSplit(events, threshold, h.readings);
      } else {
        var (r, e) := o.decided.value;
        ReadingsKeepThreshold(variant, o.store, e.over, true, events[1..], threshold);
        var h := Interleave(variant, o.store, e.over, true, events[1..]);
        SamplesSplit(events, threshold, h.readings);
      }
    }
  }

  /** With no request writing the threshold, the decisions of an interleaved
      run are the `Trace` decisions on the samples, against the threshold the
      store started with: serving requests between iterations changes neither
      `last_over` nor the threshold. */
  lemma ScheduleFollowsTrace(variant: Variant, st: Store, lastOver: bool, events: seq<Event>, threshold: int)
    requires Valid(st) && "cpuThreshold" in st.values && IntOf(st.values["cpuThreshold"]) == Some(threshold)
    requires LeavesThreshold(st, events)
    ensures var h := Interleave(variant, st, lastOver, true, events);
            h.edges == Trace(lastOver, Against(Samples(events)[..|h.edges|], threshold))
  {
    InterleaveFollowsTrace(variant, st, lastOver, true, events);
    ReadingsKeepThreshold(variant, st, lastOver, true, events, threshold);
  }

  /** An iteration of mini_agent.py's sampler over a numeric threshold and a
      text address always completes, with `Step`'s decision. */
  lemma CompletingTick(st: Store, lastOver: bool, sample: int, threshold: int)
    requires Valid(st) && "cpuUsage" in st.values && "cpuThreshold" in st.values
    requires st.values["cpuThreshold"] == Num(threshold)
    requires "managerEmail" in st.values && st.values["managerEmail"].Text?
    ensures Apply(JsonSampler, st, lastOver, true, Iteration(sample))
              == Outcome(SetCpuUsage(st, Clamp(sample)), true,
                         Some((Reading(sample, threshold), Step(lastOver, sample, threshold))))
  {
    assert IntOf(st.values["cpuThreshold"]) == Some(threshold);
  }

  /** A SET of cpuThreshold to a value in 0..100 on the default registry
      stores it and changes nothing else. */
  lemma ThresholdSet(st: Store, lastOver: bool, n: int)
    requires DefaultRegistry(st) && 0 <= n <= 100
    ensures var o := Apply(JsonSampler, st, lastOver, true, SetRequest([Write(CpuThresholdOid, Integer(n))]));
            && o.running && o.decided.None? && DefaultRegistry(o.store)
            && o.store.values == st.values["cpuThreshold" := Num(n)]
  {
    var w := Write(CpuThresholdOid, Integer(n));
    DefaultThresholdRules(st, "", n);
    SetThenGet(st, w);
    ApplyIsEvent(JsonSampler, st, lastOver, true, SetRequest([w]));
  }

  /** A SET of cpuThreshold between two iterations changes the next decision:
      70 against the threshold 80 raises no alert, and after the threshold
      is set to 60 the same 70 raises one. */
  lemma ThresholdSetScenario(st: Store)
    requires DefaultRegistry(st)
    requires st.values["cpuThreshold"] == Num(80) && st.values["managerEmail"].Text?
    ensures Interleave(JsonSampler, st, false, true,
                       [Iteration(70), SetRequest([Write(CpuThresholdOid, Integer(60))]), Iteration(70)]).edges
            == [Edge(70, false, false), Edge(70, true, true)]
  {
    FirstTick(st);
    LowerThresholdThenTick(SetCpuUsage(st, 70));
    assert [Edge(70, false, false)] + [Edge(70, true, true)] == [Edge(70, false, false), Edge(70, true, true)];
  }

  /** The first half of `ThresholdSetScenario`: the sample 70 against the
      threshold 80 is not over. */
  lemma FirstTick(st: Store)
    requires DefaultRegistry(st)
    requires st.values["cpuThreshold"] == Num(80) && st.values["managerEmail"].Text?
    ensures DefaultRegistry(SetCpuUsage(st, 70)) && SetCpuUsage(st, 70).values["managerEmail"].Text?
    ensures Interleave(JsonSampler, st, false, true,
                       [Iteration(70), SetRequest([Write(CpuThresholdOid, Integer(60))]), Iteration(70)]).edges
            == [Edge(70, false, false)]
               + Interleave(JsonSampler, SetCpuUsage(st, 70), false, true,
                            [SetRequest([Write(CpuThresholdOid, Integer(60))]), Iteration(70)]).edges
  {
    var events := [Iteration(70), SetRequest([Write(CpuThresholdOid, Integer(60))]), Iteration(70)];
    CompletingTick(st, false, 70, 80);
    assert events[1..] == [SetRequest([Write(CpuThresholdOid, Integer(60))]), Iteration(70)];
  }

  /** The second half of `ThresholdSetScenario`: the threshold set to 60,
      then the sample 70 after a sample that was not over. */
  lemma LowerThresholdThenTick(st: Store)
    requires DefaultRegistry(st) && "managerEmail" in st.values && st.values["managerEmail"].Text?
    ensures Interleave(JsonSampler, st, false, true,
                       [SetRequest([Write(CpuThresholdOid, Integer(60))]), Iteration(70)]).edges
            == [Edge(70, true, true)]
  {
    var request := SetRequest([Write(CpuThresholdOid, Integer(60))]);
    var events := [request, Iteration(70)];
    ThresholdSet(st, false, 60);
    var s2 := st.(values := st.values["cpuThreshold" := Num(60)]);
    assert Apply(JsonSampler, st, false, true, request).store == s2;
    CompletingTick(s2, false, 70, 60);
    assert [Iteration(70)][1..] == [];
    assert Interleave(JsonSampler, s2, false, true, [Iteration(70)]).edges == [Edge(70, true, true)];
    assert events[1..] == [Iteration(70)];
  }
}
