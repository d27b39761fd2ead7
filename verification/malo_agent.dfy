/**
 * mini_agent_malo.py: `MibStore`, whose registry is the static `SCALARS`
 * table and whose state file holds only the values. Text scalars carry
 * "min_len"/"max_len", integer scalars "min"/"max"; the limits a kind does
 * not use are recorded as 0 and never consulted.
 */
module MaloAgent {
  import opened Wrappers
  import opened Oids
  import opened Values
  import opened ObjectStore
  import opened Responders
  import opened Enterprise
  import opened Sampler

  /** `SCALARS`, in declaration order. */
  const Registry: seq<(string, ScalarDef)> := [
    ("manager", ScalarDef(ManagerOid, DisplayString, ReadWrite, 1, 64, 0, 0)),
    ("managerEmail", ScalarDef(ManagerEmailOid, DisplayString, ReadWrite, 3, 254, 0, 0)),
    ("cpuUsage", ScalarDef(CpuUsageOid, Integer32, ReadOnly, 0, 0, 0, 100)),
    ("cpuThreshold", ScalarDef(CpuThresholdOid, Integer32, ReadWrite, 0, 0, 0, 100))]

  /** The "default" of every scalar: `_default_model`. */
  const Defaults: map<string, JsonValue> := map[
    "manager" := Text("NetAdmin"),
    "managerEmail" := Text("admin@example.com"),
    "cpuUsage" := Num(0),
    "cpuThreshold" := Num(80)]

  lemma RegistryShape()
    ensures DistinctNames(Registry)
    ensures forall j, k :: 0 <= j < k < |Registry| ==> Registry[j].1.oid != Registry[k].1.oid
    ensures forall k :: 0 <= k < |Registry| ==> Registry[k].0 in Defaults
    ensures forall n :: n in Defaults <==> exists k :: 0 <= k < |Registry| && Registry[k].0 == n
    ensures |Registry| == |Instances|
    ensures forall k :: 0 <= k < |Registry| ==> Registry[k].1.oid == Instances[k]
  {
    RegistryOids();
    RegistryNames();
  }

  /** `SCALARS` lists the instances in order, so no OID is declared twice. */
  lemma RegistryOids()
    ensures forall j, k :: 0 <= j < k < |Registry| ==> Registry[j].1.oid != Registry[k].1.oid
    ensures |Registry| == |Instances|
    ensures forall k :: 0 <= k < |Registry| ==> Registry[k].1.oid == Instances[k]
  {
    InstancesAscendAboveBase();
    forall j, k | 0 <= j < k < |Registry|
      ensures Registry[j].1.oid != Registry[k].1.oid
    {
      assert Registry[j].1.oid == Instances[j] && Registry[k].1.oid == Instances[k];
      LessIrreflexive(Instances[j]);
    }
  }

  /** `SCALARS` and `_default_model` name the same four scalars, once each. */
  lemma RegistryNames()
    ensures DistinctNames(Registry)
    ensures forall k :: 0 <= k < |Registry| ==> Registry[k].0 in Defaults
    ensures forall n :: n in Defaults <==> exists k :: 0 <= k < |Registry| && Registry[k].0 == n
  {
    forall n | n in Defaults
      ensures exists k :: 0 <= k < |Registry| && Registry[k].0 == n
    {
      assert n in {"manager", "managerEmail", "cpuUsage", "cpuThreshold"};
      if n == "manager" {
        assert Registry[0].0 == n;
      } else if n == "managerEmail" {
        assert Registry[1].0 == n;
      } else if n == "cpuUsage" {
        assert Registry[2].0 == n;
      } else {
        assert Registry[3].0 == n;
      }
    }
  }

  /** What `_load_state` finds at the state path: nothing, something
      `json.load` or the "scalars" lookup rejects, or a "scalars" object
      whose entries carry a "value". */
  datatype StateFile = Absent | Unreadable | Parsed(scalars: map<string, JsonValue>)

  /** `_load_state`: the default model when there is no usable file;
      otherwise the file's scalars, as they are, with every scalar of the
      registry the file lacks filled in from its default. */
  function LoadState(f: StateFile): (model: map<string, JsonValue>)
    ensures Defaults.Keys <= model.Keys
    ensures !f.Parsed? ==> model == Defaults
    ensures f.Parsed? ==> model.Keys == f.scalars.Keys + Defaults.Keys
    ensures f.Parsed? ==> forall n :: n in f.scalars ==> model[n] == f.scalars[n]
    ensures f.Parsed? ==> forall n :: n in Defaults && n !in f.scalars ==> model[n] == Defaults[n]
  {
    match f
    case Parsed(scalars) =>
      map n | n in scalars.Keys + Defaults.Keys :: if n in scalars then scalars[n] else Defaults[n]
    case _ => Defaults
  }

  /** Loading what a load produced changes nothing. */
  lemma LoadStateIdempotent(f: StateFile)
    ensures LoadState(Parsed(LoadState(f))) == LoadState(f)
  {
  }

  /** `MibStore` over a model: the static registry and the model's values. */
  function Open(model: map<string, JsonValue>): (st: Store)
    requires Defaults.Keys <= model.Keys
    ensures Valid(st) && st.values == model
  {
    RegistryShape();
    Assemble(Registry, model)
  }

  /** `MibStore(STATE_FILE)`. */
  function Start(f: StateFile): (st: Store)
    ensures Valid(st) && st.values == LoadState(f)
  {
    Open(LoadState(f))
  }

  /** The registry does not depend on the state file. */
  lemma RegistryIgnoresState(f: StateFile, g: StateFile)
    ensures SameRegistry(Start(f), Start(g))
  {
    RegistryShape();
    AssembleRegistry(Registry, LoadState(f), LoadState(g));
  }

  /** Writes change only the values, so the agent always holds its starting
      registry with some model `m` that has every scalar. `save` writes `m`,
      and starting again from that file gives back the same store. */
  lemma SaveLoadRoundTrip(f: StateFile, m: map<string, JsonValue>)
    requires Defaults.Keys <= m.Keys
    ensures Start(Parsed(m)) == Start(f).(values := m)
  {
    assert LoadState(Parsed(m)) == m;
    RegistryIgnoresState(f, Parsed(m));
  }

  /** The registry of `SCALARS`: the four instance OIDs, each naming its
      scalar, with its access and limits. */
  ghost predicate MaloRegistry(st: Store) {
    RegistersInstances(st,
      ScalarDef(ManagerOid, DisplayString, ReadWrite, 1, 64, 0, 0),
      ScalarDef(ManagerEmailOid, DisplayString, ReadWrite, 3, 254, 0, 0),
      ScalarDef(CpuUsageOid, Integer32, ReadOnly, 0, 0, 0, 100),
      ScalarDef(CpuThresholdOid, Integer32, ReadWrite, 0, 0, 0, 100))
  }

  lemma OpenNames(model: map<string, JsonValue>)
    requires Defaults.Keys <= model.Keys
    ensures MaloRegistry(Open(model))
  {
    RegistryShape();
    AssembleNames(Registry, model, 0);
    AssembleNames(Registry, model, 1);
    AssembleNames(Registry, model, 2);
    AssembleNames(Registry, model, 3);
  }

  lemma OpenRegistersInstancesOnly(model: map<string, JsonValue>)
    requires Defaults.Keys <= model.Keys
    ensures forall o :: o in Open(model).oidMap ==> o in Instances
  {
    var st := Open(model);
    RegistryShape();
    forall o | o in st.oidMap
      ensures o in Instances
    {
      var k :| 0 <= k < |Registry| && Registry[k].0 == st.oidMap[o] && Registry[k].1 == DefAt(st, o);
    }
  }

  lemma OpenIndex(model: map<string, JsonValue>)
    requires Defaults.Keys <= model.Keys
    ensures IndexesInstances(Open(model))
  {
    var st := Open(model);
    OpenNames(model);
    OpenRegistersInstancesOnly(model);
    assert forall o :: o in st.oidMap <==> o in Instances;
    IndexedInstances(st);
  }

  /** Whatever the state file, the agent serves the registry of `SCALARS`
      over the four instances. */
  lemma StartsWithRegistry(f: StateFile)
    ensures MaloRegistry(Start(f)) && IndexesInstances(Start(f))
  {
    OpenNames(LoadState(f));
    OpenIndex(LoadState(f));
  }

  /** SET rules of `SCALARS`, whatever the values: cpuUsage is never
      writable and an OID outside the registry is refused with noAccess. */
  lemma ReadOnlyRules(st: Store, v: Syntax)
    requires MaloRegistry(st) && IndexesInstances(st)
    ensures ValidateSet(st, CpuUsageOid, v) == NotWritable
    ensures ValidateSet(st, Base, v) == NoAccess
  {
    InstancesAscendAboveBase();
    LessIrreflexive(Base);
    assert Base !in Instances;
  }

  /** The manager name takes 1..64 characters, the e-mail address 3..254,
      and neither takes an integer. */
  lemma TextRules(st: Store, t: string, n: int)
    requires MaloRegistry(st)
    ensures ValidateSet(st, ManagerOid, OctetString(t)) == NoError <==> 1 <= |t| <= 64
    ensures ValidateSet(st, ManagerEmailOid, OctetString(t)) == NoError <==> 3 <= |t| <= 254
    ensures ValidateSet(st, ManagerOid, Integer(n)) == WrongType
    ensures ValidateSet(st, ManagerEmailOid, Integer(n)) == WrongType
  {
  }

  /** The threshold takes integers 0..100 and refuses text. */
  lemma ThresholdRules(st: Store, t: string, n: int)
    requires MaloRegistry(st)
    ensures ValidateSet(st, CpuThresholdOid, Integer(n)) == NoError <==> 0 <= n <= 100
    ensures ValidateSet(st, CpuThresholdOid, OctetString(t)) == WrongType
  {
  }

  /** What the agent answers for the four instances when it holds the defaults. */
  const DefaultReadings: seq<Varbind> := [
    Varbind(ManagerOid, Value(OctetString("NetAdmin"))),
    Varbind(ManagerEmailOid, Value(OctetString("admin@example.com"))),
    Varbind(CpuUsageOid, Value(Integer(0))),
    Varbind(CpuThresholdOid, Value(Integer(80)))]

  lemma DefaultTextItems(st: Store)
    requires MaloRegistry(st) && st.values == Defaults
    ensures ExactItem(st, ManagerOid) == Some(DefaultReadings[0])
    ensures ExactItem(st, ManagerEmailOid) == Some(DefaultReadings[1])
  {
    ReadText(st, ManagerOid);
    ReadText(st, ManagerEmailOid);
  }

  lemma DefaultIntegerItems(st: Store)
    requires MaloRegistry(st) && st.values == Defaults
    ensures ExactItem(st, CpuUsageOid) == Some(DefaultReadings[2])
    ensures ExactItem(st, CpuThresholdOid) == Some(DefaultReadings[3])
  {
    ReadNumber(st, CpuUsageOid);
    ReadNumber(st, CpuThresholdOid);
  }

  /** A store holding the defaults answers a GET of the four instances with them. */
  lemma DefaultsGet(st: Store)
    requires MaloRegistry(st) && st.values == Defaults
    ensures HandleGet(st, Instances) == Some(DefaultReadings)
  {
    DefaultTextItems(st);
    DefaultIntegerItems(st);
    forall i | 0 <= i < |Instances|
      ensures ExactItem(st, Instances[i]) == Some(DefaultReadings[i])
    {
      assert i == 0 || i == 1 || i == 2 || i == 3;
    }
    HandleGetAnswers(st, Instances, DefaultReadings);
  }

  /** Without a usable state file, a GET of the four instances answers the defaults. */
  lemma DefaultGet(f: StateFile)
    requires !f.Parsed?
    ensures HandleGet(Start(f), Instances) == Some(DefaultReadings)
  {
    StartsWithRegistry(f);
    DefaultsGet(Start(f));
  }

  lemma DefaultsReadable(st: Store)
    requires MaloRegistry(st) && st.values == Defaults
    ensures WellKinded(st)
  {
    assert st.defs["manager"] == DefAt(st, ManagerOid);
    assert st.defs["managerEmail"] == DefAt(st, ManagerEmailOid);
    forall n | n in st.defs && n in st.values
      ensures Convertible(st.defs[n].kind, st.values[n])
    {
      assert n in {"manager", "managerEmail", "cpuUsage", "cpuThreshold"};
    }
  }

  /** Without a usable state file, a walk from the enterprise base OID starts
      at the manager name and visits the four instances in order. */
  lemma DefaultWalk(f: StateFile)
    requires !f.Parsed?
    ensures GetNext(Start(f), Base) == Next(ManagerOid, OctetString("NetAdmin"))
    ensures Walk(Start(f), Base) == Instances
  {
    var st := Start(f);
    StartsWithRegistry(f);
    InstancesAscendAboveBase();
    DefaultsReadable(st);
    DefaultTextItems(st);
    WalkVisitsEveryObjectOnce(st, Base);
    match GetNext(st, Base)
    case Next(o, s) =>
      assert Walk(st, Base) == [o] + Walk(st, o);
      assert o == ManagerOid;
    case EndOfTree =>
      assert false;
    case NextUnconvertible =>
      assert false;
  }

  /** `_load_state` does not check loaded values against `SCALARS`: a manager
      name of any length is served as loaded, although a SET of the same
      text is refused once it is longer than 64 characters. */
  lemma LoadedValuesBypassLimits(t: string)
    ensures GetExact(Start(Parsed(map["manager" := Text(t)])), ManagerOid) == Found(OctetString(t))
    ensures (ValidateSet(Start(Parsed(map["manager" := Text(t)])), ManagerOid, OctetString(t)) == NoError)
              == (1 <= |t| <= 64)
  {
    var f := Parsed(map["manager" := Text(t)]);
    var st := Start(f);
    StartsWithRegistry(f);
    assert st.values["manager"] == Text(t);
    ReadText(st, ManagerOid);
    TextRules(st, t, 0);
  }

  /** A threshold holding text that `int()` rejects makes every read of it
      raise, and ends the CPU sampler at its next tick, after that tick has
      stored its sample. */
  lemma UnconvertibleThreshold(st: Store, t: string, lastOver: bool, sample: int)
    requires MaloRegistry(st) && "cpuThreshold" in st.values && st.values["cpuThreshold"] == Text(t)
    requires ParseDecimal(t).None?
    ensures GetExact(st, CpuThresholdOid) == Unconvertible
    ensures HandleGet(st, [CpuThresholdOid]).None?
    ensures "cpuUsage" in st.values
    ensures SampleTick(MaloSampler, st, lastOver, sample) == Raised(SetCpuUsage(st, Clamp(sample)))
  {
    assert ValueAt(st, CpuUsageOid) == st.values["cpuUsage"];
    assert ValueAt(st, CpuThresholdOid) == Text(t);
    assert [CpuThresholdOid][0] == CpuThresholdOid;
  }

  /** `_load_state` keeps such a threshold from the file as it is. */
  lemma TextThresholdLoads(t: string, lastOver: bool, sample: int)
    requires ParseDecimal(t).None?
    ensures GetExact(Start(Parsed(map["cpuThreshold" := Text(t)])), CpuThresholdOid) == Unconvertible
    ensures HandleGet(Start(Parsed(map["cpuThreshold" := Text(t)])), [CpuThresholdOid]).None?
    ensures SampleTick(MaloSampler, Start(Parsed(map["cpuThreshold" := Text(t)])), lastOver, sample).Raised?
  {
    var f := Parsed(map["cpuThreshold" := Text(t)]);
    StartsWithRegistry(f);
    UnconvertibleThreshold(Start(f), t, lastOver, sample);
  }

  /** A batch whose second write targets the read-only cpuUsage is refused
      as a whole, with notWritable at index 2, and changes nothing. */
  lemma RejectedBatchScenario(st: Store)
    requires MaloRegistry(st) && IndexesInstances(st)
    ensures FirstInvalid(st, [Write(ManagerOid, OctetString("ops-team")), Write(CpuUsageOid, Integer(55))])
              == Some(Failure(NotWritable, 2))
    ensures SetOutcome(st, [Write(ManagerOid, OctetString("ops-team")), Write(CpuUsageOid, Integer(55))])
              == (Rejected(NotWritable, 2), st)
  {
    var req := [Write(ManagerOid, OctetString("ops-team")), Write(CpuUsageOid, Integer(55))];
    TextRules(st, "ops-team", 0);
    ReadOnlyRules(st, Integer(55));
    assert ValidateSet(st, req[0].oid, req[0].value) == NoError;
    assert ValidateSet(st, req[1].oid, req[1].value) == NotWritable;
    SetAllOrNothing(st, req);
  }
}
