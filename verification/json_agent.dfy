/**
 * mini_agent.py: `JsonStore`, whose registry is read from the JSON state
 * document itself. Every scalar entry carries its own "oid", "type",
 * "access" and optional limits; missing limits default to 0 and 255 for
 * lengths and to 0 and 2147483647 for integer values.
 */
module JsonAgent {
  import opened Wrappers
  import opened Oids
  import opened Values
  import opened ObjectStore
  import opened Responders
  import opened Enterprise

  /** One entry of the document's "scalars" object, with its "type" and
      "access" strings as written; an absent limit is `None`. */
  datatype JsonScalar = JsonScalar(oid: Oid, typeName: string, accessName: string,
                                   minLen: Option<int>, maxLen: Option<int>,
                                   minVal: Option<int>, maxVal: Option<int>,
                                   value: JsonValue)

  /** The state document: "baseoid" and the "scalars" object, whose keys
      `names` lists in document order. */
  datatype Document = Document(baseOid: string, names: seq<string>, scalars: map<string, JsonScalar>)

  /** `names` lists every key of the "scalars" object exactly once. */
  ghost predicate WellFormed(doc: Document) {
    && Distinct(doc.names)
    && forall n :: n in doc.names <==> n in doc.scalars
  }

  /** The kind `validate_set`, `commit_set` and `_to_snmp` dispatch on: any
      "type" other than the two they test for falls through every branch. */
  function KindOf(typeName: string): (k: Kind)
    ensures k == DisplayString <==> typeName == "DisplayString"
    ensures k == Integer32 <==> typeName == "Integer32"
  {
    if typeName == "DisplayString" then DisplayString
    else if typeName == "Integer32" then Integer32
    else UnknownType
  }

  /** Only the exact string "read-only" refuses writes. */
  function AccessOf(accessName: string): (a: Access)
    ensures a == ReadOnly <==> accessName == "read-only"
  {
    if accessName == "read-only" then ReadOnly else ReadWrite
  }

  /** The limits `validate_set` applies: `obj.get("minlen", 0)`, `obj.get("maxlen", 255)`,
      `obj.get("minval", 0)`, `obj.get("maxval", 2147483647)`. */
  function Limits(s: JsonScalar): (d: ScalarDef)
    ensures d.oid == s.oid && d.kind == KindOf(s.typeName) && d.access == AccessOf(s.accessName)
    ensures d.minLen == (if s.minLen.Some? then s.minLen.value else 0)
    ensures d.maxLen == (if s.maxLen.Some? then s.maxLen.value else 255)
    ensures d.minVal == (if s.minVal.Some? then s.minVal.value else 0)
    ensures d.maxVal == (if s.maxVal.Some? then s.maxVal.value else 2147483647)
  {
    ScalarDef(s.oid, KindOf(s.typeName), AccessOf(s.accessName),
              s.minLen.GetOr(0), s.maxLen.GetOr(255), s.minVal.GetOr(0), s.maxVal.GetOr(2147483647))
  }

  /** The document `_load` creates when there is no state file. */
  const DefaultDocument: Document :=
    Document(
      "1.3.6.1.4.1.28308.1",
      ["manager", "managerEmail", "cpuUsage", "cpuThreshold"],
      map[
        "manager" := JsonScalar(ManagerOid, "DisplayString", "read-write",
                                Some(1), Some(255), None, None, Text("manager")),
        "managerEmail" := JsonScalar(ManagerEmailOid, "DisplayString", "read-write",
                                     Some(4), Some(255), None, None, Text("fakeunizar@gmail.com")),
        "cpuUsage" := JsonScalar(CpuUsageOid, "Integer32", "read-only",
                                 None, None, Some(0), Some(100), Num(10)),
        "cpuThreshold" := JsonScalar(CpuThresholdOid, "Integer32", "read-write",
                                     None, None, Some(0), Some(100), Num(80))])

  /** `_load`: the document in the state file if there is one, the default otherwise. */
  function Load(file: Option<Document>): Document {
    file.GetOr(DefaultDocument)
  }

  /** The registry entries `_build_oid_map` walks, in document order: every
      scalar of the document exactly once, paired with the limits it declares. */
  function Entries(doc: Document): (entries: seq<(string, ScalarDef)>)
    requires WellFormed(doc)
    ensures DistinctNames(entries)
    ensures forall i :: 0 <= i < |entries| ==>
              entries[i].0 in doc.scalars && entries[i].1 == Limits(doc.scalars[entries[i].0])
    ensures forall n :: n in doc.scalars ==> exists i :: 0 <= i < |entries| && entries[i].0 == n
  {
    var entries := seq(|doc.names|, i requires 0 <= i < |doc.names| => (doc.names[i], Limits(doc.scalars[doc.names[i]])));
    EntriesCover(doc, entries);
    entries
  }

  lemma EntriesCover(doc: Document, entries: seq<(string, ScalarDef)>)
    requires WellFormed(doc) && |entries| == |doc.names|
    requires forall i :: 0 <= i < |entries| ==> entries[i] == (doc.names[i], Limits(doc.scalars[doc.names[i]]))
    ensures DistinctNames(entries)
    ensures forall i :: 0 <= i < |entries| ==>
              entries[i].0 in doc.scalars && entries[i].1 == Limits(doc.scalars[entries[i].0])
    ensures forall n :: n in doc.scalars ==> exists i :: 0 <= i < |entries| && entries[i].0 == n
  {
    forall n | n in doc.scalars
      ensures exists i :: 0 <= i < |entries| && entries[i].0 == n
    {
      var i :| 0 <= i < |doc.names| && doc.names[i] == n;
      assert entries[i].0 == n;
    }
  }

  /** The value of every scalar, keyed by name. */
  function ValuesOf(doc: Document): (values: map<string, JsonValue>)
    ensures values.Keys == doc.scalars.Keys
    ensures forall n :: n in doc.scalars ==> values[n] == doc.scalars[n].value
  {
    map n | n in doc.scalars :: doc.scalars[n].value
  }

  lemma EntriesFitAssemble(doc: Document)
    requires WellFormed(doc)
    ensures DistinctNames(Entries(doc))
    ensures forall i :: 0 <= i < |Entries(doc)| ==> Entries(doc)[i].0 in ValuesOf(doc)
  {
  }

  /** `JsonStore.__init__`: `_build_oid_map` and `sorted(oid_map.keys())` over
      the document's scalars, which keep their values in the store. */
  function Open(doc: Document): (st: Store)
    requires WellFormed(doc)
    ensures Valid(st)
    ensures st.values == ValuesOf(doc)
  {
    EntriesFitAssemble(doc);
    Assemble(Entries(doc), ValuesOf(doc))
  }

  /** Every scalar of the document is registered under its own OID. */
  lemma OpenRegisters(doc: Document, n: string)
    requires WellFormed(doc) && n in doc.scalars
    ensures doc.scalars[n].oid in Open(doc).oidMap
  {
    var entries := Entries(doc);
    EntriesFitAssemble(doc);
    assert Open(doc) == Assemble(entries, ValuesOf(doc));
    var i :| 0 <= i < |doc.names| && doc.names[i] == n;
    assert entries[i].1.oid == doc.scalars[n].oid;
  }

  /** Every registered OID names a scalar of the document, with the limits
      `validate_set` reads from that scalar. */
  lemma OpenDefines(doc: Document)
    requires WellFormed(doc)
    ensures forall o :: o in Open(doc).oidMap ==>
              && Open(doc).oidMap[o] in doc.scalars
              && DefAt(Open(doc), o) == Limits(doc.scalars[Open(doc).oidMap[o]])
              && doc.scalars[Open(doc).oidMap[o]].oid == o
  {
    var st := Open(doc);
    forall o | o in st.oidMap
      ensures st.oidMap[o] in doc.scalars
      ensures DefAt(st, o) == Limits(doc.scalars[st.oidMap[o]])
      ensures doc.scalars[st.oidMap[o]].oid == o
    {
      var name := st.oidMap[o];
      assert name in st.values;
      OpenKeepsLimits(doc, name);
    }
  }

  /** What `_save` writes: the document with every scalar's current value. */
  function Snapshot(doc: Document, values: map<string, JsonValue>): (saved: Document)
    requires WellFormed(doc) && doc.scalars.Keys <= values.Keys
    ensures WellFormed(saved)
    ensures saved.names == doc.names && saved.scalars.Keys == doc.scalars.Keys
    ensures forall n :: n in doc.scalars ==> saved.scalars[n] == doc.scalars[n].(value := values[n])
  {
    doc.(scalars := map n | n in doc.scalars :: doc.scalars[n].(value := values[n]))
  }

  lemma SnapshotKeepsEntries(doc: Document, values: map<string, JsonValue>)
    requires WellFormed(doc) && doc.scalars.Keys <= values.Keys
    ensures Entries(Snapshot(doc, values)) == Entries(doc)
  {
    var saved := Snapshot(doc, values);
    var e1, e2 := Entries(saved), Entries(doc);
    forall i | 0 <= i < |e1|
      ensures e1[i] == e2[i]
    {
      var n := doc.names[i];
      assert Limits(saved.scalars[n]) == Limits(doc.scalars[n]);
    }
  }

  lemma SnapshotKeepsValues(doc: Document, values: map<string, JsonValue>)
    requires WellFormed(doc) && values.Keys == doc.scalars.Keys
    ensures ValuesOf(Snapshot(doc, values)) == values
  {
    var saved := ValuesOf(Snapshot(doc, values));
    forall n | n in saved
      ensures saved[n] == values[n]
    {
    }
  }

  /** Writes change only the values, so the agent always holds the registry
      it opened with and some value for every scalar of the document. Saving
      those values and starting again from the saved file gives back the same
      store. */
  lemma SaveLoadRoundTrip(doc: Document, values: map<string, JsonValue>)
    requires WellFormed(doc) && values.Keys == doc.scalars.Keys
    ensures Open(Load(Some(Snapshot(doc, values)))) == Open(doc).(values := values)
  {
    var saved := Snapshot(doc, values);
    assert Load(Some(saved)) == saved;
    SnapshotKeepsEntries(doc, values);
    SnapshotKeepsValues(doc, values);
    EntriesFitAssemble(doc);
    EntriesFitAssemble(saved);
    var entries := Entries(doc);
    AssembleRegistry(entries, ValuesOf(doc), values);
    assert Open(saved) == Assemble(entries, values);
  }

  lemma DefaultWellFormed()
    ensures WellFormed(DefaultDocument)
  {
  }

  /** `JsonStore.__init__`: `_load` and then the registry over the loaded document. */
  function Start(file: Option<Document>): (st: Store)
    requires file.Some? ==> WellFormed(file.value)
    ensures Valid(st)
  {
    DefaultWellFormed();
    Open(Load(file))
  }

  /** The registry entry each scalar of the default document yields. */
  lemma DefaultScalars()
    ensures DefaultDocument.scalars.Keys == {"manager", "managerEmail", "cpuUsage", "cpuThreshold"}
    ensures DefaultDocument.scalars["manager"].oid == ManagerOid
    ensures DefaultDocument.scalars["managerEmail"].oid == ManagerEmailOid
    ensures DefaultDocument.scalars["cpuUsage"].oid == CpuUsageOid
    ensures DefaultDocument.scalars["cpuThreshold"].oid == CpuThresholdOid
    ensures Limits(DefaultDocument.scalars["manager"]) == ScalarDef(ManagerOid, DisplayString, ReadWrite, 1, 255, 0, 2147483647)
    ensures Limits(DefaultDocument.scalars["managerEmail"]) == ScalarDef(ManagerEmailOid, DisplayString, ReadWrite, 4, 255, 0, 2147483647)
    ensures Limits(DefaultDocument.scalars["cpuUsage"]) == ScalarDef(CpuUsageOid, Integer32, ReadOnly, 0, 255, 0, 100)
    ensures Limits(DefaultDocument.scalars["cpuThreshold"]) == ScalarDef(CpuThresholdOid, Integer32, ReadWrite, 0, 255, 0, 100)
  {
  }

  /** No two scalars of the default document share an OID. */
  lemma DefaultOidsDistinct(a: string, b: string)
    requires a in DefaultDocument.scalars && b in DefaultDocument.scalars
    requires DefaultDocument.scalars[a].oid == DefaultDocument.scalars[b].oid
    ensures a == b
  {
    var s := DefaultDocument.scalars;
    assert s[a].oid[8] == s[b].oid[8];
  }

  /** Without a state file, each scalar of the default document is registered
      under its own OID with its own limits. */
  lemma DefaultNamed(file: Option<Document>, n: string)
    requires file.None? && n in DefaultDocument.scalars
    ensures DefaultDocument.scalars[n].oid in Start(file).oidMap
    ensures Start(file).oidMap[DefaultDocument.scalars[n].oid] == n
    ensures DefAt(Start(file), DefaultDocument.scalars[n].oid) == Limits(DefaultDocument.scalars[n])
  {
    DefaultWellFormed();
    var doc := Load(file);
    var o := doc.scalars[n].oid;
    OpenRegisters(doc, n);
    OpenDefines(doc);
    var m := Open(doc).oidMap[o];
    assert doc.scalars[m].oid == o;
    DefaultOidsDistinct(m, n);
  }

  /** Without a state file, every registered OID is one of the four instances. */
  lemma DefaultRegistersInstancesOnly(file: Option<Document>)
    requires file.None?
    ensures forall o :: o in Start(file).oidMap ==> o in Instances
  {
    DefaultWellFormed();
    var doc := Load(file);
    assert doc == DefaultDocument;
    OpenDefines(doc);
    forall o | o in Open(doc).oidMap
      ensures o in Instances
    {
      DefaultOidIsInstance(Open(doc).oidMap[o]);
    }
  }

  lemma DefaultOidIsInstance(n: string)
    requires n in DefaultDocument.scalars
    ensures DefaultDocument.scalars[n].oid in Instances
  {
    DefaultScalars();
    assert n in {"manager", "managerEmail", "cpuUsage", "cpuThreshold"};
  }

  /** The registry a first start builds: the four instance OIDs in walk
      order, each naming its scalar, with the limits the default document
      gives and the defaults it leaves to `validate_set`. */
  ghost predicate DefaultRegistry(st: Store) {
    RegistersInstances(st,
      ScalarDef(ManagerOid, DisplayString, ReadWrite, 1, 255, 0, 2147483647),
      ScalarDef(ManagerEmailOid, DisplayString, ReadWrite, 4, 255, 0, 2147483647),
      ScalarDef(CpuUsageOid, Integer32, ReadOnly, 0, 255, 0, 100),
      ScalarDef(CpuThresholdOid, Integer32, ReadWrite, 0, 255, 0, 100))
  }

  /** Without a state file the store registers exactly the four instances,
      so its walk order is theirs. */
  lemma DefaultIndex(file: Option<Document>)
    requires file.None?
    ensures IndexesInstances(Start(file))
  {
    DefaultLimits(file);
    DefaultRegistersInstancesOnly(file);
    OnlyInstances(Start(file));
    IndexedInstances(Start(file));
  }

  lemma DefaultLimits(file: Option<Document>)
    requires file.None?
    ensures ManagerOid in Start(file).oidMap && ManagerEmailOid in Start(file).oidMap
    ensures CpuUsageOid in Start(file).oidMap && CpuThresholdOid in Start(file).oidMap
    ensures Start(file).oidMap[ManagerOid] == "manager"
    ensures Start(file).oidMap[ManagerEmailOid] == "managerEmail"
    ensures Start(file).oidMap[CpuUsageOid] == "cpuUsage"
    ensures Start(file).oidMap[CpuThresholdOid] == "cpuThreshold"
    ensures DefAt(Start(file), ManagerOid) == ScalarDef(ManagerOid, DisplayString, ReadWrite, 1, 255, 0, 2147483647)
    ensures DefAt(Start(file), ManagerEmailOid) == ScalarDef(ManagerEmailOid, DisplayString, ReadWrite, 4, 255, 0, 2147483647)
    ensures DefAt(Start(file), CpuUsageOid) == ScalarDef(CpuUsageOid, Integer32, ReadOnly, 0, 255, 0, 100)
    ensures DefAt(Start(file), CpuThresholdOid) == ScalarDef(CpuThresholdOid, Integer32, ReadWrite, 0, 255, 0, 100)
  {
    DefaultScalars();
    DefaultNamed(file, "manager");
    DefaultNamed(file, "managerEmail");
    DefaultNamed(file, "cpuUsage");
    DefaultNamed(file, "cpuThreshold");
  }

  /** Without a state file the agent starts with the default registry. */
  lemma StartsWithDefaultRegistry(file: Option<Document>)
    requires file.None?
    ensures DefaultRegistry(Start(file)) && IndexesInstances(Start(file))
  {
    DefaultIndex(file);
    DefaultLimits(file);
  }

  /** A document whose integer scalars all hold values `int()` accepts opens
      into a store where no read aborts. */
  lemma OpenWellKinded(doc: Document)
    requires WellFormed(doc)
    requires forall n :: n in doc.scalars ==> Convertible(KindOf(doc.scalars[n].typeName), doc.scalars[n].value)
    ensures WellKinded(Open(doc))
  {
    var st := Open(doc);
    forall n | n in st.defs && n in st.values
      ensures Convertible(st.defs[n].kind, st.values[n])
    {
      OpenKeepsLimits(doc, n);
    }
  }

  /** Each scalar of the document keeps, under its name, the limits it declares. */
  lemma OpenKeepsLimits(doc: Document, n: string)
    requires WellFormed(doc) && n in doc.scalars
    ensures n in Open(doc).defs && Open(doc).defs[n] == Limits(doc.scalars[n])
  {
    var entries := Entries(doc);
    EntriesFitAssemble(doc);
    assert Open(doc) == Assemble(entries, ValuesOf(doc));
    var i :| 0 <= i < |doc.names| && doc.names[i] == n;
    assert entries[i].0 == n;
  }

  /** Without a state file every read succeeds. */
  lemma DefaultWellKinded(file: Option<Document>)
    requires file.None?
    ensures WellKinded(Start(file))
  {
    DefaultWellFormed();
    DefaultScalars();
    OpenWellKinded(Load(file));
  }

  /** The values a first start holds. */
  ghost predicate DefaultValues(st: Store) {
    && st.values.Keys == {"manager", "managerEmail", "cpuUsage", "cpuThreshold"}
    && st.values["manager"] == Text("manager")
    && st.values["managerEmail"] == Text("fakeunizar@gmail.com")
    && st.values["cpuUsage"] == Num(10)
    && st.values["cpuThreshold"] == Num(80)
  }

  /** Without a state file the agent starts with the default values. */
  lemma StartsWithDefaultValues(file: Option<Document>)
    requires file.None?
    ensures DefaultValues(Start(file))
  {
    DefaultWellFormed();
    assert Start(file).values == ValuesOf(DefaultDocument);
    DefaultDocumentValues(Start(file));
  }

  lemma DefaultDocumentValues(st: Store)
    requires st.values == ValuesOf(DefaultDocument)
    ensures DefaultValues(st)
  {
    DefaultScalars();
  }

  /** What a first start answers for each of the four instances. */
  const DefaultReadings: seq<Varbind> := [
    Varbind(ManagerOid, Value(OctetString("manager"))),
    Varbind(ManagerEmailOid, Value(OctetString("fakeunizar@gmail.com"))),
    Varbind(CpuUsageOid, Value(Integer(10))),
    Varbind(CpuThresholdOid, Value(Integer(80)))]

  lemma DefaultTextItems(st: Store)
    requires DefaultRegistry(st) && DefaultValues(st)
    ensures ExactItem(st, ManagerOid) == Some(DefaultReadings[0])
    ensures ExactItem(st, ManagerEmailOid) == Some(DefaultReadings[1])
  {
    ReadText(st, ManagerOid);
    ReadText(st, ManagerEmailOid);
  }

  lemma DefaultIntegerItems(st: Store)
    requires DefaultRegistry(st) && DefaultValues(st)
    ensures ExactItem(st, CpuUsageOid) == Some(DefaultReadings[2])
    ensures ExactItem(st, CpuThresholdOid) == Some(DefaultReadings[3])
  {
    ReadNumber(st, CpuUsageOid);
    ReadNumber(st, CpuThresholdOid);
  }

  /** Every read on a store with the default registry and values succeeds. */
  lemma DefaultReadable(st: Store)
    requires DefaultRegistry(st) && DefaultValues(st)
    ensures WellKinded(st)
  {
    assert st.defs["manager"] == DefAt(st, ManagerOid);
    assert st.defs["managerEmail"] == DefAt(st, ManagerEmailOid);
    TextScalarsReadable(st);
  }

  /** Only an integer scalar holding text can fail to convert, and the
      default values keep text in the two text scalars alone. */
  lemma TextScalarsReadable(st: Store)
    requires Valid(st) && DefaultValues(st)
    requires "manager" in st.defs && st.defs["manager"].kind == DisplayString
    requires "managerEmail" in st.defs && st.defs["managerEmail"].kind == DisplayString
    ensures WellKinded(st)
  {
    forall n | n in st.defs && n in st.values
      ensures Convertible(st.defs[n].kind, st.values[n])
    {
      assert n in {"manager", "managerEmail", "cpuUsage", "cpuThreshold"};
    }
  }

  /** GET of the four instances on a first start answers the default values. */
  lemma DefaultGet(st: Store)
    requires DefaultRegistry(st) && DefaultValues(st)
    ensures HandleGet(st, Instances) == Some(DefaultReadings)
  {
    DefaultTextItems(st);
    DefaultIntegerItems(st);
    forall i | 0 <= i < |Instances|
      ensures ExactItem(st, Instances[i]) == Some(DefaultReadings[i])
    {
      assert i == 0 || i == 1 || i == 2 || i == 3;
    }
    HandleGetAnswers(st, Instances, DefaultReadings);
  }

  /** A walk from the enterprise base OID on a first start: the first GETNEXT
      answers the manager name, and the walk visits the four instances in order. */
  lemma DefaultWalk(st: Store)
    requires DefaultRegistry(st) && IndexesInstances(st) && DefaultValues(st)
    ensures GetNext(st, Base) == Next(ManagerOid, OctetString("manager"))
    ensures Walk(st, Base) == Instances
  {
    InstancesAscendAboveBase();
    DefaultReadable(st);
    DefaultTextItems(st);
    WalkVisitsEveryObjectOnce(st, Base);
    match GetNext(st, Base)
    case Next(o, s) =>
      assert Walk(st, Base) == [o] + Walk(st, o);
      assert o == ManagerOid;
    case EndOfTree =>
      assert false;
    case NextUnconvertible =>
      assert false;
  }

  /** SET rules on a store with the default registry, whatever its values:
      cpuUsage is never writable, and an OID outside the registry is refused
      with noAccess. */
  lemma DefaultReadOnlyRules(st: Store, v: Syntax)
    requires DefaultRegistry(st) && IndexesInstances(st)
    ensures ValidateSet(st, CpuUsageOid, v) == NotWritable
    ensures ValidateSet(st, Base, v) == NoAccess
  {
    InstancesAscendAboveBase();
    LessIrreflexive(Base);
    assert Base !in Instances;
  }

  /** The text scalars take 1..255 and 4..255 characters and refuse integers. */
  lemma DefaultTextRules(st: Store, t: string, n: int)
    requires DefaultRegistry(st)
    ensures ValidateSet(st, ManagerOid, OctetString(t)) == NoError <==> 1 <= |t| <= 255
    ensures ValidateSet(st, ManagerEmailOid, OctetString(t)) == NoError <==> 4 <= |t| <= 255
    ensures ValidateSet(st, ManagerOid, Integer(n)) == WrongType
  {
  }

  /** The threshold takes integers 0..100 and refuses text. */
  lemma DefaultThresholdRules(st: Store, t: string, n: int)
    requires DefaultRegistry(st)
    ensures ValidateSet(st, CpuThresholdOid, Integer(n)) == NoError <==> 0 <= n <= 100
    ensures ValidateSet(st, CpuThresholdOid, OctetString(t)) == WrongType
  {
  }

  /** The SET round of the agent's own test script, through the SET and GET
      responders: a new manager name, then a new address, then a new
      threshold, each accepted and echoed, and each read back by a GET of its
      OID on the store the SET left. */
  lemma SetThenGetScenario(st: Store)
    requires DefaultRegistry(st)
    ensures var name := Varbind(ManagerOid, Value(OctetString("TestManager")));
            var s1 := SetOutcome(st, [Write(ManagerOid, OctetString("TestManager"))]);
            s1.0 == Applied([name]) && HandleGet(s1.1, [ManagerOid]) == Some([name])
    ensures var s1 := SetOutcome(st, [Write(ManagerOid, OctetString("TestManager"))]).1;
            var mail := Varbind(ManagerEmailOid, Value(OctetString("test@example.com")));
            var s2 := SetOutcome(s1, [Write(ManagerEmailOid, OctetString("test@example.com"))]);
            s2.0 == Applied([mail]) && HandleGet(s2.1, [ManagerEmailOid]) == Some([mail])
    ensures var s1 := SetOutcome(st, [Write(ManagerOid, OctetString("TestManager"))]).1;
            var s2 := SetOutcome(s1, [Write(ManagerEmailOid, OctetString("test@example.com"))]).1;
            var limit := Varbind(CpuThresholdOid, Value(Integer(75)));
            var s3 := SetOutcome(s2, [Write(CpuThresholdOid, Integer(75))]);
            s3.0 == Applied([limit]) && HandleGet(s3.1, [CpuThresholdOid]) == Some([limit])
  {
    var s1 := SetOutcome(st, [Write(ManagerOid, OctetString("TestManager"))]).1;
    DefaultTextRules(st, "TestManager", 0);
    DefaultSetThenGet(st, ManagerOid, OctetString("TestManager"));
    var s2 := SetOutcome(s1, [Write(ManagerEmailOid, OctetString("test@example.com"))]).1;
    DefaultTextRules(s1, "test@example.com", 0);
    DefaultSetThenGet(s1, ManagerEmailOid, OctetString("test@example.com"));
    DefaultThresholdRules(s2, "", 75);
    DefaultSetThenGet(s2, CpuThresholdOid, Integer(75));
  }

  /** On the default registry an accepted one-varbind SET echoes the value,
      a GET then reads it back, and the registry stays the default one. */
  lemma DefaultSetThenGet(st: Store, oid: Oid, v: Syntax)
    requires DefaultRegistry(st) && oid in Instances && ValidateSet(st, oid, v) == NoError
    ensures SetOutcome(st, [Write(oid, v)]).0 == Applied([Varbind(oid, Value(v))])
    ensures HandleGet(SetOutcome(st, [Write(oid, v)]).1, [oid]) == Some([Varbind(oid, Value(v))])
    ensures DefaultRegistry(SetOutcome(st, [Write(oid, v)]).1)
  {
    SetThenGet(st, Write(oid, v));
    assert DefAt(st, oid).kind != UnknownType;
  }

  /** A batch whose second write targets the read-only cpuUsage is refused
      as a whole, with notWritable at index 2, and changes nothing. */
  lemma RejectedBatchScenario(st: Store)
    requires DefaultRegistry(st) && IndexesInstances(st)
    ensures FirstInvalid(st, [Write(ManagerOid, OctetString("ops-team")), Write(CpuUsageOid, Integer(55))])
              == Some(Failure(NotWritable, 2))
    ensures SetOutcome(st, [Write(ManagerOid, OctetString("ops-team")), Write(CpuUsageOid, Integer(55))])
              == (Rejected(NotWritable, 2), st)
  {
    var req := [Write(ManagerOid, OctetString("ops-team")), Write(CpuUsageOid, Integer(55))];
    DefaultTextRules(st, "ops-team", 0);
    DefaultReadOnlyRules(st, Integer(55));
    assert ValidateSet(st, req[0].oid, req[0].value) == NoError;
    assert ValidateSet(st, req[1].oid, req[1].value) == NotWritable;
    SetAllOrNothing(st, req);
  }
}
