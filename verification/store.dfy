/**
 * The scalar management-information store shared by both agents: the registry
 * (which OID names which scalar, with its type, access and limits), the
 * sorted registry index, and the current JSON value of every scalar.
 *
 * Both `JsonStore` in mini_agent.py and `MibStore` in mini_agent_malo.py are
 * this store; they differ only in where the registry comes from (see the
 * JsonAgent and MaloAgent modules).
 */
module ObjectStore {
  import opened Wrappers
  import opened Oids
  import opened Values

  /** The `"type"` of a scalar. `UnknownType` is any other type string a JSON
      document may carry; the agent answers it with Null and never stores into it. */
  datatype Kind = DisplayString | Integer32 | UnknownType

  /** The `"access"` of a scalar: only the exact string "read-only" refuses writes. */
  datatype Access = ReadOnly | ReadWrite

  /** A registry entry with its effective limits (defaults already applied). */
  datatype ScalarDef = ScalarDef(oid: Oid, kind: Kind, access: Access,
                                 minLen: int, maxLen: int, minVal: int, maxVal: int)

  /** `defs` and `values` are keyed by scalar name ("manager", ...); `oidMap` is
      the OID-to-name map and `sortedOids` the sorted list of its keys. */
  datatype Store = Store(defs: map<string, ScalarDef>,
                         oidMap: map<Oid, string>,
                         sortedOids: seq<Oid>,
                         values: map<string, JsonValue>)

  /** Every registered OID names a scalar that has a definition carrying that
      very OID and a current value, and the index lists exactly the registered
      OIDs in ascending order. */
  ghost predicate Valid(st: Store) {
    && (forall o :: o in st.oidMap ==>
          && st.oidMap[o] in st.defs
          && st.oidMap[o] in st.values
          && st.defs[st.oidMap[o]].oid == o)
    && Ascending(st.sortedOids)
    && (forall o :: o in st.sortedOids <==> o in st.oidMap)
  }

  /** Writes never touch the registry: only `values` may differ. */
  predicate SameRegistry(a: Store, b: Store) {
    a.defs == b.defs && a.oidMap == b.oidMap && a.sortedOids == b.sortedOids
  }

  function DefAt(st: Store, oid: Oid): ScalarDef
    requires Valid(st) && oid in st.oidMap
  {
    st.defs[st.oidMap[oid]]
  }

  function ValueAt(st: Store, oid: Oid): JsonValue
    requires Valid(st) && oid in st.oidMap
  {
    st.values[st.oidMap[oid]]
  }

  // ---------------------------------------------------------------- building

  ghost predicate DistinctNames(entries: seq<(string, ScalarDef)>) {
    forall i, j :: 0 <= i < j < |entries| ==> entries[i].0 != entries[j].0
  }

  /** No entry after the `i`-th carries its OID. */
  ghost predicate LastWithOid(entries: seq<(string, ScalarDef)>, i: int)
    requires 0 <= i < |entries|
  {
    forall j :: i < j < |entries| ==> entries[j].1.oid != entries[i].1.oid
  }

  /** `{oid: name for name, oid in entries}` built in order, so a later entry
      with the same OID replaces an earlier one (`OidIndexLastWins`). */
  function OidIndex(entries: seq<(string, ScalarDef)>): (m: map<Oid, string>)
    ensures forall i :: 0 <= i < |entries| ==> entries[i].1.oid in m
    ensures forall o :: o in m ==>
              exists i :: 0 <= i < |entries| && entries[i].1.oid == o && entries[i].0 == m[o]
  {
    if |entries| == 0 then map[]
    else
      var front := entries[..|entries| - 1];
      var last := entries[|entries| - 1];
      var m := OidIndex(front)[last.1.oid := last.0];
      assert forall i :: 0 <= i < |front| ==> front[i] == entries[i];
      m
  }

  /** Among entries sharing an OID, the last one decides the name it maps to. */
  lemma {:induction false} OidIndexLastWins(entries: seq<(string, ScalarDef)>, i: nat)
    requires i < |entries| && LastWithOid(entries, i)
    ensures OidIndex(entries)[entries[i].1.oid] == entries[i].0
    decreases |entries|
  {
    var front := entries[..|entries| - 1];
    if i < |front| {
      assert LastWithOid(front, i) by {
        forall j | i < j < |front|
          ensures front[j].1.oid != front[i].1.oid
        {
          assert front[j] == entries[j] && front[i] == entries[i];
        }
      }
      OidIndexLastWins(front, i);
      assert front[i] == entries[i];
    }
  }

  /** Name-to-definition map; with distinct names each entry keeps its own definition. */
  function DefIndex(entries: seq<(string, ScalarDef)>): (m: map<string, ScalarDef>)
    ensures DistinctNames(entries) ==>
              forall i :: 0 <= i < |entries| ==> entries[i].0 in m && m[entries[i].0] == entries[i].1
  {
    if |entries| == 0 then map[]
    else
      var front := entries[..|entries| - 1];
      var last := entries[|entries| - 1];
      assert forall i :: 0 <= i < |front| ==> front[i] == entries[i];
      DefIndex(front)[last.0 := last.1]
  }

  /** `list(oid_map.keys())`: each OID once, in first-insertion order. */
  function KeysInOrder(entries: seq<(string, ScalarDef)>): (keys: seq<Oid>)
    ensures Distinct(keys)
    ensures forall o :: o in keys <==> exists i :: 0 <= i < |entries| && entries[i].1.oid == o
  {
    if |entries| == 0 then []
    else
      var front := entries[..|entries| - 1];
      var o := entries[|entries| - 1].1.oid;
      var keys := KeysInOrder(front);
      assert forall i :: 0 <= i < |front| ==> front[i] == entries[i];
      if o in keys then keys else keys + [o]
  }

  /** The store an agent starts from: the registry index built from the
      ordered scalar definitions, and the loaded values. */
  function Assemble(entries: seq<(string, ScalarDef)>, values: map<string, JsonValue>): (st: Store)
    requires DistinctNames(entries)
    requires forall i :: 0 <= i < |entries| ==> entries[i].0 in values
    ensures Valid(st)
    ensures st.values == values
    ensures forall i :: 0 <= i < |entries| ==> entries[i].1.oid in st.oidMap
    ensures forall i :: 0 <= i < |entries| ==> entries[i].0 in st.defs && st.defs[entries[i].0] == entries[i].1
    ensures forall o :: o in st.oidMap ==>
              exists i :: 0 <= i < |entries| && entries[i].0 == st.oidMap[o] && entries[i].1 == DefAt(st, o)
  {
    var keys := KeysInOrder(entries);
    var st := Store(DefIndex(entries), OidIndex(entries), SortOids(keys), values);
    AssembleValid(entries, values, st);
    st
  }

  /** When no two entries share an OID, each entry is found under its own OID. */
  lemma AssembleNames(entries: seq<(string, ScalarDef)>, values: map<string, JsonValue>, i: nat)
    requires DistinctNames(entries)
    requires forall k :: 0 <= k < |entries| ==> entries[k].0 in values
    requires forall j, k :: 0 <= j < k < |entries| ==> entries[j].1.oid != entries[k].1.oid
    requires i < |entries|
    ensures entries[i].1.oid in Assemble(entries, values).oidMap
    ensures Assemble(entries, values).oidMap[entries[i].1.oid] == entries[i].0
    ensures DefAt(Assemble(entries, values), entries[i].1.oid) == entries[i].1
  {
    var st := Assemble(entries, values);
    var o := entries[i].1.oid;
    var k :| 0 <= k < |entries| && entries[k].0 == st.oidMap[o] && entries[k].1 == DefAt(st, o);
    assert entries[k].1.oid == o;
  }

  /** The registry `Assemble` builds depends on the entries alone. */
  lemma AssembleRegistry(entries: seq<(string, ScalarDef)>, v: map<string, JsonValue>, w: map<string, JsonValue>)
    requires DistinctNames(entries)
    requires forall i :: 0 <= i < |entries| ==> entries[i].0 in v && entries[i].0 in w
    ensures SameRegistry(Assemble(entries, v), Assemble(entries, w))
  {
  }

  lemma AssembleValid(entries: seq<(string, ScalarDef)>, values: map<string, JsonValue>, st: Store)
    requires DistinctNames(entries)
    requires forall i :: 0 <= i < |entries| ==> entries[i].0 in values
    requires st == Store(DefIndex(entries), OidIndex(entries), SortOids(KeysInOrder(entries)), values)
    ensures Valid(st)
    ensures forall o :: o in st.oidMap ==>
              exists i :: 0 <= i < |entries| && entries[i].0 == st.oidMap[o] && entries[i].1 == st.defs[st.oidMap[o]]
  {
    var keys := KeysInOrder(entries);
    SortOidsAscending(keys);
    forall o | o in st.oidMap
      ensures exists i :: 0 <= i < |entries| && entries[i].0 == st.oidMap[o] && entries[i].1 == st.defs[st.oidMap[o]]
    {
      var i :| 0 <= i < |entries| && entries[i].1.oid == o && entries[i].0 == st.oidMap[o];
      assert st.defs[entries[i].0] == entries[i].1;
    }
    forall o
      ensures o in st.sortedOids <==> o in st.oidMap
    {
      assert o in st.sortedOids <==> o in multiset(st.sortedOids);
      assert o in keys <==> o in multiset(keys);
    }
  }

  // ---------------------------------------------------------------- reading

  /** `_to_snmp(type, value)`. `None` when Python's `int(value)` raises. */
  function Render(kind: Kind, v: JsonValue): Option<Syntax> {
    match kind
    case DisplayString => Some(OctetString(StrOf(v)))
    case Integer32 => (match IntOf(v) case Some(n) => Some(Integer(n)) case None => None)
    case UnknownType => Some(Null)
  }

  /** The syntax the agent answers with for an object of the given kind. */
  predicate OfKind(s: Syntax, kind: Kind) {
    match kind
    case DisplayString => s.OctetString?
    case Integer32 => s.Integer?
    case UnknownType => s.Null?
  }

  /** A stored value the agent can answer with: only an Integer32 object whose
      value is a text that is not a decimal numeral cannot be converted. */
  predicate Convertible(kind: Kind, v: JsonValue) {
    kind == Integer32 && v.Text? ==> ParseDecimal(v.text).Some?
  }

  ghost predicate WellKinded(st: Store) {
    forall n :: n in st.defs && n in st.values ==> Convertible(st.defs[n].kind, st.values[n])
  }

  /** Outcome of `get_exact`: the typed value, "no such object", or the
      exception raised by converting a stored value. */
  datatype Exact = Found(syntax: Syntax) | Missing | Unconvertible

  function GetExact(st: Store, oid: Oid): (r: Exact)
    requires Valid(st)
    ensures r.Missing? <==> oid !in st.oidMap
    ensures r.Found? ==> oid in st.oidMap && OfKind(r.syntax, DefAt(st, oid).kind)
    ensures r.Unconvertible? <==> oid in st.oidMap && !Convertible(DefAt(st, oid).kind, ValueAt(st, oid))
    ensures r.Found? && DefAt(st, oid).kind == Integer32 ==> IntOf(ValueAt(st, oid)) == Some(r.syntax.number)
    ensures r.Found? && DefAt(st, oid).kind == DisplayString ==> r.syntax.text == StrOf(ValueAt(st, oid))
  {
    if oid !in st.oidMap then Missing
    else
      var name := st.oidMap[oid];
      match Render(st.defs[name].kind, st.values[name])
      case Some(s) => Found(s)
      case None => Unconvertible
  }

  /** A text object answers its stored text. */
  lemma ReadText(st: Store, oid: Oid)
    requires Valid(st) && oid in st.oidMap
    requires DefAt(st, oid).kind == DisplayString && ValueAt(st, oid).Text?
    ensures GetExact(st, oid) == Found(OctetString(ValueAt(st, oid).text))
  {
  }

  /** An integer object holding a JSON number answers that number. */
  lemma ReadNumber(st: Store, oid: Oid)
    requires Valid(st) && oid in st.oidMap
    requires DefAt(st, oid).kind == Integer32 && ValueAt(st, oid).Num?
    ensures GetExact(st, oid) == Found(Integer(ValueAt(st, oid).number))
  {
  }

  /** Outcome of `get_next`. */
  datatype Successor = Next(oid: Oid, syntax: Syntax) | EndOfTree | NextUnconvertible

  /** `get_next`: the smallest registered OID strictly greater than the probe,
      which need not itself be registered. */
  function GetNext(st: Store, x: Oid): (r: Successor)
    requires Valid(st)
    ensures r.EndOfTree? <==> forall o :: o in st.oidMap ==> !Less(x, o)
    ensures r.Next? ==>
              && r.oid in st.oidMap
              && Less(x, r.oid)
              && (forall o :: o in st.oidMap && Less(x, o) ==> LessEq(r.oid, o))
              && GetExact(st, r.oid) == Found(r.syntax)
    ensures r.NextUnconvertible? <==>
              exists o :: && o in st.oidMap && Less(x, o)
                          && (forall p :: p in st.oidMap && Less(x, p) ==> LessEq(o, p))
                          && GetExact(st, o) == Unconvertible
  {
    FirstAboveIsLeast(st.sortedOids, x);
    match FirstAbove(st.sortedOids, x)
    case None => EndOfTree
    case Some(o) =>
      LeastIsUnique(st, x, o);
      (match GetExact(st, o)
       case Found(s) => Next(o, s)
       case _ => NextUnconvertible)
  }

  /** At most one registered OID is the least one above a probe. */
  lemma LeastIsUnique(st: Store, x: Oid, o: Oid)
    requires o in st.oidMap && Less(x, o) && forall p :: p in st.oidMap && Less(x, p) ==> LessEq(o, p)
    ensures forall q :: q in st.oidMap && Less(x, q) && (forall p :: p in st.oidMap && Less(x, p) ==> LessEq(q, p)) ==> q == o
  {
    forall q | q in st.oidMap && Less(x, q) && (forall p :: p in st.oidMap && Less(x, p) ==> LessEq(q, p))
      ensures q == o
    {
      assert LessEq(o, q) && LessEq(q, o);
      if q != o {
        LessAsymmetric(o, q);
      }
    }
  }

  /** The OIDs a manager collects by feeding every GETNEXT answer back in,
      starting from `x`, until the agent reports the end of the tree. */
  function Walk(st: Store, x: Oid): seq<Oid>
    requires Valid(st)
    decreases CountAbove(st.sortedOids, x)
  {
    match GetNext(st, x)
    case Next(o, _) => CountAboveShrinks(st.sortedOids, x, o); [o] + Walk(st, o)
    case _ => []
  }

  /** From the i-th indexed OID, one GETNEXT answers the next indexed OID
      and the walk carries on from there. */
  lemma WalkStep(st: Store, i: nat)
    requires Valid(st) && WellKinded(st) && i + 1 < |st.sortedOids|
    ensures Walk(st, st.sortedOids[i]) == [st.sortedOids[i + 1]] + Walk(st, st.sortedOids[i + 1])
  {
    var s := st.sortedOids;
    FirstAboveAt(s, i);
    assert GetExact(st, s[i + 1]).Found?;
  }

  /** From the last indexed OID, GETNEXT reports the end of the tree and the
      walk ends at once. */
  lemma WalkLast(st: Store, i: nat)
    requires Valid(st) && i + 1 == |st.sortedOids|
    ensures GetNext(st, st.sortedOids[i]) == EndOfTree
    ensures Walk(st, st.sortedOids[i]) == []
  {
    FirstAboveAt(st.sortedOids, i);
  }

  /** From the i-th indexed OID the walk visits the rest of the index in order. */
  lemma WalkFrom(st: Store, i: nat)
    requires Valid(st) && WellKinded(st) && i < |st.sortedOids|
    ensures Walk(st, st.sortedOids[i]) == st.sortedOids[i + 1..]
  {
    var s := st.sortedOids;
    var w := seq(|s|, k requires 0 <= k < |s| => Walk(st, s[k]));
    forall k | 0 <= k < |s| - 1
      ensures w[k] == [s[k + 1]] + w[k + 1]
    {
      WalkStep(st, k);
    }
    WalkLast(st, |s| - 1);
    SuffixChain(s, w, i);
  }

  /** When each entry of `w` is the next element of `s` followed by the next
      entry, and the last entry is empty, each entry is the rest of `s`. */
  lemma {:induction false} SuffixChain(s: seq<Oid>, w: seq<seq<Oid>>, i: nat)
    requires |w| == |s| && i < |s|
    requires forall k :: 0 <= k < |s| - 1 ==> w[k] == [s[k + 1]] + w[k + 1]
    requires w[|s| - 1] == []
    ensures w[i] == s[i + 1..]
    decreases |s| - i
  {
    if i + 1 < |s| {
      SuffixChain(s, w, i + 1);
      assert s[i + 1..] == [s[i + 1]] + s[i + 2..];
    }
  }

  /** A walk started below every registered OID visits each registered OID
      exactly once, in ascending order, and then stops at the end of the tree. */
  lemma WalkVisitsEveryObjectOnce(st: Store, x: Oid)
    requires Valid(st) && WellKinded(st)
    requires forall o :: o in st.oidMap ==> Less(x, o)
    ensures Walk(st, x) == st.sortedOids
    ensures Ascending(Walk(st, x))
    ensures forall o :: o in Walk(st, x) <==> o in st.oidMap
  {
    var s := st.sortedOids;
    if |s| > 0 {
      assert FirstAbove(s, x) == Some(s[0]);
      WalkFrom(st, 0);
      assert s == [s[0]] + s[1..];
    }
  }

  // ---------------------------------------------------------------- writing

  /** The error-status values of section 3 of RFC 3416 that a write can draw:
      noError (0), noAccess (6), wrongType (7), wrongValue (10), notWritable (17). */
  datatype Status = NoError | NoAccess | WrongType | WrongValue | NotWritable

  /** The value's syntax is the one the object's type takes; an object of an
      unknown type takes any syntax. */
  predicate Accepts(kind: Kind, v: Syntax) {
    match kind
    case DisplayString => v.OctetString?
    case Integer32 => v.Integer?
    case UnknownType => true
  }

  /** Length limits for text objects, range limits for integer objects. */
  predicate WithinLimits(d: ScalarDef, v: Syntax) {
    match d.kind
    case DisplayString => v.OctetString? ==> d.minLen <= |v.text| <= d.maxLen
    case Integer32 => v.Integer? ==> d.minVal <= v.number <= d.maxVal
    case UnknownType => true
  }

  /** A write the agent accepts: registered, writable, of the right syntax, within limits. */
  ghost predicate Acceptable(st: Store, oid: Oid, v: Syntax)
    requires Valid(st)
  {
    && oid in st.oidMap
    && DefAt(st, oid).access == ReadWrite
    && Accepts(DefAt(st, oid).kind, v)
    && WithinLimits(DefAt(st, oid), v)
  }

  /** `validate_set`: the checks run in a fixed order and the first one that
      fails decides the status, so each status implies every earlier check passed. */
  function ValidateSet(st: Store, oid: Oid, v: Syntax): (r: Status)
    requires Valid(st)
    ensures r == NoError <==> Acceptable(st, oid, v)
    ensures r == NoAccess <==> oid !in st.oidMap
    ensures r == NotWritable <==> oid in st.oidMap && DefAt(st, oid).access == ReadOnly
    ensures r == WrongType <==>
              oid in st.oidMap && DefAt(st, oid).access == ReadWrite && !Accepts(DefAt(st, oid).kind, v)
    ensures r == WrongValue <==>
              && oid in st.oidMap && DefAt(st, oid).access == ReadWrite
              && Accepts(DefAt(st, oid).kind, v) && !WithinLimits(DefAt(st, oid), v)
  {
    if oid !in st.oidMap then NoAccess
    else
      var d := st.defs[st.oidMap[oid]];
      if d.access == ReadOnly then NotWritable
      else match d.kind
        case DisplayString =>
          if !v.OctetString? then WrongType
          else if |v.text| < d.minLen || |v.text| > d.maxLen then WrongValue
          else NoError
        case Integer32 =>
          if !v.Integer? then WrongType
          else if v.number < d.minVal || v.number > d.maxVal then WrongValue
          else NoError
        case UnknownType => NoError
  }

  /** A stored value that respects its object's type and limits. */
  predicate Satisfies(d: ScalarDef, v: JsonValue) {
    match d.kind
    case DisplayString => v.Text? && d.minLen <= |v.text| <= d.maxLen
    case Integer32 => v.Num? && d.minVal <= v.number <= d.maxVal
    case UnknownType => true
  }

  /** What reading an object back yields after `v` was committed to it. */
  function Echo(kind: Kind, v: Syntax): Syntax {
    if kind == UnknownType then Null else v
  }

  /** `commit_set`: store a validated value in its scalar; nothing else
      changes, and an object of unknown type keeps the value it held. */
  function CommitSet(st: Store, oid: Oid, v: Syntax): (r: Store)
    requires Valid(st) && ValidateSet(st, oid, v) == NoError
    ensures Valid(r) && SameRegistry(st, r)
    ensures DefAt(st, oid).kind == UnknownType ==> r == st
    ensures r.values.Keys == st.values.Keys
    ensures forall n :: n in st.values && n != st.oidMap[oid] ==> r.values[n] == st.values[n]
    ensures Satisfies(DefAt(st, oid), ValueAt(r, oid))
    ensures GetExact(r, oid) == Found(Echo(DefAt(st, oid).kind, v))
    ensures forall o :: o in st.oidMap && o != oid ==> GetExact(r, o) == GetExact(st, o)
    ensures WellKinded(st) ==> WellKinded(r)
  {
    var name := st.oidMap[oid];
    match st.defs[name].kind
    case DisplayString => st.(values := st.values[name := Text(v.text)])
    case Integer32 => st.(values := st.values[name := Num(v.number)])
    case UnknownType => st
  }

  /** `set_cpu_usage_internal`: the sampler's unchecked store into "cpuUsage". */
  function SetCpuUsage(st: Store, cpu: int): (r: Store)
    requires Valid(st) && "cpuUsage" in st.values
    ensures Valid(r) && SameRegistry(st, r)
    ensures r.values.Keys == st.values.Keys
    ensures r.values["cpuUsage"] == Num(cpu)
    ensures forall n :: n in st.values && n != "cpuUsage" ==> r.values[n] == st.values[n]
  {
    st.(values := st.values["cpuUsage" := Num(cpu)])
  }
}
