/**
 * The enterprise subtree both agents serve, 1.3.6.1.4.1.28308.1, and the
 * instance OIDs (`.1.0` to `.4.0`) of its four scalars.
 */
module Enterprise {
  import opened Oids
  import opened ObjectStore

  const Base: Oid := [1, 3, 6, 1, 4, 1, 28308, 1]
  const ManagerOid: Oid := Base + [1, 0]
  const ManagerEmailOid: Oid := Base + [2, 0]
  const CpuUsageOid: Oid := Base + [3, 0]
  const CpuThresholdOid: Oid := Base + [4, 0]

  /** The store registers each of the four instances under its scalar's name,
      with the given definition. */
  ghost predicate RegistersInstances(st: Store, manager: ScalarDef, email: ScalarDef,
                                     usage: ScalarDef, threshold: ScalarDef) {
    && Valid(st)
    && ManagerOid in st.oidMap && ManagerEmailOid in st.oidMap
    && CpuUsageOid in st.oidMap && CpuThresholdOid in st.oidMap
    && st.oidMap[ManagerOid] == "manager"
    && st.oidMap[ManagerEmailOid] == "managerEmail"
    && st.oidMap[CpuUsageOid] == "cpuUsage"
    && st.oidMap[CpuThresholdOid] == "cpuThreshold"
    && DefAt(st, ManagerOid) == manager
    && DefAt(st, ManagerEmailOid) == email
    && DefAt(st, CpuUsageOid) == usage
    && DefAt(st, CpuThresholdOid) == threshold
  }

  /** The four instances in the order a walk visits them. */
  const Instances: seq<Oid> := [ManagerOid, ManagerEmailOid, CpuUsageOid, CpuThresholdOid]

  /** The base OID is a proper prefix of every instance, so it sorts below all
      of them, and the instances are listed in ascending order. */
  lemma InstancesAscendAboveBase()
    ensures forall i :: 0 <= i < |Instances| ==> Less(Base, Instances[i])
    ensures Ascending(Instances)
  {
    BaseBelowInstances();
    forall i, j | 0 <= i < j < 4
      ensures Less(Instances[i], Instances[j])
    {
      InstancesOrdered(i, j);
    }
  }

  lemma BaseBelowInstances()
    ensures Less(Base, ManagerOid) && Less(Base, ManagerEmailOid)
    ensures Less(Base, CpuUsageOid) && Less(Base, CpuThresholdOid)
  {
    PrefixLess(Base, [1, 0]);
    PrefixLess(Base, [2, 0]);
    PrefixLess(Base, [3, 0]);
    PrefixLess(Base, [4, 0]);
  }

  /** Instances differ only in the arc after the base, which orders them. */
  lemma InstancesOrdered(i: nat, j: nat)
    requires i < j < |Instances|
    ensures Less(Instances[i], Instances[j])
  {
    var a: Oid := [i + 1, 0];
    var b: Oid := [j + 1, 0];
    assert Less(a, b);
    CommonPrefixLess(Base, a, b);
    assert Instances[i] == Base + a && Instances[j] == Base + b;
  }

  /** A registry index holding exactly the four instances, in walk order. */
  ghost predicate IndexesInstances(st: Store) {
    && Valid(st)
    && (forall o :: o in st.oidMap <==> o in Instances)
    && st.sortedOids == Instances
  }
  /** A store registering each instance and nothing else registers exactly the instances. */
  lemma OnlyInstances(st: Store)
    requires ManagerOid in st.oidMap && ManagerEmailOid in st.oidMap
    requires CpuUsageOid in st.oidMap && CpuThresholdOid in st.oidMap
    requires forall o :: o in st.oidMap ==> o in Instances
    ensures forall o :: o in st.oidMap <==> o in Instances
  {
  }

  /** A store registering exactly the four instances indexes them in walk order. */
  lemma IndexedInstances(st: Store)
    requires Valid(st) && forall o :: o in st.oidMap <==> o in Instances
    ensures IndexesInstances(st)
  {
    InstancesAscendAboveBase();
    AscendingUnique(st.sortedOids, Instances);
  }

}
