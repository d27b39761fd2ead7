/**
 * Object identifiers, the order in which the agent compares them, the sorted
 * registry index and the successor search that GETNEXT is built on.
 *
 * The agent holds OIDs as Python tuples of non-negative integers and compares
 * them with Python's tuple order: the first differing component decides, and a
 * proper prefix sorts before every extension of it. This is the lexicographic
 * order that section 4.2.2 of RFC 3416 prescribes for GetNext.
 */
module Oids {
  import opened Wrappers

  type Oid = seq<nat>

  /** Python's `a < b` on tuples of integers. */
  predicate Less(a: Oid, b: Oid)
    decreases |a|
  {
    if |b| == 0 then false
    else if |a| == 0 then true
    else if a[0] != b[0] then a[0] < b[0]
    else Less(a[1..], b[1..])
  }

  predicate LessEq(a: Oid, b: Oid) {
    a == b || Less(a, b)
  }

  /** Reference statement of the same order: `a` is a proper prefix of `b`,
      or at the first position where they differ `a` has the smaller component. */
  ghost predicate LexBefore(a: Oid, b: Oid) {
    || (|a| < |b| && a == b[..|a|])
    || exists k :: 0 <= k < |a| && k < |b| && a[..k] == b[..k] && a[k] < b[k]
  }

  lemma {:induction false} LessIsLexBefore(a: Oid, b: Oid)
    ensures Less(a, b) <==> LexBefore(a, b)
    decreases |a|
  {
    if |b| == 0 {
    } else if |a| == 0 {
      assert a == b[..0];
    } else if a[0] != b[0] {
      LexBeforeHead(a, b);
    } else {
      LessIsLexBefore(a[1..], b[1..]);
      LexBeforeTailUp(a, b);
      LexBeforeTailDown(a, b);
    }
  }

  /** When the first arcs differ, they alone decide. */
  lemma LexBeforeHead(a: Oid, b: Oid)
    requires |a| > 0 && |b| > 0 && a[0] != b[0]
    ensures LexBefore(a, b) <==> a[0] < b[0]
  {
    if a[0] < b[0] {
      assert a[..0] == b[..0];
    }
    forall k | 0 <= k < |a| && k < |b| && a[..k] == b[..k] && a[k] < b[k]
      ensures a[0] < b[0]
    {
      if k > 0 {
        assert a[0] == a[..k][0];
      }
    }
  }

  /** Equal first arcs: an order of the tails is an order of the whole OIDs. */
  lemma LexBeforeTailUp(a: Oid, b: Oid)
    requires |a| > 0 && |b| > 0 && a[0] == b[0]
    ensures LexBefore(a[1..], b[1..]) ==> LexBefore(a, b)
  {
    var a', b' := a[1..], b[1..];
    if LexBefore(a', b') {
      if |a'| < |b'| && a' == b'[..|a'|] {
        assert a == [a[0]] + a' && b[..|a|] == [b[0]] + b'[..|a'|];
      } else {
        var k :| 0 <= k < |a'| && k < |b'| && a'[..k] == b'[..k] && a'[k] < b'[k];
        assert a[..k+1] == [a[0]] + a'[..k] && b[..k+1] == [b[0]] + b'[..k];
        assert a[k+1] == a'[k] && b[k+1] == b'[k];
      }
    }
  }

  /** Equal first arcs: an order of the whole OIDs is an order of the tails. */
  lemma LexBeforeTailDown(a: Oid, b: Oid)
    requires |a| > 0 && |b| > 0 && a[0] == b[0]
    ensures LexBefore(a, b) ==> LexBefore(a[1..], b[1..])
  {
    var a', b' := a[1..], b[1..];
    if LexBefore(a, b) {
      if |a| < |b| && a == b[..|a|] {
        assert a' == b'[..|a'|];
      } else {
        var k :| 0 <= k < |a| && k < |b| && a[..k] == b[..k] && a[k] < b[k];
        assert k > 0;
        assert a'[..k-1] == a[..k][1..] && b'[..k-1] == b[..k][1..];
        assert a'[k-1] == a[k] && b'[k-1] == b[k];
      }
    }
  }

  lemma {:induction false} LessIrreflexive(a: Oid)
    ensures !Less(a, a)
    decreases |a|
  {
    if |a| > 0 {
      LessIrreflexive(a[1..]);
    }
  }

  lemma {:induction false} LessTransitive(a: Oid, b: Oid, c: Oid)
    requires Less(a, b) && Less(b, c)
    ensures Less(a, c)
    decreases |a|
  {
    if |a| > 0 && a[0] == b[0] && b[0] == c[0] {
      LessTransitive(a[1..], b[1..], c[1..]);
    }
  }

  /** Any two distinct OIDs are comparable: the order is total. */
  lemma {:induction false} LessTotal(a: Oid, b: Oid)
    ensures a == b || Less(a, b) || Less(b, a)
    decreases |a|
  {
    if |a| > 0 && |b| > 0 && a[0] == b[0] {
      LessTotal(a[1..], b[1..]);
      if a[1..] == b[1..] {
        assert a == [a[0]] + a[1..] && b == [b[0]] + b[1..];
      }
    }
  }

  lemma LessAsymmetric(a: Oid, b: Oid)
    requires Less(a, b)
    ensures !Less(b, a)
  {
    if Less(b, a) {
      LessTransitive(a, b, a);
      LessIrreflexive(a);
    }
  }

  /** A proper prefix comes first: a subtree's root precedes everything under it. */
  lemma {:induction false} PrefixLess(p: Oid, a: Oid)
    requires |a| > 0
    ensures Less(p, p + a)
    decreases |p|
  {
    if |p| > 0 {
      assert (p + a)[1..] == p[1..] + a;
      PrefixLess(p[1..], a);
    }
  }

  /** A common prefix does not change the order of two OIDs. */
  lemma {:induction false} CommonPrefixLess(p: Oid, a: Oid, b: Oid)
    requires Less(a, b)
    ensures Less(p + a, p + b)
    decreases |p|
  {
    if |p| == 0 {
      assert p + a == a && p + b == b;
    } else {
      assert (p + a)[1..] == p[1..] + a;
      assert (p + b)[1..] == p[1..] + b;
      CommonPrefixLess(p[1..], a, b);
    }
  }

  /** Strictly ascending: the shape of the registry index `sorted(oid_map.keys())`. */
  ghost predicate Ascending(s: seq<Oid>) {
    forall i, j :: 0 <= i < j < |s| ==> Less(s[i], s[j])
  }

  ghost predicate Distinct<T>(s: seq<T>) {
    forall i, j :: 0 <= i < j < |s| ==> s[i] != s[j]
  }

  /** Insert `x` before the first element that is not smaller than it. */
  function Insert(x: Oid, s: seq<Oid>): seq<Oid> {
    if |s| == 0 then [x]
    else if Less(s[0], x) then [s[0]] + Insert(x, s[1..])
    else [x] + s
  }

  /** Python's `sorted` on a list of OIDs (an insertion sort). */
  function SortOids(xs: seq<Oid>): seq<Oid> {
    if |xs| == 0 then [] else Insert(xs[0], SortOids(xs[1..]))
  }

  lemma {:induction false} InsertAscending(x: Oid, s: seq<Oid>)
    requires Ascending(s) && x !in s
    ensures Ascending(Insert(x, s))
    ensures multiset(Insert(x, s)) == multiset(s) + multiset{x}
  {
    if |s| == 0 {
    } else if Less(s[0], x) {
      var tail := s[1..];
      assert s == [s[0]] + tail;
      InsertAscending(x, tail);
      var t := Insert(x, tail);
      forall j | 0 <= j < |t|
        ensures Less(s[0], t[j])
      {
        assert t[j] in multiset(t);
        if t[j] != x {
          assert t[j] in multiset(tail);
          var k :| 0 <= k < |tail| && tail[k] == t[j];
          assert s[k + 1] == t[j];
        }
      }
      assert Insert(x, s) == [s[0]] + t;
    } else {
      LessTotal(x, s[0]);
      assert Less(x, s[0]);
      forall j | 0 < j < |s|
        ensures Less(x, s[j])
      {
        LessTransitive(x, s[0], s[j]);
      }
    }
  }

  /** Sorting distinct OIDs yields a strictly ascending permutation of them. */
  lemma {:induction false} SortOidsAscending(xs: seq<Oid>)
    requires Distinct(xs)
    ensures Ascending(SortOids(xs))
    ensures multiset(SortOids(xs)) == multiset(xs)
  {
    if |xs| > 0 {
      var tail := xs[1..];
      assert xs == [xs[0]] + tail;
      SortOidsAscending(tail);
      forall k | 0 <= k < |tail|
        ensures tail[k] != xs[0]
      {
        assert tail[k] == xs[k + 1];
      }
      assert xs[0] !in multiset(SortOids(tail));
      InsertAscending(xs[0], SortOids(tail));
    }
  }

  /** The first element of `s`, in sequence order, that is strictly greater than `x`:
      the loop `for candidate in sorted_oids: if candidate > oid_tuple: return ...`. */
  function FirstAbove(s: seq<Oid>, x: Oid): (r: Option<Oid>)
    ensures r.Some? ==> r.value in s && Less(x, r.value)
    ensures r.None? ==> forall i :: 0 <= i < |s| ==> !Less(x, s[i])
  {
    if |s| == 0 then None
    else if Less(x, s[0]) then Some(s[0])
    else FirstAbove(s[1..], x)
  }

  /** On an ascending index, the first element above `x` is the least element above `x`. */
  lemma {:induction false} FirstAboveIsLeast(s: seq<Oid>, x: Oid)
    requires Ascending(s)
    ensures FirstAbove(s, x).Some? ==>
              forall p :: p in s && Less(x, p) ==> LessEq(FirstAbove(s, x).value, p)
  {
    if |s| > 0 && !Less(x, s[0]) {
      FirstAboveIsLeast(s[1..], x);
      forall p | p in s && Less(x, p)
        ensures p in s[1..]
      {
        if p == s[0] {
        }
      }
    } else if |s| > 0 {
      forall p | p in s && Less(x, p)
        ensures LessEq(s[0], p)
      {
        var k :| 0 <= k < |s| && s[k] == p;
      }
    }
  }

  /** On an ascending index, the successor of the element at position `i` is the
      element at position `i + 1`; after the last element there is none. */
  lemma {:induction false} FirstAboveAt(s: seq<Oid>, i: nat)
    requires Ascending(s) && i < |s|
    ensures FirstAbove(s, s[i]) == if i + 1 < |s| then Some(s[i + 1]) else None
    decreases i
  {
    LessIrreflexive(s[i]);
    if i > 0 {
      LessAsymmetric(s[0], s[i]);
      FirstAboveAt(s[1..], i - 1);
    } else if |s| > 1 {
      assert s[1..][0] == s[1];
    } else {
      assert FirstAbove(s[1..], s[i]) == None;
    }
  }

  /** How many elements of `s` lie strictly above `x`; the walk's termination measure. */
  function CountAbove(s: seq<Oid>, x: Oid): nat {
    if |s| == 0 then 0
    else (if Less(x, s[0]) then 1 else 0) + CountAbove(s[1..], x)
  }

  lemma {:induction false} CountAboveMonotone(s: seq<Oid>, x: Oid, y: Oid)
    requires Less(x, y)
    ensures CountAbove(s, y) <= CountAbove(s, x)
  {
    if |s| > 0 {
      if Less(y, s[0]) {
        LessTransitive(x, y, s[0]);
      }
      CountAboveMonotone(s[1..], x, y);
    }
  }

  /** Moving the probe up to an element above it strictly shrinks what is left above. */
  lemma {:induction false} CountAboveShrinks(s: seq<Oid>, x: Oid, y: Oid)
    requires y in s && Less(x, y)
    ensures CountAbove(s, y) < CountAbove(s, x)
  {
    if s[0] == y {
      LessIrreflexive(y);
      CountAboveMonotone(s[1..], x, y);
    } else {
      if Less(y, s[0]) {
        LessTransitive(x, y, s[0]);
      }
      CountAboveShrinks(s[1..], x, y);
    }
  }

  /** An ascending sequence is determined by its elements: there is only one
      way to list a set of OIDs in ascending order. */
  lemma {:induction false} AscendingUnique(a: seq<Oid>, b: seq<Oid>)
    requires Ascending(a) && Ascending(b)
    requires forall o :: o in a <==> o in b
    ensures a == b
    decreases |a|
  {
    if |a| == 0 {
    } else {
      assert a[0] in a;
      assert |b| > 0;
      assert b[0] in b;
      var k :| 0 <= k < |a| && a[k] == b[0];
      var j :| 0 <= j < |b| && b[j] == a[0];
      LessIrreflexive(a[0]);
      LessIrreflexive(b[0]);
      if k > 0 {
        assert Less(a[0], b[0]);
        assert j > 0;
        LessAsymmetric(a[0], b[0]);
      }
      assert a[0] == b[0];
      forall o
        ensures o in a[1..] <==> o in b[1..]
      {
        if o in a[1..] {
          var i :| 1 <= i < |a| && a[i] == o;
          assert Less(a[0], a[i]);
          assert o != b[0];
          assert o in a;
          assert o in b;
          var i' :| 0 <= i' < |b| && b[i'] == o;
          assert i' > 0;
          assert b[1..][i' - 1] == o;
        }
        if o in b[1..] {
          var i :| 1 <= i < |b| && b[i] == o;
          assert Less(b[0], b[i]);
          assert o != a[0];
          assert o in b;
          assert o in a;
          var i' :| 0 <= i' < |a| && a[i'] == o;
          assert i' > 0;
          assert a[1..][i' - 1] == o;
        }
      }
      AscendingUnique(a[1..], b[1..]);
      assert a == [a[0]] + a[1..] && b == [b[0]] + b[1..];
    }
  }
}
