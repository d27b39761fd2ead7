/**
 * The per-request logic of the three command responders (`JsonGet`,
 * `JsonGetNext`, `JsonSet`), identical in both agents. A request is the
 * ordered list of its varbinds; a response is the list of varbinds the agent
 * sends back, or the error-status and 1-based error-index of a refused SET.
 */
module Responders {
  import opened Wrappers
  import opened Oids
  import opened Values
  import opened ObjectStore

  /** The value half of a response varbind: a value or one of the two exception markers. */
  datatype Answer = Value(syntax: Syntax) | NoSuchObject | EndOfMibView

  datatype Varbind = Varbind(oid: Oid, answer: Answer)

  /** One GET item: the requested OID with its value or NoSuchObject. `None`
      when converting the stored value raised, which aborts the whole response. */
  function ExactItem(st: Store, oid: Oid): (r: Option<Varbind>)
    requires Valid(st)
    ensures r.None? <==> GetExact(st, oid).Unconvertible?
    ensures r.Some? ==> r.value.oid == oid
    ensures r.Some? ==> (r.value.answer == NoSuchObject <==> oid !in st.oidMap)
    ensures r.Some? && oid in st.oidMap ==>
              r.value.answer.Value? && GetExact(st, oid) == Found(r.value.answer.syntax)
  {
    match GetExact(st, oid)
    case Found(s) => Some(Varbind(oid, Value(s)))
    case Missing => Some(Varbind(oid, NoSuchObject))
    case Unconvertible => None
  }

  /** One GETNEXT item: the successor OID with its value, or the requested OID
      echoed with EndOfMibView when nothing registered lies above it. */
  function NextItem(st: Store, oid: Oid): (r: Option<Varbind>)
    requires Valid(st)
    ensures r.None? <==> GetNext(st, oid).NextUnconvertible?
    ensures r.Some? ==> (r.value.answer == EndOfMibView <==> forall o :: o in st.oidMap ==> !Less(oid, o))
    ensures r.Some? && r.value.answer == EndOfMibView ==> r.value.oid == oid
    ensures r.Some? && r.value.answer != EndOfMibView ==>
              && r.value.oid in st.oidMap
              && Less(oid, r.value.oid)
              && (forall o :: o in st.oidMap && Less(oid, o) ==> LessEq(r.value.oid, o))
              && r.value.answer.Value?
              && GetExact(st, r.value.oid) == Found(r.value.answer.syntax)
  {
    match GetNext(st, oid)
    case Next(o, s) => Some(Varbind(o, Value(s)))
    case EndOfTree => Some(Varbind(oid, EndOfMibView))
    case NextUnconvertible => None
  }

  /** A response assembled item by item, in request order: every item
      answered, or the whole response aborted by the first item that raised. */
  function Collect(items: seq<Option<Varbind>>): (r: Option<seq<Varbind>>)
    ensures r.Some? <==> forall i :: 0 <= i < |items| ==> items[i].Some?
    ensures r.Some? ==> |r.value| == |items|
    ensures r.Some? ==> forall i :: 0 <= i < |items| ==> Some(r.value[i]) == items[i]
  {
    if |items| == 0 then Some([])
    else
      var rest := Collect(items[1..]);
      assert forall i :: 1 <= i < |items| ==> items[1..][i - 1] == items[i];
      if items[0].None? || rest.None? then None else Some([items[0].value] + rest.value)
  }

  /** `JsonGet.handleMgmtOperation`: every item answered on its own, in request
      order; an absent object never fails the request. */
  function HandleGet(st: Store, req: seq<Oid>): (r: Option<seq<Varbind>>)
    requires Valid(st)
    ensures r.Some? <==> forall i :: 0 <= i < |req| ==> ExactItem(st, req[i]).Some?
    ensures r.Some? ==> |r.value| == |req|
    ensures r.Some? ==> forall i :: 0 <= i < |req| ==> Some(r.value[i]) == ExactItem(st, req[i])
  {
    var items := seq(|req|, i requires 0 <= i < |req| => ExactItem(st, req[i]));
    assert forall i :: 0 <= i < |req| ==> items[i] == ExactItem(st, req[i]);
    Collect(items)
  }

  /** `JsonGetNext.handleMgmtOperation`: every item answered on its own, in request order. */
  function HandleGetNext(st: Store, req: seq<Oid>): (r: Option<seq<Varbind>>)
    requires Valid(st)
    ensures r.Some? <==> forall i :: 0 <= i < |req| ==> NextItem(st, req[i]).Some?
    ensures r.Some? ==> |r.value| == |req|
    ensures r.Some? ==> forall i :: 0 <= i < |req| ==> Some(r.value[i]) == NextItem(st, req[i])
  {
    var items := seq(|req|, i requires 0 <= i < |req| => NextItem(st, req[i]));
    assert forall i :: 0 <= i < |req| ==> items[i] == NextItem(st, req[i]);
    Collect(items)
  }

  /** GET answers item by item: when every item has its answer, the response
      lists exactly those answers. */
  lemma HandleGetAnswers(st: Store, req: seq<Oid>, rsp: seq<Varbind>)
    requires Valid(st) && |rsp| == |req|
    requires forall i :: 0 <= i < |req| ==> ExactItem(st, req[i]) == Some(rsp[i])
    ensures HandleGet(st, req) == Some(rsp)
  {
    var r := HandleGet(st, req);
    assert r.Some?;
    assert r.value == rsp by {
      forall i | 0 <= i < |req|
        ensures r.value[i] == rsp[i]
      {
        assert Some(r.value[i]) == ExactItem(st, req[i]);
      }
    }
  }

  /** On a store whose values all convert, GET and GETNEXT always answer, and
      an unregistered OID in a GET request is answered NoSuchObject. */
  lemma ReadsNeverFail(st: Store, req: seq<Oid>)
    requires Valid(st) && WellKinded(st)
    ensures HandleGet(st, req).Some? && HandleGetNext(st, req).Some?
    ensures forall i :: 0 <= i < |req| && req[i] !in st.oidMap ==>
              HandleGet(st, req).value[i] == Varbind(req[i], NoSuchObject)
  {
    forall i | 0 <= i < |req|
      ensures ExactItem(st, req[i]).Some? && NextItem(st, req[i]).Some?
    {
    }
  }

  // ---------------------------------------------------------------- SET

  datatype Write = Write(oid: Oid, value: Syntax)

  /** The error-status of the first refused varbind and its 1-based position. */
  datatype Failure = Failure(status: Status, index: nat)

  datatype SetReply = Rejected(status: Status, index: nat) | Applied(varbinds: seq<Varbind>)

  ghost predicate AllAcceptable(st: Store, req: seq<Write>)
    requires Valid(st)
  {
    forall i :: 0 <= i < |req| ==> ValidateSet(st, req[i].oid, req[i].value) == NoError
  }

  /** Phase one of `JsonSet`: validate in request order and stop at the first refusal. */
  function FirstInvalid(st: Store, req: seq<Write>): (r: Option<Failure>)
    requires Valid(st)
    ensures r.None? <==> AllAcceptable(st, req)
    ensures r.Some? ==>
              && 1 <= r.value.index <= |req|
              && r.value.status != NoError
              && r.value.status == ValidateSet(st, req[r.value.index - 1].oid, req[r.value.index - 1].value)
              && forall j :: 0 <= j < r.value.index - 1 ==> ValidateSet(st, req[j].oid, req[j].value) == NoError
  {
    if |req| == 0 then None
    else
      var status := ValidateSet(st, req[0].oid, req[0].value);
      assert forall i :: 1 <= i < |req| ==> req[1..][i - 1] == req[i];
      if status != NoError then Some(Failure(status, 1))
      else match FirstInvalid(st, req[1..])
        case None => None
        case Some(f) => Some(Failure(f.status, f.index + 1))
  }

  /** Varbind `i` is the last one of the request naming `oid`. */
  ghost predicate WritesLast(req: seq<Write>, oid: Oid, i: int) {
    && 0 <= i < |req| && req[i].oid == oid
    && forall j :: i < j < |req| ==> req[j].oid != oid
  }

  /** The value the last varbind naming `oid` carries. */
  function LastWrite(req: seq<Write>, oid: Oid): Option<Syntax> {
    if |req| == 0 then None
    else if req[|req| - 1].oid == oid then Some(req[|req| - 1].value)
    else LastWrite(req[..|req| - 1], oid)
  }

  /** `LastWrite` finds a value exactly when some varbind names the OID, and
      the value it finds is the one the last such varbind carries. */
  lemma {:induction false} LastWriteIsLast(req: seq<Write>, oid: Oid)
    ensures LastWrite(req, oid).Some? <==> exists i :: 0 <= i < |req| && req[i].oid == oid
    ensures LastWrite(req, oid).Some? ==>
              exists i :: WritesLast(req, oid, i) && req[i].value == LastWrite(req, oid).value
    decreases |req|
  {
    if |req| > 0 {
      var n := |req| - 1;
      if req[n].oid == oid {
        assert WritesLast(req, oid, n);
      } else {
        var front := req[..n];
        LastWriteIsLast(front, oid);
        if exists i :: 0 <= i < |req| && req[i].oid == oid {
          var i :| 0 <= i < |req| && req[i].oid == oid;
          assert front[i] == req[i];
        }
        if LastWrite(front, oid).Some? {
          var i :| WritesLast(front, oid, i) && front[i].value == LastWrite(front, oid).value;
          assert front[i] == req[i];
          forall j | i < j < |req|
            ensures req[j].oid != oid
          {
            if j < n {
              assert front[j] == req[j];
            }
          }
          assert WritesLast(req, oid, i);
        }
      }
    }
  }

  /** Some varbind of the request writes to scalar `name`. */
  ghost predicate Touches(st: Store, req: seq<Write>, name: string) {
    exists i :: 0 <= i < |req| && req[i].oid in st.oidMap && st.oidMap[req[i].oid] == name
  }

  /** Phase two of `JsonSet`: `commit_set` every varbind in request order. */
  function CommitAll(st: Store, req: seq<Write>): (r: Store)
    requires Valid(st) && AllAcceptable(st, req)
    ensures Valid(r) && SameRegistry(st, r)
    decreases |req|
  {
    if |req| == 0 then st
    else
      var front := req[..|req| - 1];
      var w := req[|req| - 1];
      assert forall i :: 0 <= i < |front| ==> front[i] == req[i];
      var mid := CommitAll(st, front);
      assert ValidateSet(mid, w.oid, w.value) == ValidateSet(st, w.oid, w.value);
      CommitSet(mid, w.oid, w.value)
  }

  /** The commits keep the set of scalars and leave every scalar the request
      does not name, and every scalar of unknown type, with its old value. */
  lemma {:induction false} CommitAllFrame(st: Store, req: seq<Write>)
    requires Valid(st) && AllAcceptable(st, req)
    ensures CommitAll(st, req).values.Keys == st.values.Keys
    ensures forall n :: n in st.values && !Touches(st, req, n) ==> CommitAll(st, req).values[n] == st.values[n]
    ensures forall n :: n in st.values && n in st.defs && st.defs[n].kind == UnknownType ==>
              CommitAll(st, req).values[n] == st.values[n]
    ensures WellKinded(st) ==> WellKinded(CommitAll(st, req))
    decreases |req|
  {
    if |req| > 0 {
      var front := req[..|req| - 1];
      var w := req[|req| - 1];
      assert forall i :: 0 <= i < |front| ==> front[i] == req[i];
      CommitAllFrame(st, front);
      var mid := CommitAll(st, front);
      var r := CommitAll(st, req);
      assert r == CommitSet(mid, w.oid, w.value);
      forall n | n in st.values && !Touches(st, req, n)
        ensures r.values[n] == st.values[n]
      {
        assert !Touches(st, front, n) by {
          forall i | 0 <= i < |front| && front[i].oid in st.oidMap
            ensures st.oidMap[front[i].oid] != n
          {
            assert req[i] == front[i];
          }
        }
        assert n != st.oidMap[w.oid] by {
          assert req[|req| - 1] == w;
        }
      }
    }
  }

  /** An object the request wrote reads back as the last value written to it,
      and that stored value respects the object's limits. */
  lemma {:induction false} CommitAllReadsBack(st: Store, req: seq<Write>, o: Oid)
    requires Valid(st) && AllAcceptable(st, req)
    requires o in st.oidMap && LastWrite(req, o).Some?
    ensures GetExact(CommitAll(st, req), o) == Found(Echo(DefAt(st, o).kind, LastWrite(req, o).value))
    ensures Satisfies(DefAt(st, o), ValueAt(CommitAll(st, req), o))
    decreases |req|
  {
    var front := req[..|req| - 1];
    var w := req[|req| - 1];
    assert forall i :: 0 <= i < |front| ==> front[i] == req[i];
    var mid := CommitAll(st, front);
    assert CommitAll(st, req) == CommitSet(mid, w.oid, w.value);
    if o != w.oid {
      assert LastWrite(req, o) == LastWrite(front, o);
      CommitAllReadsBack(st, front, o);
    }
  }

  /** The varbind a successful SET answers for an object it wrote: the object's
      OID with the last value the request wrote to it (Null for an object of
      unknown type, which the commit leaves alone). */
  function WrittenItem(st: Store, req: seq<Write>, oid: Oid): Varbind
    requires Valid(st) && oid in st.oidMap && LastWrite(req, oid).Some?
  {
    Varbind(oid, Value(Echo(DefAt(st, oid).kind, LastWrite(req, oid).value)))
  }

  /** Reading back the `i`-th varbind of a committed request. */
  lemma ReadBackItem(st: Store, req: seq<Write>, i: nat)
    requires Valid(st) && AllAcceptable(st, req) && i < |req|
    ensures req[i].oid in st.oidMap && LastWrite(req, req[i].oid).Some?
    ensures ExactItem(CommitAll(st, req), req[i].oid) == Some(WrittenItem(st, req, req[i].oid))
  {
    var oid := req[i].oid;
    LastWriteIsLast(req, oid);
    CommitAllReadsBack(st, req, oid);
  }

  /** Phase one as the responder runs it: a loop that stops at the first refusal. */
  method ValidatePhase(st: Store, req: seq<Write>) returns (failure: Option<Failure>)
    requires Valid(st)
    ensures failure == FirstInvalid(st, req)
  {
    var i := 0;
    while i < |req|
      invariant 0 <= i <= |req|
      invariant forall j :: 0 <= j < i ==> ValidateSet(st, req[j].oid, req[j].value) == NoError
    {
      var status := ValidateSet(st, req[i].oid, req[i].value);
      if status != NoError {
        var f := FirstInvalid(st, req);
        assert f.Some? && f.value.index == i + 1;
        return Some(Failure(status, i + 1));
      }
      i := i + 1;
    }
    return None;
  }

  /** Phase two as the responder runs it: one `commit_set` per varbind. */
  method CommitPhase(st: Store, req: seq<Write>) returns (st': Store)
    requires Valid(st) && AllAcceptable(st, req)
    ensures st' == CommitAll(st, req)
  {
    st' := st;
    var k := 0;
    while k < |req|
      invariant 0 <= k <= |req|
      invariant AllAcceptable(st, req[..k])
      invariant st' == CommitAll(st, req[..k])
    {
      assert req[..k + 1][..k] == req[..k];
      st' := CommitSet(st', req[k].oid, req[k].value);
      k := k + 1;
    }
    assert req[..|req|] == req;
  }

  /** Phase three: read every varbind of the request back from the committed store. */
  method ReadBackPhase(after: Store, req: seq<Write>) returns (rsp: seq<Varbind>)
    requires Valid(after)
    requires forall i :: 0 <= i < |req| ==> ExactItem(after, req[i].oid).Some?
    ensures |rsp| == |req|
    ensures forall i :: 0 <= i < |req| ==> Some(rsp[i]) == ExactItem(after, req[i].oid)
  {
    rsp := [];
    var m := 0;
    while m < |req|
      invariant 0 <= m <= |req| && |rsp| == m
      invariant forall j :: 0 <= j < m ==> Some(rsp[j]) == ExactItem(after, req[j].oid)
    {
      var item := ExactItem(after, req[m].oid);
      rsp := rsp + [item.value];
      m := m + 1;
    }
  }

  /** The varbinds a committed SET answers with: every item of the request
      read back from the committed store, in request order. */
  function Answers(st: Store, req: seq<Write>): (r: seq<Varbind>)
    requires Valid(st) && AllAcceptable(st, req)
    ensures |r| == |req|
  {
    var after := CommitAll(st, req);
    seq(|req|, i requires 0 <= i < |req| => ReadBackItem(st, req, i); ExactItem(after, req[i].oid).value)
  }

  /** `JsonSet.handleMgmtOperation` as one function: the reply and the store
      the SET leaves behind. */
  function SetOutcome(st: Store, req: seq<Write>): (r: (SetReply, Store))
    requires Valid(st)
    ensures Valid(r.1) && SameRegistry(st, r.1)
  {
    match FirstInvalid(st, req)
    case Some(f) => (Rejected(f.status, f.index), st)
    case None => (Applied(Answers(st, req)), CommitAll(st, req))
  }

  /** A SET is all or nothing: it is refused exactly when some varbind fails
      validation, a refusal names the first such varbind and commits nothing,
      and an accepted SET commits every varbind in request order. */
  lemma SetAllOrNothing(st: Store, req: seq<Write>)
    requires Valid(st)
    ensures var (reply, after) := SetOutcome(st, req);
            && (reply.Rejected? <==> FirstInvalid(st, req).Some?)
            && (reply.Rejected? ==> after == st && FirstInvalid(st, req) == Some(Failure(reply.status, reply.index)))
            && (reply.Applied? ==> AllAcceptable(st, req) && after == CommitAll(st, req))
  {
  }

  /** An accepted SET answers one varbind per request item, each carrying the
      item's OID and the last value the request wrote to that object, and GET
      on the new store reads that same varbind back. */
  lemma SetAnswersLastWrites(st: Store, req: seq<Write>)
    requires Valid(st)
    ensures var (reply, after) := SetOutcome(st, req);
            reply.Applied? ==>
              && |reply.varbinds| == |req|
              && forall i :: 0 <= i < |req| ==>
                   && req[i].oid in st.oidMap
                   && LastWrite(req, req[i].oid).Some?
                   && reply.varbinds[i] == WrittenItem(st, req, req[i].oid)
                   && ExactItem(after, req[i].oid) == Some(reply.varbinds[i])
  {
    if FirstInvalid(st, req).None? {
      var after := CommitAll(st, req);
      var rsp := Answers(st, req);
      assert SetOutcome(st, req) == (Applied(rsp), after);
      forall i | 0 <= i < |req|
        ensures req[i].oid in st.oidMap && LastWrite(req, req[i].oid).Some?
        ensures rsp[i] == WrittenItem(st, req, req[i].oid)
        ensures ExactItem(after, req[i].oid) == Some(rsp[i])
      {
        ReadBackItem(st, req, i);
      }
    }
  }

  /** The responder's three phases compute exactly `SetOutcome`. */
  method HandleSet(st: Store, req: seq<Write>) returns (reply: SetReply, st': Store)
    requires Valid(st)
    ensures (reply, st') == SetOutcome(st, req)
  {
    var failure := ValidatePhase(st, req);
    if failure.Some? {
      return Rejected(failure.value.status, failure.value.index), st;
    }
    st' := CommitPhase(st, req);
    forall i | 0 <= i < |req|
      ensures req[i].oid in st.oidMap && LastWrite(req, req[i].oid).Some?
      ensures ExactItem(st', req[i].oid) == Some(WrittenItem(st, req, req[i].oid))
    {
      ReadBackItem(st, req, i);
    }
    var rsp := ReadBackPhase(st', req);
    assert rsp == Answers(st, req);
    reply := Applied(rsp);
  }

  /** A SET of one varbind followed by a GET of the same OID: the SET is
      accepted exactly when the varbind validates, a refusal names it with
      index 1 and changes nothing, and an accepted SET commits the value,
      echoes it, and the GET that follows answers the same varbind. */
  lemma SetThenGet(st: Store, w: Write)
    requires Valid(st)
    ensures var (reply, after) := SetOutcome(st, [w]);
            && (reply.Applied? <==> ValidateSet(st, w.oid, w.value) == NoError)
            && (reply.Rejected? ==> reply == Rejected(ValidateSet(st, w.oid, w.value), 1) && after == st)
            && (reply.Applied? ==>
                  && w.oid in st.oidMap
                  && after == CommitSet(st, w.oid, w.value)
                  && reply.varbinds == [Varbind(w.oid, Value(Echo(DefAt(st, w.oid).kind, w.value)))]
                  && HandleGet(after, [w.oid]) == Some(reply.varbinds))
  {
    var req := [w];
    SetAllOrNothing(st, req);
    SetAnswersLastWrites(st, req);
    if FirstInvalid(st, req).None? {
      var (reply, after) := SetOutcome(st, req);
      assert req[..0] == [];
      assert after == CommitSet(st, w.oid, w.value);
      assert reply.varbinds == [reply.varbinds[0]];
      HandleGetAnswers(after, [w.oid], reply.varbinds);
    }
  }
}
