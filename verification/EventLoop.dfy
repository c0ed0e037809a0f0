/** The loop object of esp_event.c.  Its node structure refines a plain log of the live
    registrations, in the order in which they were made. */
module EventLoop {
  import opened Event

  ghost predicate LogOk(log: seq<Entry>) {
    && (forall k :: 0 <= k < |log| ==> ValidEvent(log[k].base, log[k].id))
    && (forall j, k :: 0 <= j < k < |log| ==> log[j].instance.ctx != log[k].instance.ctx)
  }

  /** Every event that can be posted is dispatched to the matching log entries, in log order. */
  ghost predicate Refines(ns: seq<LoopNode>, log: seq<Entry>) {
    forall b, i :: Postable(b, i) ==> LoopOrder(ns, b, i) == Select(log, b, i)
  }

  function Instances(s: seq<Entry>): (r: seq<Instance>)
    ensures |r| == |s|
  {
    seq(|s|, k requires 0 <= k < |s| => s[k].instance)
  }

  // ---- The log ----

  lemma SelectAppend(log: seq<Entry>, e: Entry, b: Base, i: int)
    ensures Select(log + [e], b, i) == Select(log, b, i) + Seen(e, b, i)
  {
    assert (log + [e])[..|log|] == log;
  }

  lemma SeenWithout(e: Entry, key: Key, b: Base, i: int)
    ensures Without(Seen(e, b, i), key) == if IsKey(e, key) then [] else Seen(e, b, i)
    ensures Occurrences(Seen(e, b, i), key) <= if IsKey(e, key) then 1 else 0
  {
    assert [e][..0] == [];
  }

  /** Removing a key commutes with selecting, and selecting never adds occurrences. */
  lemma {:induction false} SelectWithout(log: seq<Entry>, key: Key, b: Base, i: int)
    ensures Select(Without(log, key), b, i) == Without(Select(log, b, i), key)
    ensures Occurrences(Select(log, b, i), key) <= Occurrences(log, key)
    decreases |log|
  {
    if log != [] {
      hide Seen, IsKey, Matches;
      var front, e := log[..|log| - 1], log[|log| - 1];
      assert log == front + [e];
      SelectWithout(front, key, b, i);
      SelectAppend(front, e, b, i);
      WithoutConcat(Select(front, b, i), Seen(e, b, i), key);
      SeenWithout(e, key, b, i);
      if IsKey(e, key) {
        assert Without(log, key) == Without(front, key);
      } else {
        assert Without(log, key) == Without(front, key) + [e];
        SelectAppend(Without(front, key), e, b, i);
      }
    }
  }

  /** Contexts are different, so a key names at most one entry. */
  lemma {:induction false} KeyOccursOnce(log: seq<Entry>, key: Key)
    requires LogOk(log)
    ensures Occurrences(log, key) <= 1
    decreases |log|
  {
    if log != [] {
      var m := |log| - 1;
      KeyOccursOnce(log[..m], key);
      if IsKey(log[m], key) {
        WithoutAbsent(log[..m], key);
      }
    }
  }

  lemma {:induction false} WithoutLogOk(log: seq<Entry>, key: Key)
    requires LogOk(log)
    ensures LogOk(Without(log, key))
    ensures forall e :: e in Without(log, key) <==> e in log && !IsKey(e, key)
    decreases |log|
  {
    if log != [] {
      var m := |log| - 1;
      WithoutLogOk(log[..m], key);
      assert log == log[..m] + [log[m]];
      var w := Without(log[..m], key);
      forall j | 0 <= j < |w|
        ensures w[j].instance.ctx != log[m].instance.ctx
      {
        assert w[j] in log[..m];
      }
    }
  }

  /** x was registered before y. */
  ghost predicate Before(log: seq<Entry>, x: Entry, y: Entry) {
    exists p, q :: 0 <= p < q < |log| && log[p] == x && log[q] == y
  }

  lemma BeforeAppend(log: seq<Entry>, x: Entry, y: Entry, e: Entry)
    ensures Before(log, x, y) ==> Before(log + [e], x, y)
    ensures x in log ==> Before(log + [e], x, e)
  {
    if Before(log, x, y) {
      var p, q :| 0 <= p < q < |log| && log[p] == x && log[q] == y;
      assert (log + [e])[p] == x && (log + [e])[q] == y;
    }
    if x in log {
      var p :| 0 <= p < |log| && log[p] == x;
      assert (log + [e])[p] == x && (log + [e])[|log|] == e;
    }
  }

  /** What "each matching live instance once, in registration order" means. */
  lemma {:induction false} SelectExactly(log: seq<Entry>, b: Base, i: int)
    requires LogOk(log)
    ensures forall e :: e in Select(log, b, i) <==> e in log && Matches(e, b, i)
    ensures forall j, k :: 0 <= j < k < |Select(log, b, i)| ==> Before(log, Select(log, b, i)[j], Select(log, b, i)[k])
    decreases |log|
  {
    if log != [] {
      hide Before;
      var m := |log| - 1;
      var front, s := Select(log[..m], b, i), Select(log, b, i);
      SelectExactly(log[..m], b, i);
      assert log == log[..m] + [log[m]];
      forall j, k | 0 <= j < k < |s|
        ensures Before(log, s[j], s[k])
      {
        assert s[j] == front[j];
        BeforeAppend(log[..m], s[j], s[k], log[m]);
      }
    }
  }

  /** Contexts differ, so nothing comes before itself: no handler runs twice for an event. */
  lemma BeforeIsStrict(log: seq<Entry>, x: Entry)
    requires LogOk(log)
    ensures !Before(log, x, x)
  {
  }

  // ---- The list of loop nodes ----

  lemma {:induction false} LoopOrderConcat(a: seq<LoopNode>, c: seq<LoopNode>, b: Base, i: int)
    ensures LoopOrder(a + c, b, i) == LoopOrder(a, b, i) + LoopOrder(c, b, i)
    decreases |c|
  {
    hide LoopNodeOrder;
    if c == [] {
      assert a + c == a;
    } else {
      var m := |c| - 1;
      assert (a + c)[..|a + c| - 1] == a + c[..m];
      LoopOrderConcat(a, c[..m], b, i);
    }
  }

  ghost function LoopOcc(ns: seq<LoopNode>, key: Key): nat {
    Occurrences(LoopOrder(ns, RepBase(key), RepId(key)), key)
  }

  ghost predicate RemovedFromLoop(ns: seq<LoopNode>, ns': seq<LoopNode>, key: Key) {
    forall b, i :: Postable(b, i) ==> LoopOrder(ns', b, i) == Without(LoopOrder(ns, b, i), key)
  }

  lemma SingleLoopNode(n: LoopNode, b: Base, i: int)
    ensures LoopOrder([n], b, i) == LoopNodeOrder(n, b, i)
  {
    assert [n][..0] == [];
  }

  lemma SplitLoop(ns: seq<LoopNode>, k: nat, key: Key)
    requires k < |ns|
    ensures ns == ns[..k] + ([ns[k]] + ns[k + 1..]) && ns[..k + 1] == ns[..k] + [ns[k]]
    ensures LoopOcc(ns, key) == LoopOcc(ns[..k], key) + LoopNodeOcc(ns[k], key) + LoopOcc(ns[k + 1..], key)
    ensures LoopOcc(ns[..k + 1], key) == LoopOcc(ns[..k], key) + LoopNodeOcc(ns[k], key)
  {
    hide LoopOcc, LoopNodeOcc;
    assert ns == ns[..k] + ([ns[k]] + ns[k + 1..]) && ns[..k + 1] == ns[..k] + [ns[k]];
    LoopOccConcat(ns[..k], [ns[k]] + ns[k + 1..], key);
    LoopOccConcat([ns[k]], ns[k + 1..], key);
    LoopOccConcat(ns[..k], [ns[k]], key);
    SingleLoopOcc(ns[k], key);
  }

  lemma SingleLoopOcc(n: LoopNode, key: Key)
    ensures LoopOcc([n], key) == LoopNodeOcc(n, key)
  {
    SingleLoopNode(n, RepBase(key), RepId(key));
  }

  lemma LoopOccConcat(a: seq<LoopNode>, c: seq<LoopNode>, key: Key)
    ensures LoopOcc(a + c, key) == LoopOcc(a, key) + LoopOcc(c, key)
  {
    LoopOrderConcat(a, c, RepBase(key), RepId(key));
    WithoutConcat(LoopOrder(a, RepBase(key), RepId(key)), LoopOrder(c, RepBase(key), RepId(key)), key);
  }

  lemma LoopRemovedConcat(a: seq<LoopNode>, a': seq<LoopNode>, c: seq<LoopNode>, c': seq<LoopNode>, key: Key)
    requires RemovedFromLoop(a, a', key) && RemovedFromLoop(c, c', key)
    ensures RemovedFromLoop(a + c, a' + c', key)
  {
    forall b, i | Postable(b, i)
      ensures LoopOrder(a' + c', b, i) == Without(LoopOrder(a + c, b, i), key)
    {
      LoopOrderConcat(a, c, b, i);
      LoopOrderConcat(a', c', b, i);
      WithoutConcat(LoopOrder(a, b, i), LoopOrder(c, b, i), key);
    }
  }

  lemma SingleLoopRemoved(n: LoopNode, n': LoopNode, key: Key)
    requires RemovedFromLoopNode(n, n', key)
    ensures RemovedFromLoop([n], [n'], key)
    ensures EmptyLoopNode(n') ==> RemovedFromLoop([n], [], key)
  {
    forall b, i | Postable(b, i)
      ensures LoopOrder([n'], b, i) == Without(LoopOrder([n], b, i), key)
      ensures EmptyLoopNode(n') ==> LoopOrder([n'], b, i) == []
    {
      SingleLoopNode(n, b, i);
      SingleLoopNode(n', b, i);
    }
  }

  lemma LoopNodeAllEvents(n: LoopNode, b: Base, i: int, key: Key)
    requires Postable(b, i) && ValidEvent(key.base, key.id) && BaseNodesOk(n.baseNodes)
    ensures LoopNodeOcc(n, key) == 0 ==> Occurrences(LoopNodeOrder(n, b, i), key) == 0
  {
    LoopNodeKey(n, b, i, key);
    LoopNodeKey(n, RepBase(key), RepId(key), key);
    BaseOrderKey(n.baseNodes, b, i, key);
  }

  lemma {:induction false} AbsentFromLoop(ns: seq<LoopNode>, key: Key)
    requires ValidEvent(key.base, key.id) && LoopNodesOk(ns) && LoopOcc(ns, key) == 0
    ensures RemovedFromLoop(ns, ns, key)
    decreases |ns|
  {
    hide LoopOcc, LoopNodeOcc, RemovedFromLoop;
    if ns == [] {
      NothingRemoved(key);
    } else {
      var m := |ns| - 1;
      SplitLoop(ns, m, key);
      assert ns[..m + 1] == ns;
      AbsentFromLoop(ns[..m], key);
      AbsentFromLoopNode(ns[m], key);
      SingleLoopRemoved(ns[m], ns[m], key);
      LoopRemovedConcat(ns[..m], ns[..m], [ns[m]], [ns[m]], key);
    }
  }

  lemma NothingRemoved(key: Key)
    ensures RemovedFromLoop([], [], key)
  {
  }

  lemma AbsentFromLoopNode(n: LoopNode, key: Key)
    requires ValidEvent(key.base, key.id) && BaseNodesOk(n.baseNodes) && LoopNodeOcc(n, key) == 0
    ensures RemovedFromLoopNode(n, n, key)
  {
    forall b, i | Postable(b, i)
      ensures LoopNodeOrder(n, b, i) == Without(LoopNodeOrder(n, b, i), key)
    {
      LoopNodeAllEvents(n, b, i, key);
      WithoutAbsent(LoopNodeOrder(n, b, i), key);
    }
  }

  /** The state of the removal loop: the first k loop nodes have been dealt with. */
  ghost predicate LoopDone(ns: seq<LoopNode>, cur: seq<LoopNode>, k: nat, key: Key) {
    && k <= |ns| && |cur| == |ns| && cur[k..] == ns[k..] && LoopNodesOk(cur)
    && RemovedFromLoop(ns[..k], cur[..k], key)
  }

  lemma LoopStep(ns: seq<LoopNode>, cur: seq<LoopNode>, k: nat, n': LoopNode, key: Key)
    requires LoopDone(ns, cur, k, key) && k < |ns|
    requires RemovedFromLoopNode(ns[k], n', key) && BaseNodesOk(n'.baseNodes) && !EmptyLoopNode(n')
    ensures LoopDone(ns, cur[k := n'], k + 1, key)
  {
    hide LoopOcc, LoopNodeOcc, RemovedFromLoop, RemovedFromLoopNode, BaseNodesOk;
    var cur' := cur[k := n'];
    SingleLoopRemoved(ns[k], n', key);
    assert ns[..k + 1] == ns[..k] + [ns[k]];
    assert cur'[..k + 1] == cur[..k] + [n'];
    LoopRemovedConcat(ns[..k], cur[..k], [ns[k]], [n'], key);
    assert cur'[k + 1..] == cur[k..][1..] == ns[k..][1..] == ns[k + 1..];
  }

  lemma LoopNodeGone(ns: seq<LoopNode>, cur: seq<LoopNode>, k: nat, n': LoopNode, key: Key)
    requires LoopDone(ns, cur, k, key) && k < |ns| && LoopNodesOk(ns)
    requires ValidEvent(key.base, key.id) && LoopOcc(ns, key) <= 1 && LoopNodeOcc(ns[k], key) > 0
    requires RemovedFromLoopNode(ns[k], n', key) && EmptyLoopNode(n')
    ensures LoopNodesOk(cur[..k] + cur[k + 1..])
    ensures RemovedFromLoop(ns, cur[..k] + cur[k + 1..], key)
  {
    hide LoopOcc, LoopNodeOcc, RemovedFromLoop, RemovedFromLoopNode, BaseNodesOk;
    SplitLoop(ns, k, key);
    SingleLoopRemoved(ns[k], n', key);
    AbsentFromLoop(ns[k + 1..], key);
    LoopRemovedConcat([ns[k]], [], ns[k + 1..], ns[k + 1..], key);
    LoopRemovedConcat(ns[..k], cur[..k], [ns[k]] + ns[k + 1..], [] + ns[k + 1..], key);
    assert cur[k + 1..] == cur[k..][1..] == ns[k..][1..] == ns[k + 1..] == [] + ns[k + 1..];
  }

  lemma LoopStart(ns: seq<LoopNode>, key: Key)
    requires LoopNodesOk(ns)
    ensures LoopDone(ns, ns, 0, key)
  {
    NothingRemoved(key);
    assert ns[..0] == [];
  }

  /** Changing the last loop node appends what it appends. */
  lemma LastLoopNode(ns: seq<LoopNode>, n': LoopNode, e: Entry, b: Base, i: int)
    requires ns != [] && LoopNodeOrder(n', b, i) == LoopNodeOrder(ns[|ns| - 1], b, i) + Seen(e, b, i)
    ensures LoopOrder(ns[|ns| - 1 := n'], b, i) == LoopOrder(ns, b, i) + Seen(e, b, i)
  {
    hide LoopNodeOrder, Seen;
    assert ns[|ns| - 1 := n'][..|ns| - 1] == ns[..|ns| - 1];
  }

  class Loop {
    var loopNodes: seq<LoopNode>

    /** The live registrations, oldest first. */
    ghost var log: seq<Entry>

    ghost predicate Valid()
      reads this
    {
      LoopNodesOk(loopNodes) && LogOk(log) && Refines(loopNodes, log)
    }

    constructor ()
      ensures Valid() && log == []
    {
      loopNodes, log := [], [];
    }

    /** An any/any handler behind base nodes needs a new loop node; the rest is up to the loop node. */
    ghost predicate HasMemory(base: Base, id: int, mem: Memory)
      reads this
    {
      if loopNodes == [] || (loopNodes[|loopNodes| - 1].baseNodes != [] && base == ANY_BASE && id == ANY_ID)
      then mem.loopNode && Event.HasMemory(LoopNode([], []), base, id, mem)
      else Event.HasMemory(loopNodes[|loopNodes| - 1], base, id, mem)
    }

    /** `esp_event_handler_instance_register_with`: h.ctx is the address of the new context. */
    method Register(base: Base, id: int, h: Instance, mem: Memory) returns (err: Err)
      requires Valid()
      requires forall e :: e in log ==> e.instance.ctx != h.ctx
      modifies this
      ensures Valid()
      ensures err == InvalidArg <==> !ValidEvent(base, id)
      ensures err == Ok ==> log == old(log) + [Entry(base, id, h)]
      ensures err != Ok ==> unchanged(this)
      ensures err == NoMem <==> ValidEvent(base, id) && !old(HasMemory(base, id, mem))
    {
      hide LoopNodeOrder, LoopOrder, Select, Seen, BaseNodesOk;
      if base == ANY_BASE && id != ANY_ID {
        return InvalidArg;
      }
      ghost var e := Entry(base, id, h);
      var isLoopLevel := base == ANY_BASE && id == ANY_ID;
      ghost var ns := loopNodes;
      if loopNodes == [] || (loopNodes[|loopNodes| - 1].baseNodes != [] && isLoopLevel) {
        if !mem.loopNode {
          return NoMem;
        }
        var emptyNode := LoopNode([], []);
        NoBaseNodes();
        var added := LoopNodeAddHandler(emptyNode, base, id, h, mem);
        if added.None? {
          return NoMem;
        }
        loopNodes := loopNodes + [added.value];
        forall b, i | Postable(b, i)
          ensures LoopOrder(loopNodes, b, i) == LoopOrder(ns, b, i) + Seen(e, b, i)
        {
          LoopOrderNew(ns, added.value, b, i);
          FreshLoopNode(b, i);
        }
      } else {
        var last := |loopNodes| - 1;
        var changed := LoopNodeAddHandler(loopNodes[last], base, id, h, mem);
        if changed.None? {
          return NoMem;
        }
        loopNodes := loopNodes[last := changed.value];
        forall b, i | Postable(b, i)
          ensures LoopOrder(loopNodes, b, i) == LoopOrder(ns, b, i) + Seen(e, b, i)
        {
          LastLoopNode(ns, changed.value, e, b, i);
        }
      }
      forall b, i | Postable(b, i)
        ensures LoopOrder(loopNodes, b, i) == Select(log + [e], b, i)
      {
        SelectAppend(log, e, b, i);
      }
      log := log + [e];
      return Ok;
    }

    /** `esp_event_handler_instance_unregister_with`: removes the instance if it was registered
        with this base and id, and nothing otherwise. */
    method Unregister(base: Base, id: int, ctx: nat) returns (err: Err)
      requires Valid()
      modifies this
      ensures Valid()
      ensures err == if ValidEvent(base, id) then Ok else InvalidArg
      ensures err == Ok ==> log == Without(old(log), Key(base, id, ctx))
      ensures err == InvalidArg ==> unchanged(this)
    {
      hide LoopNodeOrder, LoopOrder, Select, BaseNodesOk, LoopOcc, LoopNodeOcc,
        RemovedFromLoop, RemovedFromLoopNode, EmptyLoopNode;
      if base == ANY_BASE && id != ANY_ID {
        return InvalidArg;
      }
      ghost var key := Key(base, id, ctx);
      var ns := loopNodes;
      OnceInLoop(ns, log, key);
      LoopStart(ns, key);
      ghost var gone := false;
      for k := 0 to |ns|
        invariant log == old(log) && LoopDone(ns, loopNodes, k, key)
      {
        SplitLoop(ns, k, key);
        assert loopNodes[k] == loopNodes[k..][0] == ns[k];
        var changed, res := LoopNodeRemoveHandler(loopNodes[k], base, id, ctx);
        if res && changed.baseNodes == [] && changed.handlers == [] {
          IsEmpty(changed);
          LoopNodeGone(ns, loopNodes, k, changed, key);
          loopNodes := loopNodes[..k] + loopNodes[k + 1..];
          gone := true;
          break;
        }
        IsEmpty(changed);
        LoopStep(ns, loopNodes, k, changed, key);
        loopNodes := loopNodes[k := changed];
      }
      if !gone {
        assert ns[..|ns|] == ns && loopNodes[..|ns|] == loopNodes;
      }
      RemovalRefines(ns, loopNodes, log, key);
      log := Without(log, key);
      return Ok;
    }

    /** One turn of `esp_event_loop_run`: the handlers run for a posted event, in order. */
    method Dispatch(base: Base, id: int) returns (calls: seq<Instance>)
      requires Valid() && Postable(base, id)
      ensures calls == Instances(Select(log, base, id))
    {
      calls := [];
      assert Instances(LoopOrder(loopNodes[..0], base, id)) == [];
      assert LoopOrder(loopNodes, base, id) == Select(log, base, id);
      hide LoopOrder, LoopNodeOrder, Select, LoopNodesOk, LogOk, Refines, Loop.Valid, Instances;
      for l := 0 to |loopNodes|
        invariant calls == Instances(LoopOrder(loopNodes[..l], base, id))
      {
        var part := RunLoopNode(loopNodes[l], base, id);
        NextLoopNodeRuns(loopNodes, l, base, id);
        calls := calls + part;
      }
      assert loopNodes[..|loopNodes|] == loopNodes;
    }
  }

  lemma NextLoopNodeRuns(ns: seq<LoopNode>, l: nat, base: Base, id: int)
    requires l < |ns|
    ensures Instances(LoopOrder(ns[..l + 1], base, id)) ==
            Instances(LoopOrder(ns[..l], base, id)) + Instances(LoopNodeOrder(ns[l], base, id))
  {
    hide LoopOrder, LoopNodeOrder, Instances;
    LoopOrderNew(ns[..l], ns[l], base, id);
    assert ns[..l + 1] == ns[..l] + [ns[l]];
    InstancesConcat(LoopOrder(ns[..l], base, id), LoopNodeOrder(ns[l], base, id));
  }

  lemma NoBaseNodes()
    ensures BaseNodesOk([])
  {
  }

  lemma FreshLoopNode(b: Base, i: int)
    ensures LoopNodeOrder(LoopNode([], []), b, i) == []
  {
  }

  lemma IsEmpty(n: LoopNode)
    ensures EmptyLoopNode(n) <==> n.baseNodes == [] && n.handlers == []
  {
  }

  lemma OnceInLoop(ns: seq<LoopNode>, log: seq<Entry>, key: Key)
    requires Refines(ns, log) && LogOk(log) && ValidEvent(key.base, key.id)
    ensures LoopOcc(ns, key) <= 1
  {
    SelectWithout(log, key, RepBase(key), RepId(key));
    KeyOccursOnce(log, key);
  }

  lemma RemovalRefines(ns: seq<LoopNode>, ns': seq<LoopNode>, log: seq<Entry>, key: Key)
    requires Refines(ns, log) && RemovedFromLoop(ns, ns', key) && LogOk(log)
    ensures Refines(ns', Without(log, key)) && LogOk(Without(log, key))
  {
    WithoutLogOk(log, key);
    forall b, i | Postable(b, i)
      ensures LoopOrder(ns', b, i) == Select(Without(log, key), b, i)
    {
      SelectWithout(log, key, b, i);
    }
  }

  lemma InstancesConcat(a: seq<Entry>, c: seq<Entry>)
    ensures Instances(a + c) == Instances(a) + Instances(c)
  {
  }

  lemma InstancesOfTag(base: Base, id: int, hs: seq<Instance>)
    ensures Instances(Tag(base, id, hs)) == hs
  {
  }

  /** The handlers of one loop node, and of its base nodes that carry the event's base. */
  method RunLoopNode(n: LoopNode, base: Base, id: int) returns (calls: seq<Instance>)
    ensures calls == Instances(LoopNodeOrder(n, base, id))
  {
    InstancesOfTag(ANY_BASE, ANY_ID, n.handlers);
    InstancesConcat(Tag(ANY_BASE, ANY_ID, n.handlers), BaseOrder(n.baseNodes, base, id));
    var ns := n.baseNodes;
    var inner: seq<Instance> := [];
    for k := 0 to |ns|
      invariant inner == Instances(BaseOrder(ns[..k], base, id))
    {
      BaseOrderNew(ns[..k], ns[k], base, id);
      assert ns[..k + 1] == ns[..k] + [ns[k]];
      InstancesConcat(BaseOrder(ns[..k], base, id), BaseNodeOrder(ns[k], base, id));
      if ns[k].base == base {
        var part := RunBaseNode(ns[k], id);
        inner := inner + part;
      }
    }
    assert ns[..|ns|] == ns;
    calls := n.handlers + inner;
  }

  /** The handlers of one base node, and of the first of its id nodes that carries the id. */
  method RunBaseNode(n: BaseNode, id: int) returns (calls: seq<Instance>)
    ensures calls == Instances(BaseNodeOrder(n, n.base, id))
  {
    calls := n.handlers;
    InstancesOfTag(n.base, ANY_ID, n.handlers);
    InstancesConcat(Tag(n.base, ANY_ID, n.handlers), IdOrder(n.idNodes, n.base, id));
    for k := 0 to |n.idNodes|
      invariant calls == n.handlers
      invariant forall j :: 0 <= j < k ==> n.idNodes[j].id != id
    {
      if n.idNodes[k].id == id {
        IdOrderLookup(n.idNodes, k, n.base);
        InstancesOfTag(n.base, id, n.idNodes[k].handlers);
        return calls + n.idNodes[k].handlers;
      }
    }
    IdOrderMissing(n.idNodes, n.base, id);
  }

  // ---- Histories ----

  datatype Call =
    | RegisterCall(base: Base, id: int, h: Instance, mem: Memory)
    | UnregisterCall(base: Base, id: int, ctx: nat)

  /** The registrations that a history leaves live, given which of its calls succeeded. */
  ghost function Live(calls: seq<Call>, errs: seq<Err>): seq<Entry>
    requires |calls| == |errs|
  {
    if calls == [] then []
    else
      var before := Live(calls[..|calls| - 1], errs[..|errs| - 1]);
      if errs[|errs| - 1] != Ok then before
      else match calls[|calls| - 1]
        case RegisterCall(base, id, h, _) => before + [Entry(base, id, h)]
        case UnregisterCall(base, id, ctx) => Without(before, Key(base, id, ctx))
  }

  /** An answer that a call can get: exactly the calls for a rejected pair are invalid, any other
      unregistration succeeds, and so does any other registration that gets its memory. */
  ghost predicate PossibleAnswer(call: Call, err: Err) {
    && (err == InvalidArg <==> !ValidEvent(call.base, call.id))
    && (err == NoMem ==> call.RegisterCall? && call.mem != Memory(true, true, true, true, true))
  }

  ghost predicate Possible(calls: seq<Call>, errs: seq<Err>) {
    && |calls| == |errs|
    && forall j :: 0 <= j < |calls| ==> PossibleAnswer(calls[j], errs[j])
  }

  /** The allocator's promise: the context of a new registration is none of those that may be live
      at that time.  The context of an unregistered instance may be used again. */
  ghost predicate FreshContexts(calls: seq<Call>) {
    forall k, errs | 0 <= k < |calls| && calls[k].RegisterCall? && Possible(calls[..k], errs) ::
      forall e :: e in Live(calls[..k], errs) ==> e.instance.ctx != calls[k].h.ctx
  }

  /** Registering again at the address of an unregistered instance is an ordinary history. */
  lemma ContextsCanBeReused(base: Base, id: int, h: Instance, mem: Memory)
    requires ValidEvent(base, id)
    ensures FreshContexts([RegisterCall(base, id, h, mem), UnregisterCall(base, id, h.ctx),
                           RegisterCall(base, id, h, mem)])
  {
    var calls := [RegisterCall(base, id, h, mem), UnregisterCall(base, id, h.ctx), RegisterCall(base, id, h, mem)];
    forall errs | Possible(calls[..2], errs) ensures Live(calls[..2], errs) == [] {
      assert calls[..2][..1] == calls[..1] && calls[..2][1] == calls[1] && calls[..1][..0] == [];
      var e := Entry(base, id, h);
      assert errs[..1][..0] == [] && [e][..0] == [];
      assert Live(calls[..1], errs[..1]) == if errs[0] == Ok then [e] else [];
      assert Without([e], Key(base, id, h.ctx)) == [];
      assert Live(calls[..2], errs) == Without(Live(calls[..1], errs[..1]), Key(base, id, h.ctx));
    }
  }

  /** For any history of registrations, failed or not, and unregistrations, any event then runs
      exactly the live instances that match it, in the order of their registration. */
  method History(loop: Loop, calls: seq<Call>, base: Base, id: int) returns (errs: seq<Err>, ran: seq<Instance>)
    requires loop.Valid() && loop.log == [] && FreshContexts(calls) && Postable(base, id)
    modifies loop
    ensures loop.Valid() && Possible(calls, errs) && loop.log == Live(calls, errs)
    ensures ran == Instances(Select(Live(calls, errs), base, id))
  {
    hide Select, Loop.Valid, Without;
    errs := [];
    for k := 0 to |calls|
      invariant loop.Valid() && Possible(calls[..k], errs) && loop.log == Live(calls[..k], errs)
    {
      var err;
      match calls[k] {
        case RegisterCall(b, i, h, mem) =>
          err := loop.Register(b, i, h, mem);
        case UnregisterCall(b, i, ctx) =>
          err := loop.Unregister(b, i, ctx);
      }
      assert calls[..k + 1][..k] == calls[..k] && (errs + [err])[..k] == errs;
      errs := errs + [err];
    }
    assert calls[..|calls|] == calls;
    ran := loop.Dispatch(base, id);
  }
}
