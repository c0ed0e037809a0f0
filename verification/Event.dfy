/** The handler registry of esp_event.c: loop nodes hold loop-level handlers and base nodes, base
    nodes hold base-level handlers and id nodes, and id nodes hold handlers.  New nodes are opened
    so that dispatch follows the order of registration. */
module Event {
  import opened Common

  /** `esp_event_base_t` is a pointer; NULL stands for any base. */
  type Base = nat

  const ANY_BASE: Base := 0
  const ANY_ID: int := -1

  /** A registered instance; `ctx` is the address of its context. */
  datatype Instance = Instance(ctx: nat, handler: nat, arg: nat)

  datatype IdNode = IdNode(id: int, handlers: seq<Instance>)
  datatype BaseNode = BaseNode(base: Base, handlers: seq<Instance>, idNodes: seq<IdNode>)
  datatype LoopNode = LoopNode(handlers: seq<Instance>, baseNodes: seq<BaseNode>)

  /** An instance with the base and id it is registered for. */
  datatype Entry = Entry(base: Base, id: int, instance: Instance)

  /** Registration accepts these pairs only. */
  predicate ValidEvent(base: Base, id: int) {
    base != ANY_BASE || id == ANY_ID
  }

  /** The promise of the interface: any/any, base/any and base/id handlers see the event. */
  predicate Matches(e: Entry, base: Base, id: int) {
    (e.base == ANY_BASE || e.base == base) && (e.id == ANY_ID || e.id == id)
  }

  function Select(log: seq<Entry>, base: Base, id: int): seq<Entry> {
    if log == [] then []
    else Select(log[..|log| - 1], base, id) + if Matches(log[|log| - 1], base, id) then [log[|log| - 1]] else []
  }

  function Tag(base: Base, id: int, hs: seq<Instance>): (r: seq<Entry>)
    ensures |r| == |hs|
  {
    seq(|hs|, k requires 0 <= k < |hs| => Entry(base, id, hs[k]))
  }

  /** Dispatch order, each handler tagged with the place it was found in.  Within a base node only
      the first id node of the event is looked at. */
  function IdOrder(ns: seq<IdNode>, base: Base, id: int): seq<Entry> {
    if ns == [] then []
    else if ns[0].id == id then Tag(base, id, ns[0].handlers)
    else IdOrder(ns[1..], base, id)
  }

  function BaseNodeOrder(n: BaseNode, base: Base, id: int): seq<Entry> {
    if n.base == base then Tag(base, ANY_ID, n.handlers) + IdOrder(n.idNodes, base, id) else []
  }

  function BaseOrder(ns: seq<BaseNode>, base: Base, id: int): seq<Entry> {
    if ns == [] then [] else BaseOrder(ns[..|ns| - 1], base, id) + BaseNodeOrder(ns[|ns| - 1], base, id)
  }

  function LoopNodeOrder(n: LoopNode, base: Base, id: int): seq<Entry> {
    Tag(ANY_BASE, ANY_ID, n.handlers) + BaseOrder(n.baseNodes, base, id)
  }

  function LoopOrder(ns: seq<LoopNode>, base: Base, id: int): seq<Entry> {
    if ns == [] then [] else LoopOrder(ns[..|ns| - 1], base, id) + LoopNodeOrder(ns[|ns| - 1], base, id)
  }

  // ---- Registration ----

  /** Which of the `calloc` calls of one registration succeed. */
  datatype Memory = Memory(loopNode: bool, baseNode: bool, idNode: bool, handlerNode: bool, context: bool)

  datatype Err = Ok | NoMem | InvalidArg

  ghost predicate HasId(ns: seq<IdNode>, id: int) {
    exists k :: 0 <= k < |ns| && ns[k].id == id
  }

  /** No id node is empty, and no id has two nodes. */
  ghost predicate IdNodesOk(ns: seq<IdNode>) {
    && (forall k :: 0 <= k < |ns| ==> ns[k].id != ANY_ID && ns[k].handlers != [])
    && (forall j, k :: 0 <= j < k < |ns| ==> ns[j].id != ns[k].id)
  }

  predicate EmptyBaseNode(n: BaseNode) {
    n.handlers == [] && n.idNodes == []
  }

  predicate EmptyLoopNode(n: LoopNode) {
    n.handlers == [] && n.baseNodes == []
  }

  ghost predicate BaseNodesOk(ns: seq<BaseNode>) {
    forall k :: 0 <= k < |ns| ==> ns[k].base != ANY_BASE && IdNodesOk(ns[k].idNodes) && !EmptyBaseNode(ns[k])
  }

  ghost predicate LoopNodesOk(ns: seq<LoopNode>) {
    forall k :: 0 <= k < |ns| ==> BaseNodesOk(ns[k].baseNodes) && !EmptyLoopNode(ns[k])
  }

  /** What an event sees of a new entry. */
  function Seen(e: Entry, base: Base, id: int): seq<Entry> {
    if Matches(e, base, id) then [e] else []
  }

  /** Events that can be posted. */
  predicate Postable(base: Base, id: int) {
    base != ANY_BASE && id != ANY_ID
  }

  lemma TagAppend(base: Base, id: int, hs: seq<Instance>, h: Instance)
    ensures Tag(base, id, hs + [h]) == Tag(base, id, hs) + [Entry(base, id, h)]
  {
  }

  lemma TagConcat(base: Base, id: int, x: seq<Instance>, y: seq<Instance>)
    ensures Tag(base, id, x + y) == Tag(base, id, x) + Tag(base, id, y)
  {
  }

  /** A new handler of the one id node of its id is the last that an event of this id sees there. */
  lemma {:induction false} IdOrderAppend(ns: seq<IdNode>, k: nat, base: Base, id: int, h: Instance)
    requires k < |ns| && IdNodesOk(ns)
    ensures IdOrder(ns[k := IdNode(ns[k].id, ns[k].handlers + [h])], base, id)
            == IdOrder(ns, base, id) + if id == ns[k].id then [Entry(base, id, h)] else []
    decreases k
  {
    var ns' := ns[k := IdNode(ns[k].id, ns[k].handlers + [h])];
    if k == 0 {
      TagAppend(base, id, ns[0].handlers, h);
      assert ns'[1..] == ns[1..];
      if id != ns[0].id {
        assert IdOrder(ns', base, id) == IdOrder(ns[1..], base, id);
      }
    } else {
      IdOrderAppend(ns[1..], k - 1, base, id, h);
      assert ns'[1..] == ns[1..][k - 1 := IdNode(ns[k].id, ns[k].handlers + [h])];
    }
  }

  lemma HasIdTail(ns: seq<IdNode>, id: int)
    requires ns != []
    ensures HasId(ns[1..], id) ==> HasId(ns, id)
  {
    if HasId(ns[1..], id) {
      var k :| 0 <= k < |ns[1..]| && ns[1..][k].id == id;
      assert ns[k + 1].id == id;
    }
  }

  lemma {:induction false} IdOrderNew(ns: seq<IdNode>, n: IdNode, base: Base, id: int)
    requires !HasId(ns, n.id)
    ensures IdOrder(ns + [n], base, id) == IdOrder(ns, base, id) + if id == n.id then Tag(base, id, n.handlers) else []
  {
    if ns == [] {
      assert (ns + [n])[1..] == [];
    } else {
      assert ns[0].id != n.id;
      assert (ns + [n])[1..] == ns[1..] + [n];
      HasIdTail(ns, n.id);
      IdOrderNew(ns[1..], n, base, id);
    }
  }

  /** Appending a handler to a list and, unless memory runs out, its node and context. */
  method HandlerInstancesAdd(hs: seq<Instance>, h: Instance, mem: Memory) returns (r: Option<seq<Instance>>)
    ensures r == if mem.handlerNode && mem.context then Some(hs + [h]) else None
  {
    if !mem.handlerNode || !mem.context {
      return None;
    }
    r := Some(hs + [h]);
  }

  /** Adds a handler to a base node; id nodes are looked up by id and opened at the end. */
  method BaseNodeAddHandler(n: BaseNode, id: int, h: Instance, mem: Memory) returns (r: Option<BaseNode>)
    requires n.base != ANY_BASE && IdNodesOk(n.idNodes)
    requires id == ANY_ID ==> n.idNodes == []
    ensures r.Some? <==> mem.handlerNode && mem.context && (id != ANY_ID && !HasId(n.idNodes, id) ==> mem.idNode)
    ensures r.Some? ==> r.value.base == n.base && IdNodesOk(r.value.idNodes) && !EmptyBaseNode(r.value)
    ensures r.Some? ==> forall b, i :: Postable(b, i) ==>
                          BaseNodeOrder(r.value, b, i) == BaseNodeOrder(n, b, i) + Seen(Entry(n.base, id, h), b, i)
  {
    if id == ANY_ID {
      var hs := HandlerInstancesAdd(n.handlers, h, mem);
      if hs.None? {
        return None;
      }
      TagAppend(n.base, ANY_ID, n.handlers, h);
      return Some(n.(handlers := hs.value));
    }
    var found: Option<nat> := None;
    for k := 0 to |n.idNodes|
      invariant found.Some? ==> found.value < k && n.idNodes[found.value].id == id
      invariant found.None? ==> forall j :: 0 <= j < k ==> n.idNodes[j].id != id
    {
      if n.idNodes[k].id == id {
        found := Some(k);
      }
    }
    if found.None? {
      if !mem.idNode {
        return None;
      }
      var hs := HandlerInstancesAdd([], h, mem);
      if hs.None? {
        return None;
      }
      r := Some(n.(idNodes := n.idNodes + [IdNode(id, hs.value)]));
      forall b, i | Postable(b, i)
        ensures BaseNodeOrder(r.value, b, i) == BaseNodeOrder(n, b, i) + Seen(Entry(n.base, id, h), b, i)
      {
        IdOrderNew(n.idNodes, IdNode(id, hs.value), b, i);
        TagAppend(b, i, [], h);
      }
    } else {
      var k := found.value;
      var hs := HandlerInstancesAdd(n.idNodes[k].handlers, h, mem);
      if hs.None? {
        return None;
      }
      r := Some(n.(idNodes := n.idNodes[k := IdNode(n.idNodes[k].id, hs.value)]));
      forall b, i | Postable(b, i)
        ensures BaseNodeOrder(r.value, b, i) == BaseNodeOrder(n, b, i) + Seen(Entry(n.base, id, h), b, i)
      {
        IdOrderAppend(n.idNodes, k, b, i, h);
      }
    }
  }

  lemma OtherBaseUnseen(n: BaseNode, e: Entry, base: Base, id: int)
    requires n.base != e.base && e.base != ANY_BASE
    ensures BaseNodeOrder(n, base, id) == [] || Seen(e, base, id) == []
  {
  }

  /** Changing the last base node of a base appends at the end of what its events see. */
  lemma {:induction false} BaseOrderUpdate(ns: seq<BaseNode>, k: nat, n': BaseNode, e: Entry, base: Base, id: int)
    requires k < |ns| && ns[k].base == n'.base == e.base != ANY_BASE
    requires forall j :: k < j < |ns| ==> ns[j].base != e.base
    requires BaseNodeOrder(n', base, id) == BaseNodeOrder(ns[k], base, id) + Seen(e, base, id)
    ensures BaseOrder(ns[k := n'], base, id) == BaseOrder(ns, base, id) + Seen(e, base, id)
    decreases |ns|
  {
    hide BaseNodeOrder, Seen;
    var m := |ns| - 1;
    var ns' := ns[k := n'];
    BaseOrderNew(ns[..m], ns[m], base, id);
    BaseOrderNew(ns'[..m], ns'[m], base, id);
    assert ns == ns[..m] + [ns[m]] && ns' == ns'[..m] + [ns'[m]];
    if k == m {
      assert ns'[..m] == ns[..m];
    } else {
      assert ns'[..m] == ns[..m][k := n'] && ns'[m] == ns[m];
      BaseOrderUpdate(ns[..m], k, n', e, base, id);
      OtherBaseUnseen(ns[m], e, base, id);
    }
  }

  lemma BaseOrderNew(ns: seq<BaseNode>, n: BaseNode, base: Base, id: int)
    ensures BaseOrder(ns + [n], base, id) == BaseOrder(ns, base, id) + BaseNodeOrder(n, base, id)
  {
    assert (ns + [n])[..|ns|] == ns;
  }

  lemma LoopNodeOrderNew(n: LoopNode, empty: BaseNode, added: BaseNode, e: Entry, b: Base, i: int)
    requires EmptyBaseNode(empty) && BaseNodeOrder(added, b, i) == BaseNodeOrder(empty, b, i) + Seen(e, b, i)
    ensures LoopNodeOrder(n.(baseNodes := n.baseNodes + [added]), b, i) == LoopNodeOrder(n, b, i) + Seen(e, b, i)
  {
    BaseOrderNew(n.baseNodes, added, b, i);
    assert BaseNodeOrder(empty, b, i) == [];
  }

  lemma LoopNodeOrderUpdate(n: LoopNode, k: nat, n': BaseNode, e: Entry, b: Base, i: int)
    requires k < |n.baseNodes| && n.baseNodes[k].base == n'.base == e.base != ANY_BASE
    requires forall j :: k < j < |n.baseNodes| ==> n.baseNodes[j].base != e.base
    requires BaseNodeOrder(n', b, i) == BaseNodeOrder(n.baseNodes[k], b, i) + Seen(e, b, i)
    ensures LoopNodeOrder(n.(baseNodes := n.baseNodes[k := n']), b, i) == LoopNodeOrder(n, b, i) + Seen(e, b, i)
  {
    hide BaseNodeOrder;
    BaseOrderUpdate(n.baseNodes, k, n', e, b, i);
  }

  /** The last base node of this base. */
  ghost predicate IsLastOf(ns: seq<BaseNode>, base: Base, k: nat) {
    k < |ns| && ns[k].base == base && forall j :: k < j < |ns| ==> ns[j].base != base
  }

  /** A new base node has to be opened: none has this base, or an any-id handler would be dispatched
      before an earlier id handler of its base or of the last base node. */
  ghost predicate NeedsBaseNode(ns: seq<BaseNode>, base: Base, id: int) {
    forall k: nat :: IsLastOf(ns, base, k) ==>
      id == ANY_ID && (ns[k].idNodes != [] || (k < |ns| - 1 && ns[|ns| - 1].base != base && ns[|ns| - 1].idNodes != []))
  }

  /** A new id node has to be opened. */
  ghost predicate NeedsIdNode(ns: seq<BaseNode>, base: Base, id: int) {
    id != ANY_ID && forall k: nat :: IsLastOf(ns, base, k) ==> !HasId(ns[k].idNodes, id)
  }

  /** The allocations that adding a handler to this loop node makes are possible. */
  ghost predicate HasMemory(n: LoopNode, base: Base, id: int, mem: Memory) {
    && mem.handlerNode && mem.context
    && (base != ANY_BASE && NeedsBaseNode(n.baseNodes, base, id) ==> mem.baseNode)
    && (base != ANY_BASE && NeedsIdNode(n.baseNodes, base, id) ==> mem.idNode)
  }

  /** Adds a handler to a loop node.  A new base node is opened when the base has none here, or
      when an any-id handler would otherwise be dispatched before an earlier id handler. */
  method LoopNodeAddHandler(n: LoopNode, base: Base, id: int, h: Instance, mem: Memory) returns (r: Option<LoopNode>)
    requires ValidEvent(base, id) && BaseNodesOk(n.baseNodes)
    requires base == ANY_BASE ==> n.baseNodes == []
    ensures r.Some? <==> HasMemory(n, base, id, mem)
    ensures r.Some? ==> BaseNodesOk(r.value.baseNodes) && !EmptyLoopNode(r.value)
    ensures r.Some? ==> forall b, i :: Postable(b, i) ==>
                          LoopNodeOrder(r.value, b, i) == LoopNodeOrder(n, b, i) + Seen(Entry(base, id, h), b, i)
  {
    if base == ANY_BASE && id == ANY_ID {
      var hs := HandlerInstancesAdd(n.handlers, h, mem);
      if hs.None? {
        return None;
      }
      TagAppend(ANY_BASE, ANY_ID, n.handlers, h);
      return Some(n.(handlers := hs.value));
    }
    var ns := n.baseNodes;
    var found: Option<nat> := None;
    for k := 0 to |ns|
      invariant found.Some? ==> found.value < k && ns[found.value].base == base
      invariant forall j :: (if found.Some? then found.value + 1 else 0) <= j < k ==> ns[j].base != base
    {
      if ns[k].base == base {
        found := Some(k);
      }
    }
    ghost var e := Entry(base, id, h);
    hide BaseNodeOrder, LoopNodeOrder, Seen;
    if |ns| == 0 || found.None?
       || (ns[found.value].idNodes != [] && id == ANY_ID)
       || (ns[|ns| - 1].base != base && ns[|ns| - 1].idNodes != [] && id == ANY_ID) {
      if !mem.baseNode {
        return None;
      }
      var emptyNode := BaseNode(base, [], []);
      var added := BaseNodeAddHandler(emptyNode, id, h, mem);
      if added.None? {
        return None;
      }
      r := Some(n.(baseNodes := ns + [added.value]));
      forall b, i | Postable(b, i)
        ensures LoopNodeOrder(r.value, b, i) == LoopNodeOrder(n, b, i) + Seen(e, b, i)
      {
        LoopNodeOrderNew(n, emptyNode, added.value, e, b, i);
      }
    } else {
      var k := found.value;
      var changed := BaseNodeAddHandler(ns[k], id, h, mem);
      if changed.None? {
        return None;
      }
      r := Some(n.(baseNodes := ns[k := changed.value]));
      forall b, i | Postable(b, i)
        ensures LoopNodeOrder(r.value, b, i) == LoopNodeOrder(n, b, i) + Seen(e, b, i)
      {
        LoopNodeOrderUpdate(n, k, changed.value, e, b, i);
      }
    }
  }

  lemma LoopOrderNew(ns: seq<LoopNode>, n: LoopNode, base: Base, id: int)
    ensures LoopOrder(ns + [n], base, id) == LoopOrder(ns, base, id) + LoopNodeOrder(n, base, id)
  {
    assert (ns + [n])[..|ns|] == ns;
  }

  // ---- Removal ----

  /** What a call of unregister names. */
  datatype Key = Key(base: Base, id: int, ctx: nat)

  predicate IsKey(e: Entry, key: Key) {
    e.base == key.base && e.id == key.id && e.instance.ctx == key.ctx
  }

  function Without(s: seq<Entry>, key: Key): seq<Entry> {
    if s == [] then []
    else Without(s[..|s| - 1], key) + if IsKey(s[|s| - 1], key) then [] else [s[|s| - 1]]
  }

  function Occurrences(s: seq<Entry>, key: Key): nat {
    if s == [] then 0
    else Occurrences(s[..|s| - 1], key) + if IsKey(s[|s| - 1], key) then 1 else 0
  }

  lemma {:induction false} WithoutConcat(a: seq<Entry>, b: seq<Entry>, key: Key)
    ensures Without(a + b, key) == Without(a, key) + Without(b, key)
    ensures Occurrences(a + b, key) == Occurrences(a, key) + Occurrences(b, key)
    decreases |b|
  {
    if b == [] {
      assert a + b == a;
    } else {
      var m := |b| - 1;
      assert (a + b)[..|a + b| - 1] == a + b[..m];
      WithoutConcat(a, b[..m], key);
    }
  }

  lemma {:induction false} WithoutAbsent(s: seq<Entry>, key: Key)
    ensures Occurrences(s, key) == 0 <==> forall k :: 0 <= k < |s| ==> !IsKey(s[k], key)
    ensures Occurrences(s, key) == 0 ==> Without(s, key) == s
  {
    if s != [] {
      var m := |s| - 1;
      WithoutAbsent(s[..m], key);
      assert s == s[..m] + [s[m]];
    }
  }

  lemma RemoveMiddle(a: seq<Entry>, x: Entry, b: seq<Entry>, key: Key)
    requires IsKey(x, key) && Occurrences(a + ([x] + b), key) <= 1
    ensures Occurrences(a + ([x] + b), key) == 1
    ensures Without(a + ([x] + b), key) == a + b
  {
    WithoutConcat(a, [x] + b, key);
    WithoutConcat([x], b, key);
    assert [x][..0] == [];
    WithoutAbsent(a, key);
    WithoutAbsent(b, key);
  }

  lemma TagRemove(base: Base, id: int, hs: seq<Instance>, k: nat, key: Key)
    requires k < |hs| && key == Key(base, id, hs[k].ctx) && Occurrences(Tag(base, id, hs), key) <= 1
    ensures Occurrences(Tag(base, id, hs), key) == 1
    ensures Tag(base, id, hs[..k] + hs[k + 1..]) == Without(Tag(base, id, hs), key)
  {
    hide Occurrences, Without;
    var a, x, b := Tag(base, id, hs[..k]), Entry(base, id, hs[k]), Tag(base, id, hs[k + 1..]);
    assert hs == hs[..k] + ([hs[k]] + hs[k + 1..]);
    TagConcat(base, id, hs[..k], [hs[k]] + hs[k + 1..]);
    TagConcat(base, id, [hs[k]], hs[k + 1..]);
    TagConcat(base, id, hs[..k], hs[k + 1..]);
    assert Tag(base, id, [hs[k]]) == [x];
    RemoveMiddle(a, x, b, key);
  }

  /** Removes the first handler with the context, if there is one. */
  method HandlerInstancesRemove(hs: seq<Instance>, ctx: nat, ghost base: Base, ghost id: int)
    returns (hs': seq<Instance>, ok: bool)
    requires Occurrences(Tag(base, id, hs), Key(base, id, ctx)) <= 1
    ensures ok <==> Occurrences(Tag(base, id, hs), Key(base, id, ctx)) == 1
    ensures !ok ==> hs' == hs
    ensures Tag(base, id, hs') == Without(Tag(base, id, hs), Key(base, id, ctx))
    ensures ok ==> |hs'| == |hs| - 1
  {
    for k := 0 to |hs|
      invariant forall j :: 0 <= j < k ==> hs[j].ctx != ctx
    {
      if hs[k].ctx == ctx {
        TagRemove(base, id, hs, k, Key(base, id, ctx));
        return hs[..k] + hs[k + 1..], true;
      }
    }
    WithoutAbsent(Tag(base, id, hs), Key(base, id, ctx));
    return hs, false;
  }

  /** An event through which the entries of a key are visible. */
  function RepBase(key: Key): Base {
    if key.base == ANY_BASE then 1 else key.base
  }

  function RepId(key: Key): int {
    if key.id == ANY_ID then 0 else key.id
  }

  /** Events that see the entries of a key. */
  predicate Sees(key: Key, base: Base, id: int) {
    (key.base == ANY_BASE || key.base == base) && (key.id == ANY_ID || key.id == id)
  }

  // Id nodes: an id is looked up in the one node that carries it.

  lemma {:induction false} IdOrderLookup(ns: seq<IdNode>, k: nat, base: Base)
    requires k < |ns| && forall j :: 0 <= j < k ==> ns[j].id != ns[k].id
    ensures IdOrder(ns, base, ns[k].id) == Tag(base, ns[k].id, ns[k].handlers)
  {
    if k > 0 {
      IdOrderLookup(ns[1..], k - 1, base);
    }
  }

  lemma {:induction false} IdOrderMissing(ns: seq<IdNode>, base: Base, id: int)
    requires forall j :: 0 <= j < |ns| ==> ns[j].id != id
    ensures IdOrder(ns, base, id) == []
  {
    if ns != [] {
      IdOrderMissing(ns[1..], base, id);
    }
  }

  /** Two lists that agree on which handlers an id has are seen alike. */
  lemma IdOrderSame(ns: seq<IdNode>, ms: seq<IdNode>, base: Base, id: int)
    requires IdNodesOk(ns) && IdNodesOk(ms)
    requires forall j :: 0 <= j < |ns| && ns[j].id == id ==> ns[j] in ms
    requires forall j :: 0 <= j < |ms| && ms[j].id == id ==> ms[j] in ns
    ensures IdOrder(ns, base, id) == IdOrder(ms, base, id)
  {
    if j :| 0 <= j < |ns| && ns[j].id == id {
      var k :| 0 <= k < |ms| && ms[k] == ns[j];
      IdOrderLookup(ns, j, base);
      IdOrderLookup(ms, k, base);
    } else {
      IdOrderMissing(ns, base, id);
      IdOrderMissing(ms, base, id);
    }
  }

  /** How often a key occurs in a tagged list of another place: never. */
  lemma TagForeign(base: Base, id: int, hs: seq<Instance>, key: Key)
    requires base != key.base || id != key.id
    ensures Occurrences(Tag(base, id, hs), key) == 0 && Without(Tag(base, id, hs), key) == Tag(base, id, hs)
  {
    WithoutAbsent(Tag(base, id, hs), key);
  }

  lemma IdOrderForeign(ns: seq<IdNode>, base: Base, id: int, key: Key)
    requires base != key.base || id != key.id
    ensures Occurrences(IdOrder(ns, base, id), key) == 0 && Without(IdOrder(ns, base, id), key) == IdOrder(ns, base, id)
    decreases |ns|
  {
    if ns != [] {
      TagForeign(base, id, ns[0].handlers, key);
      IdOrderForeign(ns[1..], base, id, key);
    }
  }

  /** For every event, n' shows what n showed but for the key. */
  ghost predicate RemovedFrom(n: BaseNode, n': BaseNode, key: Key) {
    forall b, i :: Postable(b, i) ==> BaseNodeOrder(n', b, i) == Without(BaseNodeOrder(n, b, i), key)
  }

  /** A base-level key occurs among the base-level handlers only. */
  lemma BaseLevelKey(n: BaseNode, i: int, key: Key)
    requires key.base == n.base && key.id == ANY_ID && i != ANY_ID
    ensures Occurrences(BaseNodeOrder(n, n.base, i), key) == Occurrences(Tag(n.base, ANY_ID, n.handlers), key)
    ensures Without(BaseNodeOrder(n, n.base, i), key)
            == Without(Tag(n.base, ANY_ID, n.handlers), key) + IdOrder(n.idNodes, n.base, i)
  {
    WithoutConcat(Tag(n.base, ANY_ID, n.handlers), IdOrder(n.idNodes, n.base, i), key);
    IdOrderForeign(n.idNodes, n.base, i, key);
  }

  /** An id-level key occurs among the handlers of its id only. */
  lemma IdLevelKey(n: BaseNode, i: int, key: Key)
    requires key.base == n.base && key.id != ANY_ID && i != ANY_ID
    ensures Occurrences(BaseNodeOrder(n, n.base, i), key) == Occurrences(IdOrder(n.idNodes, n.base, i), key)
    ensures Without(BaseNodeOrder(n, n.base, i), key)
            == Tag(n.base, ANY_ID, n.handlers) + Without(IdOrder(n.idNodes, n.base, i), key)
    ensures i != key.id ==> Without(IdOrder(n.idNodes, n.base, i), key) == IdOrder(n.idNodes, n.base, i)
  {
    WithoutConcat(Tag(n.base, ANY_ID, n.handlers), IdOrder(n.idNodes, n.base, i), key);
    TagForeign(n.base, ANY_ID, n.handlers, key);
    if i != key.id {
      IdOrderForeign(n.idNodes, n.base, i, key);
    }
  }

  lemma IdNodeReplaced(n: BaseNode, k: nat, hs: seq<Instance>, key: Key)
    requires key.base == n.base && key.id != ANY_ID && IdNodesOk(n.idNodes)
    requires k < |n.idNodes| && n.idNodes[k].id == key.id && hs != []
    requires Tag(n.base, key.id, hs) == Without(Tag(n.base, key.id, n.idNodes[k].handlers), key)
    ensures IdNodesOk(n.idNodes[k := IdNode(key.id, hs)])
    ensures RemovedFrom(n, n.(idNodes := n.idNodes[k := IdNode(key.id, hs)]), key)
  {
    var ns' := n.idNodes[k := IdNode(key.id, hs)];
    forall b, i | Postable(b, i)
      ensures BaseNodeOrder(n.(idNodes := ns'), b, i) == Without(BaseNodeOrder(n, b, i), key)
    {
      if b == n.base {
        IdLevelKey(n, i, key);
        if i == key.id {
          IdOrderLookup(n.idNodes, k, b);
          IdOrderLookup(ns', k, b);
        } else {
          assert forall j :: 0 <= j < |ns'| && j != k ==> ns'[j] == n.idNodes[j];
          IdOrderSame(n.idNodes, ns', b, i);
        }
      }
    }
  }

  /** Unlinking the only node of its id. */
  lemma IdNodesWithout(ns: seq<IdNode>, ns': seq<IdNode>, k: nat, base: Base)
    requires IdNodesOk(ns) && k < |ns| && ns' == ns[..k] + ns[k + 1..]
    ensures IdNodesOk(ns')
    ensures IdOrder(ns', base, ns[k].id) == []
  {
    hide IdOrder;
    assert forall j :: 0 <= j < |ns'| ==> ns'[j] == ns[if j < k then j else j + 1];
    IdOrderMissing(ns', base, ns[k].id);
  }

  lemma IdNodesWithoutOther(ns: seq<IdNode>, ns': seq<IdNode>, k: nat, base: Base, i: int)
    requires IdNodesOk(ns) && k < |ns| && ns' == ns[..k] + ns[k + 1..] && IdNodesOk(ns') && i != ns[k].id
    ensures IdOrder(ns', base, i) == IdOrder(ns, base, i)
  {
    hide IdNodesOk, IdOrder;
    forall j | 0 <= j < |ns| && ns[j].id == i
      ensures ns[j] in ns'
    {
      assert ns'[if j < k then j else j - 1] == ns[j];
    }
    IdOrderSame(ns, ns', base, i);
  }

  lemma IdNodeRemoved(n: BaseNode, k: nat, key: Key)
    requires key.base == n.base && key.id != ANY_ID && IdNodesOk(n.idNodes)
    requires k < |n.idNodes| && n.idNodes[k].id == key.id
    requires Without(Tag(n.base, key.id, n.idNodes[k].handlers), key) == []
    ensures IdNodesOk(n.idNodes[..k] + n.idNodes[k + 1..])
    ensures RemovedFrom(n, n.(idNodes := n.idNodes[..k] + n.idNodes[k + 1..]), key)
  {
    var ns' := n.idNodes[..k] + n.idNodes[k + 1..];
    IdNodesWithout(n.idNodes, ns', k, n.base);
    IdOrderLookup(n.idNodes, k, n.base);
    hide IdNodesOk, IdOrder, Tag;
    forall b, i | Postable(b, i)
      ensures BaseNodeOrder(n.(idNodes := ns'), b, i) == Without(BaseNodeOrder(n, b, i), key)
    {
      if b == n.base {
        IdLevelKey(n, i, key);
        if i != key.id {
          IdNodesWithoutOther(n.idNodes, ns', k, b, i);
        }
      }
    }
  }

  lemma IdNodeMissing(n: BaseNode, key: Key)
    requires key.base == n.base && key.id != ANY_ID
    requires forall j :: 0 <= j < |n.idNodes| ==> n.idNodes[j].id != key.id
    ensures RemovedFrom(n, n, key)
    ensures Occurrences(BaseNodeOrder(n, n.base, key.id), key) == 0
  {
    IdOrderMissing(n.idNodes, n.base, key.id);
    IdLevelKey(n, key.id, key);
    forall b, i | Postable(b, i)
      ensures BaseNodeOrder(n, b, i) == Without(BaseNodeOrder(n, b, i), key)
    {
      if b == n.base {
        IdLevelKey(n, i, key);
      }
    }
  }

  /** Removes an instance from a base node.  `base_node_remove_handler` reports success only
      when a handler list became empty in a way that the caller may have to clean up after. */
  method BaseNodeRemoveHandler(n: BaseNode, id: int, ctx: nat) returns (n': BaseNode, ok: bool)
    requires n.base != ANY_BASE && IdNodesOk(n.idNodes)
    requires Occurrences(BaseNodeOrder(n, n.base, RepId(Key(n.base, id, ctx))), Key(n.base, id, ctx)) <= 1
    ensures n'.base == n.base && IdNodesOk(n'.idNodes) && RemovedFrom(n, n', Key(n.base, id, ctx))
    ensures Occurrences(BaseNodeOrder(n, n.base, RepId(Key(n.base, id, ctx))), Key(n.base, id, ctx)) == 0 ==>
              n' == n && !ok
    ensures n' != n && EmptyBaseNode(n') ==> ok
  {
    ghost var key := Key(n.base, id, ctx);
    if id == ANY_ID {
      BaseLevelKey(n, 0, key);
      var hs, res := HandlerInstancesRemove(n.handlers, ctx, n.base, ANY_ID);
      n', ok := n.(handlers := hs), res;
      forall b, i | Postable(b, i)
        ensures BaseNodeOrder(n', b, i) == Without(BaseNodeOrder(n, b, i), key)
      {
        if b == n.base {
          BaseLevelKey(n, i, key);
        }
      }
      return;
    }
    IdLevelKey(n, id, key);
    n', ok := n, false;
    ghost var done: Option<nat> := None;
    for k := 0 to |n.idNodes|
      invariant !ok
      invariant done.None? ==> n' == n && forall j :: 0 <= j < k ==> n.idNodes[j].id != id
      invariant done.Some? ==>
                  && done.value < k && n.idNodes[done.value].id == id
                  && n'.base == n.base && IdNodesOk(n'.idNodes) && n'.idNodes != [] && RemovedFrom(n, n', key)
                  && (Occurrences(BaseNodeOrder(n, n.base, id), key) == 0 ==> n' == n)
    {
      if n.idNodes[k].id == id {
        IdOrderLookup(n.idNodes, k, n.base);
        var hs, res := HandlerInstancesRemove(n.idNodes[k].handlers, ctx, n.base, id);
        if res && hs == [] {
          IdNodeRemoved(n, k, key);
          return n.(idNodes := n.idNodes[..k] + n.idNodes[k + 1..]), true;
        }
        n' := n.(idNodes := n.idNodes[k := IdNode(id, hs)]);
        IdNodeReplaced(n, k, hs, key);
        done := Some(k);
      }
    }
    if done.None? {
      IdNodeMissing(n, key);
    }
  }

  // Base nodes: a key may sit in any base node of its base, but in one only.

  lemma {:induction false} BaseOrderConcat(a: seq<BaseNode>, c: seq<BaseNode>, base: Base, id: int)
    ensures BaseOrder(a + c, base, id) == BaseOrder(a, base, id) + BaseOrder(c, base, id)
    decreases |c|
  {
    hide BaseNodeOrder;
    if c == [] {
      assert a + c == a;
    } else {
      var m := |c| - 1;
      assert (a + c)[..|a + c| - 1] == a + c[..m];
      BaseOrderConcat(a, c[..m], base, id);
    }
  }

  /** A key with a base is seen the same number of times by all events that see it at all, and
      not by the others. */
  lemma BaseNodeKey(n: BaseNode, base: Base, id: int, key: Key)
    requires Postable(base, id) && ValidEvent(key.base, key.id) && n.base != ANY_BASE
    ensures Occurrences(BaseNodeOrder(n, base, id), key)
            == if key.base != ANY_BASE && Sees(key, base, id)
               then Occurrences(BaseNodeOrder(n, RepBase(key), RepId(key)), key) else 0
  {
    if n.base == base {
      WithoutConcat(Tag(base, ANY_ID, n.handlers), IdOrder(n.idNodes, base, id), key);
      if key.base != base || key.id != id {
        IdOrderForeign(n.idNodes, base, id, key);
      }
      if key.base != base || key.id != ANY_ID {
        TagForeign(base, ANY_ID, n.handlers, key);
      } else {
        BaseLevelKey(n, id, key);
        BaseLevelKey(n, 0, key);
      }
    }
  }

  lemma {:induction false} BaseOrderKey(ns: seq<BaseNode>, base: Base, id: int, key: Key)
    requires Postable(base, id) && ValidEvent(key.base, key.id) && BaseNodesOk(ns)
    ensures Occurrences(BaseOrder(ns, base, id), key)
            == if key.base != ANY_BASE && Sees(key, base, id)
               then Occurrences(BaseOrder(ns, RepBase(key), RepId(key)), key) else 0
    decreases |ns|
  {
    hide BaseNodeOrder;
    if ns != [] {
      var m := |ns| - 1;
      BaseOrderKey(ns[..m], base, id, key);
      BaseNodeKey(ns[m], base, id, key);
      WithoutConcat(BaseOrder(ns[..m], base, id), BaseNodeOrder(ns[m], base, id), key);
      WithoutConcat(BaseOrder(ns[..m], RepBase(key), RepId(key)), BaseNodeOrder(ns[m], RepBase(key), RepId(key)), key);
    }
  }

  /** For every event, ns' shows what ns showed but for the key. */
  ghost predicate RemovedFromBases(ns: seq<BaseNode>, ns': seq<BaseNode>, key: Key) {
    forall b, i :: Postable(b, i) ==> BaseOrder(ns', b, i) == Without(BaseOrder(ns, b, i), key)
  }

  ghost function BaseOcc(ns: seq<BaseNode>, key: Key): nat {
    Occurrences(BaseOrder(ns, RepBase(key), RepId(key)), key)
  }

  lemma AbsentFromBases(ns: seq<BaseNode>, key: Key)
    requires ValidEvent(key.base, key.id) && BaseNodesOk(ns) && (key.base == ANY_BASE || BaseOcc(ns, key) == 0)
    ensures RemovedFromBases(ns, ns, key)
  {
    forall b, i | Postable(b, i)
      ensures BaseOrder(ns, b, i) == Without(BaseOrder(ns, b, i), key)
    {
      BaseOrderKey(ns, b, i, key);
      WithoutAbsent(BaseOrder(ns, b, i), key);
    }
  }

  lemma RemovedConcat(a: seq<BaseNode>, a': seq<BaseNode>, c: seq<BaseNode>, c': seq<BaseNode>, key: Key)
    requires RemovedFromBases(a, a', key) && RemovedFromBases(c, c', key)
    ensures RemovedFromBases(a + c, a' + c', key)
  {
    forall b, i | Postable(b, i)
      ensures BaseOrder(a' + c', b, i) == Without(BaseOrder(a + c, b, i), key)
    {
      BaseOrderConcat(a, c, b, i);
      BaseOrderConcat(a', c', b, i);
      WithoutConcat(BaseOrder(a, b, i), BaseOrder(c, b, i), key);
    }
  }

  lemma BaseOccConcat(a: seq<BaseNode>, c: seq<BaseNode>, key: Key)
    ensures BaseOcc(a + c, key) == BaseOcc(a, key) + BaseOcc(c, key)
  {
    BaseOrderConcat(a, c, RepBase(key), RepId(key));
    WithoutConcat(BaseOrder(a, RepBase(key), RepId(key)), BaseOrder(c, RepBase(key), RepId(key)), key);
  }

  /** One base node on its own. */
  lemma SingleBaseNode(n: BaseNode, b: Base, i: int)
    ensures BaseOrder([n], b, i) == BaseNodeOrder(n, b, i)
  {
    assert [n][..0] == [];
  }

  lemma SingleRemoved(n: BaseNode, n': BaseNode, key: Key)
    requires RemovedFrom(n, n', key)
    ensures RemovedFromBases([n], [n'], key)
    ensures EmptyBaseNode(n') ==> RemovedFromBases([n], [], key)
  {
    hide BaseNodeOrder;
    forall b, i | Postable(b, i)
      ensures BaseOrder([n'], b, i) == Without(BaseOrder([n], b, i), key)
      ensures EmptyBaseNode(n') ==> BaseOrder([n'], b, i) == []
    {
      SingleBaseNode(n, b, i);
      SingleBaseNode(n', b, i);
      EmptyShowsNothing(n', b, i);
    }
  }

  lemma EmptyShowsNothing(n: BaseNode, b: Base, i: int)
    ensures EmptyBaseNode(n) ==> BaseNodeOrder(n, b, i) == []
  {
  }

  ghost function LoopNodeOcc(n: LoopNode, key: Key): nat {
    Occurrences(LoopNodeOrder(n, RepBase(key), RepId(key)), key)
  }

  ghost predicate RemovedFromLoopNode(n: LoopNode, n': LoopNode, key: Key) {
    forall b, i :: Postable(b, i) ==> LoopNodeOrder(n', b, i) == Without(LoopNodeOrder(n, b, i), key)
  }

  /** A key with a base occurs in the base nodes only, the any/any key among the handlers only. */
  lemma LoopNodeKey(n: LoopNode, b: Base, i: int, key: Key)
    requires ValidEvent(key.base, key.id) && BaseNodesOk(n.baseNodes) && Postable(b, i)
    ensures Without(LoopNodeOrder(n, b, i), key)
            == if key.base == ANY_BASE
               then Without(Tag(ANY_BASE, ANY_ID, n.handlers), key) + BaseOrder(n.baseNodes, b, i)
               else Tag(ANY_BASE, ANY_ID, n.handlers) + Without(BaseOrder(n.baseNodes, b, i), key)
    ensures Occurrences(LoopNodeOrder(n, b, i), key)
            == if key.base == ANY_BASE then Occurrences(Tag(ANY_BASE, ANY_ID, n.handlers), key)
               else Occurrences(BaseOrder(n.baseNodes, b, i), key)
  {
    var t, o := Tag(ANY_BASE, ANY_ID, n.handlers), BaseOrder(n.baseNodes, b, i);
    WithoutConcat(t, o, key);
    if key.base == ANY_BASE {
      BaseOrderKey(n.baseNodes, b, i, key);
      WithoutAbsent(o, key);
    } else {
      TagForeign(ANY_BASE, ANY_ID, n.handlers, key);
    }
  }

  lemma BasesRemovedFromLoopNode(n: LoopNode, ns': seq<BaseNode>, key: Key)
    requires ValidEvent(key.base, key.id) && key.base != ANY_BASE && BaseNodesOk(n.baseNodes)
    requires RemovedFromBases(n.baseNodes, ns', key)
    ensures RemovedFromLoopNode(n, n.(baseNodes := ns'), key)
  {
    forall b, i | Postable(b, i)
      ensures LoopNodeOrder(n.(baseNodes := ns'), b, i) == Without(LoopNodeOrder(n, b, i), key)
    {
      LoopNodeKey(n, b, i, key);
    }
  }

  lemma ForeignBaseNode(n: BaseNode, key: Key)
    requires ValidEvent(key.base, key.id) && key.base != ANY_BASE && n.base != ANY_BASE && n.base != key.base
    ensures RemovedFrom(n, n, key)
  {
    forall b, i | Postable(b, i)
      ensures BaseNodeOrder(n, b, i) == Without(BaseNodeOrder(n, b, i), key)
    {
      BaseNodeKey(n, b, i, key);
      WithoutAbsent(BaseNodeOrder(n, b, i), key);
    }
  }

  /** Splitting the occurrences of a key at base node k. */
  lemma SplitBases(ns: seq<BaseNode>, k: nat, key: Key)
    requires k < |ns|
    ensures ns == ns[..k] + ([ns[k]] + ns[k + 1..]) && ns[..k + 1] == ns[..k] + [ns[k]]
    ensures BaseOcc(ns, key) == BaseOcc(ns[..k], key) + BaseOcc([ns[k]], key) + BaseOcc(ns[k + 1..], key)
    ensures BaseOcc(ns[..k + 1], key) == BaseOcc(ns[..k], key) + BaseOcc([ns[k]], key)
    ensures BaseOcc([ns[k]], key) == Occurrences(BaseNodeOrder(ns[k], RepBase(key), RepId(key)), key)
  {
    hide BaseOcc;
    assert ns == ns[..k] + ([ns[k]] + ns[k + 1..]) && ns[..k + 1] == ns[..k] + [ns[k]];
    BaseOccConcat(ns[..k], [ns[k]] + ns[k + 1..], key);
    BaseOccConcat([ns[k]], ns[k + 1..], key);
    BaseOccConcat(ns[..k], [ns[k]], key);
    SingleBaseOcc(ns[k], key);
  }

  lemma SingleBaseOcc(n: BaseNode, key: Key)
    ensures BaseOcc([n], key) == Occurrences(BaseNodeOrder(n, RepBase(key), RepId(key)), key)
  {
    SingleBaseNode(n, RepBase(key), RepId(key));
  }

  /** The state of the loop over base nodes: the first k have been dealt with. */
  ghost predicate BasesDone(ns: seq<BaseNode>, cur: seq<BaseNode>, k: nat, key: Key)
  {
    && k <= |ns| && |cur| == |ns| && cur[k..] == ns[k..] && BaseNodesOk(cur)
    && RemovedFromBases(ns[..k], cur[..k], key)
    && (BaseOcc(ns[..k], key) == 0 ==> cur[..k] == ns[..k])
  }

  lemma BasesStep(ns: seq<BaseNode>, cur: seq<BaseNode>, k: nat, n': BaseNode, key: Key)
    requires BasesDone(ns, cur, k, key) && k < |ns|
    requires RemovedFrom(ns[k], n', key) && n'.base == ns[k].base && IdNodesOk(n'.idNodes) && !EmptyBaseNode(n')
    requires BaseOcc([ns[k]], key) == 0 ==> n' == ns[k]
    ensures BasesDone(ns, cur[k := n'], k + 1, key)
  {
    hide BaseOcc, RemovedFromBases, RemovedFrom;
    var cur' := cur[k := n'];
    SingleRemoved(ns[k], n', key);
    SplitBases(ns, k, key);
    assert cur'[..k + 1] == cur[..k] + [n'];
    RemovedConcat(ns[..k], cur[..k], [ns[k]], [n'], key);
    assert cur[k] == cur[k..][0] == ns[k];
    assert cur'[k + 1..] == cur[k..][1..] == ns[k..][1..] == ns[k + 1..];
  }

  lemma BaseNodeGone(ns: seq<BaseNode>, cur: seq<BaseNode>, k: nat, n': BaseNode, key: Key)
    requires BasesDone(ns, cur, k, key) && k < |ns| && BaseNodesOk(ns)
    requires ValidEvent(key.base, key.id) && BaseOcc(ns, key) <= 1 && BaseOcc([ns[k]], key) > 0
    requires RemovedFrom(ns[k], n', key) && EmptyBaseNode(n')
    ensures BaseNodesOk(cur[..k] + cur[k + 1..])
    ensures RemovedFromBases(ns, cur[..k] + cur[k + 1..], key)
  {
    hide BaseOcc, RemovedFromBases, RemovedFrom;
    SplitBases(ns, k, key);
    SingleRemoved(ns[k], n', key);
    AbsentFromBases(ns[k + 1..], key);
    RemovedConcat([ns[k]], [], ns[k + 1..], ns[k + 1..], key);
    RemovedConcat(ns[..k], cur[..k], [ns[k]] + ns[k + 1..], [] + ns[k + 1..], key);
    assert cur[k + 1..] == cur[k..][1..] == ns[k..][1..] == ns[k + 1..] == [] + ns[k + 1..];
  }

  lemma BasesStart(ns: seq<BaseNode>, key: Key)
    requires BaseNodesOk(ns) && ValidEvent(key.base, key.id)
    ensures BasesDone(ns, ns, 0, key)
  {
    AbsentFromBases([], key);
    assert ns[..0] == [];
  }

  lemma HandlersRemovedFromLoopNode(n: LoopNode, hs: seq<Instance>, key: Key)
    requires key.base == ANY_BASE && key.id == ANY_ID && BaseNodesOk(n.baseNodes)
    requires Tag(ANY_BASE, ANY_ID, hs) == Without(Tag(ANY_BASE, ANY_ID, n.handlers), key)
    ensures RemovedFromLoopNode(n, n.(handlers := hs), key)
  {
    forall b, i | Postable(b, i)
      ensures LoopNodeOrder(n.(handlers := hs), b, i) == Without(LoopNodeOrder(n, b, i), key)
    {
      LoopNodeKey(n, b, i, key);
    }
  }

  /** The removal loop over the base nodes of a loop node. */
  method BaseNodesRemoveHandler(ns: seq<BaseNode>, base: Base, id: int, ctx: nat) returns (ns': seq<BaseNode>, ok: bool)
    requires base != ANY_BASE && BaseNodesOk(ns) && BaseOcc(ns, Key(base, id, ctx)) <= 1
    ensures BaseNodesOk(ns') && RemovedFromBases(ns, ns', Key(base, id, ctx))
    ensures BaseOcc(ns, Key(base, id, ctx)) == 0 ==> ns' == ns && !ok
    ensures ns' != ns && ns' == [] ==> ok
  {
    ghost var key := Key(base, id, ctx);
    var cur := ns;
    BasesStart(ns, key);
    hide BaseOcc, RemovedFromBases, RemovedFrom, IdNodesOk;
    for k := 0 to |ns|
      invariant BasesDone(ns, cur, k, key)
    {
      SplitBases(ns, k, key);
      assert cur[k] == cur[k..][0] == ns[k];
      if cur[k].base == base {
        var changed, res := BaseNodeRemoveHandler(cur[k], id, ctx);
        if res && EmptyBaseNode(changed) {
          BaseNodeGone(ns, cur, k, changed, key);
          return cur[..k] + cur[k + 1..], true;
        }
        BasesStep(ns, cur, k, changed, key);
        cur := cur[k := changed];
      } else {
        ForeignBaseNode(ns[k], key);
        BasesStep(ns, cur, k, ns[k], key);
        assert cur == cur[k := ns[k]];
      }
    }
    assert ns[..|ns|] == ns && cur[..|ns|] == cur;
    return cur, false;
  }

  /** Removes an instance from a loop node, with the same meaning of success as for base nodes. */
  method LoopNodeRemoveHandler(n: LoopNode, base: Base, id: int, ctx: nat) returns (n': LoopNode, ok: bool)
    requires ValidEvent(base, id) && BaseNodesOk(n.baseNodes)
    requires LoopNodeOcc(n, Key(base, id, ctx)) <= 1
    ensures BaseNodesOk(n'.baseNodes) && RemovedFromLoopNode(n, n', Key(base, id, ctx))
    ensures LoopNodeOcc(n, Key(base, id, ctx)) == 0 ==> n' == n && !ok
    ensures n' != n && EmptyLoopNode(n') ==> ok
  {
    ghost var key := Key(base, id, ctx);
    LoopNodeKey(n, RepBase(key), RepId(key), key);
    if base == ANY_BASE && id == ANY_ID {
      var hs, res := HandlerInstancesRemove(n.handlers, ctx, ANY_BASE, ANY_ID);
      HandlersRemovedFromLoopNode(n, hs, key);
      n', ok := n.(handlers := hs), res;
    } else {
      var ns', res := BaseNodesRemoveHandler(n.baseNodes, base, id, ctx);
      BasesRemovedFromLoopNode(n, ns', key);
      n', ok := n.(baseNodes := ns'), res;
    }
  }
}
