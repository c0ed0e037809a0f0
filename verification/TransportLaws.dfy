/** What the calls of the trace transport promise: when a write, a flush or a read succeeds, and what
    any run of them does to the two streams. */
module TransportLaws {
  import opened Common
  import opened Ring
  import opened Packets
  import opened TransportSpec

  // ---- The environment ----

  /** The number of moments at which the environment lets the device switch blocks. */
  function FreeTurns(ts: seq<Turn>): nat {
    if ts == [] then 0 else (if ts[0].free then 1 else 0) + FreeTurns(ts[1..])
  }

  ghost predicate NeverExpires(ts: seq<Turn>) {
    forall k :: 0 <= k < |ts| ==> !ts[k].expired
  }

  /** What the host offers when the device may take it, as far as an empty down ring of this
      capacity accepts it. */
  function Supply(ts: seq<Turn>, capacity: nat): seq<byte> {
    if ts == [] then []
    else
      (if ts[0].free && ts[0].hostPending then ts[0].hostData[..Min(|ts[0].hostData|, capacity)] else [])
      + Supply(ts[1..], capacity)
  }

  /** Without a timeout, a wait ends with a swap exactly if the host ever allows one. */
  lemma {:induction false} WaitSucceedsExactly(s: Transport)
    requires s.Valid() && NeverExpires(s.script)
    ensures NeverExpires(s.Wait().0.script)
    ensures s.Wait().1 <==> FreeTurns(s.script) > 0
    ensures s.Wait().1 ==> FreeTurns(s.Wait().0.script) == FreeTurns(s.script) - 1
    decreases |s.script|
  {
    hide Transport.Valid;
    if s.script != [] {
      SwappedKeeps(s.Later(), s.script[0]);
    }
    hide Transport.Swapped;
    if s.script != [] && !s.script[0].free {
      WaitSucceedsExactly(s.Later());
    }
  }

  // ---- Writes ----

  /** A packet enters the stream once and at its end, or not at all. */
  lemma WriteAppends(s: Transport, p: Packet)
    requires s.Valid() && p.core < 2
    ensures var (t, ok) := s.Write(p);
            && (ok ==> Fits(s.sv, p) && t.Stream() == s.Stream() + Encode(s.sv, p))
            && (!ok ==> t.Stream() == s.Stream())
            && t.SameConfig(s)
  {
    hide Indices.WellFormed, Indices.Occupancy, Transport.Seek, Transport.Put, Encode, Transport.Stream;
    var (u, ok) := s.Seek(Raw(s, p));
    SeekKeepsStream(s, Raw(s, p));
    if SizeOk(s, p) && ok {
      PutKeeps(u, Encode(s.sv, p));
    }
  }

  lemma SeekKeepsStream(s: Transport, n: nat)
    requires s.Valid()
    ensures s.Seek(n).0.Stream() == s.Stream() && s.Seek(n).0.SameConfig(s)
  {
    hide Transport.Valid, Transport.TrySwap, Transport.Wait, Transport.Stream, Transport.HasRoom;
    WaitKeeps(s);
    TrySwapKeeps(s);
    WaitKeeps(s.TrySwap().0);
  }

  lemma TrySwapKeeps(s: Transport)
    requires s.Valid()
    ensures var t := s.TrySwap().0;
            t.Stream() == s.Stream() && t.SameConfig(s)
  {
    hide Transport.Swapped;
    if s.script != [] {
      SwappedKeeps(s.Later(), s.script[0]);
    }
  }

  /** The bytes of the packet in the stream. */
  function Raw(s: Transport, p: Packet): nat {
    HdrSize(s.sv) + |p.data|
  }

  ghost predicate SizeOk(s: Transport, p: Packet) {
    p.core < 2 && 0 < |p.data| <= s.DataLenMax()
  }

  /** With nothing pending and room, the packet goes behind the marker or else into the ring, and
      no time passes. */
  lemma WriteWithRoom(s: Transport, p: Packet)
    requires s.Valid() && SizeOk(s, p) && s.pend == [] && s.HasRoom(Raw(s, p))
    ensures s.Write(p).1
    ensures |s.block| + Raw(s, p) <= s.Size() ==> s.Write(p).0 == s.(block := s.block + Encode(s.sv, p))
    ensures |s.block| + Raw(s, p) > s.Size() ==>
              s.Write(p).0 == s.(pend := Encode(s.sv, p), pendRing := s.pendRing.Grown(Raw(s, p)))
  {
  }

  /** While bytes are pending and the host keeps its block, the packet is pended behind them. */
  lemma WriteBehindPending(s: Transport, p: Packet)
    requires s.Valid() && SizeOk(s, p) && s.pend != []
    requires s.script == [] || !s.script[0].free
    requires s.pendRing.Admits(Raw(s, p))
    ensures s.Write(p).1
    ensures s.Write(p).0 == s.(pend := s.pend + Encode(s.sv, p), pendRing := s.pendRing.Grown(Raw(s, p)),
                               script := if s.script == [] then [] else s.script[1..])
  {
  }

  /** While bytes are pending and the host takes the block, they move to the next block.  If that
      takes all of them and the packet too, the packet follows them into it. */
  lemma WriteIntoFreshBlock(s: Transport, p: Packet)
    requires s.Valid() && SizeOk(s, p) && s.pend != [] && s.script != [] && s.script[0].free
    requires |s.pend| + Raw(s, p) <= NextSize(s)
    ensures var (t, ok) := s.Write(p);
            && ok && t.inBlock == s.inBlock + 1 && t.exposed == s.exposed + s.block && t.script == s.script[1..]
            && t.block == s.pend + Encode(s.sv, p) && t.pend == []
  {
    hide Indices.WellFormed, Indices.Occupancy, Indices.Admits, Encode, Transport.TrySwap;
    SwapMoves(s);
  }

  /** What an allowed swap does to the up stream. */
  lemma SwapMoves(s: Transport)
    requires s.Valid() && s.script != [] && s.script[0].free
    ensures var (t, ok), m := s.TrySwap(), Min(|s.pend|, NextSize(s));
            && ok && t.inBlock == s.inBlock + 1 && t.exposed == s.exposed + s.block && t.script == s.script[1..]
            && t.block == s.pend[..m] && t.pend == s.pend[m..] && t.Size() == NextSize(s) && t.sv == s.sv
  {
    hide Indices.WellFormed, Indices.Occupancy, Indices.Released, Indices.Filled, Transport.Accepted;
  }

  /** Otherwise it goes to the ring, which the swap has made room in, behind what the block did not
      take. */
  lemma WriteBehindRest(s: Transport, p: Packet)
    requires s.Valid() && SizeOk(s, p) && s.pend != [] && s.script != [] && s.script[0].free
    requires |s.pend| + Raw(s, p) > NextSize(s) && s.TrySwap().0.pendRing.Admits(Raw(s, p))
    ensures var (t, ok), m := s.Write(p), Min(|s.pend|, NextSize(s));
            && ok && t.inBlock == s.inBlock + 1 && t.exposed == s.exposed + s.block && t.script == s.script[1..]
            && t.block == s.pend[..m] && t.pend == s.pend[m..] + Encode(s.sv, p)
  {
    hide Indices.WellFormed, Indices.Occupancy, Indices.Admits, Encode, Transport.TrySwap;
    SwapMoves(s);
  }

  /** The size of the block that is current after the next swap. */
  function NextSize(s: Transport): nat {
    if s.inBlock % 2 == 0 then s.size1 else s.size0
  }

  /** With nothing pending and no room, the packet needs one swap and a block that can hold it. */
  lemma WriteWaits(s: Transport, p: Packet)
    requires s.Valid() && SizeOk(s, p) && s.pend == [] && !s.HasRoom(Raw(s, p)) && NeverExpires(s.script)
    ensures s.Write(p).1 <==> FreeTurns(s.script) > 0 && Raw(s, p) <= NextSize(s)
    ensures s.Write(p).1 ==> s.Write(p).0.block == Encode(s.sv, p) && s.Write(p).0.exposed == s.exposed + s.block
  {
    hide Indices.WellFormed, Indices.Occupancy, Indices.Admits, Indices.Grown, Indices.Filled, Encode,
      Indices.Released, Transport.Accepted, Transport.Wait, FreeTurns;
    ConsumeKeepsShape(s.pendRing, 0);
    WaitSucceedsExactly(s);
    WaitSwaps(s);
  }

  /** While the host never takes a block, a packet is accepted exactly if there is room for it. */
  lemma WriteWithoutHost(s: Transport, p: Packet)
    requires s.Valid() && p.core < 2 && FreeTurns(s.script) == 0
    ensures s.Write(p).1 <==> SizeOk(s, p) && s.HasRoom(Raw(s, p))
  {
    NeverSwaps(s);
    if s.script != [] {
      NeverSwaps(s.Later());
    }
  }

  lemma {:induction false} NeverSwaps(s: Transport)
    requires s.Valid() && FreeTurns(s.script) == 0
    ensures !s.Wait().1
    decreases |s.script|
  {
    if s.script != [] {
      NeverSwaps(s.Later());
    }
  }

  // ---- Flushes ----

  /** A success leaves no more than minSz bytes in the block; nothing is lost; and nothing stays behind
      an empty block if the packets fit the blocks. */
  lemma {:induction false} FlushDelivers(s: Transport, minSz: nat)
    requires s.Valid()
    ensures var (t, ok) := s.Flush(minSz);
            && t.Stream() == s.Stream() && s.exposed <= t.exposed
            && t.SameConfig(s)
            && (ok ==> |t.block| <= minSz)
            && (s.NothingBehindEmptyBlock() ==> t.NothingBehindEmptyBlock())
            && (ok && minSz == 0 && s.NothingBehindEmptyBlock() && s.PacketsFitBlocks() ==> t.exposed == s.Stream())
    decreases |s.script|
  {
    hide Transport.Swapped;
    if |s.block| > minSz {
      WaitKeeps(s);
      if s.Wait().1 {
        FlushDelivers(s.Wait().0, minSz);
      }
    }
  }

  lemma WaitKeeps(s: Transport)
    requires s.Valid()
    ensures var (t, ok) := s.Wait();
            && t.Stream() == s.Stream() && s.exposed <= t.exposed
            && t.SameConfig(s)
            && (ok ==> t.NothingBehindEmptyBlock())
            && (!ok ==> t == s.(script := t.script))
  {
    hide Transport.Swapped, Transport.Valid;
    WaitSwaps(s);
    if s.Wait().1 {
      var k :| 0 <= k < |s.script| && s.script[k].free && s.Wait().0 == At(s, k + 1).Swapped(s.script[k]);
      SwappedKeeps(At(s, k + 1), s.script[k]);
    }
  }

  /** Without a timeout, enough allowed swaps make a flush succeed: no more than there are
      undelivered bytes. */
  lemma {:induction false} FlushSucceeds(s: Transport, minSz: nat)
    requires s.Valid() && NeverExpires(s.script) && FreeTurns(s.script) >= |s.block + s.pend|
    ensures s.Flush(minSz).1
    decreases |s.script|
  {
    if |s.block| > minSz {
      WaitSucceedsExactly(s);
      FlushShrinks(s);
      FlushSucceeds(s.Wait().0, minSz);
    }
  }

  // ---- Reads ----

  function Capacity(s: Transport): nat {
    Max1(s.downRing.size) - 1
  }

  /** The host's bytes that the device can still get by reading. */
  function Readable(s: Transport): seq<byte> {
    s.down + Supply(s.script, Capacity(s))
  }

  lemma {:induction false} WaitTakesSupply(s: Transport)
    requires s.Valid() && s.down == [] && NeverExpires(s.script)
    ensures var t := s.Wait().0;
            && Readable(t) == Readable(s) && Capacity(t) == Capacity(s) && NeverExpires(t.script)
    decreases |s.script|
  {
    hide Indices.WellFormed, Indices.Occupancy, Indices.Released;
    if s.script != [] && !s.script[0].free {
      WaitTakesSupply(s.Later());
    }
  }

  lemma {:induction false} AwaitTakesSupply(s: Transport)
    requires s.Valid() && NeverExpires(s.script)
    ensures var t := s.AwaitHost();
            && Readable(t) == Readable(s) && Capacity(t) == Capacity(s) && NeverExpires(t.script)
            && (t.down == [] ==> Readable(t) == [])
    decreases |s.script|
  {
    if s.down == [] && s.script != [] {
      if s.script[0].hostPending {
        WaitTakesSupply(s);
        AwaitTakesSupply(s.Wait().0);
      } else {
        AwaitTakesSupply(s.Later());
      }
    }
  }

  /** Without a timeout, a read gets the front of what the host has to offer, and something if there is
      anything; the rest stays readable. */
  lemma ReadTakesFront(s: Transport, want: nat)
    requires s.Valid() && NeverExpires(s.script) && want > 0
    ensures var (t, got) := s.Read(want);
            && got + Readable(t) == Readable(s) && Capacity(t) == Capacity(s) && NeverExpires(t.script)
            && (got == [] <==> Readable(s) == [])
  {
    AwaitTakesSupply(s);
    var a := s.AwaitHost();
    ReadOf(s, want);
    var (t, got) := s.Read(want);
    assert got + t.down == a.down;
  }

  /** With unread bytes, a read takes the contiguous front part of them, up to what is wanted, and
      nothing else happens. */
  lemma ReadAtOnce(s: Transport, want: nat)
    requires s.Valid() && s.down != [] && want > 0
    ensures var (t, got) := s.Read(want);
            && 0 < |got| == Min(want, s.downRing.ReadSize()) && got + t.down == s.down
            && t == s.(down := t.down, downRing := s.downRing.Released(|got|))
  {
    ReadOf(s, want);
  }

  lemma ReadOf(s: Transport, want: nat)
    requires s.Valid()
    ensures var a, (t, got) := s.AwaitHost(), s.Read(want);
            && got + t.down == a.down && t.script == a.script && t.downRing.size == a.downRing.size
            && (want > 0 && a.down != [] ==> got != [])
  {
  }

  /** Reads until n bytes have come, or until a read gets nothing. */
  ghost function Receive(s: Transport, n: nat): (r: (Transport, seq<byte>))
    requires s.Valid()
    ensures r.0.Valid() && |r.1| <= n
    decreases n
  {
    if n == 0 then (s, [])
    else
      var (t, got) := s.Read(n);
      if got == [] then (t, [])
      else
        var (u, more) := Receive(t, n - |got|);
        (u, got + more)
  }

  lemma ReceiveStep(s: Transport, n: nat)
    requires s.Valid()
    ensures n == 0 ==> Receive(s, n) == (s, [])
    ensures n > 0 && s.Read(n).1 == [] ==> Receive(s, n) == (s.Read(n).0, [])
    ensures var (t, got) := s.Read(n);
            n > 0 && got != [] ==>
              && Receive(s, n).0 == Receive(t, n - |got|).0
              && Receive(s, n).1 == got + Receive(t, n - |got|).1
  {
    hide Transport.Read, Transport.Valid;
  }

  /** Without a timeout, n bytes are received exactly if the host has to offer n bytes, and they are the
      first n of these. */
  lemma {:induction false} ReceiveSucceedsExactly(s: Transport, n: nat)
    requires s.Valid() && NeverExpires(s.script)
    ensures |Receive(s, n).1| == n <==> |Readable(s)| >= n
    ensures Receive(s, n).1 == Readable(s)[..Min(n, |Readable(s)|)]
    decreases n
  {
    hide Transport.Read, Transport.Valid, Readable, Capacity;
    if n > 0 {
      ReadTakesFront(s, n);
      var (t, got) := s.Read(n);
      if got != [] {
        ReceiveSucceedsExactly(t, n - |got|);
      }
    }
  }

  /** Bytes that are there are received whatever the environment does, and no time passes. */
  lemma {:induction false} ReceiveAtOnce(s: Transport, n: nat)
    requires s.Valid() && |s.down| >= n
    ensures Receive(s, n).1 == s.down[..n] && Receive(s, n).0.script == s.script
    decreases n
  {
    hide Transport.Read, Transport.Valid;
    if n > 0 {
      ReadAtOnce(s, n);
      var (t, got) := s.Read(n);
      ReceiveAtOnce(t, n - |got|);
    }
  }

  // ---- Runs ----

  /** A call of the transport's interface by the device. */
  datatype Op = OpWrite(core: nat, data: seq<byte>) | OpFlush(minSz: nat) | OpRead(want: nat)

  /** What the call returned. */
  datatype Result = Wrote(ok: bool) | Flushed(ok: bool) | Got(bytes: seq<byte>)

  predicate OpOk(op: Op) {
    match op
    case OpWrite(core, data) => core < 2 && |data| < TWO_32
    case OpFlush(_) => true
    case OpRead(want) => 0 < want < TWO_32
  }

  predicate OpsOk(ops: seq<Op>) {
    forall k :: 0 <= k < |ops| ==> OpOk(ops[k])
  }

  ghost function Call(s: Transport, op: Op): (r: (Transport, Result))
    requires s.Valid() && OpOk(op)
    ensures r.0.Valid()
  {
    match op
    case OpWrite(core, data) => var (t, ok) := s.Write(Packet(core, data)); (t, Wrote(ok))
    case OpFlush(minSz) => var (t, ok) := s.Flush(minSz); (t, Flushed(ok))
    case OpRead(want) => var (t, got) := s.Read(want); (t, Got(got))
  }

  ghost function Run(s: Transport, ops: seq<Op>): (r: (Transport, seq<Result>))
    requires s.Valid() && OpsOk(ops)
    ensures r.0.Valid() && |r.1| == |ops|
  {
    if ops == [] then (s, [])
    else
      var (t, rs) := Run(s, ops[..|ops| - 1]);
      var (u, r) := Call(t, ops[|ops| - 1]);
      (u, rs + [r])
  }

  lemma RunMore(s: Transport, ops: seq<Op>, op: Op)
    requires s.Valid() && OpsOk(ops) && OpOk(op)
    ensures OpsOk(ops + [op])
    ensures var (t, rs) := Run(s, ops); var (u, r) := Call(t, op);
            Run(s, ops + [op]) == (u, rs + [r])
  {
    assert (ops + [op])[..|ops|] == ops;
  }

  function AcceptedBy(op: Op, r: Result): (ps: seq<Packet>)
    ensures |ps| <= 1
  {
    if op.OpWrite? && r.Wrote? && r.ok then [Packet(op.core, op.data)] else []
  }

  function ReceivedBy(r: Result): seq<byte> {
    if r.Got? then r.bytes else []
  }

  /** The packets of the writes that succeeded. */
  function AcceptedOf(ops: seq<Op>, rs: seq<Result>): seq<Packet>
    requires |ops| == |rs|
  {
    if ops == [] then []
    else AcceptedOf(ops[..|ops| - 1], rs[..|ops| - 1]) + AcceptedBy(ops[|ops| - 1], rs[|ops| - 1])
  }

  /** The bytes that the reads returned. */
  function ReceivedOf(rs: seq<Result>): seq<byte> {
    if rs == [] then [] else ReceivedOf(rs[..|rs| - 1]) + ReceivedBy(rs[|rs| - 1])
  }

  lemma FoldMore(ops: seq<Op>, rs: seq<Result>, op: Op, r: Result)
    requires |ops| == |rs|
    ensures AcceptedOf(ops + [op], rs + [r]) == AcceptedOf(ops, rs) + AcceptedBy(op, r)
    ensures ReceivedOf(rs + [r]) == ReceivedOf(rs) + ReceivedBy(r)
  {
    assert (ops + [op])[..|ops|] == ops && (rs + [r])[..|rs|] == rs;
  }

  lemma {:induction false} AwaitKeeps(s: Transport)
    requires s.Valid() && s.NothingBehindEmptyBlock()
    ensures var t := s.AwaitHost();
            t.Stream() == s.Stream() && t.SameConfig(s) && t.NothingBehindEmptyBlock()
    decreases |s.script|
  {
    if s.down == [] && s.script != [] {
      if s.script[0].hostPending {
        WaitKeeps(s);
        AwaitKeeps(s.Wait().0);
      } else {
        AwaitKeeps(s.Later());
      }
    }
  }

  lemma WriteKeeps(s: Transport, p: Packet)
    requires s.Valid() && p.core < 2 && s.NothingBehindEmptyBlock()
    ensures s.Write(p).0.NothingBehindEmptyBlock()
  {
    hide Transport.Valid, Transport.Put, Encode, Transport.NothingBehindEmptyBlock, Transport.HasRoom;
    if SizeOk(s, p) {
      SeekKeeps(s, p);
      WaitKeepsOrder(s);
      TrySwapKeepsOrder(s);
      WaitKeepsOrder(s.TrySwap().0);
    }
  }

  lemma WaitKeepsOrder(s: Transport)
    requires s.Valid() && s.NothingBehindEmptyBlock()
    ensures s.Wait().0.NothingBehindEmptyBlock()
  {
    WaitKeeps(s);
  }

  lemma TrySwapKeepsOrder(s: Transport)
    requires s.Valid() && s.NothingBehindEmptyBlock()
    ensures s.TrySwap().0.NothingBehindEmptyBlock()
  {
    hide Transport.Swapped;
    if s.script != [] {
      SwappedKeeps(s.Later(), s.script[0]);
    }
  }

  lemma CallKeeps(s: Transport, op: Op)
    requires s.Valid() && s.NothingBehindEmptyBlock() && OpOk(op)
    ensures var (t, r) := Call(s, op);
            && t.SameConfig(s) && t.NothingBehindEmptyBlock()
            && AllFit(s.sv, AcceptedBy(op, r)) && t.Stream() == s.Stream() + EncodeAll(s.sv, AcceptedBy(op, r))
  {
    hide Transport.Valid, Transport.NothingBehindEmptyBlock, Transport.Stream, Transport.Write, Transport.Flush, Encode;
    match op
    case OpWrite(core, data) =>
      var p := Packet(core, data);
      WriteAppends(s, p);
      WriteKeeps(s, p);
      assert [p][..0] == [];
    case OpFlush(minSz) =>
      FlushDelivers(s, minSz);
    case OpRead(want) =>
      AwaitKeeps(s);
      ReadKeepsUp(s, want);
  }

  lemma ReadKeepsUp(s: Transport, want: nat)
    requires s.Valid()
    ensures var t, u := s.Read(want).0, s.AwaitHost();
            && t.SameConfig(u) && t.Stream() == u.Stream()
            && (t.NothingBehindEmptyBlock() <==> u.NothingBehindEmptyBlock())
  {
    hide Transport.AwaitHost;
  }

  /** Over any run, the stream is extended by the encoding of exactly the packets that were
      reported as written, in the order of their writes. */
  lemma {:induction false} RunAppends(s: Transport, ops: seq<Op>)
    requires s.Valid() && s.NothingBehindEmptyBlock() && OpsOk(ops)
    ensures var (t, rs) := Run(s, ops);
            && t.SameConfig(s) && t.NothingBehindEmptyBlock()
            && AllFit(s.sv, AcceptedOf(ops, rs))
            && t.Stream() == s.Stream() + EncodeAll(s.sv, AcceptedOf(ops, rs))
    decreases |ops|
  {
    hide Transport.Valid, Transport.NothingBehindEmptyBlock, Transport.Stream, Call, OpOk, AcceptedBy, EncodeAll,
      AllFit;
    EncodeNothing(s.sv);
    if ops != [] {
      var n := |ops| - 1;
      RunAppends(s, ops[..n]);
      var (t, rs) := Run(s, ops[..n]);
      CallKeeps(t, ops[n]);
      var (u, r) := Call(t, ops[n]);
      assert (rs + [r])[..n] == rs;
      EncodeAllOneMore(s.sv, AcceptedOf(ops[..n], rs), AcceptedBy(ops[n], r));
    }
  }

  lemma EncodeNothing(sv: bool)
    ensures AllFit(sv, []) && EncodeAll(sv, []) == []
  {
  }

  lemma EncodeAllOneMore(sv: bool, ps: seq<Packet>, qs: seq<Packet>)
    requires AllFit(sv, ps) && AllFit(sv, qs) && |qs| <= 1
    ensures AllFit(sv, ps + qs) && EncodeAll(sv, ps + qs) == EncodeAll(sv, ps) + EncodeAll(sv, qs)
  {
    hide Encode;
    if qs == [] {
      assert ps + qs == ps;
    } else {
      assert qs == [qs[0]] && qs[..0] == [];
      EncodeAllAppend(sv, ps, qs[0]);
    }
  }

  // ---- The exact condition on the configuration ----

  /** In any run from the start, in any environment, a flush that succeeds has delivered everything
      that was written. */
  ghost predicate FlushesDeliver(sv: bool, size0: nat, size1: nat, pendSize: nat, downSize: nat)
    requires Start(sv, size0, size1, pendSize, downSize, []).Valid()
  {
    forall script, ops | OpsOk(ops) ::
      var (t, rs) := Run(Start(sv, size0, size1, pendSize, downSize, script), ops);
      t.Flush(0).1 ==> t.Flush(0).0.exposed == t.Stream()
  }

  /** With SystemView headers the size check does not look at the block: a packet that exceeds an
      empty block, but not the pending ring, is pended behind marker 0, and a flush then reports
      success without delivering it. */
  lemma FlushStrandsPacket(s: Transport, p: Packet)
    requires s.Valid() && s.block == [] && s.pend == [] && s.sv && SizeOk(s, p)
    requires !s.FitsBlock(Raw(s, p)) && s.pendRing.Admits(Raw(s, p))
    ensures s.Write(p).1 && s.Write(p).0.Flush(0) == (s.Write(p).0, true)
    ensures s.Write(p).0.exposed == s.exposed && s.Write(p).0.pend == Encode(s.sv, p)
  {
    WriteWithRoom(s, p);
  }

  /** The run that strands the largest packet: in the first block, or in the second one after a
      small packet has been delivered. */
  lemma StrandingRun(size0: nat, size1: nat, pendSize: nat, downSize: nat) returns (script: seq<Turn>, ops: seq<Op>)
    requires Start(true, size0, size1, pendSize, downSize, []).Valid()
    requires !Start(true, size0, size1, pendSize, downSize, []).PacketsFitBlocks()
    ensures OpsOk(ops)
    ensures var t := Run(Start(true, size0, size1, pendSize, downSize, script), ops).0;
            t.Flush(0).1 && t.Flush(0).0.exposed != t.Stream()
  {
    var n := Start(true, size0, size1, pendSize, downSize, []).LargestPended();
    var data := seq(n - 2, _ => 0);
    if size0 < n {
      script, ops := [], [OpWrite(0, data)];
      var s := Start(true, size0, size1, pendSize, downSize, []);
      FlushStrandsPacket(s, Packet(0, data));
      RunMore(s, [], ops[0]);
    } else {
      script, ops := [Turn(true, false, [], false)], [OpWrite(0, [0]), OpFlush(0), OpWrite(0, data)];
      var s := Start(true, size0, size1, pendSize, downSize, script);
      var t := DeliverOne(s);
      FlushStrandsPacket(t, Packet(0, data));
      RunMore(s, [], ops[0]);
      RunMore(s, [ops[0]], ops[1]);
      RunMore(s, [ops[0], ops[1]], ops[2]);
      assert [ops[0], ops[1]] + [ops[2]] == ops;
    }
  }

  lemma DeliverOne(s: Transport) returns (t: Transport)
    requires s == Start(true, s.size0, s.size1, s.pendRing.size, s.downRing.size, [Turn(true, false, [], false)])
    requires s.Valid() && 3 <= s.size0
    ensures t == Call(Call(s, OpWrite(0, [0])).0, OpFlush(0)).0
    ensures t.Valid() && t.SameConfig(s) && t.block == [] && t.pend == [] && t.Size() == s.size1
    ensures t.pendRing == s.pendRing && t.sv
  {
    var p := Packet(0, [0]);
    WriteWithRoom(s, p);
    var w := s.Write(p).0;
    t := w.TrySwap().0;
    assert w.Wait() == (t, true) && t.Flush(0) == (t, true) && w.Flush(0) == (t, true);
    assert Call(s, OpWrite(0, [0])).0 == w;
  }

  /** Flushes deliver everything, in every run and every environment, if and only if every packet
      that is accepted fits an empty block. */
  lemma FlushesDeliverExactly(sv: bool, size0: nat, size1: nat, pendSize: nat, downSize: nat)
    requires Start(sv, size0, size1, pendSize, downSize, []).Valid()
    ensures FlushesDeliver(sv, size0, size1, pendSize, downSize) <==>
            Start(sv, size0, size1, pendSize, downSize, []).PacketsFitBlocks()
  {
    if Start(sv, size0, size1, pendSize, downSize, []).PacketsFitBlocks() {
      forall script, ops | OpsOk(ops)
        ensures var t := Run(Start(sv, size0, size1, pendSize, downSize, script), ops).0;
                t.Flush(0).1 ==> t.Flush(0).0.exposed == t.Stream()
      {
        var s := Start(sv, size0, size1, pendSize, downSize, script);
        RunAppends(s, ops);
        FlushDelivers(Run(s, ops).0, 0);
      }
    } else {
      var script, ops := StrandingRun(size0, size1, pendSize, downSize);
    }
  }
}
