/** The two-block trace transport of app_trace_membufs_proto.c: packets go into the current
    block or into the pending ring, a swap exposes the current block to the host, takes over
    what the host left in the other block, and pumps pending bytes into it. */
module Membufs {
  import opened Common
  import opened Ring
  import opened Packets
  import opened TransportSpec
  import opened TransportLaws

  /** The memory an up buffer request was given. */
  datatype Chunk = NoChunk | InBlock(off: nat) | InPending(off: nat)

  datatype TmoResult = Ok | Timeout

  /** One round of the pump loop: moves the n oldest pending bytes behind the marker of a block. */
  method PumpChunk(pend: RingBuffer, b: array<byte>, marker: nat, n: nat)
    requires pend.Valid() && pend.data.Length < 0x8000_0000 && b != pend.data && b.Length <= 0x8000
    requires marker + n <= b.Length && n <= pend.Idx().ReadSize()
    modifies pend, b
    ensures pend.Valid() && n <= |old(pend.Contents())|
    ensures b[..marker + n] == old(b[..marker]) + old(pend.Contents())[..n]
    ensures pend.Contents() == old(pend.Contents())[n..] && pend.Idx() == old(pend.Idx()).Released(n)
  {
    var ptr := pend.Consume(n);
    assert ptr.Some?;
    Memcpy(b, marker, pend.data[ptr.value..ptr.value + n]);
  }

  /** Moves pending bytes into an empty block until the block is full or nothing is pending. */
  method Pump(pend: RingBuffer, b: array<byte>) returns (marker: nat)
    requires pend.Valid() && pend.data.Length < 0x8000_0000 && b != pend.data && b.Length <= 0x8000
    modifies pend, b
    ensures pend.Valid()
    ensures marker == Min(|old(pend.Contents())|, b.Length)
    ensures b[..marker] == old(pend.Contents())[..marker]
    ensures pend.Contents() == old(pend.Contents())[marker..]
    ensures pend.Idx() == old(pend.Idx()).Released(marker)
  {
    hide RingBuffer.Valid, RingBuffer.Contents, Indices.WellFormed, Indices.Unread, Indices.Released,
      Indices.Occupancy;
    ghost var all := pend.Contents();
    pend.Occupied();
    ghost var i := pend.Idx();
    marker := 0;
    ConsumeKeepsShape(i, 0);
    while marker < b.Length
      invariant pend.Valid() && marker <= b.Length && marker <= |all|
      invariant b[..marker] == all[..marker]
      invariant pend.Contents() == all[marker..]
      invariant pend.Idx() == i.Released(marker)
      decreases b.Length - marker
    {
      var n := pend.ReadSizeGet();
      if n == 0 {
        break;
      }
      if n > b.Length - marker {
        n := b.Length - marker;
      }
      ReleasedTwice(i, marker, n);
      TakeMore(all, marker, n, b[..marker], pend.Contents());
      PumpChunk(pend, b, marker, n);
      marker := marker + n;
    }
  }

  /** Copies as much of a host chunk into the down ring as the ring can hold. */
  method DownBufferWrite(down: RingBuffer, chunk: seq<byte>) returns (total: nat)
    requires down.Valid() && down.curSize == down.data.Length < 0x8000_0000 && |chunk| < 0x1_0000
    modifies down, down.data
    ensures down.Valid() && down.curSize == down.data.Length
    ensures total == Min(|chunk|, down.Capacity() - |old(down.Contents())|)
    ensures down.Contents() == old(down.Contents()) + chunk[..total]
    ensures down.Idx() == old(down.Idx()).Filled(total)
  {
    hide RingBuffer.Valid, RingBuffer.Contents, Indices.Unread, Indices.Grown, Indices.Filled, Indices.Occupancy,
      Indices.WriteSize, Indices.Admits;
    total := 0;
    down.Occupied();
    ghost var i := down.Idx();
    FilledTwice(i, 0, 0);
    while total < |chunk|
      invariant down.Valid() && down.curSize == down.data.Length
      invariant total <= |chunk|
      invariant down.Contents() == old(down.Contents()) + chunk[..total]
      invariant down.Idx() == i.Filled(total)
    {
      var n := down.WriteSizeGet();
      if n == 0 {
        break;
      }
      if n > |chunk| - total {
        n := |chunk| - total;
      }
      ghost var before := down.Contents();
      down.Occupied();
      FilledTwice(i, total, n);
      FilledTwice(down.Idx(), n, 0);
      WriteSizeIsExactUnlessEarlyWrap(down.Idx(), n);
      var ok := down.Push(chunk[total..total + n]);
      AppendSlice(old(down.Contents()), chunk, total, total + n, before, down.Contents());
      total := total + n;
    }
    down.Occupied();
  }

  lemma HostBlockReads(block: seq<byte>, hostData: seq<byte>)
    requires |hostData| < 0x1_0000 && Le16(|hostData|) + hostData <= block
    ensures FromLe16(block[0], block[1]) == |hostData| && block[2..2 + |hostData|] == hostData
  {
    var filled := Le16(|hostData|) + hostData;
    assert block[..|filled|] == filled;
    assert block[0] == filled[0] && block[1] == filled[1];
    assert block[2..2 + |hostData|] == block[..|filled|][2..];
  }

  /** What a swap does with a block that the host left with a length header and data in it. */
  method TakeHostData(down: RingBuffer, b: array<byte>, hostData: seq<byte>) returns (total: nat)
    requires down.Valid() && down.curSize == down.data.Length < 0x8000_0000
    requires b != down.data && |hostData| + 2 <= b.Length <= 0x8000
    modifies down, down.data, b
    ensures down.Valid() && down.curSize == down.data.Length
    ensures total == Min(|hostData|, down.Capacity() - |old(down.Contents())|)
    ensures down.Contents() == old(down.Contents()) + hostData[..total]
    ensures down.Idx() == old(down.Idx()).Filled(total)
  {
    hide RingBuffer.Valid, RingBuffer.Contents;
    Memcpy(b, 0, Le16(|hostData|) + hostData);   // the host's own writes
    HostBlockReads(b[..], hostData);
    var blockSz := FromLe16(b[0], b[1]);
    total := 0;
    if blockSz > 0 {
      total := DownBufferWrite(down, b[2..2 + blockSz]);
      Memcpy(b, 0, Le16(0));
    } else {
      down.Occupied();
    }
  }

  class MembufsProto {
    const sv: bool
    const block0: array<byte>
    const block1: array<byte>
    const pend: RingBuffer
    const down: RingBuffer
    var inBlock: nat
    var markers: seq<nat>

    /** What the environment will answer, one entry for each moment it is asked. */
    var script: seq<Turn>

    ghost var exposed: seq<byte>     // all bytes handed to the host, in swap order
    ghost var packets: seq<Packet>   // all accepted packets
    ghost var hostSent: seq<byte>    // all host bytes that were accepted into the down ring
    ghost var downRead: seq<byte>    // all bytes read from the down ring

    function Block(k: nat): array<byte> {
      if k == 0 then block0 else block1
    }

    ghost function Repr(): set<object> {
      {this, block0, block1, pend, pend.data, down, down.data}
    }

    /** The parts are different objects, and every host chunk fits behind its header. */
    ghost predicate Config()
      reads `script
    {
      && block0 != block1 && pend != down && pend.data != down.data
      && {block0, block1} !! {pend.data, down.data}
      && HdrSize(sv) <= block0.Length <= 0x8000 && HdrSize(sv) <= block1.Length <= 0x8000
      && pend.data.Length < 0x8000_0000 && down.data.Length < 0x8000_0000
      && forall k :: 0 <= k < |script| ==> |script[k].hostData| + 2 <= Min(block0.Length, block1.Length)
    }

    ghost predicate Shape()
      reads `script, `markers, pend, down
    {
      && Config() && |markers| == 2 && markers[0] <= block0.Length && markers[1] <= block1.Length
      && pend.Valid() && down.Valid() && down.curSize == down.data.Length
    }

    /** `ESP_APPTRACE_INBLOCK_MARKER`. */
    function Marker(): (m: nat)
      requires Shape()
      reads `markers, `inBlock, `exposed, `script, block0, block1, pend, pend.data, down, down.data
      ensures m == |View().block|
    {
      markers[inBlock % 2]
    }

    /** `ESP_APPTRACE_INBLOCK(proto)->sz`. */
    function BlockSize(): (n: nat)
      requires Shape()
      reads `markers, `inBlock, `exposed, `script, block0, block1, pend, pend.data, down, down.data
      ensures n == View().Size() <= 0x8000
    {
      Block(inBlock % 2).Length
    }

    method PendingSize() returns (size: nat)
      requires Valid()
      ensures size == 0 <==> View().pend == []
    {
      size := pend.ReadSizeGet();
    }

    function Cur(): nat
      reads `inBlock
    {
      inBlock % 2
    }

    /** The state as a value: of the blocks, only the current one below its marker counts. */
    ghost function View(): (r: Transport)
      requires Shape()
      reads `markers, `inBlock, `exposed, `script, block0, block1, pend, pend.data, down, down.data
      ensures r.Valid() && r.script == script && r.sv == sv
    {
      pend.Occupied();
      down.Occupied();
      Transport(sv, block0.Length, block1.Length, inBlock, exposed, Block(Cur())[..markers[Cur()]],
                pend.Contents(), pend.Idx(), down.Contents(), down.Idx(), script)
    }

    /** Conservation and order of both streams, and no pending byte behind an empty block. */
    ghost predicate Valid()
      reads Repr()
    {
      && Shape() && AllFit(sv, packets)
      && Accounts(View())
    }

    /** The packets and the host's bytes account for this state. */
    ghost predicate Accounts(s: Transport)
      requires AllFit(sv, packets)
      reads `packets, `downRead, `hostSent
    {
      && s.Stream() == EncodeAll(sv, packets)
      && downRead + s.down == hostSent
      && s.NothingBehindEmptyBlock()
    }

    constructor (sv: bool, block0: array<byte>, block1: array<byte>, pendingData: array<byte>, downBuf: array<byte>,
                 script: seq<Turn>)
      requires block0 != block1 && pendingData != downBuf
      requires {block0, block1} !! {pendingData, downBuf}
      requires HdrSize(sv) <= block0.Length <= 0x8000 && HdrSize(sv) <= block1.Length <= 0x8000
      requires pendingData.Length < 0x8000_0000 && downBuf.Length < 0x8000_0000
      requires forall k :: 0 <= k < |script| ==> |script[k].hostData| + 2 <= Min(block0.Length, block1.Length)
      ensures Valid()
      ensures View() == Start(sv, block0.Length, block1.Length, pendingData.Length, downBuf.Length, script)
      ensures packets == [] && exposed == [] && hostSent == [] && downRead == [] && markers == [0, 0]
      ensures fresh(this) && fresh(pend) && fresh(down)
      ensures this.sv == sv && this.script == script && this.block0 == block0 && this.block1 == block1
      ensures pend.data == pendingData && down.data == downBuf
    {
      this.sv := sv;
      this.block0, this.block1 := block0, block1;
      pend := new RingBuffer(pendingData);
      down := new RingBuffer(downBuf);
      inBlock := 0;
      markers := [0, 0];
      this.script := script;
      exposed, packets, hostSent, downRead := [], [], [], [];
    }

    /** The part of an announced host chunk that the down ring accepts in its present state. */
    ghost function HostChunk(turn: Turn): seq<byte>
      requires down.Valid()
      reads down, down.data
    {
      down.Occupied();
      if turn.hostPending then turn.hostData[..Min(|turn.hostData|, down.Capacity() - |down.Contents()|)] else []
    }

    /** Takes over what the host left in block k. */
    method TakeTurnData(turn: Turn, k: nat)
      requires Shape() && k < 2 && |turn.hostData| + 2 <= Block(k).Length
      modifies `hostSent, down, down.data, Block(k)
      ensures down.Valid() && down.curSize == down.data.Length
      ensures hostSent == old(hostSent) + old(HostChunk(turn))
      ensures down.Contents() == old(down.Contents()) + old(HostChunk(turn))
      ensures down.Idx() == old(down.Idx()).Filled(|old(HostChunk(turn))|)
    {
      hide RingBuffer.Valid, RingBuffer.Contents, AllFit;
      down.Occupied();
      FilledTwice(down.Idx(), 0, 0);
      if turn.hostPending {
        var total := TakeHostData(down, Block(k), turn.hostData);
        hostSent := hostSent + turn.hostData[..total];
      }
    }

    /** What a swap is, in terms of the parts. */
    lemma SwappedFields(turn: Turn)
      requires Shape()
      ensures var s, m := View().Swapped(turn), Min(|pend.Contents()|, Block(1 - Cur()).Length);
              && s == Transport(sv, block0.Length, block1.Length, inBlock + 1,
                                exposed + Block(Cur())[..markers[Cur()]], pend.Contents()[..m], pend.Contents()[m..],
                                pend.Idx().Released(m), down.Contents() + HostChunk(turn),
                                down.Idx().Filled(|HostChunk(turn)|), script)
    {
      hide RingBuffer.Valid, RingBuffer.Contents, Indices.WellFormed, Indices.Occupancy, Indices.Admits, Indices.Grown,
        Indices.Released, Indices.Filled;
    }

    /** Moves on to the other block, which is empty then, and takes over what the host left there. */
    method StartBlock(turn: Turn)
      requires Shape() && |turn.hostData| + 2 <= Min(block0.Length, block1.Length)
      modifies `markers, `inBlock, `hostSent, Block(1 - Cur()), down, down.data
      ensures Shape() && inBlock == old(inBlock) + 1
      ensures markers == old(markers)[Cur() := 0]
      ensures pend.Contents() == old(pend.Contents())
      ensures hostSent == old(hostSent) + old(HostChunk(turn))
      ensures down.Contents() == old(down.Contents()) + old(HostChunk(turn))
      ensures down.Idx() == old(down.Idx()).Filled(|old(HostChunk(turn))|)
    {
      hide RingBuffer.Valid, RingBuffer.Contents, MembufsProto.HostChunk;
      var next := 1 - inBlock % 2;
      markers := markers[next := 0];
      inBlock := inBlock + 1;
      TakeTurnData(turn, next);
    }

    /** The part of a swap after `swap_start` agreed. */
    method SwitchBlocks(turn: Turn)
      requires Shape() && |turn.hostData| + 2 <= Min(block0.Length, block1.Length)
      modifies `markers, `inBlock, `hostSent, `exposed, Block(1 - Cur()), pend, down, down.data
      ensures Shape() && View() == old(View()).Swapped(turn)
      ensures hostSent == old(hostSent) + old(HostChunk(turn))
    {
      hide RingBuffer.Valid, RingBuffer.Contents, Transport.Valid, Transport.Swapped, MembufsProto.HostChunk,
        Indices.WellFormed, Indices.Occupancy, Indices.Released, Indices.Filled;
      SwappedFields(turn);
      var prev := inBlock % 2;
      StartBlock(turn);
      var marker := Pump(pend, Block(inBlock % 2));
      markers := markers[inBlock % 2 := marker];
      exposed := exposed + Block(prev)[..markers[prev]];
    }

    /** Lets a moment pass. */
    method SkipTurn()
      requires Valid() && script != []
      modifies `script
      ensures Valid() && View() == old(View()).Later()
      ensures |old(script)[0].hostData| + 2 <= Min(block0.Length, block1.Length)
    {
      hide EncodeAll, AllFit;
      script := script[1..];
    }

    /** A swap that the host allows. */
    method SwapNow(turn: Turn)
      requires Valid() && |turn.hostData| + 2 <= Min(block0.Length, block1.Length)
      modifies `markers, `inBlock, `hostSent, `exposed, Block(1 - Cur()), pend, pend.data, down, down.data
      ensures Valid() && View() == old(View()).Swapped(turn)
    {
      hide RingBuffer.Valid, RingBuffer.Contents, EncodeAll, AllFit, MembufsProto.HostChunk, Transport.Swapped,
        Transport.Valid, Transport.Stream, Transport.NothingBehindEmptyBlock, Indices.Filled, Indices.Released;
      SwappedFields(turn);
      SwappedKeeps(View(), turn);
      SwitchBlocks(turn);
    }

    /** Exposes the current block to the host and continues in the other one, if the host agrees. */
    method Swap() returns (ok: bool)
      requires Valid()
      modifies Repr()
      ensures Valid() && (View(), ok) == old(View()).TrySwap()
      ensures packets == old(packets) && downRead == old(downRead)
    {
      hide RingBuffer.Valid, RingBuffer.Contents, EncodeAll, AllFit, MembufsProto.Accounts, MembufsProto.View,
        Transport.Valid, Transport.Swapped, Transport.Put, Transport.HasRoom, MembufsProto.Shape, MembufsProto.Reserved;
      if script == [] {
        return false;
      }
      var turn := script[0];
      SkipTurn();
      if !turn.free {
        return false;
      }
      SwapNow(turn);
      return true;
    }

    /** Tries to swap until the host agrees or the timeout expires. */
    method SwapWaitus() returns (res: TmoResult)
      requires Valid()
      modifies Repr()
      ensures Valid() && (View(), res.Ok?) == old(View()).Wait()
      ensures packets == old(packets) && downRead == old(downRead)
    {
      hide RingBuffer.Valid, RingBuffer.Contents, EncodeAll, AllFit, MembufsProto.Accounts, MembufsProto.View,
        Transport.Valid, Transport.Swapped, Transport.Put, Transport.HasRoom, MembufsProto.Shape, MembufsProto.Reserved;
      while true
        invariant Valid() && packets == old(packets) && downRead == old(downRead)
        invariant View().Wait() == old(View()).Wait()
        decreases |script|
      {
        var expired := script == [] || script[0].expired;
        var swapped := Swap();
        if swapped {
          return Ok;
        }
        if expired {
          return Timeout;
        }
      }
    }

    /** The bytes of a chunk. */
    ghost function Cells(c: Chunk, n: nat): seq<byte>
      requires |markers| == 2
      requires match c
               case NoChunk => false
               case InBlock(off) => off + n <= Block(Cur()).Length
               case InPending(off) => off + n <= pend.data.Length
      reads `markers, `inBlock, block0, block1, pend.data
    {
      if c.InBlock? then Block(Cur())[c.off..c.off + n] else pend.data[c.off..c.off + n]
    }

    /** In state s, chunk c has been set aside for n bytes that the caller still has to write. */
    ghost predicate Reserved(c: Chunk, s: Transport, n: nat)
      reads Repr()
    {
      && Shape() && AllFit(sv, packets) && Accounts(s)
      && s.Valid() && s.HasRoom(n)
      && c == (if s.FitsBlock(n) then InBlock(|s.block|) else InPending(s.pendRing.ChunkAt(n)))
      && c.off + n <= (if c.InBlock? then Block(Cur()).Length else pend.data.Length)
      && View() == s.Put(Cells(c, n))
    }

    /** Moves the marker of the current block over the chunk behind it. */
    method BumpMarker(n: nat)
      requires Valid() && View().FitsBlock(n)
      modifies `markers
      ensures Reserved(InBlock(|old(View()).block|), old(View()), n)
    {
      hide RingBuffer.Valid, RingBuffer.Contents, EncodeAll, AllFit, MembufsProto.Accounts, Transport.Valid,
        Indices.WellFormed, Indices.Occupancy, Indices.Admits, Indices.Grown, Indices.Released, Indices.Filled;
      markers := markers[inBlock % 2 := markers[inBlock % 2] + n];
    }

    /** Allocates a chunk in the pending ring. */
    method ProducePending(n: nat) returns (c: Chunk)
      requires Valid() && n < 0x8000_0000 && !View().FitsBlock(n)
      modifies pend
      ensures !c.InBlock? && (c.NoChunk? <==> !old(View()).HasRoom(n))
      ensures if c.NoChunk? then Valid() && unchanged(pend) else Reserved(c, old(View()), n)
    {
      hide RingBuffer.Valid, RingBuffer.Contents, EncodeAll, AllFit, MembufsProto.Accounts, Transport.Valid,
        Indices.WellFormed, Indices.Occupancy, Indices.Admits, Indices.Grown, Indices.Released, Indices.Filled;
      var ptr := pend.Produce(n);
      if ptr.None? {
        return NoChunk;
      }
      c := InPending(ptr.value);
    }

    method FillBlock(off: nat, bytes: seq<byte>, ghost s: Transport)
      requires Reserved(InBlock(off), s, |bytes|)
      modifies Block(Cur())
      ensures Shape() && View() == s.Put(bytes)
    {
      hide RingBuffer.Valid, RingBuffer.Contents, EncodeAll, AllFit, MembufsProto.Accounts, Transport.Valid,
        Indices.WellFormed, Indices.Occupancy, Indices.Admits, Indices.Grown, Indices.Released, Indices.Filled;
      Memcpy(Block(inBlock % 2), off, bytes);
      assert View() == old(View()).(block := old(View()).block[..off] + bytes);
    }

    method FillPending(off: nat, bytes: seq<byte>, ghost s: Transport)
      requires Reserved(InPending(off), s, |bytes|)
      modifies pend.data
      ensures Shape() && View() == s.Put(bytes)
    {
      hide RingBuffer.Valid, RingBuffer.Contents, EncodeAll, AllFit, MembufsProto.Accounts, Transport.Valid,
        Indices.WellFormed, Indices.Occupancy, Indices.Admits, Indices.Grown, Indices.Released, Indices.Filled;
      ChunkIsTail(s, |bytes|);
      pend.CopyIn(off, bytes);
      assert View() == old(View()).(pend := s.pend + bytes);
    }

    /** Writes a packet to the chunk that was reserved for it. */
    method Fill(c: Chunk, p: Packet, ghost s: Transport)
      requires Fits(sv, p) && Reserved(c, s, HdrSize(sv) + |p.data|)
      requires s.Put(Encode(sv, p)).NothingBehindEmptyBlock()
      modifies Block(Cur()), pend.data, `packets
      ensures Valid() && View() == s.Put(Encode(sv, p)) && packets == old(packets) + [p]
    {
      hide RingBuffer.Valid, RingBuffer.Contents, EncodeAll, Encode, MembufsProto.View, Transport.Put,
        MembufsProto.Cells, Transport.Valid, Transport.NothingBehindEmptyBlock, Transport.Stream;
      var bytes := Encode(sv, p);
      if c.InBlock? {
        FillBlock(c.off, bytes, s);
      } else {
        FillPending(c.off, bytes, s);
      }
      PutKeeps(s, bytes);
      EncodeAllAppend(sv, packets, p);
      packets := packets + [p];
    }

    /** Swaps until the host agrees, then allocates wherever the order of the stream allows it.
        A chunk in the block is not yet counted by the marker. */
    method Wait4Buf(n: nat) returns (c: Chunk)
      requires Valid() && n < 0x1_0000
      modifies Repr()
      ensures packets == old(packets) && downRead == old(downRead)
      ensures var (s, swapped) := old(View()).Wait();
              && (c.NoChunk? <==> !(swapped && s.HasRoom(n)))
              && match c
                 case NoChunk => Valid() && View() == s
                 case InBlock(off) => Valid() && View() == s && s.FitsBlock(n) && off == |s.block|
                 case InPending(_) => Reserved(c, s, n)
    {
      hide RingBuffer.Valid, RingBuffer.Contents, EncodeAll, AllFit, MembufsProto.Accounts, MembufsProto.View,
        Transport.Valid, Transport.Swapped, Transport.Put, MembufsProto.Shape, MembufsProto.Reserved;
      var res := SwapWaitus();
      if res.Timeout? {
        return NoChunk;
      }
      var left := PendingSize();
      if left > 0 {
        c := ProducePending(n);
      } else if Marker() + n > BlockSize() {
        c := ProducePending(n);
      } else {
        c := InBlock(Marker());
      }
    }

    /** The pending ring first, and a fresh block if the ring is full. */
    method PendOrWait(n: nat) returns (c: Chunk)
      requires Valid() && n < 0x1_0000 && !View().FitsBlock(n)
      modifies Repr()
      ensures packets == old(packets) && downRead == old(downRead)
      ensures var (s, ok) := old(View()).Find(n);
              && (c.NoChunk? <==> !ok)
              && if ok then Reserved(c, s, n) else Valid() && View() == s
    {
      hide RingBuffer.Valid, RingBuffer.Contents, EncodeAll, AllFit, MembufsProto.Accounts, MembufsProto.View,
        Transport.Valid, Transport.Swapped, Transport.Put, MembufsProto.Shape, MembufsProto.Reserved;
      c := ProducePending(n);
      if c.NoChunk? {
        c := Wait4Buf(n);
        if c.InBlock? {
          BumpMarker(n);
        }
      }
    }

    /** `ESP_APPTRACE_USR_DATA_LEN_MAX` for the current block. */
    function DataLenMax(): int
      requires Shape()
      reads `markers, `inBlock, `exposed, `script, block0, block1, pend, pend.data, down, down.data
    {
      if sv then 255 else BlockSize() - 4
    }

    /** The second half of `up_buffer_get`: behind the marker if nothing is pending and the chunk
        fits there. */
    method Place(n: nat) returns (c: Chunk)
      requires Valid() && n < 0x1_0000
      modifies Repr()
      ensures packets == old(packets) && downRead == old(downRead)
      ensures var (s, ok) := old(View()).Find(n);
              && (c.NoChunk? <==> !ok)
              && if ok then Reserved(c, s, n) else Valid() && View() == s
    {
      hide RingBuffer.Valid, RingBuffer.Contents, EncodeAll, AllFit, MembufsProto.Accounts, MembufsProto.View,
        Transport.Valid, Transport.Swapped, Transport.Put, MembufsProto.Shape, MembufsProto.Reserved;
      var waiting := PendingSize();
      if waiting > 0 {
        c := PendOrWait(n);
      } else if Marker() + n > BlockSize() {
        c := PendOrWait(n);
      } else {
        c := InBlock(Marker());
        BumpMarker(n);
      }
    }

    /** Finds room for a header and `size` bytes of user data. */
    method UpBufferGet(size: nat) returns (c: Chunk)
      requires Valid() && size < TWO_32
      modifies Repr()
      ensures packets == old(packets) && downRead == old(downRead)
      ensures size > old(View()).DataLenMax() ==> c.NoChunk? && Valid() && View() == old(View())
      ensures size <= old(View()).DataLenMax() ==>
                var (s, ok) := old(View()).Seek(HdrSize(sv) + size);
                && (c.NoChunk? <==> !ok)
                && if ok then Reserved(c, s, HdrSize(sv) + size) else Valid() && View() == s
    {
      hide RingBuffer.Valid, RingBuffer.Contents, EncodeAll, AllFit, MembufsProto.Accounts, MembufsProto.View,
        Transport.Valid, Transport.Swapped, Transport.Put, Transport.HasRoom, MembufsProto.Shape, MembufsProto.Reserved;
      if size > DataLenMax() {
        return NoChunk;
      }
      var n := HdrSize(sv) + size;
      var waiting := PendingSize();
      if waiting > 0 {
        var _ := Swap();
      }
      c := Place(n);
    }

    /** `esp_apptrace_write`: get a chunk, fill it, put it. */
    method Write(core: nat, data: seq<byte>) returns (ok: bool)
      requires Valid() && core < 2 && |data| < TWO_32
      modifies Repr()
      ensures Valid() && (View(), ok) == old(View()).Write(Packet(core, data))
      ensures packets == if ok then old(packets) + [Packet(core, data)] else old(packets)
      ensures downRead == old(downRead)
    {
      hide RingBuffer.Valid, RingBuffer.Contents, EncodeAll, AllFit, MembufsProto.View,
        Transport.Valid, Transport.Swapped, Transport.Put, Transport.HasRoom, MembufsProto.Shape, MembufsProto.Reserved;
      if |data| == 0 {
        return false;
      }
      var c := UpBufferGet(|data|);
      if c.NoChunk? {
        return false;
      }
      SeekKeeps(old(View()), Packet(core, data));
      Fill(c, Packet(core, data), old(View()).Seek(HdrSize(sv) + |data|).0);
      return true;
    }

    /** Swaps until the current block holds no more than minSz bytes.  Every successful swap
        strictly shrinks what is undelivered, so the loop ends whatever the host does. */
    method FlushNolock(minSz: nat) returns (res: TmoResult)
      requires Valid()
      modifies Repr()
      ensures Valid() && (View(), res.Ok?) == old(View()).Flush(minSz)
      ensures packets == old(packets) && downRead == old(downRead)
    {
      hide RingBuffer.Valid, RingBuffer.Contents, EncodeAll, AllFit, MembufsProto.Accounts, MembufsProto.View,
        Transport.Valid, Transport.Swapped, Transport.Put, Transport.HasRoom, MembufsProto.Shape, MembufsProto.Reserved;
      if Marker() < minSz {
        return Ok;
      }
      while Marker() > minSz
        invariant Valid() && packets == old(packets) && downRead == old(downRead)
        invariant View().Flush(minSz) == old(View()).Flush(minSz)
        decreases |View().block + View().pend|
      {
        FlushShrinks(View());
        res := SwapWaitus();
        if res.Timeout? {
          return;
        }
      }
      res := Ok;
    }

    method DownConsume(n: nat) returns (ptr: nat)
      requires Valid() && n <= View().downRing.ReadSize()
      modifies down, `downRead
      ensures Valid() && ptr + n <= down.data.Length && n <= |old(View()).down|
      ensures downRead == old(downRead) + down.data[ptr..ptr + n]
      ensures down.data[ptr..ptr + n] == old(View()).down[..n]
      ensures View() == old(View()).(down := old(View()).down[n..], downRing := old(View()).downRing.Released(n))
    {
      hide RingBuffer.Valid, RingBuffer.Contents, EncodeAll, AllFit, Transport.Valid,
        Indices.Admits, Indices.Grown, Indices.Released, Indices.Filled;
      ghost var before := down.Contents();
      down.Occupied();
      var p := down.Consume(n);
      ptr := p.value;
      assert before == before[..n] + before[n..];
      downRead := downRead + before[..n];
    }

    method HostDataSize() returns (got: nat)
      requires Valid()
      ensures got == View().downRing.ReadSize() <= |View().down| && (got == 0 <==> View().down == [])
    {
      got := down.ReadSizeGet();
    }

    /** The loop of `down_buffer_get`: waits for host data, and swaps when the host announces some. */
    method WaitForHostData() returns (got: nat)
      requires Valid()
      modifies Repr()
      ensures Valid() && View() == old(View()).AwaitHost()
      ensures packets == old(packets) && downRead == old(downRead)
      ensures got == View().downRing.ReadSize() <= |View().down| && (got == 0 <==> View().down == [])
    {
      hide RingBuffer.Valid, RingBuffer.Contents, EncodeAll, AllFit, MembufsProto.Accounts, MembufsProto.View,
        Transport.Valid, Transport.Swapped, Transport.Put, Transport.HasRoom, MembufsProto.Shape, MembufsProto.Reserved;
      while true
        invariant Valid() && packets == old(packets) && downRead == old(downRead)
        invariant View().AwaitHost() == old(View()).AwaitHost()
        decreases |script|
      {
        got := HostDataSize();
        if got != 0 {
          return;
        }
        if script != [] && script[0].hostPending {
          var _ := SwapWaitus();
        } else {
          if script == [] || script[0].expired {
            return;
          }
          SkipTurn();
        }
      }
    }

    /** Takes the oldest contiguous host bytes, at most `want` of them, waiting for the host if
        there are none. */
    method DownBufferGet(want: nat) returns (ptr: Option<nat>, got: nat)
      requires Valid() && 0 < want < TWO_32
      modifies Repr()
      ensures Valid() && packets == old(packets)
      ensures View() == old(View()).Read(want).0
      ensures ptr.None? <==> old(View()).Read(want).1 == []
      ensures ptr.None? ==> got == 0 && downRead == old(downRead)
      ensures ptr.Some? ==>
                && ptr.value + got <= down.data.Length
                && down.data[ptr.value..ptr.value + got] == old(View()).Read(want).1
                && downRead == old(downRead) + old(View()).Read(want).1
    {
      hide RingBuffer.Valid, RingBuffer.Contents, EncodeAll, AllFit, MembufsProto.Accounts, MembufsProto.View,
        Transport.Valid, Transport.Swapped, Transport.Put, Transport.HasRoom, MembufsProto.Shape, MembufsProto.Reserved;
      got := WaitForHostData();
      if got == 0 {
        return None, 0;
      }
      got := Min(want, got);
      var p := DownConsume(got);
      return Some(p), got;
    }

    /** `esp_apptrace_read` into buf from off on: the next host bytes, or nothing on a timeout. */
    method Read(buf: array<byte>, off: nat, want: nat) returns (n: Option<nat>)
      requires Valid() && 0 < want < TWO_32 && off + want <= buf.Length && buf !in Repr()
      modifies Repr(), buf
      ensures Valid() && packets == old(packets)
      ensures View() == old(View()).Read(want).0
      ensures var got := old(View()).Read(want).1;
              && downRead == old(downRead) + got
              && n == (if got == [] then None else Some(|got|))
              && off + |got| <= buf.Length && buf[..] == old(buf[..])[..off] + got + old(buf[..])[off + |got|..]
    {
      hide RingBuffer.Valid, RingBuffer.Contents, EncodeAll, AllFit, MembufsProto.Accounts, MembufsProto.View,
        Transport.Valid, Transport.Swapped, Transport.Put, Transport.HasRoom, MembufsProto.Shape, MembufsProto.Reserved;
      var ptr, got := DownBufferGet(want);
      if ptr.None? {
        return None;
      }
      Memcpy(buf, off, down.data[ptr.value..ptr.value + got]);
      return Some(got);
    }

    lemma AccountsHold()
      requires Valid()
      ensures View().NothingBehindEmptyBlock() && exposed == View().exposed && sv == View().sv
      ensures downRead + View().down == hostSent
    {
    }

    /** What was read and what is still in the down ring are the host's bytes in order. */
    lemma ReadsAreHostBytes()
      requires Valid()
      ensures down.Valid() && downRead + down.Contents() == hostSent
    {
    }

    /** What the host has received or will receive next decodes to the accepted packets, each
        once and in order. */
    lemma HostDecodesPackets()
      requires Valid()
      ensures AllFit(sv, packets)
      ensures DecodeAll(sv, View().Stream()) == Some(ReceivedAll(sv, packets))
    {
      hide RingBuffer.Valid, RingBuffer.Contents, EncodeAll, DecodeAll, Encode, Decode;
      DecodeAllEncodeAll(sv, packets);
    }
  }

  /** One call. */
  method Perform(proto: MembufsProto, op: Op) returns (r: Result)
    requires proto.Valid() && OpOk(op)
    modifies proto.Repr()
    ensures proto.Valid() && (proto.View(), r) == Call(old(proto.View()), op)
    ensures proto.packets == old(proto.packets) + AcceptedBy(op, r)
    ensures proto.downRead == old(proto.downRead) + ReceivedBy(r)
  {
    hide MembufsProto.Accounts, MembufsProto.View, MembufsProto.Shape, Transport.Valid, Transport.Write,
      Transport.Flush, Transport.Read;
    match op
    case OpWrite(core, data) =>
      var ok := proto.Write(core, data);
      r := Wrote(ok);
    case OpFlush(minSz) =>
      var res := proto.FlushNolock(minSz);
      r := Flushed(res.Ok?);
    case OpRead(want) =>
      var buf := new byte[want];
      var n := proto.Read(buf, 0, want);
      r := Got(if n.None? then [] else buf[..n.value]);
      assert r.bytes == old(proto.View()).Read(want).1;
  }

  /** A whole session of writes, flushes and reads in any order against any environment, ended by a
      flush.  The host decodes exactly the packets of the writes that succeeded, all of them if that
      flush succeeds; and the reads return the host's bytes in order. */
  method Session(proto: MembufsProto, ops: seq<Op>) returns (rs: seq<Result>, flushed: bool)
    requires proto.Valid() && proto.packets == [] && proto.downRead == [] && OpsOk(ops)
    modifies proto.Repr()
    ensures proto.Valid() && rs == Run(old(proto.View()), ops).1
    ensures (proto.View(), flushed) == Run(old(proto.View()), ops).0.Flush(0)
    ensures DecodeAll(proto.sv, proto.View().Stream()) == Some(ReceivedAll(proto.sv, AcceptedOf(ops, rs)))
    ensures flushed && proto.View().PacketsFitBlocks() ==>
              DecodeAll(proto.sv, proto.exposed) == Some(ReceivedAll(proto.sv, AcceptedOf(ops, rs)))
    ensures ReceivedOf(rs) + proto.View().down == proto.hostSent
  {
    hide MembufsProto.Accounts, MembufsProto.View, MembufsProto.Shape, Transport.Valid, Call, OpOk, AcceptedBy,
      ReceivedBy, EncodeAll, DecodeAll;
    rs := [];
    for k := 0 to |ops|
      invariant proto.Valid() && |rs| == k && (proto.View(), rs) == Run(old(proto.View()), ops[..k])
      invariant proto.packets == AcceptedOf(ops[..k], rs) && proto.downRead == ReceivedOf(rs)
    {
      var r := Perform(proto, ops[k]);
      FoldMore(ops[..k], rs, ops[k], r);
      RunMore(old(proto.View()), ops[..k], ops[k]);
      assert ops[..k + 1] == ops[..k] + [ops[k]];
      rs := rs + [r];
    }
    assert ops[..|ops|] == ops;
    proto.AccountsHold();
    FlushDelivers(proto.View(), 0);
    var res := proto.FlushNolock(0);
    flushed := res.Ok?;
    proto.HostDecodesPackets();
    proto.AccountsHold();
  }
}
