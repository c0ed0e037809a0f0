/** The trace transport as a value: what a call does to the two byte streams, to the room in the two
    rings and to the script of the environment. */
module TransportSpec {
  import opened Common
  import opened Ring
  import opened Packets

  /** The environment at one moment: would `swap_start` let the device switch, does the host
      announce data (and which), has the caller's timeout expired. */
  datatype Turn = Turn(free: bool, hostPending: bool, hostData: seq<byte>, expired: bool)

  datatype Transport = Transport(
    sv: bool,             // SystemView headers
    size0: nat,           // of the two blocks
    size1: nat,
    inBlock: nat,         // number of the current block
    exposed: seq<byte>,   // handed to the host
    block: seq<byte>,     // the current block below its marker
    pend: seq<byte>,      // unread in the pending ring
    pendRing: Indices,
    down: seq<byte>,      // unread in the down ring
    downRing: Indices,
    script: seq<Turn>)    // what the environment will answer
  {
    ghost predicate Valid() {
      && HdrSize(sv) <= size0 <= 0x8000 && HdrSize(sv) <= size1 <= 0x8000 && |block| <= Size()
      && pendRing.WellFormed() && pendRing.Occupancy() == |pend| && pendRing.size < 0x8000_0000
      && downRing.WellFormed() && downRing.Occupancy() == |down|
      && downRing.cur == downRing.size < 0x8000_0000
    }

    predicate SameConfig(s: Transport) {
      (sv, size0, size1, pendRing.size, downRing.size) == (s.sv, s.size0, s.size1, s.pendRing.size, s.downRing.size)
    }

    /** The size of the current block. */
    function Size(): nat {
      if inBlock % 2 == 0 then size0 else size1
    }

    /** Everything that was accepted, oldest first. */
    function Stream(): seq<byte> {
      exposed + (block + pend)
    }

    /** The part of an announced host chunk that the down ring accepts. */
    ghost function Accepted(turn: Turn): (r: seq<byte>)
      requires Valid()
      ensures |down| + |r| < Max1(downRing.size)
    {
      if turn.hostPending then turn.hostData[..Min(|turn.hostData|, Max1(downRing.size) - 1 - |down|)] else []
    }

    /** A swap that the host allows: the current block is exposed, the other one holds the front of
        the pending bytes, and the host's chunk is taken over. */
    ghost function Swapped(turn: Turn): (r: Transport)
      requires Valid()
      ensures r.Valid()
    {
      var next := this.(inBlock := inBlock + 1).Size();
      var m := Min(|pend|, next);
      var got := Accepted(turn);
      ConsumeKeepsShape(pendRing, m);
      FilledTwice(downRing, |got|, 0);
      this.(inBlock := inBlock + 1, exposed := exposed + block, block := pend[..m], pend := pend[m..],
            pendRing := pendRing.Released(m), down := down + got, downRing := downRing.Filled(|got|))
    }

    /** One moment later. */
    ghost function Later(): (r: Transport)
      requires Valid() && script != []
      ensures r.Valid()
    {
      this.(script := script[1..])
    }

    /** One attempt to swap, and whether the host agreed. */
    ghost function TrySwap(): (r: (Transport, bool))
      requires Valid()
      ensures r.0.Valid()
    {
      if script == [] then (this, false)
      else if script[0].free then (Later().Swapped(script[0]), true)
      else (Later(), false)
    }

    /** Attempts until the host agrees or the timeout has expired. */
    ghost function Wait(): (r: (Transport, bool))
      requires Valid()
      ensures r.0.Valid() && (script != [] ==> |r.0.script| < |script|) && (r.1 ==> script != [])
      decreases |script|
    {
      if script == [] || script[0].free || script[0].expired then TrySwap() else Later().Wait()
    }

    /** Room for n more bytes of the stream without a swap. */
    ghost predicate HasRoom(n: nat)
      requires Valid()
    {
      FitsBlock(n) || pendRing.Admits(n)
    }

    ghost predicate FitsBlock(n: nat) {
      pend == [] && |block| + n <= Size()
    }

    /** Appends to the stream: behind the marker, or in the pending ring. */
    ghost function Put(bytes: seq<byte>): (r: Transport)
      requires Valid() && HasRoom(|bytes|)
      ensures r.Valid()
    {
      if FitsBlock(|bytes|) then this.(block := block + bytes)
      else
        ProduceKeepsShape(pendRing, |bytes|);
        this.(pend := pend + bytes, pendRing := pendRing.Grown(|bytes|))
    }

    /** Without room, a swap is waited for.  True if there is room in the end. */
    ghost function Find(n: nat): (r: (Transport, bool))
      requires Valid()
      ensures r.0.Valid() && (r.1 ==> r.0.HasRoom(n))
    {
      if HasRoom(n) then (this, true)
      else
        var (s, swapped) := Wait();
        (s, swapped && s.HasRoom(n))
    }

    /** With bytes pending, a swap is attempted first. */
    ghost function Seek(n: nat): (r: (Transport, bool))
      requires Valid()
      ensures r.0.Valid() && (r.1 ==> r.0.HasRoom(n))
    {
      if pend == [] then Find(n) else TrySwap().0.Find(n)
    }

    /** The largest SystemView packet that the pending ring can hold. */
    function LargestPended(): int {
      Min(HdrSize(true) + 255, Max1(pendRing.size) - 1)
    }

    /** Every packet that passes the size check of `up_buffer_get` and that the pending ring can
        hold fits an empty block.  Without SystemView headers the size check sees to it. */
    predicate PacketsFitBlocks() {
      sv ==> Min(size0, size1) >= LargestPended()
    }

    predicate NothingBehindEmptyBlock() {
      PacketsFitBlocks() && pend != [] ==> block != []
    }

    /** The largest packet that passes the size check in the current block. */
    function DataLenMax(): int {
      if sv then 255 else Size() - 4
    }

    /** Writes a packet whole, or not at all. */
    ghost function Write(p: Packet): (r: (Transport, bool))
      requires Valid() && p.core < 2
      ensures r.0.Valid()
    {
      if p.data == [] || |p.data| > DataLenMax() then (this, false)
      else
        var (s, ok) := Seek(HdrSize(sv) + |p.data|);
        (if ok then s.Put(Encode(sv, p)) else s, ok)
    }

    /** Swaps until the current block holds no more than minSz bytes, or a timeout. */
    ghost function Flush(minSz: nat): (r: (Transport, bool))
      requires Valid()
      ensures r.0.Valid()
      decreases |script|
    {
      if |block| <= minSz then (this, true)
      else
        var (s, swapped) := Wait();
        if swapped then s.Flush(minSz) else (s, false)
    }

    /** Waits for host data, and swaps when the host announces some. */
    ghost function AwaitHost(): (r: Transport)
      requires Valid()
      ensures r.Valid()
      decreases |script|
    {
      if down != [] || script == [] then this
      else if script[0].hostPending then Wait().0.AwaitHost()
      else if script[0].expired then this
      else Later().AwaitHost()
    }

    /** Takes the oldest contiguous host bytes, at most `want` of them. */
    ghost function Read(want: nat): (r: (Transport, seq<byte>))
      requires Valid()
      ensures r.0.Valid() && |r.1| <= want
    {
      var s := AwaitHost();
      if s.down == [] then (s, []) else
      var got := Min(want, s.downRing.ReadSize());
      ConsumeKeepsShape(s.downRing, got);
      (s.(down := s.down[got..], downRing := s.downRing.Released(got)), s.down[..got])
    }
  }

  /** After initialisation. */
  ghost function Start(sv: bool, size0: nat, size1: nat, pendSize: nat, downSize: nat, script: seq<Turn>): Transport {
    Transport(sv, size0, size1, 0, [], [], [], Indices(pendSize, pendSize, 0, 0), [],
              Indices(downSize, downSize, 0, 0), script)
  }

  // ---- Both streams are conserved ----

  lemma SwappedKeeps(s: Transport, turn: Turn)
    requires s.Valid()
    ensures s.Swapped(turn).Stream() == s.Stream()
    ensures s.Swapped(turn).NothingBehindEmptyBlock() && s.Swapped(turn).SameConfig(s)
    ensures s.Swapped(turn).script == s.script && s.Swapped(turn).exposed == s.exposed + s.block
  {
    hide Transport.Valid, Indices.Released, Indices.Filled, Transport.Accepted;
    var m := Min(|s.pend|, s.(inBlock := s.inBlock + 1).Size());
    assert s.pend[..m] + s.pend[m..] == s.pend;
    SwappedShape(s, turn);
  }

  lemma SwappedShape(s: Transport, turn: Turn)
    requires s.Valid()
    ensures s.Swapped(turn).SameConfig(s)
    ensures s.Swapped(turn).pend != [] ==> s.Swapped(turn).block != []
  {
    hide Indices.WellFormed, Indices.Occupancy, Indices.Released, Indices.Filled, Transport.Accepted;
    ConsumeKeepsShape(s.pendRing, Min(|s.pend|, s.(inBlock := s.inBlock + 1).Size()));
    FilledTwice(s.downRing, |s.Accepted(turn)|, 0);
  }

  lemma PutKeeps(s: Transport, bytes: seq<byte>)
    requires s.Valid() && s.HasRoom(|bytes|)
    ensures s.Put(bytes).Stream() == s.Stream() + bytes && s.Put(bytes).down == s.down
    ensures s.Put(bytes).SameConfig(s)
  {
  }

  /** The chunk in the pending ring is its new tail. */
  lemma ChunkIsTail(s: Transport, n: nat)
    requires s.Valid() && s.HasRoom(n) && !s.FitsBlock(n)
    ensures s.pendRing.Grown(n).WellFormed() && s.pendRing.Grown(n).TailAt(s.pendRing.ChunkAt(n), n)
  {
    ProduceKeepsShape(s.pendRing, n);
  }

  /** The blocks can have different sizes, and the size check looks at the one that is current at
      the start.  A swap that leaves an empty block leaves the pending ring as it was. */
  lemma FindKeeps(s: Transport, n: nat)
    requires s.Valid() && s.NothingBehindEmptyBlock()
    requires s.pend == [] && s.block == [] && s.PacketsFitBlocks() && s.pendRing.Admits(n) ==> n <= s.Size()
    ensures var (t, ok) := s.Find(n);
            ok && !t.FitsBlock(n) && t.PacketsFitBlocks() ==> t.block != []
  {
    if !s.HasRoom(n) {
      WaitSwaps(s);
    }
  }

  /** Only time passes: the state of s at moment k. */
  ghost function At(s: Transport, k: nat): (r: Transport)
    requires k <= |s.script|
    ensures s.Valid() ==> r.Valid()
  {
    s.(script := s.script[k..])
  }

  /** A wait ends with a swap at the first moment at which the host allows it, unless the timeout
      expires before that. */
  lemma {:induction false} WaitSwaps(s: Transport)
    requires s.Valid()
    ensures s.Wait().1 ==>
              exists k ::
                0 <= k < |s.script| && s.script[k].free && s.Wait().0 == At(s, k + 1).Swapped(s.script[k])
    ensures !s.Wait().1 ==> exists k :: 0 <= k <= |s.script| && s.Wait().0 == At(s, k)
    decreases |s.script|
  {
    hide Transport.Swapped;
    assert At(s, 0) == s;
    if s.script != [] && !s.script[0].free && !s.script[0].expired {
      WaitSwaps(s.Later());
      var l := s.Later();
      forall k | 0 <= k <= |l.script| ensures At(l, k) == At(s, k + 1) {
        assert s.script[1..][k..] == s.script[k + 1..];
      }
      if s.Wait().1 {
        var k :| 0 <= k < |l.script| && l.script[k].free && l.Wait().0 == At(l, k + 1).Swapped(l.script[k]);
        assert s.script[k + 1] == l.script[k];
        assert At(s, k + 2) == At(l, k + 1);
      } else {
        var k :| 0 <= k <= |l.script| && l.Wait().0 == At(l, k);
        assert At(s, k + 1) == At(l, k);
      }
    } else if s.script != [] {
      assert At(s, 1) == s.Later();
    }
  }

  lemma SeekKeeps(s: Transport, p: Packet)
    requires s.Valid() && s.NothingBehindEmptyBlock() && p.core < 2 && 0 < |p.data| <= s.DataLenMax()
    ensures var (t, ok) := s.Seek(HdrSize(s.sv) + |p.data|);
            Fits(s.sv, p) && (ok ==> t.Put(Encode(s.sv, p)).NothingBehindEmptyBlock())
  {
    hide Indices.Released, Indices.Occupancy, Indices.WellFormed;
    var n := HdrSize(s.sv) + |p.data|;
    if s.pendRing.Admits(n) {
      AdmittedFits(s.pendRing, n);
    }
    if s.pend == [] {
      FindKeeps(s, n);
    } else {
      FindKeeps(s.TrySwap().0, n);
    }
  }

  lemma FlushShrinks(s: Transport)
    requires s.Valid() && s.block != []
    ensures s.Wait().1 ==> |s.Wait().0.block + s.Wait().0.pend| < |s.block + s.pend|
  {
    WaitSwaps(s);
  }
}
