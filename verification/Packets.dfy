/** The wire format of the up stream: every user packet is prepended with a header that carries
    the allocated and the written size, and the host cuts the byte stream along these headers. */
module Packets {
  import opened Common

  /** One `esp_apptrace_write`: the core it ran on and the user data. */
  datatype Packet = Packet(core: nat, data: seq<byte>)

  /** `sizeof(esp_tracedata_hdr_t)`: two bytes when SystemView owns the channel, else two halfwords. */
  function HdrSize(sv: bool): nat {
    if sv then 2 else 4
  }

  /** What the header fields can carry: 8 bits, or 15 bits below the core bit. */
  predicate Fits(sv: bool, p: Packet) {
    p.core < 2 && |p.data| < if sv then 256 else 0x8000
  }

  function Le16(n: nat): seq<byte>
    requires n < 0x1_0000
  {
    [n % 256, n / 256]
  }

  function FromLe16(lo: byte, hi: byte): int {
    lo as int + 256 * hi as int
  }

  /** The header once the packet is put: `wr_sz` repeats `block_sz`. */
  function Header(sv: bool, p: Packet): (h: seq<byte>)
    requires Fits(sv, p)
    ensures |h| == HdrSize(sv)
  {
    if sv then [|p.data|, |p.data|]
    else Le16(p.core * 0x8000 + |p.data|) + Le16(p.core * 0x8000 + |p.data|)
  }

  function Encode(sv: bool, p: Packet): (s: seq<byte>)
    requires Fits(sv, p)
    ensures |s| == HdrSize(sv) + |p.data|
  {
    Header(sv, p) + p.data
  }

  /** The header byte by byte: two copies of the length, little-endian and with the core in the top
      bit, or as one byte each with SystemView. */
  lemma HeaderByIndex(sv: bool, p: Packet)
    requires Fits(sv, p)
    ensures !sv ==> Header(sv, p)[0] == Header(sv, p)[2] == |p.data| % 256
    ensures !sv ==> Header(sv, p)[1] == Header(sv, p)[3] == |p.data| / 256 + 128 * p.core
    ensures sv ==> Header(sv, p)[0] == Header(sv, p)[1] == |p.data|
  {
  }

  ghost predicate AllFit(sv: bool, ps: seq<Packet>) {
    forall k :: 0 <= k < |ps| ==> Fits(sv, ps[k])
  }

  function EncodeAll(sv: bool, ps: seq<Packet>): seq<byte>
    requires AllFit(sv, ps)
  {
    if ps == [] then [] else EncodeAll(sv, ps[..|ps| - 1]) + Encode(sv, ps[|ps| - 1])
  }

  /** The host's side: read a header, check that the packet was completed, take its user data. */
  function Decode(sv: bool, s: seq<byte>): Option<(Packet, seq<byte>)> {
    var h := HdrSize(sv);
    if |s| < h then None
    else
      var block := if sv then s[0] as int else FromLe16(s[0], s[1]);
      var written := if sv then s[1] as int else FromLe16(s[2], s[3]);
      var core := if sv then 0 else block / 0x8000;
      var len := if sv then block else block % 0x8000;
      if written != block || |s| < h + len then None
      else Some((Packet(core, s[h..h + len]), s[h + len..]))
  }

  /** What a host makes of any header, byte by byte. */
  lemma DecodeByIndex(s: seq<byte>)
    requires |s| >= 4
    ensures var len: int := s[0] as int + 256 * (s[1] as int % 128);
            Decode(false, s) ==
            if s[0] == s[2] && s[1] == s[3] && |s| >= 4 + len
            then Some((Packet(s[1] / 128, s[4..4 + len]), s[4 + len..])) else None
    ensures Decode(true, s) ==
            var len: int := s[0] as int;
            if s[0] == s[1] && |s| >= 2 + len then Some((Packet(0, s[2..2 + len]), s[2 + len..])) else None
  {
  }

  function DecodeAll(sv: bool, s: seq<byte>): Option<seq<Packet>>
    decreases |s|
  {
    if s == [] then Some([])
    else match Decode(sv, s)
      case None => None
      case Some((p, rest)) =>
        match DecodeAll(sv, rest)
        case None => None
        case Some(ps) => Some([p] + ps)
  }

  /** SystemView headers do not carry the core. */
  function Received(sv: bool, p: Packet): Packet {
    if sv then p.(core := 0) else p
  }

  function ReceivedAll(sv: bool, ps: seq<Packet>): (r: seq<Packet>)
    ensures |r| == |ps|
  {
    seq(|ps|, k requires 0 <= k < |ps| => Received(sv, ps[k]))
  }

  lemma DecodeEncode(sv: bool, p: Packet, rest: seq<byte>)
    requires Fits(sv, p)
    ensures Decode(sv, Encode(sv, p) + rest) == Some((Received(sv, p), rest))
  {
    var s := Encode(sv, p) + rest;
    var h := HdrSize(sv);
    assert s[..h] == Header(sv, p);
    assert s[h..h + |p.data|] == p.data;
    assert s[h + |p.data|..] == rest;
    if !sv {
      var v := p.core * 0x8000 + |p.data|;
      assert s[0] == Header(sv, p)[0] == v % 256 && s[1] == Header(sv, p)[1] == v / 256;
      assert s[2] == Header(sv, p)[2] == v % 256 && s[3] == Header(sv, p)[3] == v / 256;
      assert v / 0x8000 == p.core && v % 0x8000 == |p.data|;
    }
  }

  lemma EncodeAllAppend(sv: bool, ps: seq<Packet>, p: Packet)
    requires AllFit(sv, ps) && Fits(sv, p)
    ensures AllFit(sv, ps + [p])
    ensures EncodeAll(sv, ps + [p]) == EncodeAll(sv, ps) + Encode(sv, p)
  {
    assert (ps + [p])[..|ps|] == ps;
  }

  lemma {:induction false} EncodeAllFront(sv: bool, ps: seq<Packet>)
    requires AllFit(sv, ps) && ps != []
    ensures EncodeAll(sv, ps) == Encode(sv, ps[0]) + EncodeAll(sv, ps[1..])
  {
    hide Encode;
    var n := |ps| - 1;
    if n == 0 {
      assert ps[..0] == [] && ps[1..] == [];
    } else {
      EncodeAllFront(sv, ps[..n]);
      EncodeAllAppend(sv, ps[1..][..n - 1], ps[n]);
      assert ps[..n][1..] == ps[1..][..n - 1] && ps[1..] == ps[1..][..n - 1] + [ps[n]];
    }
  }

  /** Round trip: a host that receives the concatenation recovers every packet, in order. */
  lemma {:induction false} DecodeAllEncodeAll(sv: bool, ps: seq<Packet>)
    requires AllFit(sv, ps)
    ensures DecodeAll(sv, EncodeAll(sv, ps)) == Some(ReceivedAll(sv, ps))
  {
    hide Encode, Decode, Received;
    if ps == [] {
    } else {
      var rest := EncodeAll(sv, ps[1..]);
      EncodeAllFront(sv, ps);
      DecodeEncode(sv, ps[0], rest);
      DecodeAllEncodeAll(sv, ps[1..]);
      assert ReceivedAll(sv, ps) == [Received(sv, ps[0])] + ReceivedAll(sv, ps[1..]);
    }
  }
}
