/** The response side of host_file_io.c. */
module HostFileIo {
  import opened Common
  import opened TransportSpec
  import opened TransportLaws
  import opened Membufs

  /** A buffer whose first bytes have been overwritten. */
  function Patched(orig: seq<byte>, done: seq<byte>): seq<byte>
    requires |done| <= |orig|
  {
    done + orig[|done|..]
  }

  lemma PatchedFurther(orig: seq<byte>, done: seq<byte>, more: seq<byte>)
    requires |done| + |more| <= |orig|
    ensures Patched(orig, []) == orig
    ensures var was := Patched(orig, done);
            |was| == |orig| && was[..|done|] + more + was[|done| + |more|..] == Patched(orig, done + more)
  {
  }

  /** Receives a host response of buf.Length bytes, however the host chunks it, and however often
      the unread bytes wrap: buf holds exactly what came, and a success is a full buffer. */
  method RspRecv(proto: MembufsProto, buf: array<byte>) returns (res: TmoResult)
    requires proto.Valid() && buf.Length < TWO_32 && buf !in proto.Repr()
    modifies proto.Repr(), buf
    ensures proto.Valid() && proto.packets == old(proto.packets)
    ensures proto.View() == Receive(old(proto.View()), buf.Length).0
    ensures var got := Receive(old(proto.View()), buf.Length).1;
            && proto.downRead == old(proto.downRead) + got
            && buf[..] == Patched(old(buf[..]), got)
            && (res.Ok? <==> |got| == buf.Length)
  {
    hide MembufsProto.Accounts, MembufsProto.View, MembufsProto.Shape, Transport.Valid, Transport.Read, Receive,
      Patched;
    ghost var start, before, orig := proto.View(), proto.downRead, buf[..];
    var totRd := 0;
    ghost var got := [];
    PatchedFurther(orig, [], []);
    while totRd < buf.Length
      invariant proto.Valid() && proto.packets == old(proto.packets)
      invariant totRd == |got| <= buf.Length
      invariant Receive(start, buf.Length).0 == Receive(proto.View(), buf.Length - totRd).0
      invariant Receive(start, buf.Length).1 == got + Receive(proto.View(), buf.Length - totRd).1
      invariant proto.downRead == before + got
      invariant buf[..] == Patched(orig, got)
    {
      ghost var now := proto.View();
      var n := proto.Read(buf, totRd, buf.Length - totRd);
      ReceiveStep(now, buf.Length - totRd);
      ghost var more := now.Read(buf.Length - totRd).1;
      PatchedFurther(orig, got, more);
      assert before + got + more == before + (got + more);
      got := got + more;
      if n.None? {
        return Timeout;
      }
      totRd := totRd + n.value;
    }
    ReceiveStep(proto.View(), 0);
    assert got + [] == got;
    res := Ok;
  }

  /** Without a timeout, a response is received exactly if the host has to offer that many bytes, and
      the buffer then holds the first of these.  Bytes that have arrived are received in any case. */
  lemma ReceivedExactly(s: Transport, n: nat)
    requires s.Valid()
    ensures |s.down| >= n ==> Receive(s, n).1 == s.down[..n]
    ensures NeverExpires(s.script) ==>
              && (|Receive(s, n).1| == n <==> |Readable(s)| >= n)
              && Receive(s, n).1 == Readable(s)[..Min(n, |Readable(s)|)]
  {
    if |s.down| >= n {
      ReceiveAtOnce(s, n);
    }
    if NeverExpires(s.script) {
      ReceiveSucceedsExactly(s, n);
    }
  }
}
