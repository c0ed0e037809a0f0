/** The byte ring of app_trace_util.c.  It hands out contiguous chunks only, and shrinks its
    effective size so that it can wrap early when a chunk does not fit before the end. */
module Ring {
  import opened Common

  /** The four `uint32_t` fields of the control structure. */
  datatype Indices = Indices(size: nat, cur: nat, rd: nat, wr: nat) {

    /** `cur` is the full size unless the unread bytes wrap around the end of the storage. */
    ghost predicate WellFormed() {
      if rd <= wr then cur == size && (wr < size || (size == 0 && wr == 0))
      else rd < cur <= size
    }

    /** The unread bytes, oldest first. */
    ghost function Unread(data: seq<byte>): seq<byte>
      requires WellFormed() && |data| == size
    {
      if rd <= wr then data[rd..wr] else data[rd..cur] + data[..wr]
    }

    /** The storage cell that holds unread byte k. */
    ghost function CellOf(k: nat): nat {
      if rd <= wr || rd + k < cur then rd + k else rd + k - cur
    }

    ghost function Occupancy(): nat
      requires WellFormed()
    {
      if rd <= wr then wr - rd else cur - rd + wr
    }

    function ReadSize(): nat
      requires rd <= wr || rd <= cur
    {
      if rd <= wr then wr - rd else cur - rd
    }

    function WriteSize(): nat
      requires rd <= wr ==> wr <= size
    {
      if rd <= wr then
        if size - wr > 0 && rd == 0 then size - wr - 1 else size - wr
      else rd - wr - 1
    }

    /** A chunk of n bytes is admitted: it fits where `WriteSize` looks, or in front of the
        reader after an early wrap.  A ring without storage admits nothing. */
    ghost predicate Admits(n: nat)
      requires WellFormed()
    {
      size > 0 && (n <= WriteSize() || (0 < rd <= wr && n <= rd - 1))
    }

    /** Where the next chunk of n bytes goes. */
    function ChunkAt(n: nat): nat {
      if rd <= wr && wr + n > size then 0 else wr
    }

    /** The n cells of `ChunkAt` have been appended.  The reader's end moves to where the early wrap
        left off, unless nothing was unread. */
    function Grown(n: nat): Indices {
      if wr < rd || wr + n < size then this.(wr := wr + n)
      else if wr + n == size then this.(wr := 0)
      else if rd < wr then this.(cur := wr, wr := n)
      else this.(rd := 0, wr := n)
    }

    /** The n oldest bytes have been removed, in any number of chunks. */
    function Released(n: nat): Indices {
      if rd <= wr || rd + n < cur then this.(rd := rd + n)
      else Indices(size, size, rd + n - cur, wr)
    }

    /** n bytes have been appended to a ring of full effective size, in any number of chunks. */
    function Filled(n: nat): Indices {
      if n == 0 || wr + n < size then this.(wr := wr + n) else this.(wr := wr + n - size)
    }

    /** No unread byte lives in the n cells from ptr on. */
    ghost predicate ChunkIsFree(ptr: nat, n: nat)
      requires WellFormed()
    {
      forall k :: 0 <= k < Occupancy() ==> !(ptr <= CellOf(k) < ptr + n)
    }

    /** The last n unread bytes are the contiguous cells from ptr on. */
    ghost predicate TailAt(ptr: nat, n: nat)
      requires WellFormed()
    {
      && n <= Occupancy()
      && ptr + n <= size
      && forall k :: Occupancy() - n <= k < Occupancy() ==> CellOf(k) == ptr + (k - (Occupancy() - n))
    }
  }

  /** Unread byte k is the byte in its cell, and the sequence has exactly `Occupancy` bytes. */
  lemma UnreadByCell(i: Indices, data: seq<byte>)
    requires i.WellFormed() && |data| == i.size
    ensures |i.Unread(data)| == i.Occupancy() < Max1(i.size)
    ensures forall k :: 0 <= k < i.Occupancy() ==> i.CellOf(k) < i.size && i.Unread(data)[k] == data[i.CellOf(k)]
  {
  }

  function Max1(n: nat): nat {
    if n == 0 then 1 else n
  }

  /** Different unread bytes live in different cells. */
  lemma CellsDistinct(i: Indices, j: nat, k: nat)
    requires i.WellFormed() && j < k < i.Occupancy()
    ensures i.CellOf(j) != i.CellOf(k)
  {
  }

  /** Writing the cells of the tail replaces exactly the last n unread bytes. */
  lemma WriteTail(i: Indices, before: seq<byte>, after: seq<byte>, ptr: nat, src: seq<byte>)
    requires i.WellFormed() && |before| == |after| == i.size && i.TailAt(ptr, |src|)
    requires after == before[..ptr] + src + before[ptr + |src|..]
    ensures i.Unread(after) == i.Unread(before)[..i.Occupancy() - |src|] + src
  {
    UnreadByCell(i, before);
    UnreadByCell(i, after);
    var n, m := i.Occupancy(), |src|;
    forall k | 0 <= k < n
      ensures i.Unread(after)[k] == (i.Unread(before)[..n - m] + src)[k]
    {
      if k < n - m {
        TailIsSeparate(i, ptr, m, k);
      }
    }
  }

  /** The cells of the tail hold no other unread byte. */
  lemma TailIsSeparate(i: Indices, ptr: nat, m: nat, k: nat)
    requires i.WellFormed() && i.TailAt(ptr, m) && k < i.Occupancy() - m
    ensures !(ptr <= i.CellOf(k) < ptr + m)
  {
    if ptr <= i.CellOf(k) < ptr + m {
      CellsDistinct(i, k, i.Occupancy() - m + (i.CellOf(k) - ptr));
      assert false;
    }
  }

  /** Index change j appends the n cells from ptr to the unread bytes of i and moves none of them. */
  ghost predicate Extends(i: Indices, j: Indices, ptr: nat, n: nat)
    requires i.WellFormed()
  {
    && j.WellFormed() && j.size == i.size
    && j.Occupancy() == i.Occupancy() + n
    && (forall k :: 0 <= k < i.Occupancy() ==> j.CellOf(k) == i.CellOf(k))
    && j.TailAt(ptr, n)
  }

  lemma ExtendsAppends(i: Indices, j: Indices, data: seq<byte>, ptr: nat, n: nat)
    requires i.WellFormed() && |data| == i.size && Extends(i, j, ptr, n)
    ensures j.Unread(data) == i.Unread(data) + data[ptr..ptr + n]
    ensures i.ChunkIsFree(ptr, n)
  {
    UnreadByCell(i, data);
    UnreadByCell(j, data);
    forall k | 0 <= k < i.Occupancy()
      ensures !(ptr <= i.CellOf(k) < ptr + n)
    {
      TailIsSeparate(j, ptr, n, k);
    }
  }

  /** What a produce does to the indices. */
  lemma ProduceAppends(i: Indices, data: seq<byte>, n: nat)
    requires i.WellFormed() && |data| == i.size && i.Admits(n)
    ensures var p, j := i.ChunkAt(n), i.Grown(n);
            && j.WellFormed() && j.size == i.size && p + n <= i.size
            && j.Unread(data) == i.Unread(data) + data[p..p + n]
            && j.TailAt(p, n) && i.ChunkIsFree(p, n)
  {
    assert Extends(i, i.Grown(n), i.ChunkAt(n), n);
    ExtendsAppends(i, i.Grown(n), data, i.ChunkAt(n), n);
  }

  /** What a consume, or a row of them, does to the indices. */
  lemma ConsumeRemoves(i: Indices, data: seq<byte>, n: nat)
    requires i.WellFormed() && |data| == i.size && n <= i.Occupancy()
    ensures var j := i.Released(n);
            && j.WellFormed() && j.size == i.size && j.Occupancy() == i.Occupancy() - n
            && n <= |i.Unread(data)| && j.Unread(data) == i.Unread(data)[n..]
    ensures n <= i.ReadSize() ==> i.rd + n <= i.size && data[i.rd..i.rd + n] == i.Unread(data)[..n]
  {
    UnreadByCell(i, data);
    UnreadByCell(i.Released(n), data);
  }

  lemma ConsumeKeepsShape(i: Indices, n: nat)
    requires i.WellFormed() && n <= i.Occupancy()
    ensures i.Released(n).WellFormed() && i.Released(n).size == i.size
    ensures i.Released(n).Occupancy() == i.Occupancy() - n && (i.cur == i.size ==> i.Released(n).cur == i.size)
    ensures i.Released(0) == i
  {
  }

  lemma AdmittedFits(i: Indices, n: nat)
    requires i.WellFormed() && i.Admits(n)
    ensures n < Max1(i.size)
  {
  }

  lemma ProduceKeepsShape(i: Indices, n: nat)
    requires i.WellFormed() && i.Admits(n)
    ensures i.Grown(n).WellFormed() && i.Grown(n).size == i.size && i.Grown(n).Occupancy() == i.Occupancy() + n
    ensures i.Grown(n).TailAt(i.ChunkAt(n), n)
  {
  }

  lemma ReleasedTwice(i: Indices, m: nat, n: nat)
    requires i.WellFormed() && m + n <= i.Occupancy()
    ensures i.Released(m).Released(n) == i.Released(m + n)
  {
  }

  /** As long as no chunk wraps early, chunk after chunk fills a ring of full effective size. */
  lemma FilledTwice(i: Indices, m: nat, n: nat)
    requires i.WellFormed() && i.cur == i.size && i.Occupancy() + m + n < Max1(i.size)
    ensures i.Filled(m).WellFormed() && i.Filled(m).cur == i.size && i.Filled(m).size == i.size
    ensures i.Filled(m).Occupancy() == i.Occupancy() + m
    ensures i.Filled(m).Filled(n) == i.Filled(m + n) && i.Filled(0) == i
    ensures i.size > 0 && m <= i.WriteSize() ==> i.Grown(m) == i.Filled(m)
  {
  }

  /** The documented meaning of `WriteSize`, the amount one call can produce, is a lower bound:
      it is exact unless the ring is unwrapped and the reader has left more room at the front. */
  lemma WriteSizeIsExactUnlessEarlyWrap(i: Indices, n: nat)
    requires i.WellFormed() && i.size > 0
    ensures n <= i.WriteSize() ==> i.Admits(n)
    ensures i.Admits(n) && n > i.WriteSize() <==> i.rd <= i.wr && i.WriteSize() < n <= i.rd - 1
  {
  }

  class RingBuffer {
    const data: array<byte>
    var curSize: nat
    var rd: nat
    var wr: nat

    ghost function Idx(): Indices
      reads this
    {
      Indices(data.Length, curSize, rd, wr)
    }

    ghost predicate Valid()
      reads this
    {
      Idx().WellFormed()
    }

    /** The FIFO this ring refines. */
    ghost function Contents(): seq<byte>
      requires Valid()
      reads this, data
    {
      Idx().Unread(data[..])
    }

    /** One cell always stays unused. */
    function Capacity(): nat {
      if data.Length == 0 then 0 else data.Length - 1
    }

    constructor (data: array<byte>)
      ensures Valid() && this.data == data && Contents() == []
      ensures curSize == data.Length && rd == wr == 0
    {
      this.data := data;
      curSize, rd, wr := data.Length, 0, 0;
    }

    /** Allocates n contiguous bytes at the back of the FIFO. */
    method Produce(n: nat) returns (ptr: Option<nat>)
      requires Valid() && data.Length + n < TWO_32
      modifies this
      ensures Valid()
      ensures ptr.Some? <==> old(Idx().Admits(n))
      ensures ptr.None? ==> unchanged(this)
      ensures ptr.Some? ==> ptr.value == old(Idx()).ChunkAt(n) && Idx() == old(Idx()).Grown(n)
      ensures ptr.Some? ==>
                && ptr.value + n <= data.Length
                && Contents() == old(Contents()) + data[ptr.value..ptr.value + n]
                && Idx().TailAt(ptr.value, n)
                && old(Idx()).ChunkIsFree(ptr.value, n)
      ensures n <= old(Idx().WriteSize()) && old(curSize) == data.Length ==> curSize == data.Length
    {
      hide Indices.Unread, Indices.TailAt, Indices.ChunkIsFree, Indices.CellOf, Indices.Occupancy;
      ghost var i := Idx();
      var p := wr;
      if rd <= wr {
        if wr + n >= data.Length {
          if rd == 0 {
            return None;
          }
          if wr + n == data.Length {
            wr := 0;
          } else {
            if n > rd - 1 {
              return None;
            }
            curSize := wr;
            wr := 0;
            p := 0;
            if rd == curSize {
              rd := 0;
              if curSize < data.Length {
                curSize := data.Length;
              }
            }
            wr := wr + n;
          }
        } else {
          wr := wr + n;
        }
      } else {
        if n > rd - wr - 1 {
          return None;
        }
        wr := wr + n;
      }
      ProduceAppends(i, data[..], n);
      return Some(p);
    }

    /** Releases the n oldest bytes if they are contiguous. */
    method Consume(n: nat) returns (ptr: Option<nat>)
      requires Valid() && data.Length + n < TWO_32
      modifies this
      ensures Valid()
      ensures ptr.Some? <==> n <= old(Idx().ReadSize())
      ensures ptr.None? ==> unchanged(this)
      ensures ptr.Some? ==> Idx() == old(Idx()).Released(n)
      ensures ptr.Some? ==>
                && ptr.value + n <= data.Length
                && n <= |old(Contents())|
                && data[ptr.value..ptr.value + n] == old(Contents())[..n]
                && Contents() == old(Contents())[n..]
      ensures old(curSize) == data.Length ==> curSize == data.Length
    {
      hide Indices.Unread;
      ghost var i := Idx();
      var p := rd;
      if rd <= wr {
        if rd + n > wr {
          return None;
        }
        rd := rd + n;
      } else {
        if rd + n > curSize {
          return None;
        } else if rd + n == curSize {
          if curSize < data.Length {
            curSize := data.Length;
          }
          rd := 0;
        } else {
          rd := rd + n;
        }
      }
      ConsumeRemoves(i, data[..], n);
      return Some(p);
    }

    /** Zero exactly when nothing is unread; otherwise the length of the contiguous front part. */
    method ReadSizeGet() returns (size: nat)
      requires Valid()
      ensures size == Idx().ReadSize()
      ensures size == 0 <==> Contents() == []
      ensures size <= |Contents()| <= data.Length && (rd <= wr ==> size == |Contents()|)
    {
      size := 0;
      if rd <= wr {
        size := wr - rd;
      } else {
        size := curSize - rd;
      }
    }

    method WriteSizeGet() returns (size: nat)
      requires Valid()
      ensures size == Idx().WriteSize()
      ensures data.Length > 0 ==> Idx().Admits(size)
      ensures |Contents()| <= Capacity()
      ensures curSize == data.Length ==>
                |Contents()| + size <= Capacity() && (size == 0 <==> |Contents()| == Capacity())
    {
      Occupied();
      size := 0;
      if rd <= wr {
        size := data.Length - wr;
        if size > 0 && rd == 0 {
          size := size - 1;
        }
      } else {
        size := rd - wr - 1;
      }
    }

    /** The `memcpy` into a chunk that was just produced. */
    method CopyIn(ptr: nat, src: seq<byte>)
      requires Valid() && Idx().TailAt(ptr, |src|)
      modifies data
      ensures |src| <= |old(Contents())|
      ensures Contents() == old(Contents())[..|old(Contents())| - |src|] + src
    {
      Memcpy(data, ptr, src);
      assert data[..] == old(data[..])[..ptr] + src + old(data[..])[ptr + |src|..];
      WriteTail(Idx(), old(data[..]), data[..], ptr, src);
      UnreadByCell(Idx(), old(data[..]));
    }

    /** Produce and fill in one step. */
    method Push(src: seq<byte>) returns (ok: bool)
      requires Valid() && data.Length + |src| < TWO_32
      modifies this, data
      ensures Valid()
      ensures ok <==> old(Idx().Admits(|src|))
      ensures Contents() == if ok then old(Contents()) + src else old(Contents())
      ensures Idx() == if ok then old(Idx()).Grown(|src|) else old(Idx())
      ensures |src| <= old(Idx().WriteSize()) && old(curSize) == data.Length ==> curSize == data.Length
    {
      var ptr := Produce(|src|);
      ok := ptr.Some?;
      if ok {
        CopyIn(ptr.value, src);
        assert Contents() == old(Contents()) + src;
      }
    }

    lemma Occupied()
      requires Valid()
      ensures Idx().WellFormed() && |Contents()| == Idx().Occupancy() <= Capacity()
    {
      UnreadByCell(Idx(), data[..]);
    }
  }
}
