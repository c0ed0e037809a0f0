/** Writing an OTA image with esp_ota_write: erase-as-you-go, and 16-byte blocks when the flash
    is encrypted. */
module OtaWrite {
  import opened Common

  const SECTOR: nat := 4096
  const BLOCK: nat := 16
  const MAGIC: byte := 0xE9

  /** A flash cell.  Programming a cell that is not erased spoils it. */
  datatype Cell = Erased | Programmed(b: byte) | Spoiled

  datatype Err = Ok | NotAllowed | InvalidArg | InvalidSize | ValidateFailed

  /** The byte the cell holds after programming b. */
  function Program(c: Cell, b: byte): Cell {
    if c.Erased? then Programmed(b) else Spoiled
  }

  /** An application partition. */
  class Partition {
    const cells: array<Cell>
    const readonly: bool

    constructor (cells: array<Cell>, readonly: bool)
      ensures this.cells == cells && this.readonly == readonly
    {
      this.cells, this.readonly := cells, readonly;
    }

    /** `esp_partition_erase_range`. */
    method EraseRange(offset: nat, size: nat) returns (err: Err)
      modifies cells
      ensures err == if readonly then NotAllowed
                     else if offset > cells.Length then InvalidArg
                     else if offset + size > cells.Length || size % SECTOR != 0 then InvalidSize
                     else if offset % SECTOR != 0 then InvalidArg
                     else Ok
      ensures err != Ok ==> unchanged(cells)
      ensures err == Ok ==> forall k :: 0 <= k < cells.Length ==>
                cells[k] == if offset <= k < offset + size then Erased else old(cells[k])
    {
      if readonly {
        return NotAllowed;
      }
      if offset > cells.Length {
        return InvalidArg;
      }
      if offset + size > cells.Length {
        return InvalidSize;
      }
      if size % SECTOR != 0 {
        return InvalidSize;
      }
      if offset % SECTOR != 0 {
        return InvalidArg;
      }
      forall k | offset <= k < offset + size {
        cells[k] := Erased;
      }
      return Ok;
    }

    /** `esp_partition_write`. */
    method Write(offset: nat, src: seq<byte>) returns (err: Err)
      modifies cells
      ensures err == if readonly then NotAllowed
                     else if offset > cells.Length then InvalidArg
                     else if offset + |src| > cells.Length then InvalidSize
                     else Ok
      ensures err != Ok ==> unchanged(cells)
      ensures err == Ok ==> forall k :: 0 <= k < cells.Length ==>
                cells[k] == if offset <= k < offset + |src| then Program(old(cells[k]), src[k - offset])
                            else old(cells[k])
    {
      if readonly {
        return NotAllowed;
      }
      if offset > cells.Length {
        return InvalidArg;
      }
      if offset + |src| > cells.Length {
        return InvalidSize;
      }
      forall k | offset <= k < offset + |src| {
        cells[k] := Program(cells[k], src[k - offset]);
      }
      return Ok;
    }
  }

  function CeilSector(n: nat): nat {
    (n + SECTOR - 1) / SECTOR * SECTOR
  }

  /** The sectors erased when data of this size arrives at wrote_size: [first, second). */
  function EraseSpan(wrote: nat, size: nat): (nat, nat)
    requires size > 0
  {
    var last := (wrote + size - 1) / SECTOR;
    if wrote % SECTOR == 0 then (wrote, (last + 1) * SECTOR)
    else ((wrote / SECTOR + 1) * SECTOR, (last + 1) * SECTOR)
  }

  /** The erase span starts at the first sector boundary that is not behind the write position and
      ends at the first one that is not inside the new bytes. */
  lemma EraseSpanCovers(wrote: nat, size: nat)
    requires size > 0
    ensures EraseSpan(wrote, size).0 == CeilSector(wrote)
    ensures EraseSpan(wrote, size).0 <= EraseSpan(wrote, size).1 == CeilSector(wrote + size)
    ensures wrote + size <= EraseSpan(wrote, size).1
  {
  }

  /** The whole blocks of the first n bytes. */
  function FloorBlock(n: nat): (r: nat)
    ensures r <= n < r + BLOCK && r % BLOCK == 0
  {
    n / BLOCK * BLOCK
  }

  /** Erasing counts from wrote_size and not from the end of the buffered bytes; the whole blocks
      still lie in erased sectors, because sectors are a whole number of blocks. */
  lemma BlocksStayInErasedSectors(wrote: nat, size: nat, partial: nat)
    requires wrote % BLOCK == 0 && partial < BLOCK
    ensures FloorBlock(wrote + partial + size) <= CeilSector(wrote + size)
  {
    var q := (wrote + size + SECTOR - 1) / SECTOR;
    assert CeilSector(wrote + size) == (q * (SECTOR / BLOCK)) * BLOCK;
    assert wrote + size <= CeilSector(wrote + size);
  }

  lemma CeilSectorIsLeast(n: nat, end: nat)
    requires n <= end && end % SECTOR == 0
    ensures n <= CeilSector(n) <= end
  {
  }

  /** The two ranges that esp_ota_write computes, from and how long, make up the erase span. */
  lemma RangesToErase(wrote: nat, size: nat)
    requires size > 0
    ensures var first, last := wrote / SECTOR, (wrote + size - 1) / SECTOR;
            var from, end := CeilSector(wrote), CeilSector(wrote + size);
            && first <= last && from % SECTOR == 0 && wrote <= from <= end
            && (last - first + 1) * SECTOR % SECTOR == 0 && (last - first) * SECTOR % SECTOR == 0
            && (wrote % SECTOR == 0 ==> wrote == from && wrote + (last - first + 1) * SECTOR == end)
            && (wrote % SECTOR != 0 ==> (first + 1) * SECTOR == from && from + (last - first) * SECTOR == end)
            && (wrote % SECTOR != 0 && first == last ==> from == end)
  {
    EraseSpanCovers(wrote, size);
  }

  /** Up to which position the whole blocks of the first n image bytes reach. */
  function Flushed(encrypted: bool, n: nat): nat {
    if encrypted then FloorBlock(n) else n
  }

  /** The answer of `esp_ota_write`, from the partition, the kind of session, the image so far and
      the new data. */
  function Verdict(readonly: bool, length: nat, needErase: bool, encrypted: bool, image: seq<byte>,
                   data: seq<byte>): Err
  {
    if data == [] then Ok
    else if needErase && readonly then NotAllowed
    else if needErase && CeilSector(Flushed(encrypted, |image|) + |data|) > length then InvalidSize
    else if image == [] && data[0] != MAGIC then ValidateFailed
    else if Flushed(encrypted, |image| + |data|) > length then InvalidSize
    else Ok
  }

  /** Cells [from, end) erased, the others as they were. */
  function ErasedIn(cells: seq<Cell>, from: nat, end: nat): (r: seq<Cell>)
    ensures |r| == |cells|
  {
    seq(|cells|, k requires 0 <= k < |cells| => if from <= k < end then Erased else cells[k])
  }

  /** The cells below n are erased. */
  ghost predicate AllErased(cells: seq<Cell>, n: nat) {
    forall k :: 0 <= k < n && k < |cells| ==> cells[k] == Erased
  }

  lemma ErasedFurther(cells: seq<Cell>, from: nat, end: nat)
    requires AllErased(cells, from)
    ensures AllErased(ErasedIn(cells, from, end), end)
    ensures ErasedIn(cells, from, from) == cells
  {
  }

  /** The state that esp_ota_write keeps for one handle. */
  class OtaEntry {
    const part: Partition
    const needErase: bool
    const encrypted: bool
    const partialData: array<byte>
    var partialBytes: nat
    var wroteSize: nat

    ghost const erasedTo: nat    // what esp_ota_begin erased
    ghost var base: seq<Cell>    // what the cells held after their last erase, or when the session began
    ghost var image: seq<byte>   // all data of the successful writes

    /** The first n bytes of img were programmed into the cells, each once, and nothing else was. */
    ghost predicate Holds(img: seq<byte>, n: nat)
      reads `base, part, part.cells
    {
      && n <= |img| && n <= part.cells.Length == |base|
      && forall k :: 0 <= k < part.cells.Length ==> part.cells[k] == if k < n then Program(base[k], img[k]) else base[k]
    }

    /** Up to where the session may program without a further erase. */
    ghost function Frontier(): nat
      reads `wroteSize
    {
      if needErase then CeilSector(wroteSize) else erasedTo
    }

    /** The buffered bytes. */
    ghost function Partial(): seq<byte>
      requires partialBytes <= partialData.Length
      reads `partialBytes, partialData
    {
      partialData[..partialBytes]
    }

    ghost predicate Buffers()
      reads `wroteSize, `partialBytes
    {
      partialData.Length == BLOCK && partialBytes < BLOCK
      && if encrypted then wroteSize % BLOCK == 0 else partialBytes == 0
    }

    /** Exactly the whole blocks of the image have been programmed, each byte once, the rest is
        buffered, and the session's erased area is intact. */
    ghost predicate Valid()
      reads this, part, part.cells, partialData
    {
      && part.cells.Length % SECTOR == 0 && (part.readonly ==> needErase && image == [])
      && (!needErase ==> erasedTo <= part.cells.Length)
      && Buffers()
      && wroteSize == Flushed(encrypted, |image|)
      && Partial() == image[wroteSize..]
      && Holds(image, wroteSize)
      && (image != [] ==> image[0] == MAGIC)
      && AllErased(base, Frontier())
    }

    /** The entry of a session on a partition of which the first erasedTo bytes were erased, or none. */
    constructor (part: Partition, needErase: bool, encrypted: bool, ghost erasedTo: nat)
      requires part.cells.Length % SECTOR == 0
      requires !needErase ==>
                 && !part.readonly && erasedTo <= part.cells.Length
                 && forall k :: 0 <= k < erasedTo ==> part.cells[k] == Erased
      ensures Valid() && image == [] && base == part.cells[..] && fresh(partialData)
      ensures this.part == part && this.needErase == needErase && this.encrypted == encrypted
      ensures this.erasedTo == erasedTo
    {
      this.part, this.needErase, this.encrypted, this.erasedTo := part, needErase, encrypted, erasedTo;
      wroteSize, partialBytes, image := 0, 0, [];
      base := part.cells[..];
      partialData := new byte[BLOCK](_ => 0);
    }

    /** What is in flash, as far as the session erased it: the programmed part of the image. */
    lemma ImageIsInFlash()
      requires Valid()
      ensures wroteSize <= |image| && wroteSize <= part.cells.Length
      ensures forall k :: 0 <= k < wroteSize && k < Frontier() ==> part.cells[k] == Programmed(image[k])
      ensures needErase ==> wroteSize <= Frontier()
    {
    }

    /** Erases whole sectors from the frontier on. */
    method EraseSectors(from: nat, n: nat) returns (err: Err)
      requires Valid() && needErase && from == CeilSector(wroteSize) && from % SECTOR == 0 && n % SECTOR == 0
      requires wroteSize <= from <= part.cells.Length
      modifies `base, part.cells
      ensures Valid()
      ensures err == if part.readonly then NotAllowed else if from + n > part.cells.Length then InvalidSize else Ok
      ensures base == if err == Ok then ErasedIn(old(base), from, from + n) else old(base)
    {
      hide CeilSector, FloorBlock, OtaEntry.Partial;
      err := part.EraseRange(from, n);
      if err == Ok {
        base := ErasedIn(base, from, from + n);
      }
    }

    /** The erase at the start of a write: it stays ahead of the write position, covers all that
        this write may program, and touches no other sector. */
    method EraseAhead(size: nat) returns (err: Err)
      requires Valid() && needErase && size > 0
      modifies `base, part.cells
      ensures Valid()
      ensures err == if part.readonly then NotAllowed
                     else if CeilSector(wroteSize + size) > part.cells.Length then InvalidSize
                     else Ok
      ensures base == if err == Ok then ErasedIn(old(base), CeilSector(wroteSize), CeilSector(wroteSize + size))
                      else old(base)
      ensures err == Ok ==> AllErased(base, CeilSector(wroteSize + size))
    {
      WithinPartition();
      RangesToErase(wroteSize, size);
      hide CeilSector, EraseSpan, FloorBlock, OtaEntry.Valid, AllErased, ErasedIn;
      ErasedFurther(base, CeilSector(wroteSize), CeilSector(wroteSize + size));
      var first := wroteSize / SECTOR;
      var last := (wroteSize + size - 1) / SECTOR;
      err := Ok;
      if wroteSize % SECTOR == 0 {
        err := EraseSectors(wroteSize, (last - first + 1) * SECTOR);
      } else if first != last {
        err := EraseSectors((first + 1) * SECTOR, (last - first) * SECTOR);
      }
    }

    /** Where a session stands before it erases. */
    lemma WithinPartition()
      requires Valid() && needErase
      ensures wroteSize <= CeilSector(wroteSize) <= part.cells.Length == |base|
      ensures AllErased(base, CeilSector(wroteSize))
      ensures part.readonly ==> wroteSize == 0
    {
      CeilSectorIsLeast(wroteSize, part.cells.Length);
    }

    /** Programs src at the write position. */
    method Append(src: seq<byte>, ghost img: seq<byte>) returns (err: Err)
      requires Holds(img, wroteSize) && src <= img[wroteSize..] && !part.readonly
      modifies `wroteSize, part.cells
      ensures err == if old(wroteSize) + |src| <= part.cells.Length then Ok else InvalidSize
      ensures err != Ok ==> unchanged(this) && unchanged(part.cells)
      ensures err == Ok ==> wroteSize == old(wroteSize) + |src|
      ensures Holds(img, wroteSize)
      ensures err == Ok ==> img[wroteSize..] == img[old(wroteSize)..][|src|..]
    {
      err := part.Write(wroteSize, src);
      if err == Ok {
        ghost var w := wroteSize;
        wroteSize := wroteSize + |src|;
        assert forall k :: w <= k < wroteSize ==> img[k] == img[w..][k - w];
      }
    }

    /** Fills the buffered block with the front of data; when it is full, flushes it. */
    method TopUp(data: seq<byte>, ghost img: seq<byte>) returns (err: Err, copyLen: nat)
      requires partialData.Length == BLOCK && 0 < partialBytes < BLOCK
      requires Holds(img, wroteSize) && img[wroteSize..] == Partial() + data
      requires wroteSize % BLOCK == 0 && !part.readonly
      modifies `wroteSize, `partialBytes, partialData, part.cells
      ensures partialData.Length == BLOCK && copyLen <= |data| && Holds(img, wroteSize)
      ensures err == if old(partialBytes) + |data| < BLOCK || old(wroteSize) + BLOCK <= part.cells.Length then Ok
                     else InvalidSize
      ensures err == Ok && partialBytes != 0 ==>
                && copyLen == |data| && unchanged(`wroteSize) && unchanged(part.cells)
                && partialBytes == old(partialBytes) + |data| < BLOCK && Partial() == img[wroteSize..]
      ensures err == Ok && partialBytes == 0 ==>
                && wroteSize == old(wroteSize) + BLOCK && img[wroteSize..] == data[copyLen..]
                && forall k :: 0 <= k < BLOCK ==> partialData[k] == 0xFF
      // a block that could not be flushed stays in the buffer
      ensures err != Ok ==>
                && unchanged(`wroteSize) && unchanged(part.cells) && copyLen == BLOCK - old(partialBytes)
                && partialBytes == BLOCK && Partial() == old(Partial()) + data[..copyLen]
    {
      ghost var p := Partial();
      copyLen := Min(BLOCK - partialBytes, |data|);
      Memcpy(partialData, partialBytes, data[..copyLen]);
      partialBytes := partialBytes + copyLen;
      assert Partial() == p + data[..copyLen];
      if partialBytes != BLOCK {
        return Ok, copyLen;
      }
      assert Partial() <= img[wroteSize..];
      err := Append(partialData[..], img);
      if err == Ok {
        partialBytes := 0;
        forall k | 0 <= k < BLOCK {
          partialData[k] := 0xFF;
        }
      }
    }

    /** Programs the whole blocks of src, which are next in the image, and buffers the rest. */
    method AppendBlocks(src: seq<byte>, ghost img: seq<byte>) returns (err: Err)
      requires partialData.Length == BLOCK && wroteSize % BLOCK == 0 && !part.readonly
      requires Holds(img, wroteSize) && img[wroteSize..] == src
      modifies `wroteSize, `partialBytes, partialData, part.cells
      ensures Holds(img, wroteSize)
      ensures err == if FloorBlock(|img|) <= part.cells.Length then Ok else InvalidSize
      ensures err == Ok ==> wroteSize == FloorBlock(|img|) && partialBytes < BLOCK && Partial() == img[wroteSize..]
    {
      var body := |src| - |src| % BLOCK;
      assert wroteSize + body == FloorBlock(|img|);
      hide FloorBlock, Holds;
      partialBytes := |src| % BLOCK;
      Memcpy(partialData, 0, src[body..]);
      err := Append(src[..body], img);
    }

    /** The encrypted branch of `esp_ota_write`: completes the buffered block, programs whole
        blocks, buffers the rest. */
    method WriteEncrypted(data: seq<byte>, ghost img: seq<byte>) returns (err: Err)
      requires partialData.Length == BLOCK && partialBytes < BLOCK && wroteSize % BLOCK == 0 && !part.readonly
      requires Holds(img, wroteSize) && img[wroteSize..] == Partial() + data
      modifies `wroteSize, `partialBytes, partialData, part.cells
      ensures Holds(img, wroteSize)
      ensures err == if FloorBlock(|img|) <= part.cells.Length then Ok else InvalidSize
      ensures err == Ok ==> wroteSize == FloorBlock(|img|) && partialBytes < BLOCK && Partial() == img[wroteSize..]
    {
      var src := data;
      if partialBytes != 0 {
        var copyLen;
        err, copyLen := TopUp(data, img);
        if err != Ok || partialBytes != 0 {
          return;
        }
        src := data[copyLen..];
      }
      err := AppendBlocks(src, img);
    }

    /** Programs what the new data completes, on either kind of flash. */
    method WriteData(data: seq<byte>, ghost img: seq<byte>) returns (err: Err)
      requires Buffers() && !part.readonly
      requires Holds(img, wroteSize) && img[wroteSize..] == Partial() + data
      modifies `wroteSize, `partialBytes, partialData, part.cells
      ensures Holds(img, wroteSize)
      ensures err == if Flushed(encrypted, |img|) <= part.cells.Length then Ok else InvalidSize
      ensures err == Ok ==>
                wroteSize == Flushed(encrypted, |img|) && Buffers() && Partial() == img[wroteSize..]
      ensures err != Ok && !encrypted ==> unchanged(this) && unchanged(partialData) && unchanged(part.cells)
    {
      hide OtaEntry.Holds;
      if encrypted {
        err := WriteEncrypted(data, img);
      } else {
        err := Append(data, img);
      }
    }

    /** Where the position and the frontier end up after n more bytes, against what is erased. */
    lemma FrontierCovers(n: nat)
      requires Valid() && n > 0
      ensures Flushed(encrypted, |image| + n) <= CeilSector(wroteSize + n)
      ensures CeilSector(Flushed(encrypted, |image| + n)) <= CeilSector(wroteSize + n)
      ensures wroteSize + partialBytes == |image| && (image == [] <==> wroteSize == 0 && partialBytes == 0)
    {
      assert |Partial()| == |image| - wroteSize;
      if encrypted {
        BlocksStayInErasedSectors(wroteSize, n, partialBytes);
      }
      CeilSectorIsLeast(wroteSize + n, CeilSector(wroteSize + n));
      CeilSectorIsLeast(Flushed(encrypted, |image| + n), CeilSector(wroteSize + n));
    }

    /** `esp_ota_write` after its checks. */
    method Store(data: seq<byte>) returns (err: Err)
      requires Valid() && data != [] && (image == [] ==> data[0] == MAGIC) && !part.readonly
      requires needErase ==> AllErased(base, CeilSector(wroteSize + |data|))
      modifies `wroteSize, `partialBytes, `image, partialData, part.cells
      ensures err == if Flushed(encrypted, old(|image|) + |data|) <= part.cells.Length then Ok else InvalidSize
      ensures err == Ok ==> Valid() && image == old(image) + data
      ensures err != Ok ==> image == old(image) && Holds(image + data, wroteSize)
      ensures err != Ok && !encrypted ==> Valid() && unchanged(this) && unchanged(partialData)
    {
      ghost var img := image + data;
      assert img[wroteSize..] == Partial() + data;
      FrontierCovers(|data|);
      hide CeilSector, FloorBlock;
      err := WriteData(data, img);
      if err == Ok {
        image := img;
      }
    }

    /** The erase and the check of the magic byte at the start of `esp_ota_write`. */
    method Prepare(data: seq<byte>) returns (err: Err)
      requires Valid() && data != []
      modifies `base, part.cells
      ensures Valid()
      ensures err == if needErase && part.readonly then NotAllowed
                     else if needErase && CeilSector(wroteSize + |data|) > part.cells.Length then InvalidSize
                     else if image == [] && data[0] != MAGIC then ValidateFailed
                     else Ok
      ensures base == if needErase && (err == Ok || err == ValidateFailed)
                      then ErasedIn(old(base), CeilSector(wroteSize), CeilSector(wroteSize + |data|))
                      else old(base)
      ensures err == Ok && needErase ==> AllErased(base, CeilSector(wroteSize + |data|))
    {
      FrontierCovers(|data|);
      hide CeilSector, FloorBlock, OtaEntry.Holds, AllErased, OtaEntry.Partial, OtaEntry.Valid,
        ErasedIn;
      err := Ok;
      if needErase {
        err := EraseAhead(|data|);
        if err != Ok {
          return;
        }
      }
      if wroteSize == 0 && partialBytes == 0 && data[0] != MAGIC {
        return ValidateFailed;
      }
    }

    /** A failing write of this session leaves it as it was: it erases on the fly, or its flash is not
        encrypted, or the partition is large enough. */
    ghost predicate KeepsOnFailure(data: seq<byte>)
      reads `image
    {
      needErase || !encrypted || Flushed(encrypted, |image| + |data|) <= part.cells.Length
    }

    /** The write position, and room for the block that n more bytes complete. */
    lemma WithinLength(n: nat)
      requires Valid()
      ensures wroteSize <= part.cells.Length
      ensures |image| + n <= part.cells.Length ==> Flushed(encrypted, |image| + n) <= part.cells.Length
    {
    }

    lemma WriteStart(data: seq<byte>)
      requires Valid()
      ensures data == [] ==> image + data == image
      ensures part.readonly ==> needErase
      ensures wroteSize == Flushed(encrypted, |image|) && Holds(image + data, wroteSize)
      ensures data != [] ==> Flushed(encrypted, |image| + |data|) <= CeilSector(wroteSize + |data|)
    {
      if data != [] {
        FrontierCovers(|data|);
      }
    }

    /** `esp_ota_write`. */
    method Write(data: seq<byte>) returns (err: Err)
      requires Valid() && wroteSize + |data| < TWO_32
      modifies `wroteSize, `partialBytes, `image, `base, partialData, part.cells
      ensures err == Verdict(part.readonly, part.cells.Length, needErase, encrypted, old(image), data)
      ensures image == if err == Ok then old(image) + data else old(image)
      ensures err == Ok || old(KeepsOnFailure(data)) ==> Valid()
      ensures err != Ok && old(KeepsOnFailure(data)) ==> unchanged(`wroteSize, `partialBytes) && unchanged(partialData)
      // only a failing write of the other sessions can lose bytes, and what is in flash is still a
      // part of the image
      ensures !old(KeepsOnFailure(data)) ==> Holds(old(image) + data, wroteSize)
      // only the sectors ahead are erased
      ensures base == if data != [] && needErase && (err == Ok || err == ValidateFailed)
                      then ErasedIn(old(base), CeilSector(old(wroteSize)), CeilSector(old(wroteSize) + |data|))
                      else old(base)
    {
      hide CeilSector, FloorBlock, Flushed, OtaEntry.Holds, AllErased, OtaEntry.Partial,
        OtaEntry.Valid, ErasedIn;
      if data == [] {
        WriteStart(data);
        return Ok;
      }
      WriteStart(data);
      err := Prepare(data);
      if err != Ok {
        WriteStart(data);
        return;
      }
      err := Store(data);
    }
  }

  /** The chunks whose write succeeded, one after the other. */
  ghost function Accepted(chunks: seq<seq<byte>>, errs: seq<Err>): seq<byte>
    requires |chunks| == |errs|
  {
    if chunks == [] then []
    else
      var n := |chunks| - 1;
      Accepted(chunks[..n], errs[..n]) + if errs[n] == Ok then chunks[n] else []
  }

  const WITH_SEQUENTIAL_WRITES: nat := 0xFFFF_FFFE
  const SIZE_UNKNOWN: nat := 0xFFFF_FFFF

  /** How much `esp_ota_begin` erases at the start, in 32-bit arithmetic; nothing in a sequential
      session. */
  function EraseAtBegin(imageSize: nat, length: nat): nat {
    if imageSize == WITH_SEQUENTIAL_WRITES then 0
    else if imageSize == 0 || imageSize == SIZE_UNKNOWN then length
    else (imageSize + SECTOR - 1) % TWO_32 / SECTOR * SECTOR
  }

  /** Up to the last sector below 2^32, the image fits what was erased for it. */
  lemma ErasedForImage(imageSize: nat, length: nat)
    requires imageSize <= TWO_32 - SECTOR && imageSize != 0
    ensures imageSize <= EraseAtBegin(imageSize, length) < imageSize + SECTOR
    ensures EraseAtBegin(imageSize, length) == CeilSector(imageSize)
  {
  }

  /** `esp_ota_begin` after its checks of the partition table: erases, and opens a session. */
  method Begin(part: Partition, imageSize: nat, encrypted: bool) returns (err: Err, entry: OtaEntry?)
    requires part.cells.Length % SECTOR == 0 && imageSize < TWO_32
    modifies part.cells
    ensures err == Ok <==> entry != null
    ensures err == if imageSize == WITH_SEQUENTIAL_WRITES then Ok
                   else if part.readonly then NotAllowed
                   else if EraseAtBegin(imageSize, part.cells.Length) > part.cells.Length then InvalidSize
                   else Ok
    ensures err == Ok ==>
              && fresh(entry) && fresh(entry.partialData) && entry.Valid() && entry.image == []
              && entry.part == part && entry.encrypted == encrypted
              && entry.needErase == (imageSize == WITH_SEQUENTIAL_WRITES)
              && entry.erasedTo == EraseAtBegin(imageSize, part.cells.Length)
    ensures part.cells[..] ==
            if err == Ok then ErasedIn(old(part.cells[..]), 0, EraseAtBegin(imageSize, part.cells.Length))
            else old(part.cells[..])
    // an image of unknown size gets the whole partition
    ensures err == Ok && (imageSize == 0 || imageSize == SIZE_UNKNOWN) ==>
              forall k :: 0 <= k < part.cells.Length ==> part.cells[k] == Erased
  {
    entry := null;
    var size := EraseAtBegin(imageSize, part.cells.Length);
    assert size % SECTOR == 0;
    ghost var before := part.cells[..];
    if imageSize != WITH_SEQUENTIAL_WRITES {
      err := part.EraseRange(0, size);
      if err != Ok {
        return;
      }
    }
    err := Ok;
    assert part.cells[..] == ErasedIn(before, 0, size);
    entry := new OtaEntry(part, imageSize == WITH_SEQUENTIAL_WRITES, encrypted, size);
  }

  function Total(chunks: seq<seq<byte>>): nat {
    if chunks == [] then 0 else Total(chunks[..|chunks| - 1]) + |chunks[|chunks| - 1]|
  }

  lemma {:induction false} TotalOfPrefix(chunks: seq<seq<byte>>, i: nat)
    requires i <= |chunks|
    ensures Total(chunks[..i]) <= Total(chunks)
    decreases |chunks|
  {
    if i < |chunks| {
      assert chunks[..|chunks| - 1][..i] == chunks[..i];
      TotalOfPrefix(chunks[..|chunks| - 1], i);
    } else {
      assert chunks[..i] == chunks;
    }
  }

  /** The verdicts on the chunks of an update, one after the other. */
  ghost predicate Judged(entry: OtaEntry, chunks: seq<seq<byte>>, errs: seq<Err>)
    requires |chunks| == |errs|
  {
    forall i :: 0 <= i < |errs| ==>
      errs[i] == Verdict(entry.part.readonly, entry.part.cells.Length, entry.needErase, entry.encrypted,
                         Accepted(chunks[..i], errs[..i]), chunks[i])
  }

  function Concat(chunks: seq<seq<byte>>): (r: seq<byte>)
    ensures |r| == Total(chunks)
  {
    if chunks == [] then [] else Concat(chunks[..|chunks| - 1]) + chunks[|chunks| - 1]
  }

  /** The image fits the partition, which can be written, and starts with the magic byte. */
  ghost predicate Acceptable(entry: OtaEntry, chunks: seq<seq<byte>>) {
    && !entry.part.readonly
    && (if entry.needErase then CeilSector(Total(chunks)) else Flushed(entry.encrypted, Total(chunks)))
         <= entry.part.cells.Length
    && (Concat(chunks) != [] ==> Concat(chunks)[0] == MAGIC)
  }

  lemma RoundingIsMonotone(m: nat, n: nat)
    requires m <= n
    ensures FloorBlock(m) <= m <= n && FloorBlock(m) <= FloorBlock(n)
    ensures n <= CeilSector(n) && CeilSector(m) <= CeilSector(n)
  {
  }

  lemma AcceptablePrefix(entry: OtaEntry, chunks: seq<seq<byte>>)
    requires chunks != [] && Acceptable(entry, chunks)
    ensures Acceptable(entry, chunks[..|chunks| - 1])
  {
    hide CeilSector, FloorBlock;
    RoundingIsMonotone(Total(chunks[..|chunks| - 1]), Total(chunks));
  }

  lemma NextAccepted(entry: OtaEntry, chunks: seq<seq<byte>>)
    requires chunks != [] && Acceptable(entry, chunks)
    ensures var n := |chunks| - 1;
            Verdict(entry.part.readonly, entry.part.cells.Length, entry.needErase, entry.encrypted,
                    Concat(chunks[..n]), chunks[n]) == Ok
  {
    hide CeilSector, FloorBlock;
    var n := |chunks| - 1;
    RoundingIsMonotone(Total(chunks[..n]), Total(chunks[..n]));
    RoundingIsMonotone(Flushed(entry.encrypted, Total(chunks[..n])) + |chunks[n]|, Total(chunks));
    RoundingIsMonotone(Total(chunks), Total(chunks));
  }

  lemma JudgedPrefix(entry: OtaEntry, chunks: seq<seq<byte>>, errs: seq<Err>)
    requires |errs| == |chunks| > 0 && Judged(entry, chunks, errs)
    ensures Judged(entry, chunks[..|chunks| - 1], errs[..|chunks| - 1])
  {
    hide Verdict;
    var n := |chunks| - 1;
    forall i | 0 <= i < n ensures chunks[..n][..i] == chunks[..i] && errs[..n][..i] == errs[..i] {
    }
  }

  lemma NoneJudged(entry: OtaEntry)
    ensures Judged(entry, [], []) && Accepted([], []) == []
  {
  }

  lemma JudgedMore(entry: OtaEntry, chunks: seq<seq<byte>>, errs: seq<Err>, chunk: seq<byte>, err: Err)
    requires |errs| == |chunks| && Judged(entry, chunks, errs)
    requires err == Verdict(entry.part.readonly, entry.part.cells.Length, entry.needErase, entry.encrypted,
                            Accepted(chunks, errs), chunk)
    ensures Judged(entry, chunks + [chunk], errs + [err])
    ensures Accepted(chunks + [chunk], errs + [err]) == Accepted(chunks, errs) + if err == Ok then chunk else []
  {
    hide Verdict;
    var n := |chunks|;
    var cs, es := chunks + [chunk], errs + [err];
    assert cs[..n] == chunks && es[..n] == errs;
    forall i | 0 <= i < n ensures cs[..i] == chunks[..i] && es[..i] == errs[..i] {
    }
  }

  /** Of an acceptable image every chunk is accepted, however it is cut. */
  lemma {:induction false} AllAccepted(entry: OtaEntry, chunks: seq<seq<byte>>, errs: seq<Err>)
    requires |errs| == |chunks| && Judged(entry, chunks, errs) && Acceptable(entry, chunks)
    ensures forall i :: 0 <= i < |errs| ==> errs[i] == Ok
    ensures Accepted(chunks, errs) == Concat(chunks)
    decreases |chunks|
  {
    hide Verdict, Acceptable;
    if chunks != [] {
      var n := |chunks| - 1;
      JudgedPrefix(entry, chunks, errs);
      AcceptablePrefix(entry, chunks);
      AllAccepted(entry, chunks[..n], errs[..n]);
      NextAccepted(entry, chunks);
      forall i | 0 <= i < n ensures errs[i] == Ok {
        assert errs[i] == errs[..n][i];
      }
    }
  }

  /** A whole update: however the data is cut into chunks, and whichever writes fail, the flash and
      the buffered bytes hold exactly the accepted chunks in order; and an image that is acceptable
      is accepted completely. */
  method Session(entry: OtaEntry, chunks: seq<seq<byte>>) returns (errs: seq<Err>)
    requires entry.Valid() && entry.image == []
    requires entry.needErase || !entry.encrypted || Total(chunks) <= entry.part.cells.Length
    requires forall chunk :: chunk in chunks ==> entry.part.cells.Length + |chunk| < TWO_32
    modifies entry, entry.partialData, entry.part.cells
    ensures |errs| == |chunks| && Judged(entry, chunks, errs)
    ensures entry.Valid() && entry.image == Accepted(chunks, errs)
    ensures Acceptable(entry, chunks) ==>
              entry.image == Concat(chunks) && forall i :: 0 <= i < |errs| ==> errs[i] == Ok
  {
    hide CeilSector, FloorBlock, Verdict, Concat, OtaEntry.Valid, Judged, Accepted, Acceptable;
    errs := [];
    NoneJudged(entry);
    for i := 0 to |chunks|
      invariant |errs| == i && entry.Valid() && entry.image == Accepted(chunks[..i], errs)
      invariant Judged(entry, chunks[..i], errs)
      invariant |entry.image| <= Total(chunks[..i])
    {
      TotalOfPrefix(chunks, i + 1);
      assert chunks[..i + 1][..i] == chunks[..i];
      entry.WithinLength(|chunks[i]|);
      var err := entry.Write(chunks[i]);
      JudgedMore(entry, chunks[..i], errs, chunks[i], err);
      assert chunks[..i + 1] == chunks[..i] + [chunks[i]];
      errs := errs + [err];
    }
    assert chunks[..|chunks|] == chunks;
    if Acceptable(entry, chunks) {
      AllAccepted(entry, chunks, errs);
    }
  }
}
