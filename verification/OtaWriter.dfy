/** Writing an application image to its partition (esp_ota_begin, esp_ota_write and
    esp_ota_end in esp_ota_ops.c): erase at the start or along with the writes, and
    with flash encryption a carry-over of the bytes that do not fill a 16-byte block. */
module OtaWriter {
  import opened Arithmetic
  import opened Bytes

  const SECTOR: nat := 4096
  const MAGIC: byte := 0xE9

  /** The state of a flash cell: never touched since the handle was opened, erased
      and not yet programmed, or programmed. */
  datatype Cell = Untouched | Clean | Programmed

  /** A partition. A byte programmed without being clean is not stored: dirt, of
      which nothing is known, is what such a cell holds afterwards. The fault flag
      records that this happened, or that a programmed byte was erased. */
  datatype Flash = Flash(mem: seq<byte>, cells: seq<Cell>, dirt: seq<byte>, fault: bool) {
    predicate Valid() {
      |mem| == |cells| == |dirt| && |mem| % SECTOR == 0 && |mem| <= UINT32_MAX
    }

    /** No cell was touched yet. */
    ghost predicate Fresh() {
      Valid() && !fault && forall i | 0 <= i < |cells| :: cells[i].Untouched?
    }

    predicate Fits(at: nat, n: nat) {
      at + n <= |mem|
    }

    /** esp_partition_erase_range on a range that fits. */
    function Erase(at: nat, n: nat): (r: Flash)
      requires Valid() && Fits(at, n)
      ensures r.Valid() && |r.mem| == |mem|
    {
      Flash(mem[..at] + seq(n, _ => 0xFF) + mem[at + n..],
            cells[..at] + seq(n, _ => Clean) + cells[at + n..],
            dirt,
            fault || exists i :: at <= i < at + n && cells[i].Programmed?)
    }

    function ErasedIf(at: nat, n: nat): (r: Flash)
      requires Valid() && Fits(at, n)
      ensures r.Valid() && |r.mem| == |mem| && r.dirt == dirt
    {
      if n > 0 then Erase(at, n) else this
    }

    /** What is stored of data programmed at a position. */
    function Stored(at: nat, data: seq<byte>): (s: seq<byte>)
      requires Valid() && Fits(at, |data|)
      ensures |s| == |data|
      ensures forall i | 0 <= i < |s| :: s[i] == if cells[at + i].Clean? then data[i] else dirt[at + i]
    {
      seq(|data|, i requires 0 <= i < |data| => if cells[at + i].Clean? then data[i] else dirt[at + i])
    }

    /** esp_partition_write on a range that fits. */
    function Write(at: nat, data: seq<byte>): (r: Flash)
      requires Valid() && Fits(at, |data|)
      ensures r.Valid() && |r.mem| == |mem|
    {
      Flash(mem[..at] + Stored(at, data) + mem[at + |data|..],
            cells[..at] + seq(|data|, _ => Programmed) + cells[at + |data|..],
            dirt,
            fault || exists i :: at <= i < at + |data| && !cells[i].Clean?)
    }
  }

  datatype Err = Ok | FlashError | ValidateFailed | InvalidArg | InvalidState

  /** The first sector boundary after a byte position. */
  function SectorEnd(at: nat): (end: nat)
    ensures at < end <= at + SECTOR && end % SECTOR == 0
  {
    (at / SECTOR + 1) * SECTOR
  }

  /** Cells of a partition written in sequence: programmed up to wrote, clean from
      there up to erased, untouched beyond; a fault exactly if programming went
      beyond what is erased. */
  ghost predicate Sequenced(flash: Flash, wrote: nat, erased: nat) {
    && flash.Valid() && wrote <= |flash.mem| && erased <= |flash.mem| && erased % SECTOR == 0
    && (flash.fault <==> wrote > erased)
    && (forall i | 0 <= i < |flash.cells| ::
          flash.cells[i] == if i < wrote then Programmed else if i < erased then Clean else Untouched)
  }

  lemma EraseAhead(flash: Flash, wrote: nat, erased: nat, at: nat, n: nat)
    requires Sequenced(flash, wrote, erased) && flash.Fits(at, n)
    requires wrote <= at <= erased && (at + n) % SECTOR == 0
    ensures Sequenced(flash.Erase(at, n), wrote, if erased < at + n then at + n else erased)
    ensures flash.Erase(at, n).mem[..wrote] == flash.mem[..wrote]
  {
  }

  lemma WriteInSequence(flash: Flash, wrote: nat, erased: nat, data: seq<byte>)
    requires Sequenced(flash, wrote, erased) && flash.Fits(wrote, |data|)
    ensures Sequenced(flash.Write(wrote, data), wrote + |data|, erased)
  {
    if wrote <= erased < wrote + |data| {
      assert !flash.cells[erased].Clean?;
    }
  }

  lemma WriteMem(flash: Flash, wrote: nat, erased: nat, data: seq<byte>)
    requires Sequenced(flash, wrote, erased) && flash.Fits(wrote, |data|) && wrote + |data| <= erased
    ensures flash.Write(wrote, data).mem[..wrote + |data|] == flash.mem[..wrote] + data
  {
    assert flash.Stored(wrote, data) == data;
  }

  /** A padded block is stored behind the rest. */
  lemma TailStored(flash: Flash, wrote: nat, erased: nat, block: seq<byte>, n: nat)
    requires Sequenced(flash, wrote, erased) && flash.Fits(wrote, |block|) && n <= |block|
    ensures Sequenced(flash.Write(wrote, block), wrote + |block|, erased)
    ensures wrote + |block| <= erased ==> flash.mem[..wrote] + block[..n] <= flash.Write(wrote, block).mem
  {
    WriteInSequence(flash, wrote, erased, block);
    if wrote + |block| <= erased {
      WriteMem(flash, wrote, erased, block);
      Associate(flash.mem[..wrote], block[..n], block[n..]);
      assert block == block[..n] + block[n..];
    }
  }

  /** A byte programmed without being clean is not stored. */
  lemma WriteDirty(flash: Flash, at: nat, data: seq<byte>, i: nat)
    requires flash.Valid() && flash.Fits(at, |data|) && i < |data| && !flash.cells[at + i].Clean?
    ensures flash.Write(at, data).mem[at + i] == flash.dirt[at + i]
  {
  }

  /** Where programming stops after n more bytes: with encryption, at the end of
      the last complete block. */
  function EndAfter(encrypted: bool, wrote: nat, carried: nat, n: nat): nat {
    if encrypted then (wrote + carried + n) / 16 * 16 else wrote + n
  }

  /** The erased sectors cover what a write call programs, carried bytes included. */
  lemma ErasedEnough(encrypted: bool, wrote: nat, carried: nat, n: nat)
    requires carried < 16 && (encrypted ==> wrote % 16 == 0)
    ensures EndAfter(encrypted, wrote, carried, n) <= SectorEnd(wrote + n)
  {
    var sectors := (wrote + n) / SECTOR + 1;
    QuotientBelow(wrote + carried + n, 16, sectors * 256 + 1);
  }

  lemma BlockEnd(wrote: nat, carried: nat, n: nat)
    requires wrote % 16 == 0
    ensures EndAfter(true, wrote, carried, n) == wrote + (carried + n - (carried + n) % 16)
    ensures EndAfter(true, wrote, carried, n) % 16 == 0
  {
  }

  /** Completing the carried block first leaves the end where it is. */
  lemma BlockSplit(wrote: nat, carried: nat, n: nat)
    requires wrote % 16 == 0 && carried < 16
    ensures carried + n < 16 ==> EndAfter(true, wrote, carried, n) == wrote
    ensures carried + n >= 16 ==>
              EndAfter(true, wrote, carried, n) == EndAfter(true, wrote + 16, 0, n - (16 - carried)) >= wrote + 16
  {
  }

  /** The range a write call of the given size erases. */
  function EraseRange(wrote: nat, size: nat): (r: (nat, nat))
    ensures wrote <= r.0 && (wrote % SECTOR != 0 && r.1 > 0 ==> r.0 == SectorEnd(wrote))
    ensures wrote % SECTOR == 0 ==> r.1 > 0 && r.0 == wrote
    ensures if r.1 > 0 then r.0 + r.1 == SectorEnd(wrote + size) else SectorEnd(wrote) == SectorEnd(wrote + size)
  {
    var first, last := wrote / SECTOR, (wrote + size) / SECTOR;
    if wrote % SECTOR == 0 then (wrote, (last - first + 1) * SECTOR)
    else if first != last then ((first + 1) * SECTOR, (last - first) * SECTOR)
    else (wrote, 0)
  }

  lemma EndFits(at: nat, size: nat)
    requires size % SECTOR == 0
    ensures SectorEnd(at) <= size <==> at < size
  {
  }

  lemma EndMonotone(a: nat, b: nat)
    requires a <= b
    ensures SectorEnd(a) <= SectorEnd(b)
  {
  }

  /** A position inside a sector lies in an erased one if it is not past the end. */
  lemma InErasedSector(at: nat, erased: nat)
    requires at <= erased && erased % SECTOR == 0
    ensures at % SECTOR != 0 ==> SectorEnd(at) <= erased
  {
    EndFits(at, erased);
  }

  /** Where the erased sectors end when write calls have asked to reach this far. */
  function EraseEnd(reach: Option<nat>): nat {
    if reach.None? then 0 else SectorEnd(reach.value)
  }

  function Further(reach: Option<nat>, x: nat): Option<nat> {
    if reach.Some? && reach.value >= x then reach else Some(x)
  }

  lemma EraseEndFurther(reach: Option<nat>, x: nat)
    ensures EraseEnd(Further(reach, x)) == if EraseEnd(reach) < SectorEnd(x) then SectorEnd(x) else EraseEnd(reach)
  {
    if reach.Some? {
      EndMonotone(Min(reach.value, x), x);
      EndMonotone(Min(reach.value, x), reach.value);
    }
  }

  lemma RangeFits(wrote: nat, size: nat, total: nat)
    requires total % SECTOR == 0 && wrote <= total
    ensures var (at, n) := EraseRange(wrote, size);
            at + n <= total <==> wrote + size < total
  {
    EndFits(wrote + size, total);
    EndFits(wrote, total);
  }

  /** The erase of a write call keeps the sequence and reaches far enough. */
  lemma EraseStep(flash: Flash, wrote: nat, reach: Option<nat>, size: nat)
    requires Sequenced(flash, wrote, EraseEnd(reach)) && wrote <= EraseEnd(reach)
    requires wrote % SECTOR != 0 ==> SectorEnd(wrote) <= EraseEnd(reach)
    requires wrote + size < |flash.mem|
    ensures var (at, n) := EraseRange(wrote, size);
            && flash.Fits(at, n)
            && var after := flash.ErasedIf(at, n);
               && Sequenced(after, wrote, EraseEnd(Further(reach, wrote + size)))
               && after.mem[..wrote] == flash.mem[..wrote]
               && wrote <= EraseEnd(Further(reach, wrote + size))
  {
    var (at, n) := EraseRange(wrote, size);
    RangeFits(wrote, size, |flash.mem|);
    EraseEndFurther(reach, wrote + size);
    RangeFollows(wrote, size, EraseEnd(reach));
    EraseShape(flash, wrote, EraseEnd(reach), at, n, EraseEnd(Further(reach, wrote + size)));
  }

  /** The range starts in or right behind the erased sectors and ends at a sector
      boundary; without one, the erased sectors reach far enough. */
  lemma RangeFollows(wrote: nat, size: nat, erased: nat)
    requires wrote <= erased && (wrote % SECTOR != 0 ==> SectorEnd(wrote) <= erased)
    ensures var (at, n) := EraseRange(wrote, size);
            if n > 0 then wrote <= at <= erased && (at + n) % SECTOR == 0 && at + n == SectorEnd(wrote + size)
            else SectorEnd(wrote + size) <= erased
  {
  }

  lemma EraseShape(flash: Flash, wrote: nat, erased: nat, at: nat, n: nat, next: nat)
    requires Sequenced(flash, wrote, erased) && wrote <= erased && flash.Fits(at, n)
    requires n > 0 ==> wrote <= at <= erased && (at + n) % SECTOR == 0
    requires next == if n > 0 && erased < at + n then at + n else erased
    ensures Sequenced(flash.ErasedIf(at, n), wrote, next) && wrote <= next
    ensures flash.ErasedIf(at, n).mem[..wrote] == flash.mem[..wrote]
  {
    if n > 0 {
      EraseAhead(flash, wrote, erased, at, n);
    }
  }

  /** The erase of a write call, refused if it leaves the partition. */
  method EraseCall(flash: Flash, wrote: nat, ghost reach: Option<nat>, size: nat) returns (after: Option<Flash>)
    requires Sequenced(flash, wrote, EraseEnd(reach)) && wrote <= EraseEnd(reach)
    ensures after.Some? <==> wrote + size < |flash.mem|
    ensures after.Some? ==>
              && Sequenced(after.value, wrote, EraseEnd(Further(reach, wrote + size)))
              && wrote <= EraseEnd(Further(reach, wrote + size))
              && after.value.mem[..wrote] == flash.mem[..wrote]
              && |after.value.mem| == |flash.mem| && after.value.dirt == flash.dirt
  {
    InErasedSector(wrote, EraseEnd(reach));
    var (at, n) := EraseRange(wrote, size);
    RangeFits(wrote, size, |flash.mem|);
    if !flash.Fits(at, n) {
      return None;
    }
    EraseStep(flash, wrote, reach, size);
    return Some(flash.ErasedIf(at, n));
  }

  lemma NothingCarried(mem: seq<byte>, data: seq<byte>)
    ensures mem + data[..0] == mem
  {
  }

  lemma BlockAligned(at: nat)
    ensures (at + 16) % 16 == at % 16
  {
  }

  const BLANK: seq<byte> := seq(16, _ => 0xFF)

  class OtaHandle {
    const encrypted: bool
    const needErase: bool
    /** How far the partition was erased at the start, and its dirt. */
    ghost const begun: nat
    ghost const dirt: seq<byte>
    var flash: Flash
    var wroteSize: nat
    var partialBytes: nat
    var partialData: seq<byte>
    /** The bytes of all accepted write calls. */
    ghost var accepted: seq<byte>
    /** The largest wrote_size + size of a write call so far. */
    ghost var reach: Option<nat>

    ghost function Erased(): nat
      reads `reach
    {
      if needErase then EraseEnd(reach) else begun
    }

    /** What is in flash, then what is carried over. */
    ghost function Stream(): seq<byte>
      requires wroteSize <= |flash.mem| && partialBytes <= |partialData|
      reads this
    {
      flash.mem[..wroteSize] + partialData[..partialBytes]
    }

    ghost predicate Shape()
      reads this
    {
      && flash.Valid() && wroteSize <= |flash.mem|
      && |partialData| == 16 && partialBytes < 16
      && (encrypted ==> wroteSize % 16 == 0)
      && (!encrypted ==> partialBytes == 0)
      && Sequenced(flash, wroteSize, Erased()) && flash.dirt == dirt
      && (needErase ==> wroteSize <= Erased())
    }

    /** As many bytes as were accepted are stored and carried; they are those bytes
        unless there was a fault. */
    ghost predicate Valid()
      reads this
    {
      Shape() && wroteSize + partialBytes == |accepted| && (!flash.fault ==> Stream() == accepted)
    }

    /** The erase at the start of a write call in sequential mode. */
    method EraseFor(size: nat) returns (ok: bool)
      requires Valid() && needErase && wroteSize + size <= UINT32_MAX
      modifies `flash, `reach
      ensures ok <==> wroteSize + size < |flash.mem|
      ensures |flash.mem| == |old(flash).mem|
      ensures !ok ==> flash == old(flash) && reach == old(reach)
      ensures Valid()
      ensures ok ==> reach == Further(old(reach), wroteSize + size)
    {
      var after := EraseCall(flash, wroteSize, reach, size);
      if after.None? {
        return false;
      }
      flash, reach := after.value, Further(reach, wroteSize + size);
      return true;
    }

    /** A handle on a partition erased up to the given end; None in sequential mode. */
    constructor (flash: Flash, encrypted: bool, begun: Option<nat>)
      requires Sequenced(flash, 0, if begun.Some? then begun.value else 0)
      ensures this.encrypted == encrypted && this.needErase == begun.None? && this.flash == flash && this.dirt == flash.dirt
      ensures begun.Some? ==> this.begun == begun.value
      ensures Valid() && accepted == [] && wroteSize == 0 && reach == None
    {
      this.encrypted, this.needErase, this.flash := encrypted, begun.None?, flash;
      this.dirt := flash.dirt;
      this.begun := if begun.Some? then begun.value else 0;
      wroteSize, partialBytes, partialData := 0, 0, seq(16, _ => 0);
      accepted, reach := [], None;
    }

    /** Programs bytes behind those already programmed, if they fit. */
    method Append(data: seq<byte>) returns (ok: bool)
      requires Sequenced(flash, wroteSize, Erased())
      modifies `flash, `wroteSize
      ensures ok <==> old(wroteSize) + |data| <= |flash.mem|
      ensures |flash.mem| == |old(flash).mem| && flash.dirt == old(flash).dirt && Sequenced(flash, wroteSize, Erased())
      ensures !ok ==> flash == old(flash) && wroteSize == old(wroteSize)
      ensures ok ==> wroteSize == old(wroteSize) + |data|
      ensures old(flash).fault ==> flash.fault
      ensures ok && !flash.fault ==> flash.mem[..wroteSize] == old(flash).mem[..old(wroteSize)] + data
    {
      if !flash.Fits(wroteSize, |data|) {
        return false;
      }
      WriteInSequence(flash, wroteSize, Erased(), data);
      if wroteSize + |data| <= Erased() {
        WriteMem(flash, wroteSize, Erased(), data);
      }
      flash := flash.Write(wroteSize, data);
      wroteSize := wroteSize + |data|;
      return true;
    }

    /** Fills up the carried block with the first bytes of data; programs it once
        it is complete. */
    method TopUp(data: seq<byte>) returns (ok: bool, used: nat)
      requires Shape() && encrypted && partialBytes != 0
      requires needErase ==> EndAfter(true, wroteSize, partialBytes, |data|) <= Erased()
      modifies `flash, `wroteSize, `partialBytes, `partialData
      ensures |flash.mem| == |old(flash).mem|
      ensures used == Min(16 - old(partialBytes), |data|)
      ensures !ok ==> old(wroteSize) + 16 > |flash.mem| && old(partialBytes) + |data| >= 16
      ensures ok ==> Shape() && (!flash.fault ==> Stream() == old(Stream()) + data[..used])
      ensures ok ==> wroteSize + partialBytes == old(wroteSize + partialBytes) + used
      ensures old(flash).fault ==> flash.fault
      ensures ok ==> wroteSize == old(wroteSize) + (if old(partialBytes) + |data| >= 16 then 16 else 0)
      ensures ok ==> (partialBytes == 0 <==> old(partialBytes) + |data| >= 16)
    {
      used := Fill(data);
      BlockEnd(wroteSize, old(partialBytes), used);
      BlockEnd(wroteSize, old(partialBytes), |data|);
      Associate(flash.mem[..wroteSize], old(partialData[..partialBytes]), data[..used]);
      ok := true;
      if partialBytes == 16 {
        assert partialData[..16] == partialData;
        ok := Flush();
        if ok {
          NothingCarried(flash.mem[..wroteSize], partialData);
        }
      }
    }

    /** Copies the first bytes of data behind the carried ones. */
    method Fill(data: seq<byte>) returns (used: nat)
      requires |partialData| == 16 && partialBytes < 16
      modifies `partialBytes, `partialData
      ensures used == Min(16 - old(partialBytes), |data|)
      ensures |partialData| == 16 && partialBytes == old(partialBytes) + used
      ensures partialData[..partialBytes] == old(partialData[..partialBytes]) + data[..used]
    {
      used := Min(16 - partialBytes, |data|);
      partialData := partialData[..partialBytes] + data[..used] + partialData[partialBytes + used..];
      partialBytes := partialBytes + used;
    }

    /** Programs the carried block, now complete. */
    method Flush() returns (ok: bool)
      requires Sequenced(flash, wroteSize, Erased()) && wroteSize % 16 == 0
      requires encrypted && |partialData| == 16 && partialBytes == 16 && flash.dirt == dirt
      requires needErase ==> wroteSize + 16 <= Erased()
      modifies `flash, `wroteSize, `partialBytes, `partialData
      ensures |flash.mem| == |old(flash).mem|
      ensures ok <==> old(wroteSize) + 16 <= |flash.mem|
      ensures ok ==> Shape() && partialBytes == 0 && wroteSize == old(wroteSize) + 16
      ensures old(flash).fault ==> flash.fault
      ensures ok && !flash.fault ==> flash.mem[..wroteSize] == old(flash.mem[..wroteSize]) + old(partialData)
    {
      BlockAligned(wroteSize);
      ok := Append(partialData);
      if ok {
        partialBytes := 0;
        partialData := BLANK;
      }
    }

    /** Carries over what does not fill a block and programs the rest. */
    method Store(data: seq<byte>) returns (ok: bool)
      requires Shape() && partialBytes == 0
      requires needErase ==> EndAfter(encrypted, wroteSize, 0, |data|) <= Erased()
      modifies `flash, `wroteSize, `partialBytes, `partialData
      ensures |flash.mem| == |old(flash).mem|
      ensures ok <==> EndAfter(encrypted, old(wroteSize), 0, |data|) <= |flash.mem|
      ensures ok ==> Shape() && (!flash.fault ==> Stream() == old(Stream()) + data)
      ensures ok ==> wroteSize == EndAfter(encrypted, old(wroteSize), 0, |data|)
      ensures ok ==> wroteSize + partialBytes == old(wroteSize) + |data|
      ensures old(flash).fault ==> flash.fault
      ensures !ok && !encrypted ==> flash == old(flash) && wroteSize == old(wroteSize) && partialBytes == 0 && partialData == old(partialData)
    {
      ghost var before := flash.mem[..wroteSize];
      NothingCarried(before, partialData);
      var size := CarryOver(data);
      ok := Append(data[..size]);
      if ok {
        Associate(before, data[..size], data[size..]);
        Join(data, 0, size, |data|);
        assert data[0..|data|] == data && data[0..size] == data[..size] && data[size..|data|] == data[size..];
      }
    }

    /** Carries over the bytes at the end that do not fill a block. */
    method CarryOver(data: seq<byte>) returns (size: nat)
      requires Shape() && partialBytes == 0
      modifies `partialBytes, `partialData
      ensures |partialData| == 16 && partialBytes < 16 && size + partialBytes == |data|
      ensures wroteSize + size == EndAfter(encrypted, wroteSize, 0, |data|)
      ensures encrypted ==> (wroteSize + size) % 16 == 0
      ensures partialData[..partialBytes] == data[size..]
      ensures !encrypted ==> partialBytes == 0 && partialData == old(partialData)
    {
      size := |data|;
      if encrypted {
        BlockEnd(wroteSize, 0, |data|);
        partialBytes := size % 16;
        if partialBytes != 0 {
          size := size - partialBytes;
          partialData := data[size..] + partialData[partialBytes..];
        }
      }
    }

    /** The image starts with the magic byte, checked on the first byte written. */
    predicate MagicAccepted(data: seq<byte>)
      reads this
    {
      !(wroteSize == 0 && partialBytes == 0 && |data| > 0 && data[0] != MAGIC)
    }

    /** In sequential mode what a write call of the given size erases lies within the
        partition, else what it programs. */
    predicate HasRoom(size: nat)
      reads this
    {
      if needErase then wroteSize + size < |flash.mem|
      else EndAfter(encrypted, wroteSize, partialBytes, size) <= |flash.mem|
    }

    /** What a write call of the given size programs is erased first. */
    method Prepare(size: nat) returns (ok: bool)
      requires Valid() && wroteSize + size <= UINT32_MAX
      modifies `flash, `reach
      ensures |flash.mem| == |old(flash).mem| && Valid()
      ensures ok <==> !needErase || wroteSize + size < |flash.mem|
      ensures ok && needErase ==> reach == Further(old(reach), wroteSize + size)
      ensures ok && needErase ==> EndAfter(encrypted, wroteSize, partialBytes, size) <= Erased()
    {
      ok := true;
      if needErase {
        ok := EraseFor(size);
        EraseEndFurther(old(reach), wroteSize + size);
        ErasedEnough(encrypted, wroteSize, partialBytes, size);
      }
    }

    /** esp_ota_write, once the handle is found. */
    method Write(data: seq<byte>) returns (err: Err)
      requires Valid() && wroteSize + |data| <= UINT32_MAX
      modifies this
      ensures |flash.mem| == |old(flash).mem|
      ensures err.Ok? <==> old(MagicAccepted(data) && HasRoom(|data|))
      ensures err.Ok? ==> Valid() && accepted == old(accepted) + data
      ensures !err.Ok? && (needErase || !encrypted) ==> Valid() && accepted == old(accepted)
      ensures err.Ok? && needErase ==> reach == Further(old(reach), old(wroteSize) + |data|)
    {
      var ok := Prepare(|data|);
      if !ok {
        return FlashError;
      }
      if wroteSize == 0 && partialBytes == 0 && |data| > 0 && data[0] != MAGIC {
        return ValidateFailed;
      }
      ok := Commit(data);
      return if ok then Ok else FlashError;
    }

    /** The program step of a write call, logged. */
    method Commit(data: seq<byte>) returns (ok: bool)
      requires Valid()
      requires needErase ==> EndAfter(encrypted, wroteSize, partialBytes, |data|) <= Erased()
      modifies `flash, `wroteSize, `partialBytes, `partialData, `accepted
      ensures |flash.mem| == |old(flash).mem|
      ensures ok <==> needErase || EndAfter(encrypted, old(wroteSize), old(partialBytes), |data|) <= |flash.mem|
      ensures ok ==> Valid() && accepted == old(accepted) + data
      ensures !ok && !encrypted ==> Valid() && accepted == old(accepted)
    {
      ok := Program(data);
      if ok {
        accepted := accepted + data;
      }
    }

    /** Programs and carries over the bytes of a write call. */
    method Program(data: seq<byte>) returns (ok: bool)
      requires Shape()
      requires needErase ==> EndAfter(encrypted, wroteSize, partialBytes, |data|) <= Erased()
      modifies `flash, `wroteSize, `partialBytes, `partialData
      ensures |flash.mem| == |old(flash).mem|
      ensures ok <==> EndAfter(encrypted, old(wroteSize), old(partialBytes), |data|) <= |flash.mem|
      ensures ok ==> Shape() && (!flash.fault ==> Stream() == old(Stream()) + data)
      ensures ok ==> wroteSize + partialBytes == old(wroteSize + partialBytes) + |data|
      ensures old(flash).fault ==> flash.fault
      ensures !ok && !encrypted ==> Shape() && flash == old(flash) && wroteSize == old(wroteSize) && partialBytes == 0
    {
      if !encrypted || partialBytes == 0 {
        ok := Store(data);
        return;
      }
      ok := ProgramCarried(data);
    }

    /** The same when bytes are carried over. */
    method ProgramCarried(data: seq<byte>) returns (ok: bool)
      requires Shape() && encrypted && partialBytes != 0
      requires needErase ==> EndAfter(true, wroteSize, partialBytes, |data|) <= Erased()
      modifies `flash, `wroteSize, `partialBytes, `partialData
      ensures |flash.mem| == |old(flash).mem|
      ensures ok <==> EndAfter(true, old(wroteSize), old(partialBytes), |data|) <= |flash.mem|
      ensures ok ==> Shape() && (!flash.fault ==> Stream() == old(Stream()) + data)
      ensures ok ==> wroteSize + partialBytes == old(wroteSize + partialBytes) + |data|
      ensures old(flash).fault ==> flash.fault
    {
      BlockSplit(wroteSize, partialBytes, |data|);
      var used;
      ok, used := TopUp(data);
      var rest := data[used..];
      assert data == data[..used] + rest;
      if ok && partialBytes == 0 {
        Associate(old(Stream()), data[..used], rest);
        ok := Store(rest);
      }
    }

    /** esp_ota_end: programs the carried bytes as a padded block. The image is at
        the start of the partition unless what was programmed goes beyond what was
        erased. */
    method End(imageValid: bool) returns (err: Err)
      requires Valid()
      modifies this
      ensures |flash.mem| == |old(flash).mem| && accepted == old(accepted)
      ensures err == if old(wroteSize) == 0 then InvalidArg
                     else if old(partialBytes) > 0 && old(wroteSize) + 16 > |flash.mem| then InvalidState
                     else if imageValid then Ok else ValidateFailed
      ensures err.InvalidArg? || err.InvalidState? ==> flash == old(flash)
      ensures err.Ok? || err.ValidateFailed? ==>
                && (flash.fault <==> old(wroteSize) + (if old(partialBytes) > 0 then 16 else 0) > old(Erased()))
                && (!flash.fault ==> accepted <= flash.mem)
                && flash == if old(partialBytes) > 0 then old(flash).Write(old(wroteSize), old(partialData)) else old(flash)
    {
      if wroteSize == 0 {
        return InvalidArg;
      }
      if partialBytes > 0 {
        if !flash.Fits(wroteSize, 16) {
          return InvalidState;
        }
        TailStored(flash, wroteSize, Erased(), partialData, partialBytes);
        flash := flash.Write(wroteSize, partialData);
        wroteSize := wroteSize + 16;
        partialBytes := 0;
      }
      return if imageValid then Ok else ValidateFailed;
    }
  }

  // Opening the partition

  const SIZE_UNKNOWN: nat := 0xFFFF_FFFF
  const SEQUENTIAL: nat := 0xFFFF_FFFE

  /** How far esp_ota_begin erases; None if that is refused. The size is rounded up
      in 32-bit arithmetic. */
  function BeginErase(size: nat, imageSize: nat): (erased: Option<nat>)
    requires size % SECTOR == 0
    ensures erased.Some? ==> erased.value <= size && erased.value % SECTOR == 0
    ensures imageSize == SEQUENTIAL ==> erased == Some(0)
    ensures imageSize == 0 || imageSize == SIZE_UNKNOWN ==> erased == Some(size)
    // otherwise the least whole number of sectors, if that is in the partition
    ensures 0 < imageSize <= UINT32_MAX - SECTOR ==> (erased.Some? <==> imageSize <= size)
    ensures 0 < imageSize <= UINT32_MAX - SECTOR && erased.Some? ==> imageSize <= erased.value < imageSize + SECTOR
  {
    RoundUp(imageSize, size);
    if imageSize == SEQUENTIAL then Some(0)
    else if imageSize == 0 || imageSize == SIZE_UNKNOWN then Some(size)
    else
      var aligned := (imageSize + SECTOR - 1) % (UINT32_MAX + 1) / SECTOR * SECTOR;
      if aligned <= size then Some(aligned) else None
  }

  lemma RoundUp(n: nat, size: nat)
    requires size % SECTOR == 0
    ensures var aligned := (n + SECTOR - 1) / SECTOR * SECTOR;
            aligned % SECTOR == 0 && n <= aligned < n + SECTOR && (aligned <= size <==> n <= size)
  {
    var q := (n + SECTOR - 1) / SECTOR;
    assert size == size / SECTOR * SECTOR;
  }

  lemma OpenSequenced(part: Flash, erased: nat)
    requires part.Fresh() && erased <= |part.mem| && erased % SECTOR == 0
    ensures Sequenced(part.Erase(0, erased), 0, erased) && part.Erase(0, erased).dirt == part.dirt
  {
  }

  // Updates as a whole

  /** An image starts with the magic byte. */
  predicate Magic(image: seq<byte>) {
    image == [] || image[0] == MAGIC
  }

  /** How much of a total is programmed by write calls. */
  function Wrote(encrypted: bool, total: nat): (n: nat)
    ensures n <= total < n + 16 && (encrypted ==> n % 16 == 0) && (!encrypted ==> n == total)
  {
    if encrypted then total / 16 * 16 else total
  }

  /** The wrote_size + size of write call k. */
  function Reached(encrypted: bool, chunks: seq<seq<byte>>, k: nat): nat
    requires k < |chunks|
  {
    Wrote(encrypted, |Flatten(chunks[..k])|) + |chunks[k]|
  }

  /** The largest of these. */
  ghost function Reach(encrypted: bool, chunks: seq<seq<byte>>): Option<nat> {
    if chunks == [] then None else
      var last := |chunks| - 1;
      Further(Reach(encrypted, chunks[..last]), Wrote(encrypted, |Flatten(chunks[..last])|) + |chunks[last]|)
  }

  lemma ReachOne(encrypted: bool, chunks: seq<seq<byte>>, k: nat)
    requires k < |chunks|
    ensures Reach(encrypted, chunks[..k + 1]) == Further(Reach(encrypted, chunks[..k]), Reached(encrypted, chunks, k))
  {
    assert chunks[..k + 1][..k] == chunks[..k];
  }

  lemma {:induction false} ReachAtLeast(encrypted: bool, chunks: seq<seq<byte>>, n: nat, x: nat)
    requires n <= |chunks|
    ensures var reach := Reach(encrypted, chunks[..n]);
            (reach.Some? && reach.value >= x) <==> exists k :: 0 <= k < n && Reached(encrypted, chunks, k) >= x
  {
    if n > 0 {
      ReachAtLeast(encrypted, chunks, n - 1, x);
      ReachOne(encrypted, chunks, n - 1);
    }
  }

  /** A call that adds n bytes to a total is within the partition: in sequential mode
      what it erases, else what it programs. */
  predicate RoomFor(sequential: bool, encrypted: bool, size: nat, total: nat, n: nat) {
    if sequential then Wrote(encrypted, total) + n < size else Wrote(encrypted, total + n) <= size
  }

  /** Write call k is within the partition. */
  predicate CallFits(sequential: bool, encrypted: bool, size: nat, chunks: seq<seq<byte>>, k: nat)
    requires k < |chunks|
  {
    RoomFor(sequential, encrypted, size, |Flatten(chunks[..k])|, |chunks[k]|)
  }

  predicate AllFit(sequential: bool, encrypted: bool, size: nat, chunks: seq<seq<byte>>) {
    forall k | 0 <= k < |chunks| :: CallFits(sequential, encrypted, size, chunks, k)
  }

  /** The tail of the image is programmed into a sector no write call erased: bytes
      are carried over, the block they start begins a sector, and no call reached
      that sector. */
  predicate TailMisses(encrypted: bool, chunks: seq<seq<byte>>) {
    var total := |Flatten(chunks)|;
    var end := Wrote(encrypted, total);
    end < total && end % SECTOR == 0 && forall k | 0 <= k < |chunks| :: Reached(encrypted, chunks, k) < end
  }

  /** How much of a total is programmed when esp_ota_end is through. */
  function ProgrammedEnd(encrypted: bool, total: nat): nat {
    var end := Wrote(encrypted, total);
    if end < total then end + 16 else end
  }

  /** The tail goes beyond the erased sectors exactly when it misses them. */
  lemma TailWrite(encrypted: bool, chunks: seq<seq<byte>>)
    requires var end := Wrote(encrypted, |Flatten(chunks)|);
             0 < end <= EraseEnd(Reach(encrypted, chunks))
    ensures ProgrammedEnd(encrypted, |Flatten(chunks)|) > EraseEnd(Reach(encrypted, chunks)) <==> TailMisses(encrypted, chunks)
  {
    var total := |Flatten(chunks)|;
    var end, reach := Wrote(encrypted, total), Reach(encrypted, chunks);
    assert chunks[..|chunks|] == chunks;
    ReachAtLeast(encrypted, chunks, |chunks|, end);
    TailArithmetic(end, reach.value);
  }

  lemma TailArithmetic(end: nat, reach: nat)
    requires end <= SectorEnd(reach)
    ensures end % 16 == 0 ==> (end + 16 > SectorEnd(reach) <==> end % SECTOR == 0 && reach < end)
  {
    if end % SECTOR == 0 {
      EndFits(reach, end);
    }
    if end % 16 == 0 {
      InSector(end);
      TailInSector(end / SECTOR, end % SECTOR, reach / SECTOR + 1);
    }
  }

  /** A block starts at least 16 bytes before the end of its sector. */
  lemma InSector(end: nat)
    requires end % 16 == 0
    ensures end == SECTOR * (end / SECTOR) + end % SECTOR && end % SECTOR <= SECTOR - 16
  {
    var m := end / 16;
    assert end == 16 * m && m == 256 * (m / 256) + m % 256;
    DivModUnique(end, SECTOR, m / 256, 16 * (m % 256));
  }

  lemma TailInSector(a: nat, b: nat, k: nat)
    requires b <= SECTOR - 16 && SECTOR * a + b <= SECTOR * k
    ensures SECTOR * a + b + 16 > SECTOR * k <==> b == 0 && a == k
  {
  }

  /** All write calls of an update: exactly when they are accepted. */
  method WriteAll(handle: OtaHandle, chunks: seq<seq<byte>>) returns (err: Err)
    requires handle.Valid() && handle.accepted == [] && handle.reach == None && |handle.flash.mem| <= UINT32_MAX / 2
    requires forall k | 0 <= k < |chunks| :: |chunks[k]| <= UINT32_MAX / 2
    modifies handle
    ensures |handle.flash.mem| == |old(handle.flash).mem|
    ensures err.Ok? <==> Magic(Flatten(chunks)) && AllFit(handle.needErase, handle.encrypted, |handle.flash.mem|, chunks)
    ensures err.Ok? ==> handle.Valid() && handle.accepted == Flatten(chunks)
    ensures err.Ok? && handle.needErase ==> handle.reach == Reach(handle.encrypted, chunks)
  {
    err := Ok;
    for k := 0 to |chunks|
      invariant err.Ok? && handle.Valid() && |handle.flash.mem| == |old(handle.flash).mem|
      invariant handle.accepted == Flatten(chunks[..k]) && Magic(handle.accepted)
      invariant handle.needErase ==> handle.reach == Reach(handle.encrypted, chunks[..k])
      invariant forall i | 0 <= i < k :: CallFits(handle.needErase, handle.encrypted, |handle.flash.mem|, chunks, i)
    {
      err := WriteCall(handle, chunks, k);
      if !err.Ok? {
        if Magic(Flatten(chunks)) {
          MagicPrefix(chunks, k + 1);
        }
        return;
      }
    }
    assert chunks[..|chunks|] == chunks;
  }

  lemma MagicPrefix(chunks: seq<seq<byte>>, k: nat)
    requires k <= |chunks| && Magic(Flatten(chunks))
    ensures Magic(Flatten(chunks[..k]))
  {
    FlattenPrefix(chunks, k);
  }

  /** Write call k. */
  method WriteCall(handle: OtaHandle, chunks: seq<seq<byte>>, k: nat) returns (err: Err)
    requires k < |chunks| && |chunks[k]| <= UINT32_MAX / 2
    requires handle.Valid() && |handle.flash.mem| <= UINT32_MAX / 2
    requires handle.accepted == Flatten(chunks[..k]) && Magic(handle.accepted)
    requires handle.needErase ==> handle.reach == Reach(handle.encrypted, chunks[..k])
    modifies handle
    ensures |handle.flash.mem| == |old(handle.flash).mem|
    ensures err.Ok? <==> Magic(Flatten(chunks[..k + 1]))
                         && CallFits(handle.needErase, handle.encrypted, |handle.flash.mem|, chunks, k)
    ensures err.Ok? ==> handle.Valid() && handle.accepted == Flatten(chunks[..k + 1])
    ensures err.Ok? && handle.needErase ==> handle.reach == Reach(handle.encrypted, chunks[..k + 1])
  {
    FlattenOne(chunks, k);
    ReachOne(handle.encrypted, chunks, k);
    ghost var reached, reach := Reached(handle.encrypted, chunks, k), Reach(handle.encrypted, chunks[..k + 1]);
    assert reached == Wrote(handle.encrypted, |handle.accepted|) + |chunks[k]|;
    assert handle.needErase ==> reach == Further(handle.reach, reached);
    err := WriteNext(handle, chunks[k]);
  }

  lemma FlattenOne(chunks: seq<seq<byte>>, k: nat)
    requires k < |chunks|
    ensures Flatten(chunks[..k + 1]) == Flatten(chunks[..k]) + chunks[k]
  {
    assert chunks[..k] + [chunks[k]] == chunks[..k + 1];
    FlattenAppend(chunks[..k], chunks[k]);
  }

  /** One write call, in terms of the image so far. */
  method WriteNext(handle: OtaHandle, chunk: seq<byte>) returns (err: Err)
    requires handle.Valid() && Magic(handle.accepted)
    requires |handle.flash.mem| <= UINT32_MAX / 2 && |chunk| <= UINT32_MAX / 2
    modifies handle
    ensures |handle.flash.mem| == |old(handle.flash).mem|
    ensures err.Ok? <==> Magic(old(handle.accepted) + chunk)
                         && RoomFor(handle.needErase, handle.encrypted, |handle.flash.mem|, |old(handle.accepted)|, |chunk|)
    ensures err.Ok? ==> handle.Valid() && handle.accepted == old(handle.accepted) + chunk
    ensures err.Ok? && handle.needErase ==>
              handle.reach == Further(old(handle.reach), Wrote(handle.encrypted, |old(handle.accepted)|) + |chunk|)
  {
    ghost var w, p := handle.wroteSize, handle.partialBytes;
    WroteSoFar(handle.encrypted, w, p, |chunk|);
    err := handle.Write(chunk);
  }

  lemma WroteSoFar(encrypted: bool, wrote: nat, carried: nat, n: nat)
    requires carried < 16 && if encrypted then wrote % 16 == 0 else carried == 0
    ensures Wrote(encrypted, wrote + carried) == wrote
    ensures Wrote(encrypted, wrote + carried + n) == EndAfter(encrypted, wrote, carried, n)
  {
  }

  /** An update from begin to end, on a partition with any contents: exactly when it
      is opened and all write calls are accepted, what esp_ota_end answers, exactly
      when bytes are programmed that were never erased, and otherwise the image at
      the start of the partition, however it was cut into write calls. */
  method Install(part: Flash, encrypted: bool, imageSize: nat, chunks: seq<seq<byte>>, imageValid: bool)
    returns (begun: bool, accepted: bool, err: Err, flash: Flash)
    requires part.Fresh() && |part.mem| <= UINT32_MAX / 2 && imageSize <= UINT32_MAX
    requires forall k | 0 <= k < |chunks| :: |chunks[k]| <= UINT32_MAX / 2
    ensures begun <==> BeginErase(|part.mem|, imageSize).Some?
    ensures accepted <==> begun && Magic(Flatten(chunks)) && AllFit(imageSize == SEQUENTIAL, encrypted, |part.mem|, chunks)
    ensures accepted ==> err == EndResult(encrypted, |part.mem|, |Flatten(chunks)|, imageValid)
    ensures accepted && (err.Ok? || err.ValidateFailed?) ==>
              && (flash.fault <==> if imageSize == SEQUENTIAL then TailMisses(encrypted, chunks)
                                   else ProgrammedEnd(encrypted, |Flatten(chunks)|) > BeginErase(|part.mem|, imageSize).value)
              && (!flash.fault ==> Flatten(chunks) <= flash.mem)
    // erased as a whole, or up to the declared size, it holds every image no longer
    ensures err.Ok? && (imageSize == 0 || imageSize == SIZE_UNKNOWN) ==> !flash.fault && Flatten(chunks) <= flash.mem
    ensures err.Ok? && |Flatten(chunks)| <= imageSize <= UINT32_MAX - SECTOR ==> !flash.fault && Flatten(chunks) <= flash.mem
    ensures !accepted ==> !err.Ok?
  {
    begun, accepted, err, flash := false, false, FlashError, part;
    var erased := BeginErase(|part.mem|, imageSize);
    if erased.None? {
      return;
    }
    begun := true;
    if |Flatten(chunks)| <= erased.value {
      BlocksWithin(encrypted, |Flatten(chunks)|, erased.value);
    }
    accepted, err, flash := InstallFrom(part, encrypted, if imageSize == SEQUENTIAL then None else erased, chunks, imageValid);
  }

  /** Blocks that begin within whole sectors end there. */
  lemma BlocksWithin(encrypted: bool, total: nat, end: nat)
    requires total <= end && end % SECTOR == 0
    ensures ProgrammedEnd(encrypted, total) <= end
  {
    if encrypted && Wrote(encrypted, total) < total {
      assert end == 16 * (256 * (end / SECTOR));
      QuotientBelow(total, 16, 256 * (end / SECTOR) + 1);
    }
  }

  /** What esp_ota_end answers for an image of the given length. */
  function EndResult(encrypted: bool, size: nat, total: nat, imageValid: bool): Err {
    if Wrote(encrypted, total) == 0 then InvalidArg
    else if ProgrammedEnd(encrypted, total) > size then InvalidState
    else if imageValid then Ok else ValidateFailed
  }

  /** An update of a partition erased up to the given end, or sequentially. */
  method InstallFrom(part: Flash, encrypted: bool, begun: Option<nat>, chunks: seq<seq<byte>>, imageValid: bool)
    returns (accepted: bool, err: Err, flash: Flash)
    requires part.Fresh() && |part.mem| <= UINT32_MAX / 2
    requires begun.Some? ==> begun.value <= |part.mem| && begun.value % SECTOR == 0
    requires forall k | 0 <= k < |chunks| :: |chunks[k]| <= UINT32_MAX / 2
    ensures accepted <==> Magic(Flatten(chunks)) && AllFit(begun.None?, encrypted, |part.mem|, chunks)
    ensures accepted ==> err == EndResult(encrypted, |part.mem|, |Flatten(chunks)|, imageValid)
    ensures accepted && (err.Ok? || err.ValidateFailed?) ==>
              && (flash.fault <==> if begun.None? then TailMisses(encrypted, chunks)
                                   else ProgrammedEnd(encrypted, |Flatten(chunks)|) > begun.value)
              && (!flash.fault ==> Flatten(chunks) <= flash.mem)
    ensures !accepted ==> !err.Ok?
  {
    var end := if begun.Some? then begun.value else 0;
    OpenSequenced(part, end);
    var handle := new OtaHandle(part.Erase(0, end), encrypted, begun);
    err := WriteAll(handle, chunks);
    accepted := err.Ok?;
    if accepted {
      err := Conclude(handle, chunks, imageValid);
    }
    flash := handle.flash;
  }

  /** esp_ota_end after all write calls, in terms of the image. */
  method Conclude(handle: OtaHandle, ghost chunks: seq<seq<byte>>, imageValid: bool) returns (err: Err)
    requires handle.Valid() && handle.accepted == Flatten(chunks)
    requires handle.needErase ==> handle.reach == Reach(handle.encrypted, chunks)
    modifies handle
    ensures err == EndResult(handle.encrypted, |old(handle.flash).mem|, |Flatten(chunks)|, imageValid)
    ensures err.Ok? || err.ValidateFailed? ==>
              && (handle.flash.fault <==> if handle.needErase then TailMisses(handle.encrypted, chunks)
                                          else ProgrammedEnd(handle.encrypted, |Flatten(chunks)|) > handle.begun)
              && (!handle.flash.fault ==> Flatten(chunks) <= handle.flash.mem)
  {
    WroteSoFar(handle.encrypted, handle.wroteSize, handle.partialBytes, 0);
    if handle.needErase && handle.wroteSize > 0 {
      TailWrite(handle.encrypted, chunks);
    }
    err := handle.End(imageValid);
  }

  lemma {:induction false} FlattenPrefix(parts: seq<seq<byte>>, k: nat)
    requires k <= |parts|
    ensures Flatten(parts[..k]) <= Flatten(parts)
  {
    if k < |parts| {
      var last := |parts| - 1;
      FlattenPrefix(parts[..last], k);
      assert parts[..last][..k] == parts[..k];
    } else {
      assert parts[..k] == parts;
    }
  }

  /** The tail can miss the erased sectors: 15 bytes and then 4095 more, with
      encryption, fill the first sector exactly and carry 14 bytes into a sector no
      write call erased. What is left there is not the image, and no error is
      reported. */
  method TailInUnerasedSector(part: Flash) returns (image: seq<byte>, err: Err, flash: Flash)
    requires part.Fresh() && |part.mem| == 2 * SECTOR
    ensures err.Ok? && flash.fault && |flash.mem| == 2 * SECTOR && |image| == SECTOR + 14 && image[SECTOR] == 0
    ensures flash.mem[SECTOR] == part.dirt[SECTOR]
    ensures part.dirt[SECTOR] != 0 ==> !(image <= flash.mem)
  {
    OpenSequenced(part, 0);
    var handle := new OtaHandle(part.Erase(0, 0), true, None);
    var first: seq<byte>, second: seq<byte> := [MAGIC] + seq(14, _ => 0), seq(4095, _ => 0);
    image := first + second;
    err := handle.Write(first);
    assert handle.wroteSize == 0 && handle.partialBytes == 15;
    err := handle.Write(second);
    assert handle.wroteSize == 4096 && handle.partialBytes == 14;
    ghost var before, tail := handle.flash, handle.partialData;
    assert before.cells[SECTOR].Untouched?;
    err := handle.End(true);
    flash := handle.flash;
    WriteDirty(before, SECTOR, tail, 0);
  }

  /** Without encryption an image that exactly fills the partition is refused in
      sequential mode, however it is cut: the erase reaches one sector too far. */
  method ExactFillRefused(part: Flash, chunks: seq<seq<byte>>) returns (accepted: bool)
    requires part.Fresh() && 0 < |part.mem| == |Flatten(chunks)| <= UINT32_MAX / 2
    requires forall k | 0 <= k < |chunks| :: |chunks[k]| <= UINT32_MAX / 2
    ensures !accepted
  {
    var begun, err, flash;
    begun, accepted, err, flash := Install(part, false, SEQUENTIAL, chunks, true);
    var last := |chunks| - 1;
    FlattenOne(chunks, last);
    assert chunks[..last + 1] == chunks && !CallFits(true, false, |part.mem|, chunks, last);
  }

  /** With encryption it depends on the cutting: one call is refused, 15 bytes and
      then the rest are accepted. */
  lemma ExactFillDepends(image: seq<byte>)
    requires |image| == SECTOR && Magic(image)
    ensures !CallFits(true, true, SECTOR, [image], 0)
    ensures var chunks := [image[..15], image[15..]];
            Flatten(chunks) == image && AllFit(true, true, SECTOR, chunks)
  {
    assert [image][..0] == [];
    var chunks := [image[..15], image[15..]];
    assert chunks[..0] == [] && chunks[..1] == [] + [image[..15]] && chunks == [image[..15]] + [image[15..]];
    FlattenAppend([], image[..15]);
    FlattenAppend([image[..15]], image[15..]);
    assert [] + [image[..15]] == [image[..15]];
  }
}
