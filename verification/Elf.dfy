/** Loading and relocating an ELF image as a value: os/src/loader.rs, os/src/elf.rs and the address
    ranges of os/src/memory.rs. */
module Elf {
  import opened Common
  import opened BitMath
  import opened LittleEndian

  const PAGE: nat := 4096
  const PHDR_TYPE_LOAD: nat := 1
  const PHDR_TYPE_DYNAMIC: nat := 2
  const TAG_RELA_ADDRESS: nat := 7
  const TAG_RELA_TOTAL_SIZE: nat := 8
  const TAG_RELA_ENTRY_SIZE: nat := 9
  const R_RELATIVE: nat := 8

  //
  // Address ranges
  //

  datatype AddressRange = AddressRange(start: nat, end: nat) {
    predicate Contains(addr: nat) { start <= addr < end }

    function OffsetOf(addr: nat): Result<nat> {
      if Contains(addr) then Ok(addr - start) else Err
    }

    function Size(): int { end - start }

    /** Where this range lies inside `region`; it has to start inside, even if it is empty. */
    function ToRangeIn(region: AddressRange): Result<(nat, nat)>
      requires start <= end
    {
      match region.OffsetOf(start)
      case Err => Err
      case Ok(ofs) => if Size() == 0 || region.Contains(end - 1) then Ok((ofs, ofs + Size())) else Err
    }
  }

  function FromStartAndSize(start: nat, size: nat): AddressRange { AddressRange(start, start + size) }

  /** A range that starts inside `region` is found there exactly if it also ends inside. */
  lemma RangeInside(r: AddressRange, region: AddressRange)
    requires r.start <= r.end
    ensures r.ToRangeIn(region).Ok? <==> region.start <= r.start < region.end && r.end <= region.end
    ensures r.ToRangeIn(region).Ok? ==> r.ToRangeIn(region).value == (r.start - region.start, r.end - region.start)
  {
  }

  //
  // The file
  //

  datatype SegmentHeader = SegmentHeader(phdrType: nat, offset: nat, vaddr: nat, fsize: nat, vsize: nat, align: nat) {
    function VaddrRange(): AddressRange { FromStartAndSize(vaddr, vsize) }
  }

  datatype Elf = Elf(file: seq<byte>, segments: seq<SegmentHeader>)

  function LoadSegments(segments: seq<SegmentHeader>): seq<SegmentHeader> {
    if segments == [] then []
    else (if segments[0].phdrType == PHDR_TYPE_LOAD then [segments[0]] else []) + LoadSegments(segments[1..])
  }

  /** What the loader takes for granted about a segment: a power-of-two alignment, and an aligned end
      that is still an address. */
  ghost predicate SegmentOk(s: SegmentHeader) {
    IsPow2(s.align) && s.vaddr + s.vsize + s.align <= U64
  }

  /** `x & !(align - 1)`, whatever the alignment is; the subtraction wraps. */
  function Down(x: nat, align: nat): nat {
    ClearBits(x, (align + U64 - 1) % U64)
  }

  function Min(a: nat, b: nat): nat { if a < b then a else b }
  function Max(a: nat, b: nat): nat { if a < b then b else a }

  /** Where the aligned memory of a segment starts and ends. */
  function AlignedStart(s: SegmentHeader): nat { Down(s.vaddr, s.align) }
  function AlignedEnd(s: SegmentHeader): nat { Down((s.vaddr + s.vsize + s.align + U64 - 1) % U64, s.align) }

  /** The fold over the loaded segments: from the lowest aligned start to the highest aligned end. */
  function VaddrSpan(segments: seq<SegmentHeader>): AddressRange {
    if segments == [] then AddressRange(U64 - 1, 0) else
      var rest := VaddrSpan(segments[..|segments| - 1]);
      var s := segments[|segments| - 1];
      AddressRange(
        Min(rest.start, AlignedStart(s)),
        Max(rest.end, AlignedEnd(s)))
  }

  /** Every segment lies in the span. */
  lemma {:induction false} SpanCovers(segments: seq<SegmentHeader>, i: nat)
    requires i < |segments| && forall k :: 0 <= k < |segments| ==> SegmentOk(segments[k])
    ensures VaddrSpan(segments).start <= segments[i].vaddr
    ensures segments[i].vaddr + segments[i].vsize <= VaddrSpan(segments).end
    decreases |segments|
  {
    var front, last := segments[..|segments| - 1], segments[|segments| - 1];
    assert SegmentOk(last);
    ClearBitsBelow(last.vaddr, (last.align + U64 - 1) % U64);
    if i == |segments| - 1 {
      EndIsAbove(last.vaddr + last.vsize, last.align);
    } else {
      SpanCovers(front, i);
      assert front[i] == segments[i];
    }
  }

  ghost predicate Lowest(segments: seq<SegmentHeader>, x: nat) {
    && (forall k :: 0 <= k < |segments| ==> x <= AlignedStart(segments[k]))
    && (exists k :: 0 <= k < |segments| && x == AlignedStart(segments[k]))
  }

  ghost predicate Highest(segments: seq<SegmentHeader>, x: nat) {
    && (forall k :: 0 <= k < |segments| ==> AlignedEnd(segments[k]) <= x)
    && (exists k :: 0 <= k < |segments| && x == AlignedEnd(segments[k]))
  }

  lemma LowestNext(front: seq<SegmentHeader>, last: SegmentHeader, x: nat)
    requires if front == [] then AlignedStart(last) <= x else Lowest(front, x)
    ensures Lowest(front + [last], Min(x, AlignedStart(last)))
  {
    var all := front + [last];
    assert all[|front|] == last;
    if front != [] {
      var k :| 0 <= k < |front| && x == AlignedStart(front[k]);
      assert all[k] == front[k];
    }
  }

  lemma HighestNext(front: seq<SegmentHeader>, last: SegmentHeader, x: nat)
    requires if front == [] then x == 0 else Highest(front, x)
    ensures Highest(front + [last], Max(x, AlignedEnd(last)))
  {
    var all := front + [last];
    assert all[|front|] == last;
    if front != [] {
      var k :| 0 <= k < |front| && x == AlignedEnd(front[k]);
      assert all[k] == front[k];
    }
  }

  /** The span is tight: it starts at the lowest aligned start and ends at the highest aligned end. */
  lemma {:induction false} SpanExactly(segments: seq<SegmentHeader>)
    requires segments != [] && forall k :: 0 <= k < |segments| ==> segments[k].vaddr < U64
    ensures Lowest(segments, VaddrSpan(segments).start) && Highest(segments, VaddrSpan(segments).end)
    decreases |segments|
  {
    var front, last := segments[..|segments| - 1], segments[|segments| - 1];
    ClearBitsBelow(last.vaddr, (last.align + U64 - 1) % U64);
    if front != [] {
      SpanExactly(front);
    }
    LowestNext(front, last, VaddrSpan(front).start);
    HighestNext(front, last, VaddrSpan(front).end);
    assert segments == front + [last];
  }

  lemma EndIsAbove(x: nat, align: nat)
    requires IsPow2(align) && x + align <= U64
    ensures x <= Down((x + align + U64 - 1) % U64, align)
  {
    WrapOnce(x + align - 1);
    DownToPow2(x + align - 1, align);
  }

  lemma DownToPow2(x: nat, align: nat)
    requires IsPow2(align) && align <= U64
    ensures align > 0 && Down(x, align) == AlignDown(x, align)
  {
    var k: nat :| align == Pow2(k);
    WrapOnce(align - 1);
    ClearLowBits(x, k);
  }

  lemma WrapOnce(n: nat)
    requires n < U64
    ensures (n + 1 + U64 - 1) % U64 == n
  {
  }

  //
  // Images and writes
  //

  datatype Write = Write(at: nat, bytes: seq<byte>) {
    predicate Covers(o: nat) { at <= o < at + |bytes| }
    predicate Fits(size: nat) { at + |bytes| <= size }
  }

  function Apply(image: seq<byte>, w: Write): (r: seq<byte>)
    requires w.Fits(|image|)
    ensures |r| == |image|
  {
    image[..w.at] + w.bytes + image[w.at + |w.bytes|..]
  }

  lemma ApplyAt(image: seq<byte>, w: Write, o: nat)
    requires w.Fits(|image|) && o < |image|
    ensures Apply(image, w)[o] == if w.Covers(o) then w.bytes[o - w.at] else image[o]
  {
  }

  ghost predicate AllFit(ws: seq<Write>, size: nat) {
    forall i :: 0 <= i < |ws| ==> ws[i].Fits(size)
  }

  function ApplyAll(image: seq<byte>, ws: seq<Write>): (r: seq<byte>)
    requires AllFit(ws, |image|)
    ensures |r| == |image|
  {
    if ws == [] then image else Apply(ApplyAll(image, ws[..|ws| - 1]), ws[|ws| - 1])
  }

  /** The last write that covers a byte decides it. */
  lemma {:induction false} LastWriteWins(image: seq<byte>, ws: seq<Write>, k: nat, o: nat)
    requires AllFit(ws, |image|) && o < |image| && k < |ws| && ws[k].Covers(o)
    requires forall j :: k < j < |ws| ==> !ws[j].Covers(o)
    ensures ApplyAll(image, ws)[o] == ws[k].bytes[o - ws[k].at]
    decreases |ws|
  {
    ApplyAt(ApplyAll(image, ws[..|ws| - 1]), ws[|ws| - 1], o);
    if k < |ws| - 1 {
      LastWriteWins(image, ws[..|ws| - 1], k, o);
    }
  }

  lemma {:induction false} UnwrittenStays(image: seq<byte>, ws: seq<Write>, o: nat)
    requires AllFit(ws, |image|) && o < |image| && forall j :: 0 <= j < |ws| ==> !ws[j].Covers(o)
    ensures ApplyAll(image, ws)[o] == image[o]
    decreases |ws|
  {
    if ws != [] {
      ApplyAt(ApplyAll(image, ws[..|ws| - 1]), ws[|ws| - 1], o);
      UnwrittenStays(image, ws[..|ws| - 1], o);
    }
  }

  lemma ApplyAllSnoc(image: seq<byte>, ws: seq<Write>, w: Write)
    requires AllFit(ws, |image|) && w.Fits(|image|)
    ensures AllFit(ws + [w], |image|)
    ensures ApplyAll(image, ws + [w]) == Apply(ApplyAll(image, ws), w)
  {
    assert (ws + [w])[..|ws|] == ws;
  }

  //
  // Loading
  //

  function Zeros(n: nat): (z: seq<byte>)
    ensures |z| == n && forall i :: 0 <= i < n ==> z[i] == 0
  {
    seq(n, _ => 0)
  }

  /** The bytes of a segment and where they go, if the checks of `load_segment` pass; a slice out of
      range, where the code panics, is `Err` too. */
  function SegmentWrite(file: seq<byte>, span: AddressRange, s: SegmentHeader): Result<Write> {
    match s.VaddrRange().ToRangeIn(span)
    case Err => Err
    case Ok((from, to)) =>
      if s.offset + s.fsize > |file| || s.fsize > s.vsize then Err
      else Ok(Write(from, file[s.offset..s.offset + s.fsize]))
  }

  function SegmentWrites(file: seq<byte>, span: AddressRange, segments: seq<SegmentHeader>): Result<seq<Write>> {
    if segments == [] then Ok([]) else
      match SegmentWrites(file, span, segments[..|segments| - 1])
      case Err => Err
      case Ok(ws) =>
        match SegmentWrite(file, span, segments[|segments| - 1])
        case Err => Err
        case Ok(w) => Ok(ws + [w])
  }

  datatype Reloc = Reloc(address: nat, info: nat, addend: nat)

  /** The entries of a table of `count` relocations of `size` bytes each, from offset `at`. */
  function RelocTable(image: seq<byte>, at: nat, size: nat, count: nat): Result<seq<Reloc>>
    requires at + size * count <= |image|
    decreases count
  {
    if count == 0 then Ok([])
    else if size < 24 then Err
    else
      assert size * count == size * (count - 1) + size;
      match RelocTable(image, at, size, count - 1)
      case Err => Err
      case Ok(rs) =>
        var e := at + size * (count - 1);
        Ok(rs + [Reloc(FromLe64(image, e), FromLe64(image, e + 8), FromLe64(image, e + 16))])
  }

  function Resolve(segments: seq<SegmentHeader>, span: AddressRange, regionStart: nat, vaddr: nat): Result<nat> {
    if exists i :: 0 <= i < |segments| && segments[i].VaddrRange().Contains(vaddr) then
      match span.OffsetOf(vaddr)
      case Err => Err
      case Ok(ofs) => Ok(regionStart + ofs)
    else Err
  }

  /** The word a relocation stores. */
  function RelocWrite(segments: seq<SegmentHeader>, span: AddressRange, regionStart: nat, r: Reloc): Result<Write> {
    if r.info % 0x1_0000_0000 != R_RELATIVE then Err else
      match Resolve(segments, span, regionStart, r.addend)
      case Err => Err
      case Ok(value) =>
        match FromStartAndSize(r.address, 8).ToRangeIn(span)
        case Err => Err
        case Ok((from, to)) => if value >= U64 then Err else Ok(Write(from, Le64(value)))
  }

  function RelocWrites(segments: seq<SegmentHeader>, span: AddressRange, regionStart: nat, rs: seq<Reloc>): Result<seq<Write>> {
    if rs == [] then Ok([]) else
      match RelocWrites(segments, span, regionStart, rs[..|rs| - 1])
      case Err => Err
      case Ok(ws) =>
        match RelocWrite(segments, span, regionStart, rs[|rs| - 1])
        case Err => Err
        case Ok(w) => Ok(ws + [w])
  }

  /** First value with the given tag among the entries of a dynamic segment. */
  function FindTag(data: seq<byte>, tag: nat): Option<nat>
    decreases |data|
  {
    if |data| < 16 then None
    else if FromLe64(data, 0) == tag then Some(FromLe64(data, 8))
    else FindTag(data[16..], tag)
  }

  function FindDynamic(segments: seq<SegmentHeader>): Option<SegmentHeader> {
    if segments == [] then None
    else if segments[0].phdrType == PHDR_TYPE_DYNAMIC then Some(segments[0])
    else FindDynamic(segments[1..])
  }

  /** The relocations of the file, read from the image after its segments have been copied. */
  function Relocations(elf: Elf, span: AddressRange, image: seq<byte>): Result<seq<Reloc>>
    requires span.Size() <= |image|
  {
    match FindDynamic(elf.segments)
    case None => Ok([])
    case Some(d) =>
      if d.offset + d.fsize > |elf.file| then Err else
        FromData(elf.file[d.offset..d.offset + d.fsize], span, image)
  }

  /** What the data of the dynamic segment ask for. */
  function FromData(data: seq<byte>, span: AddressRange, image: seq<byte>): Result<seq<Reloc>>
    requires span.Size() <= |image|
  {
    match (FindTag(data, TAG_RELA_ADDRESS), FindTag(data, TAG_RELA_TOTAL_SIZE), FindTag(data, TAG_RELA_ENTRY_SIZE))
    case (Some(addr), Some(total), Some(entry)) => ReadTable(span, image, addr, total, entry)
    case _ => Ok([])
  }

  /** The table of `total` bytes at an address, in entries of `entry` bytes. */
  function ReadTable(span: AddressRange, image: seq<byte>, addr: nat, total: nat, entry: nat): Result<seq<Reloc>>
    requires span.Size() <= |image|
  {
    match FromStartAndSize(addr, total).ToRangeIn(span)
    case Err => Err
    case Ok((from, to)) =>
      if entry == 0 then Err else
        ChunksFit(total, entry);
        RelocTable(image, from, entry, total / entry)
  }

  lemma ChunksFit(total: nat, entry: nat)
    requires entry > 0
    ensures entry * (total / entry) <= total
  {
  }

  datatype Loaded = Loaded(span: AddressRange, regionStart: nat, image: seq<byte>, segments: seq<SegmentHeader>)

  function PagesFor(size: nat): nat { (size + PAGE - 1) / PAGE }

  lemma SegmentWritesFit(file: seq<byte>, span: AddressRange, segments: seq<SegmentHeader>)
    requires SegmentWrites(file, span, segments).Ok?
    ensures AllFit(SegmentWrites(file, span, segments).value, if span.Size() > 0 then span.Size() else 0)
    ensures segments != [] ==> span.Size() > 0
    ensures |SegmentWrites(file, span, segments).value| == |segments|
  {
    if segments != [] {
      SegmentWritesFit(file, span, segments[..|segments| - 1]);
    }
  }

  lemma RelocWritesFit(segments: seq<SegmentHeader>, span: AddressRange, regionStart: nat, rs: seq<Reloc>)
    requires RelocWrites(segments, span, regionStart, rs).Ok?
    ensures AllFit(RelocWrites(segments, span, regionStart, rs).value, if span.Size() > 0 then span.Size() else 0)
    ensures |RelocWrites(segments, span, regionStart, rs).value| == |rs|
  {
    if rs != [] {
      RelocWritesFit(segments, span, regionStart, rs[..|rs| - 1]);
    }
  }

  /** `Elf::load` into a zeroed region at `regionStart`. */
  function Load(elf: Elf, regionStart: nat): Result<Loaded> {
    var segments := LoadSegments(elf.segments);
    if segments == [] then Err else
      var span := VaddrSpan(segments);
      match SegmentWrites(elf.file, span, segments)
      case Err => Err
      case Ok(ws) =>
        SegmentWritesFit(elf.file, span, segments);
        var copied := ApplyAll(Zeros(PagesFor(span.Size()) * PAGE), ws);
        match Relocations(elf, span, copied)
        case Err => Err
        case Ok(rs) =>
          match RelocWrites(segments, span, regionStart, rs)
          case Err => Err
          case Ok(rws) =>
            RelocWritesFit(segments, span, regionStart, rs);
            Ok(Loaded(span, regionStart, ApplyAll(copied, rws), segments))
  }

  /** A well-formed segment that is not empty always lies in the span: copying it can only fail for
      the sake of its file bytes. */
  lemma SegmentFits(file: seq<byte>, segments: seq<SegmentHeader>, i: nat)
    requires i < |segments| && segments[i].vsize > 0 && forall k :: 0 <= k < |segments| ==> SegmentOk(segments[k])
    ensures SegmentWrite(file, VaddrSpan(segments), segments[i]).Ok? <==>
            segments[i].offset + segments[i].fsize <= |file| && segments[i].fsize <= segments[i].vsize
  {
    SpanCovers(segments, i);
    RangeInside(segments[i].VaddrRange(), VaddrSpan(segments));
  }
}
