/** `Elf::load` of os/src/loader.rs, working in place on the region it allocates. */
module Loader {
  import opened Common
  import opened LittleEndian
  import opened Elf

  /** Copies bytes into the region. */
  method CopyInto(region: array<byte>, w: Write)
    requires w.Fits(region.Length)
    modifies region
    ensures region[..] == Apply(old(region[..]), w)
  {
    for k := 0 to |w.bytes|
      invariant region[..] == Apply(old(region[..]), Write(w.at, w.bytes[..k]))
    {
      StepApply(old(region[..]), w, k);
      region[w.at + k] := w.bytes[k];
    }
    assert w.bytes[..|w.bytes|] == w.bytes;
  }

  lemma StepApply(image: seq<byte>, w: Write, k: nat)
    requires w.Fits(|image|) && k < |w.bytes|
    ensures Apply(image, Write(w.at, w.bytes[..k + 1])) == Apply(image, Write(w.at, w.bytes[..k]))[w.at + k := w.bytes[k]]
  {
  }

  /** `load_segment`: nothing is touched when it fails. */
  method LoadSegment(region: array<byte>, file: seq<byte>, span: AddressRange, s: SegmentHeader) returns (ok: bool)
    requires span.Size() <= region.Length
    modifies region
    ensures ok <==> SegmentWrite(file, span, s).Ok?
    ensures ok ==> SegmentWrite(file, span, s).value.Fits(region.Length) && region[..] == Apply(old(region[..]), SegmentWrite(file, span, s).value)
    ensures !ok ==> region[..] == old(region[..])
  {
    var dst := s.VaddrRange().ToRangeIn(span);
    RangeInside(s.VaddrRange(), span);
    if dst.Err? || s.offset + s.fsize > |file| || s.fsize > s.vsize {
      return false;
    }
    CopyInto(region, Write(dst.value.0, file[s.offset..s.offset + s.fsize]));
    ok := true;
  }

  lemma {:induction false} SegmentsFailEarly(file: seq<byte>, span: AddressRange, segments: seq<SegmentHeader>, i: nat)
    requires i <= |segments| && SegmentWrites(file, span, segments[..i]).Err?
    ensures SegmentWrites(file, span, segments).Err?
    decreases |segments| - i
  {
    if i < |segments| {
      assert segments[..i + 1][..i] == segments[..i];
      SegmentsFailEarly(file, span, segments, i + 1);
    } else {
      assert segments[..i] == segments;
    }
  }

  method CopySegments(region: array<byte>, file: seq<byte>, span: AddressRange, segments: seq<SegmentHeader>) returns (ok: bool)
    requires span.Size() <= region.Length
    modifies region
    ensures ok <==> SegmentWrites(file, span, segments).Ok?
    ensures ok ==> AllFit(SegmentWrites(file, span, segments).value, region.Length)
    ensures ok ==> region[..] == ApplyAll(old(region[..]), SegmentWrites(file, span, segments).value)
  {
    ghost var ws: seq<Write> := [];
    for i := 0 to |segments|
      invariant SegmentWrites(file, span, segments[..i]) == Ok(ws) && AllFit(ws, region.Length)
      invariant region[..] == ApplyAll(old(region[..]), ws)
    {
      assert segments[..i + 1][..i] == segments[..i];
      var copied := LoadSegment(region, file, span, segments[i]);
      if !copied {
        SegmentsFailEarly(file, span, segments, i + 1);
        return false;
      }
      ghost var w := SegmentWrite(file, span, segments[i]).value;
      ApplyAllSnoc(old(region[..]), ws, w);
      ws := ws + [w];
    }
    assert segments[..|segments|] == segments;
    ok := true;
  }

  lemma {:induction false} RelocsFailEarly(segments: seq<SegmentHeader>, span: AddressRange, regionStart: nat, rs: seq<Reloc>, j: nat)
    requires j <= |rs| && RelocWrites(segments, span, regionStart, rs[..j]).Err?
    ensures RelocWrites(segments, span, regionStart, rs).Err?
    decreases |rs| - j
  {
    if j < |rs| {
      assert rs[..j + 1][..j] == rs[..j];
      RelocsFailEarly(segments, span, regionStart, rs, j + 1);
    } else {
      assert rs[..j] == rs;
    }
  }

  /** `resolve_vaddr`: the first segment that contains the address decides. */
  method ResolveVaddr(segments: seq<SegmentHeader>, span: AddressRange, regionStart: nat, vaddr: nat) returns (r: Result<nat>)
    ensures r == Resolve(segments, span, regionStart, vaddr)
  {
    for i := 0 to |segments|
      invariant forall k :: 0 <= k < i ==> !segments[k].VaddrRange().Contains(vaddr)
    {
      if segments[i].VaddrRange().Contains(vaddr) {
        var ofs := span.OffsetOf(vaddr);
        return if ofs.Ok? then Ok(regionStart + ofs.value) else Err;
      }
    }
    r := Err;
  }

  /** The relocation loop. */
  method Relocate(region: array<byte>, span: AddressRange, regionStart: nat, segments: seq<SegmentHeader>, rs: seq<Reloc>) returns (ok: bool)
    requires span.Size() <= region.Length
    modifies region
    ensures ok <==> RelocWrites(segments, span, regionStart, rs).Ok?
    ensures ok ==> AllFit(RelocWrites(segments, span, regionStart, rs).value, region.Length)
    ensures ok ==> region[..] == ApplyAll(old(region[..]), RelocWrites(segments, span, regionStart, rs).value)
  {
    ghost var ws: seq<Write> := [];
    for j := 0 to |rs|
      invariant RelocWrites(segments, span, regionStart, rs[..j]) == Ok(ws) && AllFit(ws, region.Length)
      invariant region[..] == ApplyAll(old(region[..]), ws)
    {
      assert rs[..j + 1][..j] == rs[..j];
      var w := RelocateOne(region, span, regionStart, segments, rs[j]);
      if w.Err? {
        RelocsFailEarly(segments, span, regionStart, rs, j + 1);
        return false;
      }
      ApplyAllSnoc(old(region[..]), ws, w.value);
      ws := ws + [w.value];
    }
    assert rs[..|rs|] == rs;
    ok := true;
  }

  method RelocateOne(region: array<byte>, span: AddressRange, regionStart: nat, segments: seq<SegmentHeader>, r: Reloc) returns (w: Result<Write>)
    requires span.Size() <= region.Length
    modifies region
    ensures w == RelocWrite(segments, span, regionStart, r)
    ensures w.Ok? ==> w.value.Fits(region.Length) && region[..] == Apply(old(region[..]), w.value)
    ensures w.Err? ==> region[..] == old(region[..])
  {
    if r.info % 0x1_0000_0000 != R_RELATIVE {
      return Err;
    }
    var resolved := ResolveVaddr(segments, span, regionStart, r.addend);
    if resolved.Err? {
      return Err;
    }
    var dst := FromStartAndSize(r.address, 8).ToRangeIn(span);
    RangeInside(FromStartAndSize(r.address, 8), span);
    if dst.Err? || resolved.value >= U64 {
      return Err;
    }
    w := Ok(Write(dst.value.0, Le64(resolved.value)));
    CopyInto(region, w.value);
  }

  /** The whole of `load`. */
  method LoadElf(elf: Elf, regionStart: nat) returns (r: Result<(AddressRange, array<byte>)>)
    ensures r.Ok? <==> Load(elf, regionStart).Ok?
    ensures r.Ok? ==> fresh(r.value.1) && Load(elf, regionStart).value == Loaded(r.value.0, regionStart, r.value.1[..], LoadSegments(elf.segments))
  {
    var segments := LoadSegments(elf.segments);
    if segments == [] {
      return Err;
    }
    var span := VaddrSpan(segments);
    var size := if span.Size() > 0 then span.Size() else 0;
    var region := new byte[PagesFor(size) * PAGE](_ => 0);
    assert region[..] == Zeros(PagesFor(size) * PAGE);
    var copied := CopySegments(region, elf.file, span, segments);
    if !copied {
      return Err;
    }
    SegmentWritesFit(elf.file, span, segments);
    var rs := Relocations(elf, span, region[..]);
    if rs.Err? {
      return Err;
    }
    var relocated := Relocate(region, span, regionStart, segments, rs.value);
    if !relocated {
      return Err;
    }
    r := Ok((span, region));
  }
}
