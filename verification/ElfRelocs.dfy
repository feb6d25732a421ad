/** Which relocations a file asks for, read off its bytes, and which segments are loaded: the lookups in
    `load` of os/src/loader.rs over the entries of os/src/elf.rs. */
module ElfRelocs {
  import opened Common
  import opened LittleEndian
  import opened Elf

  //
  // The segments that are loaded
  //

  /** How many of the first `k` segments are of type 1. */
  function Rank(all: seq<SegmentHeader>, k: nat): nat
    requires k <= |all|
  {
    if k == 0 then 0 else Rank(all, k - 1) + if all[k - 1].phdrType == 1 then 1 else 0
  }

  lemma {:induction false} LoadSegmentsSnoc(a: seq<SegmentHeader>, s: SegmentHeader)
    ensures LoadSegments(a + [s]) == LoadSegments(a) + if s.phdrType == 1 then [s] else []
  {
    if a == [] {
      assert a + [s] == [s] && [s][1..] == [];
    } else {
      var all := a + [s];
      assert all[0] == a[0] && all[1..] == a[1..] + [s];
      LoadSegmentsSnoc(a[1..], s);
      var head := if a[0].phdrType == 1 then [a[0]] else [];
      var last := if s.phdrType == 1 then [s] else [];
      assert head + (LoadSegments(a[1..]) + last) == head + LoadSegments(a[1..]) + last;
    }
  }

  /** Of the first `n` segments those of type 1 are loaded, each in its rank, and no others. */
  ghost predicate LoadsOf(all: seq<SegmentHeader>, n: nat, loads: seq<SegmentHeader>) {
    && n <= |all| && |loads| == Rank(all, n)
    && (forall k :: 0 <= k < n && all[k].phdrType == 1 ==> Rank(all, k) < |loads| && loads[Rank(all, k)] == all[k])
    && (forall i :: 0 <= i < |loads| ==> loads[i].phdrType == 1)
  }

  lemma {:induction false} LoadsOfPrefix(all: seq<SegmentHeader>, n: nat)
    requires n <= |all|
    ensures LoadsOf(all, n, LoadSegments(all[..n]))
    decreases n
  {
    if n > 0 {
      LoadsOfPrefix(all, n - 1);
      LoadSegmentsSnoc(all[..n - 1], all[n - 1]);
      assert all[..n] == all[..n - 1] + [all[n - 1]];
    }
  }

  /** What is loaded are exactly the segments of type 1, in the order of the file. */
  lemma LoadSegmentsExactly(all: seq<SegmentHeader>)
    ensures LoadsOf(all, |all|, LoadSegments(all))
  {
    LoadsOfPrefix(all, |all|);
    assert all[..|all|] == all;
  }

  //
  // The dynamic segment and its tags
  //

  /** The first segment of type 2. */
  ghost predicate FirstDynamic(segments: seq<SegmentHeader>, d: int) {
    0 <= d < |segments| && segments[d].phdrType == 2 && forall j :: 0 <= j < d ==> segments[j].phdrType != 2
  }

  ghost predicate NoDynamic(segments: seq<SegmentHeader>) {
    forall j :: 0 <= j < |segments| ==> segments[j].phdrType != 2
  }

  lemma {:induction false} FindDynamicExactly(segments: seq<SegmentHeader>) returns (d: int)
    ensures FindDynamic(segments).None? <==> NoDynamic(segments)
    ensures FindDynamic(segments).Some? ==> FirstDynamic(segments, d) && FindDynamic(segments).value == segments[d]
  {
    d := 0;
    if segments != [] && segments[0].phdrType != 2 {
      var rest := FindDynamicExactly(segments[1..]);
      d := rest + 1;
      if FindDynamic(segments).Some? {
        forall j | 0 <= j < d ensures segments[j].phdrType != 2 {
          assert j > 0 ==> segments[1..][j - 1] == segments[j];
        }
      } else {
        forall j | 0 <= j < |segments| ensures segments[j].phdrType != 2 {
          assert j > 0 ==> segments[1..][j - 1] == segments[j];
        }
      }
    }
  }

  /** The tag of 16-byte entry `k`. */
  function TagAt(data: seq<byte>, k: nat): nat
    requires 16 * k + 16 <= |data|
  {
    FromLe64(data, 16 * k)
  }

  /** The value of 16-byte entry `k`. */
  function ValueAt(data: seq<byte>, k: nat): nat
    requires 16 * k + 16 <= |data|
  {
    FromLe64(data, 16 * k + 8)
  }

  /** Entry `k` is the first one with the tag. */
  ghost predicate FirstTag(data: seq<byte>, tag: nat, k: nat) {
    && 16 * k + 16 <= |data| && TagAt(data, k) == tag
    && forall j: nat :: j < k ==> TagAt(data, j) != tag
  }

  ghost predicate NoTag(data: seq<byte>, tag: nat) {
    forall j: nat :: 16 * j + 16 <= |data| ==> TagAt(data, j) != tag
  }

  lemma NextEntry(data: seq<byte>, k: nat)
    requires 16 * (k + 1) + 16 <= |data|
    ensures TagAt(data[16..], k) == TagAt(data, k + 1) && ValueAt(data[16..], k) == ValueAt(data, k + 1)
  {
    DropSixteen(data, 16 * k);
    DropSixteen(data, 16 * k + 8);
  }

  lemma DropSixteen(data: seq<byte>, at: nat)
    requires at + 24 <= |data|
    ensures FromLe64(data[16..], at) == FromLe64(data, at + 16)
  {
  }

  lemma {:induction false} FindTagExactly(data: seq<byte>, tag: nat) returns (k: nat)
    ensures FindTag(data, tag).None? <==> NoTag(data, tag)
    ensures FindTag(data, tag).Some? ==> FirstTag(data, tag, k) && FindTag(data, tag).value == ValueAt(data, k)
    decreases |data|
  {
    k := 0;
    if |data| >= 16 && TagAt(data, 0) != tag {
      var rest := FindTagExactly(data[16..], tag);
      k := rest + 1;
      if FindTag(data, tag).Some? {
        NextEntry(data, rest);
        forall j: nat | j < k ensures TagAt(data, j) != tag {
          if j > 0 {
            NextEntry(data, j - 1);
          }
        }
      } else {
        forall j: nat | 16 * j + 16 <= |data| ensures TagAt(data, j) != tag {
          if j > 0 {
            NextEntry(data, j - 1);
          }
        }
      }
    }
  }

  /** The value of the first entry with the tag. */
  ghost predicate TagIs(data: seq<byte>, tag: nat, v: nat) {
    exists k: nat :: FirstTag(data, tag, k) && ValueAt(data, k) == v
  }

  lemma TagValueUnique(data: seq<byte>, tag: nat, v: nat, v': nat)
    requires TagIs(data, tag, v) && TagIs(data, tag, v')
    ensures v == v' && !NoTag(data, tag)
  {
    var k: nat :| FirstTag(data, tag, k) && ValueAt(data, k) == v;
    var k': nat :| FirstTag(data, tag, k') && ValueAt(data, k') == v';
    assert k == k';
  }

  lemma TagFound(data: seq<byte>, tag: nat)
    ensures FindTag(data, tag).None? <==> NoTag(data, tag)
    ensures FindTag(data, tag).Some? ==> TagIs(data, tag, FindTag(data, tag).value)
  {
    var k := FindTagExactly(data, tag);
  }

  //
  // The table
  //

  /** A relocation is three words: address, info and addend. */
  ghost predicate RelocAt(image: seq<byte>, o: nat, r: Reloc) {
    && o + 24 <= |image|
    && r.address == FromLe64(image, o) && r.info == FromLe64(image, o + 8) && r.addend == FromLe64(image, o + 16)
  }

  ghost predicate EntriesFrom(image: seq<byte>, at: nat, size: nat, rs: seq<Reloc>) {
    forall k :: 0 <= k < |rs| ==> RelocAt(image, at + size * k, rs[k])
  }

  lemma {:induction false} RelocTableExactly(image: seq<byte>, at: nat, size: nat, count: nat)
    requires at + size * count <= |image|
    ensures RelocTable(image, at, size, count).Ok? <==> count == 0 || size >= 24
    ensures RelocTable(image, at, size, count).Ok? ==>
              var rs := RelocTable(image, at, size, count).value; |rs| == count && EntriesFrom(image, at, size, rs)
    decreases count
  {
    if count > 0 && size >= 24 {
      assert size * count == size * (count - 1) + size;
      RelocTableExactly(image, at, size, count - 1);
    }
  }

  /** A table of `total` bytes at address `rela`, in entries of `entry` bytes: it lies in the span and
      there is one relocation for each whole entry. */
  ghost predicate TableReadable(span: AddressRange, rela: nat, total: nat, entry: nat) {
    && entry > 0 && span.start <= rela < span.end && rela + total <= span.end
    && (total / entry == 0 || entry >= 24)
  }

  ghost predicate TableIs(span: AddressRange, image: seq<byte>, rela: nat, total: nat, entry: nat, rs: seq<Reloc>) {
    && TableReadable(span, rela, total, entry)
    && |rs| == total / entry && EntriesFrom(image, rela - span.start, entry, rs)
  }

  function DynamicData(file: seq<byte>, s: SegmentHeader): seq<byte>
    requires s.offset + s.fsize <= |file|
  {
    file[s.offset..s.offset + s.fsize]
  }

  ghost predicate SomeTagMissing(data: seq<byte>) {
    NoTag(data, 7) || NoTag(data, 8) || NoTag(data, 9)
  }

  /** If all three tags are there, the table they describe is where it should be. */
  ghost predicate DataReadable(data: seq<byte>, span: AddressRange) {
    forall rela, total, entry :: TagIs(data, 7, rela) && TagIs(data, 8, total) && TagIs(data, 9, entry) ==>
      TableReadable(span, rela, total, entry)
  }

  /** None without one of the tags 7, 8 and 9; otherwise the entries of the table whose address, size and
      entry size the tags give. */
  ghost predicate DataRelocs(data: seq<byte>, span: AddressRange, image: seq<byte>, rs: seq<Reloc>) {
    && (SomeTagMissing(data) ==> rs == [])
    && forall rela, total, entry :: TagIs(data, 7, rela) && TagIs(data, 8, total) && TagIs(data, 9, entry) ==>
         TableIs(span, image, rela, total, entry, rs)
  }

  /** The relocations can be read: there is no dynamic segment, or its data are in the file and describe
      a table that can be read. */
  ghost predicate Readable(elf: Elf, span: AddressRange) {
    forall d :: FirstDynamic(elf.segments, d) ==>
      elf.segments[d].offset + elf.segments[d].fsize <= |elf.file| && DataReadable(DynamicData(elf.file, elf.segments[d]), span)
  }

  /** `rs` are the relocations of the file: none without a dynamic segment, otherwise those its data
      describe, in the image as it is after copying. */
  ghost predicate RelocsAre(elf: Elf, span: AddressRange, image: seq<byte>, rs: seq<Reloc>) {
    && (NoDynamic(elf.segments) ==> rs == [])
    && forall d :: FirstDynamic(elf.segments, d) ==>
         elf.segments[d].offset + elf.segments[d].fsize <= |elf.file| && DataRelocs(DynamicData(elf.file, elf.segments[d]), span, image, rs)
  }

  lemma FromDataExactly(data: seq<byte>, span: AddressRange, image: seq<byte>)
    requires span.Size() <= |image|
    ensures FromData(data, span, image).Ok? <==> DataReadable(data, span)
    ensures FromData(data, span, image).Ok? ==> DataRelocs(data, span, image, FromData(data, span, image).value)
  {
    TagFound(data, 7);
    TagFound(data, 8);
    TagFound(data, 9);
    if SomeTagMissing(data) {
      forall rela, total, entry | TagIs(data, 7, rela) && TagIs(data, 8, total) && TagIs(data, 9, entry) ensures false {
        TagValueUnique(data, 7, rela, rela);
        TagValueUnique(data, 8, total, total);
        TagValueUnique(data, 9, entry, entry);
      }
    } else {
      var rela, total, entry := FindTag(data, 7).value, FindTag(data, 8).value, FindTag(data, 9).value;
      ReadTableExactly(span, image, rela, total, entry);
      OnlyTags(data, rela, total, entry);
    }
  }

  lemma OnlyTags(data: seq<byte>, rela: nat, total: nat, entry: nat)
    requires TagIs(data, 7, rela) && TagIs(data, 8, total) && TagIs(data, 9, entry)
    ensures forall a, t, e :: TagIs(data, 7, a) && TagIs(data, 8, t) && TagIs(data, 9, e) ==> a == rela && t == total && e == entry
  {
    forall a, t, e | TagIs(data, 7, a) && TagIs(data, 8, t) && TagIs(data, 9, e) ensures a == rela && t == total && e == entry {
      TagValueUnique(data, 7, a, rela);
      TagValueUnique(data, 8, t, total);
      TagValueUnique(data, 9, e, entry);
    }
  }

  lemma ReadTableExactly(span: AddressRange, image: seq<byte>, rela: nat, total: nat, entry: nat)
    requires span.Size() <= |image|
    ensures ReadTable(span, image, rela, total, entry).Ok? <==> TableReadable(span, rela, total, entry)
    ensures ReadTable(span, image, rela, total, entry).Ok? ==>
              TableIs(span, image, rela, total, entry, ReadTable(span, image, rela, total, entry).value)
  {
    RangeInside(FromStartAndSize(rela, total), span);
    if entry > 0 && FromStartAndSize(rela, total).ToRangeIn(span).Ok? {
      ChunksFit(total, entry);
      RelocTableExactly(image, rela - span.start, entry, total / entry);
    }
  }

  /** `load` can read the relocations exactly if they are readable, and then it reads them. */
  lemma RelocationsExactly(elf: Elf, span: AddressRange, image: seq<byte>)
    requires span.Size() <= |image|
    ensures Relocations(elf, span, image).Ok? <==> Readable(elf, span)
    ensures Relocations(elf, span, image).Ok? ==> RelocsAre(elf, span, image, Relocations(elf, span, image).value)
  {
    var d := FindDynamicExactly(elf.segments);
    if FindDynamic(elf.segments).Some? {
      WithDynamic(elf, span, image, d);
    } else {
      WithoutDynamic(elf, span, image);
    }
  }

  lemma WithoutDynamic(elf: Elf, span: AddressRange, image: seq<byte>)
    requires NoDynamic(elf.segments)
    ensures Readable(elf, span) && RelocsAre(elf, span, image, [])
  {
    assert forall d :: !FirstDynamic(elf.segments, d);
  }

  lemma WithDynamic(elf: Elf, span: AddressRange, image: seq<byte>, d: int)
    requires span.Size() <= |image| && FirstDynamic(elf.segments, d)
    ensures var s := elf.segments[d];
            var r := if s.offset + s.fsize > |elf.file| then Err else FromData(DynamicData(elf.file, s), span, image);
            (r.Ok? <==> Readable(elf, span)) && (r.Ok? ==> RelocsAre(elf, span, image, r.value))
  {
    ReadableAt(elf, span, d);
    var s := elf.segments[d];
    if s.offset + s.fsize <= |elf.file| {
      var data := DynamicData(elf.file, s);
      FromDataExactly(data, span, image);
      if FromData(data, span, image).Ok? {
        RelocsAt(elf, span, image, FromData(data, span, image).value, d);
      }
    }
  }

  lemma ReadableAt(elf: Elf, span: AddressRange, d: int)
    requires FirstDynamic(elf.segments, d)
    ensures Readable(elf, span) <==>
            elf.segments[d].offset + elf.segments[d].fsize <= |elf.file| && DataReadable(DynamicData(elf.file, elf.segments[d]), span)
  {
    assert forall d' :: FirstDynamic(elf.segments, d') ==> d' == d;
  }

  lemma RelocsAt(elf: Elf, span: AddressRange, image: seq<byte>, rs: seq<Reloc>, d: int)
    requires FirstDynamic(elf.segments, d)
    ensures RelocsAre(elf, span, image, rs) <==>
            elf.segments[d].offset + elf.segments[d].fsize <= |elf.file| && DataRelocs(DynamicData(elf.file, elf.segments[d]), span, image, rs)
  {
    assert forall d' :: FirstDynamic(elf.segments, d') ==> d' == d;
  }

  /** There is only one such list. */
  lemma RelocsUnique(elf: Elf, span: AddressRange, image: seq<byte>, rs: seq<Reloc>, rs': seq<Reloc>)
    requires RelocsAre(elf, span, image, rs) && RelocsAre(elf, span, image, rs')
    ensures rs == rs'
  {
    var d := FindDynamicExactly(elf.segments);
    if FindDynamic(elf.segments).Some? {
      var data := DynamicData(elf.file, elf.segments[d]);
      RelocsAt(elf, span, image, rs, d);
      RelocsAt(elf, span, image, rs', d);
      if !SomeTagMissing(data) {
        TagFound(data, 7);
        TagFound(data, 8);
        TagFound(data, 9);
        var rela, total, entry := FindTag(data, 7).value, FindTag(data, 8).value, FindTag(data, 9).value;
        SameTable(span, image, rela, total, entry, rs, rs');
      }
    }
  }

  lemma SameTable(span: AddressRange, image: seq<byte>, rela: nat, total: nat, entry: nat, rs: seq<Reloc>, rs': seq<Reloc>)
    requires TableIs(span, image, rela, total, entry, rs) && TableIs(span, image, rela, total, entry, rs')
    ensures rs == rs'
  {
    forall k | 0 <= k < |rs| ensures rs[k] == rs'[k] {
      assert RelocAt(image, rela - span.start + entry * k, rs[k]) && RelocAt(image, rela - span.start + entry * k, rs'[k]);
    }
  }
}
