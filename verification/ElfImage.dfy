/** What a loaded image holds, byte by byte. */
module ElfImage {
  import opened Common
  import opened LittleEndian
  import opened Elf
  import opened ElfRelocs

  /** The stages of a successful `load`: the writes of the segments, the image they leave, the
      relocations found in it, their writes, and the result. */
  datatype Stages = Stages(
    file: seq<byte>, segments: seq<SegmentHeader>, span: AddressRange, regionStart: nat,
    segmentWrites: seq<Write>, copied: seq<byte>, relocs: seq<Reloc>, relocWrites: seq<Write>, image: seq<byte>)

  ghost predicate CopyOk(p: Stages) {
    && p.span.Size() <= |p.copied|
    && CopiesFor(p.file, p.span, p.segments, p.segmentWrites)
    && AllFit(p.segmentWrites, |p.copied|)
    && p.copied == ApplyAll(Zeros(|p.copied|), p.segmentWrites)
  }

  ghost predicate RelocOk(p: Stages) {
    && p.span.Size() <= |p.copied|
    && WordsFor(p.segments, p.span, p.regionStart, p.relocs, p.relocWrites)
    && AllFit(p.relocWrites, |p.copied|)
    && p.image == ApplyAll(p.copied, p.relocWrites)
  }

  //
  // The writes
  //

  lemma {:induction false} SegmentWriteAt(file: seq<byte>, span: AddressRange, segments: seq<SegmentHeader>, i: nat)
    requires SegmentWrites(file, span, segments).Ok? && i < |segments|
    ensures |SegmentWrites(file, span, segments).value| == |segments|
    ensures CopyFor(file, span, segments[i], SegmentWrites(file, span, segments).value[i])
    decreases |segments|
  {
    SegmentWritesFit(file, span, segments);
    var front := segments[..|segments| - 1];
    if i < |front| {
      SegmentWriteAt(file, span, front, i);
    }
    SegmentWritesFit(file, span, front);
  }

  /** Write `w` puts the file bytes of segment `s` at its distance from the start of the span. */
  ghost predicate CopyFor(file: seq<byte>, span: AddressRange, s: SegmentHeader, w: Write) {
    && span.start <= s.vaddr && s.vaddr + s.vsize <= span.end && s.fsize <= s.vsize
    && s.offset + s.fsize <= |file|
    && w == Write(s.vaddr - span.start, file[s.offset..s.offset + s.fsize])
  }

  ghost predicate CopiesFor(file: seq<byte>, span: AddressRange, segments: seq<SegmentHeader>, ws: seq<Write>) {
    |ws| == |segments| && forall i {:trigger ws[i]} {:trigger segments[i]} :: 0 <= i < |segments| ==> CopyFor(file, span, segments[i], ws[i])
  }

  /** A segment can be copied exactly if its memory lies in the span, starting before its end, and its
      file bytes are in the file and no more than its memory. */
  ghost predicate Copyable(file: seq<byte>, span: AddressRange, s: SegmentHeader) {
    && span.start <= s.vaddr < span.end && s.vaddr + s.vsize <= span.end
    && s.offset + s.fsize <= |file| && s.fsize <= s.vsize
  }

  lemma {:induction false} SegmentWritesExactly(file: seq<byte>, span: AddressRange, segments: seq<SegmentHeader>)
    ensures SegmentWrites(file, span, segments).Ok? <==> forall i :: 0 <= i < |segments| ==> Copyable(file, span, segments[i])
    decreases |segments|
  {
    if segments != [] {
      var front, last := segments[..|segments| - 1], segments[|segments| - 1];
      SegmentWritesExactly(file, span, front);
      RangeInside(last.VaddrRange(), span);
      assert forall i :: 0 <= i < |segments| ==> segments[i] == if i < |front| then front[i] else last;
    }
  }

  lemma SegmentCopies(file: seq<byte>, span: AddressRange, segments: seq<SegmentHeader>, ws: seq<Write>)
    requires SegmentWrites(file, span, segments) == Ok(ws)
    ensures CopiesFor(file, span, segments, ws)
  {
    SegmentWritesFit(file, span, segments);
    forall i | 0 <= i < |segments| ensures CopyFor(file, span, segments[i], ws[i]) {
      SegmentWriteAt(file, span, segments, i);
    }
  }

  /** Some loaded segment contains the address. */
  ghost predicate InSegments(segments: seq<SegmentHeader>, vaddr: nat) {
    exists i :: 0 <= i < |segments| && segments[i].VaddrRange().Contains(vaddr)
  }

  /** What is known of a relocation that was carried out. */
  ghost predicate Relocated(segments: seq<SegmentHeader>, span: AddressRange, regionStart: nat, r: Reloc) {
    && r.info % 0x1_0000_0000 == 8
    && InSegments(segments, r.addend)
    && span.start <= r.address && r.address + 8 <= span.end
    && span.start <= r.addend < span.end
    && regionStart + (r.addend - span.start) < U64
  }

  /** The word of a relocation and its place in the image. */
  function WordOf(span: AddressRange, regionStart: nat, r: Reloc): Write
    requires span.start <= r.address && span.start <= r.addend && regionStart + (r.addend - span.start) < U64
  {
    Write(r.address - span.start, Le64(regionStart + (r.addend - span.start)))
  }

  /** A relocation is carried out exactly if it is of the relative type, its addend lies in a loaded
      segment, its word lies in the span and the value is a 64-bit number. */
  lemma OneReloc(segments: seq<SegmentHeader>, span: AddressRange, regionStart: nat, r: Reloc)
    ensures RelocWrite(segments, span, regionStart, r).Ok? <==> Relocated(segments, span, regionStart, r)
    ensures RelocWrite(segments, span, regionStart, r).Ok? ==> RelocWrite(segments, span, regionStart, r).value == WordOf(span, regionStart, r)
  {
    RangeInside(FromStartAndSize(r.address, 8), span);
  }

  lemma {:induction false} RelocWriteAt(segments: seq<SegmentHeader>, span: AddressRange, regionStart: nat, rs: seq<Reloc>, j: nat)
    requires RelocWrites(segments, span, regionStart, rs).Ok? && j < |rs|
    ensures |RelocWrites(segments, span, regionStart, rs).value| == |rs|
    ensures Relocated(segments, span, regionStart, rs[j])
    ensures RelocWrites(segments, span, regionStart, rs).value[j] == WordOf(span, regionStart, rs[j])
    decreases |rs|
  {
    RelocWritesFit(segments, span, regionStart, rs);
    var front, last := rs[..|rs| - 1], rs[|rs| - 1];
    RelocWritesFit(segments, span, regionStart, front);
    if j < |front| {
      RelocWriteAt(segments, span, regionStart, front, j);
    } else {
      OneReloc(segments, span, regionStart, last);
    }
  }

  /** Write `w` carries out relocation `r`. */
  ghost predicate WordFor(segments: seq<SegmentHeader>, span: AddressRange, regionStart: nat, r: Reloc, w: Write) {
    Relocated(segments, span, regionStart, r) && w == WordOf(span, regionStart, r)
  }

  ghost predicate WordsFor(segments: seq<SegmentHeader>, span: AddressRange, regionStart: nat, rs: seq<Reloc>, ws: seq<Write>) {
    |ws| == |rs| && forall j {:trigger ws[j]} {:trigger rs[j]} :: 0 <= j < |rs| ==> WordFor(segments, span, regionStart, rs[j], ws[j])
  }

  lemma {:induction false} RelocWritesExactly(segments: seq<SegmentHeader>, span: AddressRange, regionStart: nat, rs: seq<Reloc>)
    ensures RelocWrites(segments, span, regionStart, rs).Ok? <==> forall j :: 0 <= j < |rs| ==> Relocated(segments, span, regionStart, rs[j])
    decreases |rs|
  {
    if rs != [] {
      var front, last := rs[..|rs| - 1], rs[|rs| - 1];
      RelocWritesExactly(segments, span, regionStart, front);
      OneReloc(segments, span, regionStart, last);
      assert forall j :: 0 <= j < |rs| ==> rs[j] == if j < |front| then front[j] else last;
    }
  }

  lemma RelocWords(segments: seq<SegmentHeader>, span: AddressRange, regionStart: nat, rs: seq<Reloc>, ws: seq<Write>)
    requires RelocWrites(segments, span, regionStart, rs) == Ok(ws)
    ensures WordsFor(segments, span, regionStart, rs, ws)
  {
    RelocWritesFit(segments, span, regionStart, rs);
    forall j | 0 <= j < |rs| ensures WordFor(segments, span, regionStart, rs[j], ws[j]) {
      RelocWriteAt(segments, span, regionStart, rs, j);
    }
  }

  //
  // What lies at an address
  //

  /** The segments' file bytes do not overlap in memory. */
  ghost predicate SegmentsApart(segments: seq<SegmentHeader>) {
    forall i, j {:trigger FilesApart(segments[i], segments[j])} :: 0 <= i < j < |segments| ==> FilesApart(segments[i], segments[j])
  }

  ghost predicate FilesApart(s: SegmentHeader, t: SegmentHeader) {
    s.vaddr + s.fsize <= t.vaddr || t.vaddr + t.fsize <= s.vaddr
  }

  /** No two relocated words overlap. */
  ghost predicate RelocsApart(rs: seq<Reloc>) {
    forall i, j {:trigger WordsApart(rs[i], rs[j])} :: 0 <= i < j < |rs| ==> WordsApart(rs[i], rs[j])
  }

  ghost predicate WordsApart(r: Reloc, q: Reloc) {
    r.address + 8 <= q.address || q.address + 8 <= r.address
  }

  predicate InFileBytes(s: SegmentHeader, vaddr: nat) {
    s.vaddr <= vaddr < s.vaddr + s.fsize
  }

  ghost predicate InWord(r: Reloc, vaddr: nat) {
    r.address <= vaddr < r.address + 8
  }

  ghost predicate InNoSegment(segments: seq<SegmentHeader>, vaddr: nat) {
    forall i :: 0 <= i < |segments| ==> !InFileBytes(segments[i], vaddr)
  }

  ghost predicate Unrelocated(rs: seq<Reloc>, vaddr: nat) {
    forall j :: 0 <= j < |rs| ==> !InWord(rs[j], vaddr)
  }

  /** The byte of the file that belongs at `vaddr`. */
  function FileByte(file: seq<byte>, s: SegmentHeader, vaddr: nat): byte
    requires InFileBytes(s, vaddr) && s.offset + s.fsize <= |file|
  {
    file[s.offset..s.offset + s.fsize][vaddr - s.vaddr]
  }

  /** Copying puts each file byte of a segment at its distance from the start of the span. */
  lemma CopiedFileByte(p: Stages, vaddr: nat, i: nat)
    requires CopyOk(p) && SegmentsApart(p.segments) && i < |p.segments| && InFileBytes(p.segments[i], vaddr)
    ensures p.span.Contains(vaddr) && p.segments[i].offset + p.segments[i].fsize <= |p.file|
    ensures p.copied[vaddr - p.span.start] == FileByte(p.file, p.segments[i], vaddr)
  {
    var ws, o := p.segmentWrites, vaddr - p.span.start;
    assert CopyFor(p.file, p.span, p.segments[i], ws[i]);
    forall j | i < j < |ws| ensures !ws[j].Covers(o) {
      assert FilesApart(p.segments[i], p.segments[j]);
      assert CopyFor(p.file, p.span, p.segments[j], ws[j]);
    }
    LastWriteWins(Zeros(|p.copied|), ws, i, o);
  }

  /** Everything else stays zero. */
  lemma CopiedZero(p: Stages, o: nat)
    requires CopyOk(p) && o < |p.copied| && InNoSegment(p.segments, p.span.start + o)
    ensures p.copied[o] == 0
  {
    var ws, vaddr := p.segmentWrites, p.span.start + o;
    forall j | 0 <= j < |ws| ensures !ws[j].Covers(o) {
      assert !InFileBytes(p.segments[j], vaddr);
      assert CopyFor(p.file, p.span, p.segments[j], ws[j]);
    }
    UnwrittenStays(Zeros(|p.copied|), ws, o);
  }

  /** A byte outside every relocated word is what copying left there. */
  lemma UnrelocatedByte(p: Stages, o: nat)
    requires RelocOk(p) && o < |p.copied| && Unrelocated(p.relocs, p.span.start + o)
    ensures p.image[o] == p.copied[o]
  {
    var ws, vaddr := p.relocWrites, p.span.start + o;
    forall j | 0 <= j < |ws| ensures !ws[j].Covers(o) {
      assert !InWord(p.relocs[j], vaddr);
      assert WordFor(p.segments, p.span, p.regionStart, p.relocs[j], ws[j]);
    }
    UnwrittenStays(p.copied, ws, o);
  }

  /** No later write touches what write `j` has written. */
  ghost predicate LastThere(ws: seq<Write>, j: nat)
    requires j < |ws|
  {
    forall m :: j < m < |ws| ==> ws[m].at + |ws[m].bytes| <= ws[j].at || ws[j].at + |ws[j].bytes| <= ws[m].at
  }

  lemma WordByte(image: seq<byte>, ws: seq<Write>, j: nat, k: nat)
    requires AllFit(ws, |image|) && j < |ws| && LastThere(ws, j) && k < |ws[j].bytes|
    ensures ws[j].Fits(|image|) && ApplyAll(image, ws)[ws[j].at + k] == ws[j].bytes[k]
  {
    assert ws[j].Fits(|image|);
    var o := ws[j].at + k;
    forall m | j < m < |ws| ensures !ws[m].Covers(o) {}
    LastWriteWins(image, ws, j, o);
  }

  lemma WordStays(image: seq<byte>, ws: seq<Write>, j: nat, word: Write, image': seq<byte>)
    requires AllFit(ws, |image|) && j < |ws| && LastThere(ws, j) && word == ws[j] && image' == ApplyAll(image, ws)
    ensures word.Fits(|image'|) && image'[word.at..word.at + |word.bytes|] == word.bytes
  {
    assert ws[j].Fits(|image|);
    var got := image'[word.at..word.at + |word.bytes|];
    forall k | 0 <= k < |got| ensures got[k] == word.bytes[k] {
      WordByte(image, ws, j, k);
      assert got[k] == image'[word.at + k];
    }
  }

  lemma RelocsLastThere(segments: seq<SegmentHeader>, span: AddressRange, regionStart: nat, rs: seq<Reloc>, ws: seq<Write>, j: nat)
    requires WordsFor(segments, span, regionStart, rs, ws) && RelocsApart(rs) && j < |rs|
    ensures LastThere(ws, j)
  {
    assert WordFor(segments, span, regionStart, rs[j], ws[j]);
    forall m | j < m < |ws|
      ensures ws[m].at + |ws[m].bytes| <= ws[j].at || ws[j].at + |ws[j].bytes| <= ws[m].at
    {
      assert WordsApart(rs[j], rs[m]);
      assert WordFor(segments, span, regionStart, rs[m], ws[m]);
    }
  }

  lemma StagesFit(p: Stages)
    requires RelocOk(p)
    ensures |p.image| == |p.copied|
  {
  }

  /** Each relocated word holds the address at which the byte named by its addend now lies. */
  lemma RelocatedWord(p: Stages, j: nat)
    requires RelocOk(p) && RelocsApart(p.relocs) && j < |p.relocs|
    ensures Relocated(p.segments, p.span, p.regionStart, p.relocs[j]) && |p.image| == |p.copied|
    ensures FromLe64(p.image, p.relocs[j].address - p.span.start) == p.regionStart + (p.relocs[j].addend - p.span.start)
  {
    assert WordFor(p.segments, p.span, p.regionStart, p.relocs[j], p.relocWrites[j]);
    RelocsLastThere(p.segments, p.span, p.regionStart, p.relocs, p.relocWrites, j);
    var r := p.relocs[j];
    StoredWord(p.copied, p.relocWrites, j, p.image, r.address - p.span.start, p.regionStart + (r.addend - p.span.start));
  }

  lemma StoredWord(base: seq<byte>, ws: seq<Write>, j: nat, image: seq<byte>, at: nat, value: nat)
    requires AllFit(ws, |base|) && j < |ws| && LastThere(ws, j) && image == ApplyAll(base, ws)
    requires value < U64 && ws[j] == Write(at, Le64(value))
    ensures at + 8 <= |image| && FromLe64(image, at) == value
  {
    WordStays(base, ws, j, ws[j], image);
    WordReads(image, at, value);
  }

  //
  // The theorem
  //

  ghost predicate WordOk(l: Loaded, r: Reloc) {
    && Relocated(l.segments, l.span, l.regionStart, r)
    && l.span.Size() <= |l.image|
    && FromLe64(l.image, r.address - l.span.start) == l.regionStart + (r.addend - l.span.start)
  }

  ghost predicate FileByteOk(file: seq<byte>, l: Loaded, s: SegmentHeader, vaddr: nat)
    requires InFileBytes(s, vaddr) && l.span.Contains(vaddr) && l.span.Size() <= |l.image|
  {
    s.offset + s.fsize <= |file| && l.image[vaddr - l.span.start] == FileByte(file, s, vaddr)
  }

  ghost predicate WordsOk(l: Loaded, rs: seq<Reloc>) {
    forall j :: 0 <= j < |rs| ==> WordOk(l, rs[j])
  }

  ghost predicate FileBytesOk(file: seq<byte>, l: Loaded, rs: seq<Reloc>)
    requires l.span.Size() <= |l.image|
  {
    forall vaddr: nat, i :: l.span.Contains(vaddr) && Unrelocated(rs, vaddr) && 0 <= i < |l.segments| && InFileBytes(l.segments[i], vaddr)
                            ==> FileByteOk(file, l, l.segments[i], vaddr)
  }

  /** This goes for the whole image, beyond the end of the span too. */
  ghost predicate ZerosOk(l: Loaded, rs: seq<Reloc>) {
    forall o: nat :: o < |l.image| && Unrelocated(rs, l.span.start + o) && InNoSegment(l.segments, l.span.start + o)
                     ==> l.image[o] == 0
  }

  /** The whole image: relocated words, then file bytes, then zeros. */
  ghost predicate Faithful(file: seq<byte>, l: Loaded, rs: seq<Reloc>) {
    l.span.Size() <= |l.image| && WordsOk(l, rs) && FileBytesOk(file, l, rs) && ZerosOk(l, rs)
  }

  function Outcome(p: Stages): Loaded {
    Loaded(p.span, p.regionStart, p.image, p.segments)
  }

  lemma StagesWords(p: Stages)
    requires RelocOk(p) && RelocsApart(p.relocs)
    ensures WordsOk(Outcome(p), p.relocs)
  {
    forall j | 0 <= j < |p.relocs| ensures WordOk(Outcome(p), p.relocs[j]) {
      RelocatedWord(p, j);
    }
  }

  lemma StagesFileByte(p: Stages, vaddr: nat, i: nat)
    requires CopyOk(p) && RelocOk(p) && SegmentsApart(p.segments)
    requires p.span.Contains(vaddr) && Unrelocated(p.relocs, vaddr) && i < |p.segments| && InFileBytes(p.segments[i], vaddr)
    ensures p.span.Size() <= |p.image| && FileByteOk(p.file, Outcome(p), p.segments[i], vaddr)
  {
    CopiedFileByte(p, vaddr, i);
    UnrelocatedByte(p, vaddr - p.span.start);
  }

  lemma StagesFileBytes(p: Stages)
    requires CopyOk(p) && RelocOk(p) && SegmentsApart(p.segments)
    ensures p.span.Size() <= |p.image| && FileBytesOk(p.file, Outcome(p), p.relocs)
  {
    StagesFit(p);
    var l := Outcome(p);
    forall vaddr: nat, i | l.span.Contains(vaddr) && Unrelocated(p.relocs, vaddr) && 0 <= i < |l.segments| && InFileBytes(l.segments[i], vaddr)
      ensures FileByteOk(p.file, l, l.segments[i], vaddr)
    {
      StagesFileByte(p, vaddr, i);
    }
  }

  lemma StagesZeros(p: Stages)
    requires CopyOk(p) && RelocOk(p)
    ensures ZerosOk(Outcome(p), p.relocs)
  {
    StagesFit(p);
    var l := Outcome(p);
    forall o: nat | o < |l.image| && Unrelocated(p.relocs, l.span.start + o) && InNoSegment(l.segments, l.span.start + o)
      ensures l.image[o] == 0
    {
      CopiedZero(p, o);
      UnrelocatedByte(p, o);
    }
  }

  /** A successful `load` runs through stages that fit together; the relocations are those read from
      the copied image. */
  lemma LoadStages(elf: Elf, regionStart: nat) returns (p: Stages)
    requires Load(elf, regionStart).Ok?
    ensures CopyOk(p) && RelocOk(p)
    ensures Load(elf, regionStart).value == Outcome(p)
    ensures p.file == elf.file && p.segments == LoadSegments(elf.segments) && p.span == VaddrSpan(p.segments) && p.regionStart == regionStart
    ensures Relocations(elf, p.span, p.copied) == Ok(p.relocs) && RelocsAre(elf, p.span, p.copied, p.relocs)
    ensures p.span.Size() > 0 && |p.copied| == PagesFor(p.span.Size()) * PAGE
  {
    var segments := LoadSegments(elf.segments);
    var span := VaddrSpan(segments);
    SegmentWritesFit(elf.file, span, segments);
    var ws := SegmentWrites(elf.file, span, segments).value;
    SegmentCopies(elf.file, span, segments, ws);
    var copied := ApplyAll(Zeros(PagesFor(span.Size()) * PAGE), ws);
    var rs := Relocations(elf, span, copied).value;
    RelocationsExactly(elf, span, copied);
    RelocWritesFit(segments, span, regionStart, rs);
    var rws := RelocWrites(segments, span, regionStart, rs).value;
    RelocWords(segments, span, regionStart, rs, rws);
    p := Stages(elf.file, segments, span, regionStart, ws, copied, rs, rws, ApplyAll(copied, rws));
  }

  //
  // On the bytes of the file alone
  //

  /** The image after copying, of segments whose file bytes do not overlap. */
  ghost predicate CopyImage(file: seq<byte>, segments: seq<SegmentHeader>, span: AddressRange, copied: seq<byte>) {
    && span.Size() > 0 && |copied| == PagesFor(span.Size()) * PAGE
    && forall o: nat :: o < |copied| ==> CopiedByte(file, segments, span.start + o, copied[o])
  }

  ghost predicate CopiedByte(file: seq<byte>, segments: seq<SegmentHeader>, vaddr: nat, b: byte) {
    && (InNoSegment(segments, vaddr) ==> b == 0)
    && forall i :: 0 <= i < |segments| && InFileBytes(segments[i], vaddr) ==>
         segments[i].offset + segments[i].fsize <= |file| && b == FileByte(file, segments[i], vaddr)
  }

  /** A region of whole pages, and no page more than needed. */
  lemma PagesRoundUp(size: nat)
    ensures size <= PagesFor(size) * PAGE < size + 4096 && (PagesFor(size) * PAGE) % 4096 == 0
  {
  }

  lemma CopyUnique(file: seq<byte>, segments: seq<SegmentHeader>, span: AddressRange, a: seq<byte>, b: seq<byte>)
    requires CopyImage(file, segments, span, a) && CopyImage(file, segments, span, b)
    ensures a == b
  {
    forall o | 0 <= o < |a| ensures a[o] == b[o] {
      assert CopiedByte(file, segments, span.start + o, a[o]) && CopiedByte(file, segments, span.start + o, b[o]);
      if !InNoSegment(segments, span.start + o) {
        var i :| 0 <= i < |segments| && InFileBytes(segments[i], span.start + o);
      }
    }
  }

  lemma StagesCopy(p: Stages)
    requires CopyOk(p) && SegmentsApart(p.segments) && p.span.Size() > 0 && |p.copied| == PagesFor(p.span.Size()) * PAGE
    ensures CopyImage(p.file, p.segments, p.span, p.copied)
  {
    forall o: nat | o < |p.copied| ensures CopiedByte(p.file, p.segments, p.span.start + o, p.copied[o]) {
      var vaddr := p.span.start + o;
      if InNoSegment(p.segments, vaddr) {
        CopiedZero(p, o);
      } else {
        forall i | 0 <= i < |p.segments| && InFileBytes(p.segments[i], vaddr)
          ensures p.segments[i].offset + p.segments[i].fsize <= |p.file| && p.copied[o] == FileByte(p.file, p.segments[i], vaddr)
        {
          CopiedFileByte(p, vaddr, i);
        }
      }
    }
  }

  /** What `load` works on: the copied image and the relocations found in it. */
  lemma LoadReads(elf: Elf, regionStart: nat) returns (copied: seq<byte>, rs: seq<Reloc>)
    requires Load(elf, regionStart).Ok? && SegmentsApart(LoadSegments(elf.segments))
    ensures var segments := LoadSegments(elf.segments);
            CopyImage(elf.file, segments, VaddrSpan(segments), copied) && RelocsAre(elf, VaddrSpan(segments), copied, rs)
  {
    var p := LoadStages(elf, regionStart);
    StagesCopy(p);
    copied, rs := p.copied, p.relocs;
  }

  /** When `load` succeeds on segments that do not overlap, `copied` being the image after copying and
      `rs` the relocations the file asks for, which do not overlap either: the image holds each
      segment's file bytes at their distance from the start of the span, each relocated word the new
      address of its addend, and zero everywhere else. */
  lemma LoadIsFaithful(elf: Elf, regionStart: nat, copied: seq<byte>, rs: seq<Reloc>)
    requires Load(elf, regionStart).Ok? && SegmentsApart(LoadSegments(elf.segments))
    requires CopyImage(elf.file, LoadSegments(elf.segments), VaddrSpan(LoadSegments(elf.segments)), copied)
    requires RelocsAre(elf, VaddrSpan(LoadSegments(elf.segments)), copied, rs) && RelocsApart(rs)
    ensures Faithful(elf.file, Load(elf, regionStart).value, rs)
    ensures var l := Load(elf, regionStart).value;
            && l.segments == LoadSegments(elf.segments) && l.span == VaddrSpan(l.segments) && l.regionStart == regionStart
            && 0 < l.span.Size() <= |l.image| < l.span.Size() + 4096 && |l.image| % 4096 == 0
  {
    var p := LoadStages(elf, regionStart);
    PagesRoundUp(p.span.Size());
    StagesCopy(p);
    CopyUnique(elf.file, p.segments, p.span, copied, p.copied);
    RelocsUnique(elf, p.span, copied, rs, p.relocs);
    StagesFit(p);
    StagesWords(p);
    StagesFileBytes(p);
    StagesZeros(p);
  }

  /** What `load` needs: a segment of type 1, each of them copyable, and readable relocations. */
  ghost predicate Loadable(elf: Elf) {
    var segments := LoadSegments(elf.segments);
    && segments != []
    && (forall i :: 0 <= i < |segments| ==> Copyable(elf.file, VaddrSpan(segments), segments[i]))
    && Readable(elf, VaddrSpan(segments))
  }

  lemma LoadNeeds(elf: Elf, regionStart: nat)
    requires Load(elf, regionStart).Ok?
    ensures Loadable(elf)
  {
    var p := LoadStages(elf, regionStart);
    SegmentWritesExactly(elf.file, p.span, p.segments);
    RelocationsExactly(elf, p.span, p.copied);
  }

  /** `load` succeeds exactly if the file is loadable and every relocation can be carried out. */
  lemma LoadSucceedsExactly(elf: Elf, regionStart: nat, copied: seq<byte>, rs: seq<Reloc>)
    requires Loadable(elf) && SegmentsApart(LoadSegments(elf.segments))
    requires CopyImage(elf.file, LoadSegments(elf.segments), VaddrSpan(LoadSegments(elf.segments)), copied)
    requires RelocsAre(elf, VaddrSpan(LoadSegments(elf.segments)), copied, rs)
    ensures Load(elf, regionStart).Ok? <==>
            var segments := LoadSegments(elf.segments);
            forall j :: 0 <= j < |rs| ==> Relocated(segments, VaddrSpan(segments), regionStart, rs[j])
  {
    var segments := LoadSegments(elf.segments);
    var span := VaddrSpan(segments);
    SegmentWritesExactly(elf.file, span, segments);
    SegmentWritesFit(elf.file, span, segments);
    var ws := SegmentWrites(elf.file, span, segments).value;
    var made := ApplyAll(Zeros(PagesFor(span.Size()) * PAGE), ws);
    SegmentCopies(elf.file, span, segments, ws);
    RelocationsExactly(elf, span, made);
    var found := Relocations(elf, span, made).value;
    StagesCopy(Stages(elf.file, segments, span, regionStart, ws, made, found, [], made));
    CopyUnique(elf.file, segments, span, copied, made);
    RelocsUnique(elf, span, copied, rs, found);
    RelocWritesExactly(segments, span, regionStart, rs);
  }
}
