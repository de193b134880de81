/** The ELF writer: the packed lines, grouped under their segment lines,
    become an ELF32 executable for RISC-V (TIS ELF 1.2, Book I, "ELF
    Header" and "Program Header"): a 52-byte file header, one 32-byte
    PT_LOAD program header per segment, then every segment's bytes at a
    page-aligned file offset, with zeros between. */
module Elf {
  import opened Wrappers
  import opened Bits
  import opened Subv

  /** A segment as the writer collects it: its name, its base address and
      the parts of the instruction lines under it. */
  datatype LoadSegment = LoadSegment(name: string, addr: int, content: seq<Part>)

  /** The page size, the alignment of every segment's file offset. */
  const Align: int := 0x1000
  /** `e_ehsize`: the size of the file header, which is also `e_phoff`. */
  const HeaderSize: int := 0x34
  /** `e_phentsize`: the size of one program header. */
  const EntrySize: int := 0x20
  /** `\x7fELF`. */
  const Magic: seq<int> := [0x7f, 0x45, 0x4c, 0x46]

  // ---------------------------------------------------------------------
  // Collecting the segments
  // ---------------------------------------------------------------------

  /** A line the writer takes: a segment line with a base address, or an
      instruction line. */
  predicate Accepted(line: Line)
  {
    (line.body.SegmentBody? && line.body.segment.base.Some?) || line.body.InstrBody?
  }

  /** The number of segment lines. */
  function SegmentCount(lines: seq<Line>): nat
  {
    if lines == [] then 0
    else SegmentCount(lines[..|lines| - 1]) + (if lines[|lines| - 1].body.SegmentBody? then 1 else 0)
  }

  /** The parts of all instruction lines, in order. */
  function Instrs(lines: seq<Line>): seq<Part>
  {
    if lines == [] then []
    else
      var line := lines[|lines| - 1];
      Instrs(lines[..|lines| - 1]) + (if line.body.InstrBody? then line.body.instr else [])
  }

  /** The contents of all segments, in order. */
  function AllContent(segments: seq<LoadSegment>): seq<Part>
  {
    if segments == [] then [] else AllContent(segments[..|segments| - 1]) + segments[|segments| - 1].content
  }

  /** The first loop of the main block: a segment line opens a new
      segment, an instruction line adds its parts to the last segment
      opened, and anything else fails. */
  function Collect(lines: seq<Line>): (r: Result<seq<LoadSegment>>)
    ensures r.Ok? ==> |r.value| == SegmentCount(lines)
  {
    if lines == [] then Ok([])
    else
      var segments :- Collect(lines[..|lines| - 1]);
      var line := lines[|lines| - 1];
      match line.body
      case SegmentBody(seg) =>
        if seg.base.None? then Fail
        else Ok(segments + [LoadSegment(seg.name, seg.base.value, [])])
      case InstrBody(instr) =>
        if segments == [] then Fail
        else
          var last := segments[|segments| - 1];
          Ok(segments[..|segments| - 1] + [last.(content := last.content + instr)])
      case _ => Fail
  }

  lemma CollectFailSticks(lines: seq<Line>, n: nat)
    requires n <= |lines| && Collect(lines[..n]).Fail?
    ensures Collect(lines).Fail?
    decreases |lines| - n
  {
    if n < |lines| {
      assert lines[..n + 1][..n] == lines[..n];
      CollectFailSticks(lines, n + 1);
    } else {
      assert lines[..n] == lines;
    }
  }

  /** The collection succeeds exactly when every line is a segment line
      with a base or an instruction line, and the first line opens a
      segment. */
  lemma {:induction false} CollectAccepts(lines: seq<Line>)
    ensures Collect(lines).Ok? <==>
      (forall i :: 0 <= i < |lines| ==> Accepted(lines[i])) && (lines != [] ==> lines[0].body.SegmentBody?)
    ensures Collect(lines).Ok? && lines != [] ==> Collect(lines).value != []
  {
    if lines != [] {
      var n := |lines| - 1;
      var init := lines[..n];
      CollectAccepts(init);
      AllAcceptedSnoc(lines);
      CollectSnocOk(lines);
      if n == 0 {
        assert Collect(init) == Ok([]);
      } else {
        assert init[0] == lines[0];
      }
    }
  }

  lemma AllAcceptedSnoc(lines: seq<Line>)
    requires lines != []
    ensures var n := |lines| - 1;
      (forall i :: 0 <= i < |lines| ==> Accepted(lines[i])) <==>
      (forall i :: 0 <= i < n ==> Accepted(lines[..n][i])) && Accepted(lines[n])
  {
    var n := |lines| - 1;
    assert forall i :: 0 <= i < n ==> lines[..n][i] == lines[i];
  }

  /** One more line is collected when the lines before it are, it is
      accepted, and an instruction line has a segment to go into. */
  lemma CollectSnocOk(lines: seq<Line>)
    requires lines != []
    ensures var n := |lines| - 1;
      Collect(lines).Ok? <==>
        && Collect(lines[..n]).Ok? && Accepted(lines[n])
        && (lines[n].body.InstrBody? ==> Collect(lines[..n]).value != [])
    ensures Collect(lines).Ok? ==> Collect(lines).value != []
  {
  }

  /** Nothing is lost or reordered: the segments hold all instruction parts
      in input order, and there is one segment per segment line. */
  lemma {:induction false} CollectKeepsInstrs(lines: seq<Line>)
    requires Collect(lines).Ok?
    ensures AllContent(Collect(lines).value) == Instrs(lines)
    ensures |Collect(lines).value| == SegmentCount(lines)
  {
    if lines != [] {
      var n := |lines| - 1;
      var segments := Collect(lines[..n]).value;
      CollectKeepsInstrs(lines[..n]);
      var line := lines[n];
      if line.body.SegmentBody? {
        var s := segments + [LoadSegment(line.body.segment.name, line.body.segment.base.value, [])];
        assert s[..|s| - 1] == segments;
      } else {
        var m := |segments| - 1;
        var last := segments[m];
        var s := segments[..m] + [last.(content := last.content + line.body.instr)];
        assert s[..|s| - 1] == segments[..m];
        assert AllContent(segments) == AllContent(segments[..m]) + last.content;
      }
    }
  }

  // ---------------------------------------------------------------------
  // File layout
  // ---------------------------------------------------------------------

  /** `(1 + start // align) * align`: the first page boundary strictly
      after `start`. */
  function Offset(start: int): (r: int)
    ensures r % Align == 0
    ensures start < r <= start + Align
  {
    (1 + start / Align) * Align
  }

  /** The loop that places the segments: the first page after 0x1000,
      then each segment on the first page after the end of the one
      before. Returns the file offsets and the end of the last segment. */
  function Layout(segments: seq<LoadSegment>): (r: (seq<int>, int))
    ensures |r.0| == |segments|
  {
    if segments == [] then ([], Align)
    else
      var n := |segments| - 1;
      var before := Layout(segments[..n]);
      var offset := Offset(before.1);
      (before.0 + [offset], offset + |segments[n].content|)
  }

  /** The layout of the first segments is the start of the layout of all. */
  lemma {:induction false} LayoutPrefix(segments: seq<LoadSegment>, k: nat)
    requires k <= |segments|
    ensures Layout(segments[..k]).0 == Layout(segments).0[..k]
    decreases |segments| - k
  {
    if k < |segments| {
      var n := |segments| - 1;
      assert segments[..n][..k] == segments[..k];
      LayoutPrefix(segments[..n], k);
    } else {
      assert segments[..k] == segments;
    }
  }

  /** Every segment starts on a page boundary, the first at 0x2000, and the
      segments' file ranges are in order and never overlap: each ends
      before the next begins. */
  lemma {:induction false} LayoutSeparates(segments: seq<LoadSegment>)
    ensures var offsets := Layout(segments).0;
      && (forall k :: 0 <= k < |segments| ==> offsets[k] % Align == 0)
      && (segments != [] ==> offsets[0] == 2 * Align)
      && (forall k :: 0 <= k < |segments| ==> offsets[k] + |segments[k].content| <= Layout(segments).1)
      && (forall i, j :: 0 <= i < j < |segments| ==> offsets[i] + |segments[i].content| < offsets[j])
      && Align <= Layout(segments).1
  {
    if segments != [] {
      var n := |segments| - 1;
      var before := Layout(segments[..n]);
      LayoutSeparates(segments[..n]);
      assert forall k :: 0 <= k < n ==> segments[..n][k] == segments[k];
      if n == 0 {
        assert Offset(Align) == 2 * Align;
      }
    }
  }

  // ---------------------------------------------------------------------
  // Headers
  // ---------------------------------------------------------------------

  /** `num.to_bytes(size, byteorder='little')`: fails for a negative value
      or one that needs more than `size` bytes. */
  function ToBytes(num: int, size: nat): (r: Result<seq<int>>)
    ensures r.Ok? <==> 0 <= num < Pow2(8 * size)
    ensures r.Ok? ==> |r.value| == size && FromLittleEndian(r.value) == num
    ensures r.Ok? ==> forall k :: 0 <= k < size ==> 0 <= r.value[k] < 256
  {
    if 0 <= num < Pow2(8 * size) then
      LittleEndianLength(num, size);
      LittleEndianRoundTrip(num, size);
      Ok(LittleEndianBytes(num, size))
    else Fail
  }

  /** Where the i-th of a run of `wi(num, size)` calls starts writing. */
  function Start(fields: seq<(int, nat)>, i: nat): nat
    requires i <= |fields|
  {
    if i == 0 then 0 else Start(fields, i - 1) + fields[i - 1].1
  }

  /** `wi(num, size)` can write `num`. */
  predicate FitsBytes(num: int, size: nat)
  {
    0 <= num < Pow2(8 * size)
  }

  /** The first k of a run of `wi(num, size)` calls; the first value that
      does not fit fails the run. */
  function Emit(fields: seq<(int, nat)>, k: nat): (r: Result<seq<int>>)
    requires k <= |fields|
    ensures r.Ok? ==> |r.value| == Start(fields, k)
  {
    if k == 0 then Ok([])
    else
      var before :- Emit(fields, k - 1);
      var (num, size) := fields[k - 1];
      if FitsBytes(num, size) then
        LittleEndianLength(num, size);
        Ok(before + LittleEndianBytes(num, size))
      else Fail
  }

  /** A run of writes succeeds exactly when every value fits its size. */
  lemma {:induction false} EmitOk(fields: seq<(int, nat)>, k: nat)
    requires k <= |fields|
    ensures Emit(fields, k).Ok? <==> forall i :: 0 <= i < k ==> FitsBytes(fields[i].0, fields[i].1)
  {
    if k > 0 {
      EmitOk(fields, k - 1);
    }
  }

  /** One more write of a value that fits extends a run that succeeded. */
  lemma EmitExtend(fields: seq<(int, nat)>, k: nat)
    requires k < |fields| && Emit(fields, k).Ok?
    ensures Emit(fields, k + 1).Ok? <==> FitsBytes(fields[k].0, fields[k].1)
  {
  }

  lemma EmitFailSticks(fields: seq<(int, nat)>, j: nat, k: nat)
    requires j <= k <= |fields| && Emit(fields, j).Fail?
    ensures Emit(fields, k).Fail?
    decreases k - j
  {
    if j < k {
      EmitFailSticks(fields, j, k - 1);
    }
  }

  /** The slice of a concatenation that lies inside its second half. */
  lemma SliceOfAppend(a: seq<int>, b: seq<int>, i: int, j: int)
    requires |a| <= i <= j <= |a| + |b|
    ensures (a + b)[i..j] == b[i - |a|..j - |a|]
  {
  }

  /** The slice of a concatenation that lies inside its first half. */
  lemma SliceOfPrefix(a: seq<int>, b: seq<int>, i: int, j: int)
    requires 0 <= i <= j <= |a|
    ensures (a + b)[i..j] == a[i..j]
  {
  }

  /** Every value of a run of writes reads back from its place. */
  lemma {:induction false} EmitAt(fields: seq<(int, nat)>, k: nat, i: nat)
    requires k <= |fields| && i < k && Emit(fields, k).Ok?
    ensures Start(fields, i) + fields[i].1 <= |Emit(fields, k).value|
    ensures FromLittleEndian(Emit(fields, k).value[Start(fields, i)..Start(fields, i) + fields[i].1]) == fields[i].0
  {
    var before := Emit(fields, k - 1).value;
    var (num, size) := fields[k - 1];
    var bytes := LittleEndianBytes(num, size);
    assert Emit(fields, k).value == before + bytes;
    if i < k - 1 {
      EmitAt(fields, k - 1, i);
      SliceOfPrefix(before, bytes, Start(fields, i), Start(fields, i) + fields[i].1);
    } else {
      SliceOfAppend(before, bytes, Start(fields, i), Start(fields, i) + fields[i].1);
      assert bytes[..size] == bytes;
      LittleEndianRoundTrip(num, size);
    }
  }

  /** The base address of the first segment named `code`, the entry point. */
  function FirstCode(segments: seq<LoadSegment>): (r: Option<int>)
    ensures r.None? <==> forall k :: 0 <= k < |segments| ==> segments[k].name != "code"
    ensures r.Some? ==> exists k :: 0 <= k < |segments| && segments[k].name == "code" && segments[k].addr == r.value
                                  && forall j :: 0 <= j < k ==> segments[j].name != "code"
  {
    if segments == [] then None
    else if segments[0].name == "code" then Some(segments[0].addr)
    else
      var r := FirstCode(segments[1..]);
      assert forall k :: 1 <= k < |segments| ==> segments[1..][k - 1] == segments[k];
      r
  }

  /** The `wi` calls of `write_elf_header` after the magic number. */
  function HeaderFields(entry: int, count: int): (r: seq<(int, nat)>)
    ensures |r| == 15
  {
    seq(15, i requires 0 <= i < 15 => HeaderField(entry, count, i))
  }

  function HeaderField(entry: int, count: int, i: nat): (int, nat)
  {
    match i
    case 0 => (0x010101, 4)    // class 32-bit, data little-endian, version 1
    case 1 => (0, 8)           // padding of e_ident
    case 2 => (2, 2)           // e_type: ET_EXEC
    case 3 => (0xf3, 2)        // e_machine: RISC-V
    case 4 => (1, 4)           // e_version
    case 5 => (entry, 4)       // e_entry
    case 6 => (HeaderSize, 4)  // e_phoff
    case 7 => (0, 4)           // e_shoff
    case 8 => (4, 4)           // e_flags
    case 9 => (HeaderSize, 2)  // e_ehsize
    case 10 => (EntrySize, 2)  // e_phentsize
    case 11 => (count, 2)      // e_phnum
    case 12 => (0x28, 2)       // e_shentsize
    case 13 => (0, 2)          // e_shnum
    case _ => (0, 2)           // e_shstrndx
  }

  /** `write_elf_header`: fails without a `code` segment, or when the entry
      point or the number of segments does not fit its field. */
  function ElfHeader(segments: seq<LoadSegment>): (r: Result<seq<int>>)
  {
    match FirstCode(segments)
    case None => Fail
    case Some(entry) =>
      var fields :- Emit(HeaderFields(entry, |segments|), 15);
      Ok(Magic + fields)
  }

  /** The file header once the entry point is found: the magic bytes, then
      the fields, if they all fit. */
  lemma ElfHeaderOf(segments: seq<LoadSegment>, entry: int)
    requires FirstCode(segments) == Some(entry)
    ensures var e := Emit(HeaderFields(entry, |segments|), |HeaderFields(entry, |segments|)|);
      ElfHeader(segments) == if e.Ok? then Ok(Magic + e.value) else Fail
  {
  }

  /** The magic bytes written after `before`, then the fields emitted after
      them, make the file header, 52 bytes in all. */
  lemma ElfHeaderWritten(segments: seq<LoadSegment>, entry: int, n: int, before: seq<int>, base: seq<int>, out: seq<int>)
    requires FirstCode(segments) == Some(entry) && base == before + Magic
    requires var fields := HeaderFields(entry, |segments|);
      && Emit(fields, |fields|).Ok? && n == Start(fields, |fields|) && out == base + Emit(fields, |fields|).value
    ensures ElfHeader(segments).Ok? && out == before + ElfHeader(segments).value && |Magic| + n == HeaderSize
  {
    var fields := HeaderFields(entry, |segments|);
    var e := Emit(fields, |fields|).value;
    HeaderEnd(entry, |segments|);
    ElfHeaderOf(segments, entry);
    assert ElfHeader(segments) == Ok(Magic + e);
    assert out == before + (Magic + e);
  }

  /** The fields after the magic bytes end at byte 52. */
  lemma HeaderEnd(entry: int, count: int)
    ensures Start(HeaderFields(entry, count), 15) + |Magic| == HeaderSize
  {
    HeaderStarts(entry, count);
  }

  /** The fields of the file header that describe the layout. */
  lemma HeaderLayoutFields(entry: int, count: int)
    ensures var f := HeaderFields(entry, count);
      && f[5] == (entry, 4) && f[6] == (HeaderSize, 4) && f[9] == (HeaderSize, 2)
      && f[10] == (EntrySize, 2) && f[11] == (count, 2) && f[13] == (0, 2)
  {
  }

  /** The places of the fields of the file header after the magic number. */
  lemma HeaderStarts(entry: int, count: int)
    ensures var f := HeaderFields(entry, count);
      && Start(f, 0) == 0 && Start(f, 2) == 12 && Start(f, 3) == 14 && Start(f, 5) == 20
      && Start(f, 6) == 24 && Start(f, 9) == 36 && Start(f, 10) == 38 && Start(f, 11) == 40
      && Start(f, 13) == 44 && Start(f, 15) == 48
  {
    var f := HeaderFields(entry, count);
    assert Start(f, 1) == 4;
    assert Start(f, 2) == 12;
    assert Start(f, 3) == 14;
    assert Start(f, 4) == 16;
    assert Start(f, 5) == 20;
    assert Start(f, 6) == 24;
    assert Start(f, 7) == 28;
    assert Start(f, 8) == 32;
    assert Start(f, 9) == 36;
    assert Start(f, 10) == 38;
    assert Start(f, 11) == 40;
    assert Start(f, 12) == 42;
    assert Start(f, 13) == 44;
    assert Start(f, 14) == 46;
  }

  /** A 2- or 4-byte field holds exactly the numbers below 2^16 or 2^32. */
  lemma FitsWords(num: int, size: nat)
    requires size == 2 || size == 4
    ensures FitsBytes(num, size) <==> 0 <= num < if size == 2 then 0x1_0000 else 0x1_0000_0000
  {
    Pow2Of32();
  }

  /** Only the entry point and the number of segments can fail to fit
      their header fields. */
  lemma HeaderFieldFits(entry: int, count: int, i: nat)
    requires i < 15
    ensures var (num, size) := HeaderFields(entry, count)[i];
      FitsBytes(num, size) <==> (i == 5 ==> 0 <= entry < 0x1_0000_0000) && (i == 11 ==> 0 <= count < 0x1_0000)
  {
    var f := HeaderField(entry, count, i);
    assert HeaderFields(entry, count)[i] == f;
    if f.1 != 8 {
      FitsWords(f.0, f.1);
    }
  }

  /** The header fields can be written exactly when the entry point fits
      in 32 bits and the number of segments in 16. */
  lemma HeaderFieldsOk(entry: int, count: int)
    ensures Emit(HeaderFields(entry, count), 15).Ok? <==> 0 <= entry < 0x1_0000_0000 && 0 <= count < 0x1_0000
  {
    var f := HeaderFields(entry, count);
    EmitOk(f, 15);
    forall i | 0 <= i < 15
      ensures FitsBytes(f[i].0, f[i].1) <==> (i == 5 ==> 0 <= entry < 0x1_0000_0000) && (i == 11 ==> 0 <= count < 0x1_0000)
    {
      HeaderFieldFits(entry, count, i);
    }
    if !(0 <= entry < 0x1_0000_0000) {
      assert !FitsBytes(f[5].0, f[5].1);
    } else if !(0 <= count < 0x1_0000) {
      assert !FitsBytes(f[11].0, f[11].1);
    }
  }

  /** The file header can be written exactly when there is a `code`
      segment whose base fits in 32 bits and fewer than 2^16 segments. */
  lemma ElfHeaderOk(segments: seq<LoadSegment>)
    ensures ElfHeader(segments).Ok? <==>
      FirstCode(segments).Some? && 0 <= FirstCode(segments).value < 0x1_0000_0000 && |segments| < 0x1_0000
  {
    if FirstCode(segments).Some? {
      HeaderFieldsOk(FirstCode(segments).value, |segments|);
    }
  }

  /** The `size` bytes at `at` hold `v`, least significant first. */
  predicate ReadsAs(bytes: seq<int>, at: nat, size: nat, v: int)
  {
    at + size <= |bytes| && FromLittleEndian(bytes[at..at + size]) == v
  }

  /** The file header is 52 bytes and opens with the identification: the
      magic number; class 32-bit, data little-endian and version 1;
      `e_type` ET_EXEC (2); `e_machine` RISC-V (0xf3). */
  lemma ElfHeaderIdent(segments: seq<LoadSegment>)
    requires ElfHeader(segments).Ok?
    ensures var h := ElfHeader(segments).value;
      && |h| == HeaderSize && h[..4] == Magic && ReadsAs(h, 4, 4, 0x010101)
      && ReadsAs(h, 16, 2, 2) && ReadsAs(h, 18, 2, 0xf3)
  {
    var entry, count := FirstCode(segments).value, |segments|;
    var fields := HeaderFields(entry, count);
    var e := Emit(fields, 15).value;
    var h := ElfHeader(segments).value;
    assert h == Magic + e;
    HeaderStarts(entry, count);
    HeaderFieldAt(fields, e, h, 0, 4, 4, 0x010101);
    HeaderFieldAt(fields, e, h, 2, 16, 2, 2);
    HeaderFieldAt(fields, e, h, 3, 18, 2, 0xf3);
  }

  /** The rest of the file header: `e_entry` the base of the first `code`
      segment; `e_phoff` and `e_ehsize` the header's own size, so the
      program headers follow it; `e_phentsize` 32; `e_phnum` the number of
      segments; `e_shnum` 0. */
  lemma ElfHeaderLayout(segments: seq<LoadSegment>)
    requires ElfHeader(segments).Ok?
    ensures FirstCode(segments).Some?
    ensures var h := ElfHeader(segments).value;
      && ReadsAs(h, 24, 4, FirstCode(segments).value)
      && ReadsAs(h, 28, 4, HeaderSize) && ReadsAs(h, 40, 2, HeaderSize) && ReadsAs(h, 42, 2, EntrySize)
      && ReadsAs(h, 44, 2, |segments|) && ReadsAs(h, 48, 2, 0)
  {
    var entry, count := FirstCode(segments).value, |segments|;
    var fields := HeaderFields(entry, count);
    var e := Emit(fields, 15).value;
    var h := ElfHeader(segments).value;
    assert h == Magic + e;
    HeaderStarts(entry, count);
    HeaderLayoutFields(entry, count);
    assert ReadsAs(h, 24, 4, entry) by {
      HeaderFieldAt(fields, e, h, 5, 24, 4, entry);
    }
    assert ReadsAs(h, 28, 4, HeaderSize) by {
      HeaderFieldAt(fields, e, h, 6, 28, 4, HeaderSize);
    }
    assert ReadsAs(h, 40, 2, HeaderSize) by {
      HeaderFieldAt(fields, e, h, 9, 40, 2, HeaderSize);
    }
    assert ReadsAs(h, 42, 2, EntrySize) by {
      HeaderFieldAt(fields, e, h, 10, 42, 2, EntrySize);
    }
    assert ReadsAs(h, 44, 2, count) by {
      HeaderFieldAt(fields, e, h, 11, 44, 2, count);
    }
    assert ReadsAs(h, 48, 2, 0) by {
      HeaderFieldAt(fields, e, h, 13, 48, 2, 0);
    }
  }

  lemma HeaderFieldAt(fields: seq<(int, nat)>, e: seq<int>, h: seq<int>, i: nat, at: nat, size: nat, v: int)
    requires |fields| == 15 && i < 15 && Emit(fields, 15) == Ok(e) && h == Magic + e
    requires at == 4 + Start(fields, i) && fields[i] == (v, size)
    ensures ReadsAs(h, at, size, v)
  {
    EmitAt(fields, 15, i);
    SliceOfAppend(Magic, e, at, at + size);
  }

  /** `p_flags`: read and execute for `code`, read and write otherwise. */
  function Flags(name: string): int
  {
    if name == "code" then 5 else 6
  }

  /** The `wi` calls of `write_program_header`. */
  function ProgramFields(offset: int, addr: int, size: int, flags: int): (r: seq<(int, nat)>)
    ensures |r| == 8
  {
    seq(8, i requires 0 <= i < 8 => ProgramField(offset, addr, size, flags, i))
  }

  function ProgramField(offset: int, addr: int, size: int, flags: int, i: nat): (int, nat)
  {
    match i
    case 0 => (1, 4)        // p_type: PT_LOAD
    case 1 => (offset, 4)   // p_offset
    case 2 => (addr, 4)     // p_vaddr
    case 3 => (addr, 4)     // p_paddr
    case 4 => (size, 4)     // p_filesz
    case 5 => (size, 4)     // p_memsz
    case 6 => (flags, 4)    // p_flags
    case _ => (Align, 4)    // p_align
  }

  /** `write_program_header` for a segment whose predecessors end at
      `start`: fails when the file offset and the base address disagree
      modulo the page size, or a field does not fit in 32 bits. */
  function ProgramHeader(seg: LoadSegment, start: int): (r: Result<seq<int>>)
    ensures r.Ok? ==> |r.value| == EntrySize
  {
    var offset := Offset(start);
    if offset % Align != seg.addr % Align then Fail
    else
      var fields := ProgramFields(offset, seg.addr, |seg.content|, Flags(seg.name));
      ProgramSize(fields);
      Emit(fields, 8)
  }

  /** A program header is 32 bytes. */
  lemma ProgramSize(fields: seq<(int, nat)>)
    requires |fields| == 8 && forall i :: 0 <= i < 8 ==> fields[i].1 == 4
    ensures Start(fields, 8) == EntrySize
  {
    assert Start(fields, 1) == 4;
    assert Start(fields, 2) == 8;
    assert Start(fields, 3) == 12;
    assert Start(fields, 4) == 16;
    assert Start(fields, 5) == 20;
    assert Start(fields, 6) == 24;
    assert Start(fields, 7) == 28;
  }

  /** The fields of a program header are 4 bytes each. */
  lemma ProgramStarts(offset: int, addr: int, size: int, flags: int)
    ensures var f := ProgramFields(offset, addr, size, flags);
      forall i :: 0 <= i <= 8 ==> Start(f, i) == 4 * i
  {
    var f := ProgramFields(offset, addr, size, flags);
    assert Start(f, 1) == 4;
    assert Start(f, 2) == 8;
    assert Start(f, 3) == 12;
    assert Start(f, 4) == 16;
    assert Start(f, 5) == 20;
    assert Start(f, 6) == 24;
    assert Start(f, 7) == 28;
    assert Start(f, 8) == 32;
  }

  /** Every field of a program header is 4 bytes wide. */
  lemma ProgramFieldFits(offset: int, addr: int, size: int, flags: int, i: nat)
    requires i < 8 && 0 <= flags < 8
    ensures var (num, width) := ProgramFields(offset, addr, size, flags)[i];
      FitsBytes(num, width) <==> (i == 1 ==> 0 <= offset < 0x1_0000_0000) && (2 <= i <= 3 ==> 0 <= addr < 0x1_0000_0000)
                                 && (4 <= i <= 5 ==> 0 <= size < 0x1_0000_0000)
  {
    var f := ProgramField(offset, addr, size, flags, i);
    assert ProgramFields(offset, addr, size, flags)[i] == f;
    FitsWords(f.0, f.1);
  }

  /** A program header can be written exactly when the base address is on
      a page boundary and the offset, the base and the size fit in 32
      bits. */
  lemma ProgramHeaderOk(seg: LoadSegment, start: int)
    ensures ProgramHeader(seg, start).Ok? <==>
      && seg.addr % Align == 0
      && 0 <= Offset(start) < 0x1_0000_0000 && 0 <= seg.addr < 0x1_0000_0000
      && |seg.content| < 0x1_0000_0000
  {
    var offset, addr, size := Offset(start), seg.addr, |seg.content|;
    var f := ProgramFields(offset, addr, size, Flags(seg.name));
    if offset % Align == addr % Align {
      assert addr % Align == 0;
      EmitOk(f, 8);
      forall i | 0 <= i < 8
        ensures FitsBytes(f[i].0, f[i].1) <==>
                  ((i == 1 ==> 0 <= offset < 0x1_0000_0000) && (2 <= i <= 3 ==> 0 <= addr < 0x1_0000_0000)
                   && (4 <= i <= 5 ==> 0 <= size < 0x1_0000_0000))
      {
        ProgramFieldFits(offset, addr, size, Flags(seg.name), i);
      }
      if !(0 <= offset < 0x1_0000_0000) {
        assert !FitsBytes(f[1].0, f[1].1);
      } else if !(0 <= addr < 0x1_0000_0000) {
        assert !FitsBytes(f[2].0, f[2].1);
      } else if !(0 <= size < 0x1_0000_0000) {
        assert !FitsBytes(f[4].0, f[4].1);
      }
    }
  }

  /** The program header of a segment: PT_LOAD (1), the file offset, the
      base as both virtual and physical address, the size as both file and
      memory size, the flags and the page alignment, 32 bytes in all. */
  lemma ProgramHeaderLayout(seg: LoadSegment, start: int)
    requires ProgramHeader(seg, start).Ok?
    ensures var p := ProgramHeader(seg, start).value;
      && |p| == EntrySize && ReadsAs(p, 0, 4, 1) && ReadsAs(p, 4, 4, Offset(start))
      && ReadsAs(p, 8, 4, seg.addr) && ReadsAs(p, 12, 4, seg.addr)
      && ReadsAs(p, 16, 4, |seg.content|) && ReadsAs(p, 20, 4, |seg.content|)
      && ReadsAs(p, 24, 4, Flags(seg.name)) && ReadsAs(p, 28, 4, Align)
  {
    var p := ProgramHeader(seg, start).value;
    assert Emit(ProgramFields(Offset(start), seg.addr, |seg.content|, Flags(seg.name)), 8) == Ok(p);
    ProgramFieldsLayout(Offset(start), seg.addr, |seg.content|, Flags(seg.name), p);
  }

  /** The eight emitted fields of a program header, word by word. */
  lemma ProgramFieldsLayout(offset: int, addr: int, size: int, flags: int, p: seq<int>)
    requires Emit(ProgramFields(offset, addr, size, flags), 8) == Ok(p)
    ensures && |p| == EntrySize && ReadsAs(p, 0, 4, 1) && ReadsAs(p, 4, 4, offset)
      && ReadsAs(p, 8, 4, addr) && ReadsAs(p, 12, 4, addr)
      && ReadsAs(p, 16, 4, size) && ReadsAs(p, 20, 4, size)
      && ReadsAs(p, 24, 4, flags) && ReadsAs(p, 28, 4, Align)
  {
    ProgramStarts(offset, addr, size, flags);
    assert ReadsAs(p, 0, 4, 1) by {
      ProgramFieldAt(offset, addr, size, flags, p, 0);
    }
    assert ReadsAs(p, 4, 4, offset) by {
      ProgramFieldAt(offset, addr, size, flags, p, 1);
    }
    assert ReadsAs(p, 8, 4, addr) by {
      ProgramFieldAt(offset, addr, size, flags, p, 2);
    }
    assert ReadsAs(p, 12, 4, addr) by {
      ProgramFieldAt(offset, addr, size, flags, p, 3);
    }
    assert ReadsAs(p, 16, 4, size) by {
      ProgramFieldAt(offset, addr, size, flags, p, 4);
    }
    assert ReadsAs(p, 20, 4, size) by {
      ProgramFieldAt(offset, addr, size, flags, p, 5);
    }
    assert ReadsAs(p, 24, 4, flags) by {
      ProgramFieldAt(offset, addr, size, flags, p, 6);
    }
    assert ReadsAs(p, 28, 4, Align) by {
      ProgramFieldAt(offset, addr, size, flags, p, 7);
    }
  }

  lemma ProgramFieldAt(offset: int, addr: int, size: int, flags: int, p: seq<int>, i: nat)
    requires i < 8 && Emit(ProgramFields(offset, addr, size, flags), 8) == Ok(p)
    requires Start(ProgramFields(offset, addr, size, flags), i) == 4 * i
    ensures ReadsAs(p, 4 * i, 4, ProgramField(offset, addr, size, flags, i).0)
  {
    var fields := ProgramFields(offset, addr, size, flags);
    var f := ProgramField(offset, addr, size, flags, i);
    assert fields[i] == f && f.1 == 4;
    EmitAt(fields, 8, i);
  }

  /** The table of the headers that `h` gives the segments, each segment
      placed after the ones before it. In `main`, `h` is
      `write_program_header`; the lemmas below hold for any such `h`. */
  function Table(h: (LoadSegment, int) -> Result<seq<int>>, segments: seq<LoadSegment>): Result<seq<int>>
  {
    if segments == [] then Ok([])
    else
      var n := |segments| - 1;
      var before :- Table(h, segments[..n]);
      var header :- HeaderOf(h, segments, n);
      Ok(before + header)
  }

  /** The header that `h` gives segment k, placed after the segments
      before it. */
  function HeaderOf(h: (LoadSegment, int) -> Result<seq<int>>, segments: seq<LoadSegment>, k: nat): Result<seq<int>>
    requires k < |segments|
  {
    h(segments[k], Layout(segments[..k]).1)
  }

  /** Every header `h` writes is 32 bytes. */
  ghost predicate EntrySized(h: (LoadSegment, int) -> Result<seq<int>>)
  {
    forall seg, start :: h(seg, start).Ok? ==> |h(seg, start).value| == EntrySize
  }

  /** The program headers of all segments. */
  function ProgramHeaders(segments: seq<LoadSegment>): (r: Result<seq<int>>)
    ensures r.Ok? ==> |r.value| == EntrySize * |segments|
  {
    TableLength(ProgramHeader, segments);
    Table(ProgramHeader, segments)
  }

  /** A table of 32-byte headers has 32 bytes per segment. */
  lemma {:induction false} TableLength(h: (LoadSegment, int) -> Result<seq<int>>, segments: seq<LoadSegment>)
    requires EntrySized(h)
    ensures Table(h, segments).Ok? ==> |Table(h, segments).value| == EntrySize * |segments|
  {
    if segments != [] {
      TableLength(h, segments[..|segments| - 1]);
    }
  }

  /** One more header extends the table of the segments before. */
  lemma TableSnoc(h: (LoadSegment, int) -> Result<seq<int>>, segments: seq<LoadSegment>, i: nat)
    requires i < |segments| && Table(h, segments[..i]).Ok?
    ensures var header := HeaderOf(h, segments, i);
      && (Table(h, segments[..i + 1]).Ok? <==> header.Ok?)
      && (header.Ok? ==> Table(h, segments[..i + 1]).value == Table(h, segments[..i]).value + header.value)
  {
    assert segments[..i + 1][..i] == segments[..i];
  }

  /** The table of the segments ends with the header of the last one. */
  lemma TableLast(h: (LoadSegment, int) -> Result<seq<int>>, segments: seq<LoadSegment>)
    requires segments != [] && Table(h, segments).Ok?
    ensures var n := |segments| - 1;
      && Table(h, segments[..n]).Ok? && HeaderOf(h, segments, n).Ok?
      && Table(h, segments).value == Table(h, segments[..n]).value + HeaderOf(h, segments, n).value
  {
  }

  /** Segment k gets the same header among the first n segments as among
      all of them. */
  lemma PrefixHeader(h: (LoadSegment, int) -> Result<seq<int>>, segments: seq<LoadSegment>, n: nat, k: nat)
    requires k < n <= |segments|
    ensures HeaderOf(h, segments[..n], k) == HeaderOf(h, segments, k)
  {
    assert segments[..n][k] == segments[k] && segments[..n][..k] == segments[..k];
  }

  /** The table can be written exactly when every segment's own header
      can, each placed after the segments before it. */
  lemma {:induction false} TableOk(h: (LoadSegment, int) -> Result<seq<int>>, segments: seq<LoadSegment>)
    ensures Table(h, segments).Ok? <==> forall k :: 0 <= k < |segments| ==> HeaderOf(h, segments, k).Ok?
  {
    if segments != [] {
      var n := |segments| - 1;
      var init := segments[..n];
      TableOk(h, init);
      assert Table(h, segments).Ok? <==> Table(h, init).Ok? && HeaderOf(h, segments, n).Ok?;
      assert (forall k :: 0 <= k < n ==> HeaderOf(h, init, k).Ok?) <==> (forall k :: 0 <= k < n ==> HeaderOf(h, segments, k).Ok?) by {
        forall k | 0 <= k < n
          ensures HeaderOf(h, init, k) == HeaderOf(h, segments, k)
        {
          PrefixHeader(h, segments, n, k);
        }
      }
    }
  }

  /** Header k sits 32 bytes per segment into the table. */
  lemma {:induction false} TableAt(h: (LoadSegment, int) -> Result<seq<int>>, segments: seq<LoadSegment>, k: nat)
    requires EntrySized(h) && Table(h, segments).Ok? && k < |segments|
    ensures |Table(h, segments).value| == EntrySize * |segments| && HeaderOf(h, segments, k).Ok?
    ensures Table(h, segments).value[EntrySize * k..EntrySize * (k + 1)] == HeaderOf(h, segments, k).value
  {
    var n := |segments| - 1;
    var init := segments[..n];
    TableLast(h, segments);
    TableLength(h, segments);
    TableLength(h, init);
    var before := Table(h, init).value;
    var header := HeaderOf(h, segments, n).value;
    if k < n {
      PrefixHeader(h, segments, n, k);
      TableAt(h, init, k);
      SliceOfPrefix(before, header, EntrySize * k, EntrySize * (k + 1));
    } else {
      SliceOfAppend(before, header, EntrySize * k, EntrySize * (k + 1));
      assert header[0..EntrySize] == header;
    }
  }

  /** The program header of segment k takes as offset the segment's
      place in the file layout. */
  lemma LayoutAt(segments: seq<LoadSegment>, k: nat)
    requires k < |segments|
    ensures Offset(Layout(segments[..k]).1) == Layout(segments).0[k]
  {
    var (offsets, end) := Layout(segments[..k]);
    assert Layout(segments[..k + 1]).0 == offsets + [Offset(end)] by {
      LayoutStep(segments, k);
    }
    assert Layout(segments[..k + 1]).0 == Layout(segments).0[..k + 1] by {
      LayoutPrefix(segments, k + 1);
    }
    assert Layout(segments).0[..k + 1][k] == Layout(segments).0[k];
  }

  /** The table is fixed by its slots: a sequence of 32 bytes per segment
      whose slot k holds the header of segment k is the table. */
  lemma TableOfSlots(h: (LoadSegment, int) -> Result<seq<int>>, segments: seq<LoadSegment>, table: seq<int>)
    requires EntrySized(h) && |table| == EntrySize * |segments|
    requires forall k :: 0 <= k < |segments| ==> HeaderOf(h, segments, k) == Ok(table[EntrySize * k..EntrySize * (k + 1)])
    ensures Table(h, segments) == Ok(table)
  {
    TableOk(h, segments);
    TableLength(h, segments);
    var t := Table(h, segments).value;
    forall k | 0 <= k < |segments|
      ensures t[EntrySize * k..EntrySize * (k + 1)] == table[EntrySize * k..EntrySize * (k + 1)]
    {
      TableAt(h, segments, k);
    }
    SlotsEqual(t, table, |segments|);
  }

  /** Two sequences of n slots of 32 bytes that agree slot by slot are
      equal. */
  lemma SlotsEqual(a: seq<int>, b: seq<int>, n: nat)
    requires |a| == |b| == EntrySize * n
    requires forall k :: 0 <= k < n ==> a[EntrySize * k..EntrySize * (k + 1)] == b[EntrySize * k..EntrySize * (k + 1)]
    ensures a == b
  {
    forall x | 0 <= x < |a|
      ensures a[x] == b[x]
    {
      var k := x / EntrySize;
      assert a[EntrySize * k..EntrySize * (k + 1)][x - EntrySize * k] == a[x];
      assert b[EntrySize * k..EntrySize * (k + 1)][x - EntrySize * k] == b[x];
    }
  }

  // ---------------------------------------------------------------------
  // Segment contents
  // ---------------------------------------------------------------------

  /** `wi(part[0], 1)`: a part that is a number in [0, 255] is that byte;
      anything else fails. */
  function PartByte(p: Part): (r: Result<int>)
    ensures r.Ok? <==> p.head.Num? && 0 <= p.head.n < 256
    ensures r.Ok? ==> 0 <= r.value < 256 && p == Part(Num(r.value), p.tags)
  {
    if p.head.Num? && 0 <= p.head.n < 256 then Ok(p.head.n) else Fail
  }

  function Zeros(n: nat): (r: seq<int>)
    ensures |r| == n && forall k :: 0 <= k < n ==> r[k] == 0
  {
    seq(n, _ => 0)
  }

  /** The last loop of the main block, from cursor `first`: pad with zeros
      up to each segment's offset, then write its bytes. Returns the bytes
      and the final cursor; fails when the cursor is already past an
      offset or a part is not a byte. */
  function Fill(segments: seq<LoadSegment>, offsets: seq<int>, first: int): (r: Result<(seq<int>, int)>)
    requires |offsets| == |segments|
    ensures r.Ok? ==> |r.value.0| == r.value.1 - first
  {
    if segments == [] then Ok(([], first))
    else
      var n := |segments| - 1;
      var before :- Fill(segments[..n], offsets[..n], first);
      if offsets[n] < before.1 then Fail
      else
        var bytes :- MapAll(PartByte, segments[n].content);
        Ok((before.0 + Zeros(offsets[n] - before.1) + bytes, offsets[n] + |bytes|))
  }

  /** Byte j of segment k lands at file offset `offsets[k] + j`. */
  lemma {:induction false} FillPlaces(segments: seq<LoadSegment>, offsets: seq<int>, first: int, k: nat, j: nat)
    requires |offsets| == |segments| && Fill(segments, offsets, first).Ok?
    requires k < |segments| && j < |segments[k].content|
    ensures 0 <= offsets[k] - first + j < |Fill(segments, offsets, first).value.0|
    ensures PartByte(segments[k].content[j]) == Ok(Fill(segments, offsets, first).value.0[offsets[k] - first + j])
  {
    var n := |segments| - 1;
    if k < n {
      FillLast(segments, offsets, first);
      assert segments[..n][k] == segments[k] && offsets[..n][k] == offsets[k];
      FillPlaces(segments[..n], offsets[..n], first, k, j);
      FillKeeps(segments, offsets, first, offsets[k] - first + j);
    } else {
      FillLastByte(segments, offsets, first, j);
    }
  }

  /** What was filled for the segments before the last is kept. */
  lemma FillLast(segments: seq<LoadSegment>, offsets: seq<int>, first: int)
    requires |offsets| == |segments| && segments != [] && Fill(segments, offsets, first).Ok?
    ensures var n := |segments| - 1;
      var before := Fill(segments[..n], offsets[..n], first);
      var body := Fill(segments, offsets, first).value.0;
      && before.Ok? && |before.value.0| <= |body|
      && body[..|before.value.0|] == before.value.0
  {
  }

  /** A byte filled for the segments before the last stays where it is. */
  lemma FillKeeps(segments: seq<LoadSegment>, offsets: seq<int>, first: int, x: int)
    requires |offsets| == |segments| && segments != [] && Fill(segments, offsets, first).Ok?
    requires var n := |segments| - 1;
      Fill(segments[..n], offsets[..n], first).Ok? && 0 <= x < |Fill(segments[..n], offsets[..n], first).value.0|
    ensures var n := |segments| - 1;
      var body := Fill(segments, offsets, first).value.0;
      x < |body| && body[x] == Fill(segments[..n], offsets[..n], first).value.0[x]
  {
    var n := |segments| - 1;
    var before := Fill(segments[..n], offsets[..n], first).value.0;
    var body := Fill(segments, offsets, first).value.0;
    FillLast(segments, offsets, first);
    assert body[..|before|][x] == body[x];
  }

  /** Byte j of the last segment lands at its offset plus j. */
  lemma FillLastByte(segments: seq<LoadSegment>, offsets: seq<int>, first: int, j: nat)
    requires |offsets| == |segments| && segments != [] && Fill(segments, offsets, first).Ok?
    requires j < |segments[|segments| - 1].content|
    ensures var n := |segments| - 1;
      var body := Fill(segments, offsets, first).value.0;
      0 <= offsets[n] - first + j < |body| && PartByte(segments[n].content[j]) == Ok(body[offsets[n] - first + j])
  {
    var n := |segments| - 1;
    var before := Fill(segments[..n], offsets[..n], first).value;
    var bytes := MapAll(PartByte, segments[n].content).value;
    var body := Fill(segments, offsets, first).value.0;
    var pad := Zeros(offsets[n] - before.1);
    assert body == before.0 + pad + bytes;
    assert |before.0| + |pad| + j == offsets[n] - first + j;
    assert body[offsets[n] - first + j] == bytes[j];
  }

  /** One more segment extends the bytes of the segments before it. */
  lemma FillStep(segments: seq<LoadSegment>, offsets: seq<int>, first: int, i: nat)
    requires |offsets| == |segments| && i < |segments|
    requires Fill(segments[..i], offsets[..i], first).Ok?
    ensures var before := Fill(segments[..i], offsets[..i], first).value;
      var bytes := MapAll(PartByte, segments[i].content);
      && (Fill(segments[..i + 1], offsets[..i + 1], first).Ok? <==> before.1 <= offsets[i] && bytes.Ok?)
      && (Fill(segments[..i + 1], offsets[..i + 1], first).Ok? ==>
            Fill(segments[..i + 1], offsets[..i + 1], first).value
            == (before.0 + Zeros(offsets[i] - before.1) + bytes.value, offsets[i] + |bytes.value|))
  {
    assert segments[..i + 1][..i] == segments[..i];
    assert offsets[..i + 1][..i] == offsets[..i];
  }

  /** The state of the main block's last loop after k segments: the
      writer has written the fill of the first k segments after `base`,
      and the cursor is at its end. */
  predicate Filled(segments: seq<LoadSegment>, offsets: seq<int>, first: int, k: nat, c: int,
                   base: seq<int>, out: seq<int>)
    requires |offsets| == |segments| && k <= |segments|
  {
    var f := Fill(segments[..k], offsets[..k], first);
    f.Ok? && out == base + f.value.0 && c == f.value.1
  }

  /** One more segment padded to its offset keeps the state of the loop. */
  lemma FilledStep(segments: seq<LoadSegment>, offsets: seq<int>, first: int, k: nat, c: int,
                   base: seq<int>, out: seq<int>, bytes: seq<int>)
    requires |offsets| == |segments| && k < |segments| && Filled(segments, offsets, first, k, c, base, out)
    requires c <= offsets[k] && MapAll(PartByte, segments[k].content) == Ok(bytes)
    ensures Filled(segments, offsets, first, k + 1, offsets[k] + |bytes|, base, out + Zeros(offsets[k] - c) + bytes)
  {
    FillStep(segments, offsets, first, k);
  }

  /** A segment that cannot be padded to its offset or has a part that is
      not a byte fails the whole fill. */
  lemma FilledFail(segments: seq<LoadSegment>, offsets: seq<int>, first: int, k: nat, c: int,
                   base: seq<int>, out: seq<int>)
    requires |offsets| == |segments| && k < |segments| && Filled(segments, offsets, first, k, c, base, out)
    requires !(c <= offsets[k] && MapAll(PartByte, segments[k].content).Ok?)
    ensures Fill(segments, offsets, first).Fail?
  {
    FillStep(segments, offsets, first, k);
    FillFailSticks(segments, offsets, first, k + 1);
  }

  /** After the last segment the writer has written the whole fill. */
  lemma FilledDone(segments: seq<LoadSegment>, offsets: seq<int>, first: int, c: int, base: seq<int>, out: seq<int>)
    requires |offsets| == |segments| && Filled(segments, offsets, first, |segments|, c, base, out)
    ensures Fill(segments, offsets, first).Ok?
    ensures out == base + Fill(segments, offsets, first).value.0 && c == Fill(segments, offsets, first).value.1
  {
    assert segments[..|segments|] == segments && offsets[..|segments|] == offsets;
  }

  lemma FillFailSticks(segments: seq<LoadSegment>, offsets: seq<int>, first: int, i: nat)
    requires |offsets| == |segments| && i <= |segments|
    requires Fill(segments[..i], offsets[..i], first).Fail?
    ensures Fill(segments, offsets, first).Fail?
    decreases |segments| - i
  {
    if i < |segments| {
      assert segments[..i + 1][..i] == segments[..i];
      assert offsets[..i + 1][..i] == offsets[..i];
      FillFailSticks(segments, offsets, first, i + 1);
    } else {
      assert segments[..i] == segments && offsets[..i] == offsets;
    }
  }

  /** Every part of every segment is a number in [0, 255]. */
  predicate AllBytes(segments: seq<LoadSegment>)
  {
    forall k, j :: 0 <= k < |segments| && 0 <= j < |segments[k].content| ==> PartByte(segments[k].content[j]).Ok?
  }

  /** With the offsets the layout chooses, the segments' bytes can be
      written exactly when the headers end by 0x2000, the first offset,
      and every part is a byte; the writing then ends where the layout
      says the last segment ends. */
  lemma {:induction false} FillOk(segments: seq<LoadSegment>, first: int)
    ensures var body := Fill(segments, Layout(segments).0, first);
      && (body.Ok? <==> (segments != [] ==> first <= 2 * Align) && AllBytes(segments))
      && (body.Ok? && segments != [] ==> body.value.1 == Layout(segments).1)
  {
    if segments != [] {
      var n := |segments| - 1;
      var init := segments[..n];
      var offsets := Layout(segments).0;
      var last := segments[n].content;
      FillOk(init, first);
      var before := Fill(init, Layout(init).0, first);
      assert offsets[..n] == Layout(init).0 && offsets[n] == Offset(Layout(init).1) by {
        assert Layout(segments).0 == Layout(init).0 + [Offset(Layout(init).1)];
      }
      assert before.Ok? ==> (offsets[n] < before.value.1 <==> first > 2 * Align) by {
        if n == 0 {
          assert Layout(init).1 == Align;
        }
      }
      AllBytesSnoc(segments);
      assert Fill(segments, offsets, first)
        == if before.Fail? || offsets[n] < before.value.1 then Fail
           else match MapAll(PartByte, last)
                case Fail => Fail
                case Ok(bytes) => Ok((before.value.0 + Zeros(offsets[n] - before.value.1) + bytes, offsets[n] + |bytes|));
    }
  }

  /** The parts of a non-empty list of segments are bytes when those of
      all but the last are and those of the last are. */
  lemma AllBytesSnoc(segments: seq<LoadSegment>)
    requires segments != []
    ensures var n := |segments| - 1;
      AllBytes(segments) <==> AllBytes(segments[..n]) && MapAll(PartByte, segments[n].content).Ok?
  {
    var n := |segments| - 1;
    var init := segments[..n];
    var last := segments[n].content;
    assert forall k :: 0 <= k < n ==> init[k] == segments[k];
    if AllBytes(segments) {
      assert forall j :: 0 <= j < |last| ==> PartByte(last[j]).Ok?;
    }
    if AllBytes(init) && MapAll(PartByte, last).Ok? {
      forall k, j | 0 <= k < |segments| && 0 <= j < |segments[k].content|
        ensures PartByte(segments[k].content[j]).Ok?
      {
        if k == n {
          assert PartByte(last[j]).Ok?;
        } else {
          assert segments[k] == init[k];
        }
      }
    }
  }

  /** `main`'s output for the collected segments: the file header, the
      program headers, then the segments' bytes. */
  function Image(segments: seq<LoadSegment>): (r: Result<seq<int>>)
  {
    var header :- ElfHeader(segments);
    var table :- ProgramHeaders(segments);
    Place(segments, header, table)
  }

  /** The headers followed by the segments' bytes, which start right after
      the headers. */
  function Place(segments: seq<LoadSegment>, header: seq<int>, table: seq<int>): (r: Result<seq<int>>)
  {
    var body :- Fill(segments, Layout(segments).0, |header| + |table|);
    Ok(header + table + body.0)
  }

  /** The image of segments whose headers can be written is those headers
      placed before the segments' bytes. */
  lemma ImagePlaces(segments: seq<LoadSegment>, header: seq<int>, table: seq<int>)
    requires ElfHeader(segments) == Ok(header) && ProgramHeaders(segments) == Ok(table)
    ensures Image(segments) == Place(segments, header, table)
  {
  }

  /** The image is the file header, then the program-header table, then
      the segments' bytes written from file offset 52 + 32 per segment; it
      fails when any of the three does. */
  lemma ImageSplits(segments: seq<LoadSegment>)
    ensures ElfHeader(segments).Fail? || ProgramHeaders(segments).Fail? ==> Image(segments).Fail?
    ensures ElfHeader(segments).Ok? && ProgramHeaders(segments).Ok? ==>
      var body := Fill(segments, Layout(segments).0, HeaderSize + EntrySize * |segments|);
      && (Image(segments).Ok? <==> body.Ok?)
      && (body.Ok? ==> Image(segments).value == ElfHeader(segments).value + ProgramHeaders(segments).value + body.value.0)
  {
    if ElfHeader(segments).Ok? && ProgramHeaders(segments).Ok? {
      var header, table := ElfHeader(segments).value, ProgramHeaders(segments).value;
      ImagePlaces(segments, header, table);
      ElfHeaderIdent(segments);
      assert |header| + |table| == HeaderSize + EntrySize * |segments|;
      PlaceSplits(segments, header, table);
    }
  }

  /** The headers are followed by the segments' bytes from the end of the
      headers on. */
  lemma PlaceSplits(segments: seq<LoadSegment>, header: seq<int>, table: seq<int>)
    ensures var body := Fill(segments, Layout(segments).0, |header| + |table|);
      Place(segments, header, table) == if body.Ok? then Ok(header + table + body.value.0) else Fail
  {
  }

  /** The image can be written exactly when the file header and the
      program headers can, the headers end by the first segment's offset
      0x2000 (at most 254 segments), and every part is a byte. */
  lemma ImageOk(segments: seq<LoadSegment>)
    ensures Image(segments).Ok? <==>
      && ElfHeader(segments).Ok? && ProgramHeaders(segments).Ok?
      && HeaderSize + EntrySize * |segments| <= 2 * Align && AllBytes(segments)
  {
    var header, table := ElfHeader(segments), ProgramHeaders(segments);
    if header.Ok? && table.Ok? {
      ImageWithHeaders(segments, header.value, table.value);
    }
  }

  lemma ImageWithHeaders(segments: seq<LoadSegment>, header: seq<int>, table: seq<int>)
    requires ElfHeader(segments) == Ok(header) && ProgramHeaders(segments) == Ok(table)
    ensures Image(segments).Ok? <==> HeaderSize + EntrySize * |segments| <= 2 * Align && AllBytes(segments)
  {
    ImagePlaces(segments, header, table);
    ElfHeaderIdent(segments);
    var first := |header| + |table|;
    assert first == HeaderSize + EntrySize * |segments|;
    ElfHeaderLayout(segments);
    assert segments != [];
    FillOk(segments, first);
    assert Place(segments, header, table).Ok? <==> Fill(segments, Layout(segments).0, first).Ok?;
  }

  /** Byte j of segment k is placed at `offsets[k] + j`: the bytes start
      right after the headers, at the offset the layout starts from. */
  lemma PlaceByte(segments: seq<LoadSegment>, header: seq<int>, table: seq<int>, k: nat, j: nat)
    requires Place(segments, header, table).Ok? && k < |segments| && j < |segments[k].content|
    ensures var image := Place(segments, header, table).value;
      0 <= Layout(segments).0[k] + j < |image| && PartByte(segments[k].content[j]) == Ok(image[Layout(segments).0[k] + j])
  {
    var first := |header| + |table|;
    var offsets := Layout(segments).0;
    var body := Fill(segments, offsets, first).value.0;
    assert Place(segments, header, table).value == (header + table) + body;
    FillPlaces(segments, offsets, first, k, j);
    ShiftedByte(header + table, body, offsets[k] - first + j, offsets[k] + j, PartByte(segments[k].content[j]));
  }

  /** A byte of the body keeps its value once the body follows a prefix. */
  lemma ShiftedByte(prefix: seq<int>, body: seq<int>, y: int, x: int, b: Result<int>)
    requires 0 <= y < |body| && x == |prefix| + y && b == Ok(body[y])
    ensures 0 <= x < |prefix + body| && b == Ok((prefix + body)[x])
  {
  }

  /** The image opens with the file header, then the program headers. */
  lemma ImageHeaders(segments: seq<LoadSegment>)
    requires Image(segments).Ok?
    ensures var image := Image(segments).value;
      && HeaderSize + EntrySize * |segments| <= |image|
      && image[..HeaderSize] == ElfHeader(segments).value
      && image[HeaderSize..HeaderSize + EntrySize * |segments|] == ProgramHeaders(segments).value
  {
    var header, table := ElfHeader(segments).value, ProgramHeaders(segments).value;
    ImagePlaces(segments, header, table);
    ElfHeaderIdent(segments);
    PlaceHeaders(segments, header, table);
  }

  lemma PlaceHeaders(segments: seq<LoadSegment>, header: seq<int>, table: seq<int>)
    requires Place(segments, header, table).Ok?
    ensures var image := Place(segments, header, table).value;
      && |header| + |table| <= |image| && image[..|header|] == header
      && image[|header|..|header| + |table|] == table
  {
    var body := Fill(segments, Layout(segments).0, |header| + |table|).value.0;
    assert Place(segments, header, table).value == header + table + body;
  }

  /** Byte j of segment k is at file offset `offsets[k] + j` of the image,
      where `offsets` is the layout the program headers record. */
  lemma ImageByte(segments: seq<LoadSegment>, k: nat, j: nat)
    requires Image(segments).Ok? && k < |segments| && j < |segments[k].content|
    ensures var image := Image(segments).value;
      0 <= Layout(segments).0[k] + j < |image| && PartByte(segments[k].content[j]) == Ok(image[Layout(segments).0[k] + j])
  {
    var header, table := ElfHeader(segments).value, ProgramHeaders(segments).value;
    ImagePlaces(segments, header, table);
    PlaceByte(segments, header, table, k, j);
  }

  /** The whole writer on parsed lines. */
  function ElfOf(lines: seq<Line>): (r: Result<seq<int>>)
  {
    var segments :- Collect(lines);
    Image(segments)
  }

  /** The whole writer on the text of the lines. */
  function ElfFile(lines: seq<string>): (r: Result<seq<int>>)
  {
    var parsed :- ParseAll(lines);
    ElfOf(parsed)
  }

  /** The whole writer fails when a line does not parse or the lines do
      not collect into segments, and otherwise is the image of the
      segments. */
  lemma ElfFileSplits(texts: seq<string>)
    ensures ParseAll(texts).Fail? ==> ElfFile(texts).Fail?
    ensures ParseAll(texts).Ok? ==>
      var segments := Collect(ParseAll(texts).value);
      && (segments.Fail? ==> ElfFile(texts).Fail?)
      && (segments.Ok? ==> ElfFile(texts) == Image(segments.value))
  {
  }

  // ---------------------------------------------------------------------
  // The state of the writer's loops
  // ---------------------------------------------------------------------

  /** The state of the program-header loop after i segments: slot k of
      `table` holds the header `h` gives segment k, the cursor moved 32
      bytes per segment, and the offsets and `segment_start` are those of
      the layout of the first i segments. */
  predicate HeadersWritten(h: (LoadSegment, int) -> Result<seq<int>>, segments: seq<LoadSegment>, i: nat,
                          c0: int, c: int, offsets: seq<int>, start: int, base: seq<int>, table: seq<int>, out: seq<int>)
    requires i <= |segments|
  {
    match Layout(segments[..i])
    case (placed, end) =>
      && placed == offsets && end == start
      && |table| == EntrySize * i
      && (forall k {:trigger HeaderOf(h, segments, k)} :: 0 <= k < i ==>
            HeaderOf(h, segments, k) == Ok(table[EntrySize * k..EntrySize * (k + 1)]))
      && out == base + table
      && c == c0 + EntrySize * i
  }

  /** One turn of the program-header loop keeps its state. */
  lemma HeadersStep(h: (LoadSegment, int) -> Result<seq<int>>, segments: seq<LoadSegment>, i: nat,
                    c0: int, c: int, offsets: seq<int>, start: int, base: seq<int>, table: seq<int>, out: seq<int>,
                    header: seq<int>)
    requires i < |segments| && HeadersWritten(h, segments, i, c0, c, offsets, start, base, table, out)
    requires h(segments[i], start) == Ok(header) && |header| == EntrySize
    ensures var offset := Offset(start);
      HeadersWritten(h, segments, i + 1, c0, c + EntrySize, offsets + [offset], offset + |segments[i].content|,
                     base, table + header, out + header)
  {
    LayoutStep(segments, i);
    assert HeaderOf(h, segments, i) == Ok(header);
    TableStep(h, segments, i, table, header);
    assert out + header == base + (table + header);
  }

  /** When the program-header loop has seen every segment, its table is
      the table of program headers and its offsets are the layout. */
  lemma HeadersDone(segments: seq<LoadSegment>, c0: int, c: int, offsets: seq<int>, start: int,
                    base: seq<int>, table: seq<int>, out: seq<int>)
    requires HeadersWritten(ProgramHeader, segments, |segments|, c0, c, offsets, start, base, table, out)
    ensures ProgramHeaders(segments) == Ok(table) && out == base + table
    ensures offsets == Layout(segments).0 && c == c0 + EntrySize * |segments|
  {
    assert segments[..|segments|] == segments;
    TableOfSlots(ProgramHeader, segments, table);
  }

  /** One more program header placed after the table of the ones before. */
  lemma TableStep(h: (LoadSegment, int) -> Result<seq<int>>, segments: seq<LoadSegment>, i: nat, table: seq<int>, header: seq<int>)
    requires i < |segments| && |table| == EntrySize * i && |header| == EntrySize
    requires forall k {:trigger HeaderOf(h, segments, k)} :: 0 <= k < i ==>
               HeaderOf(h, segments, k) == Ok(table[EntrySize * k..EntrySize * (k + 1)])
    requires HeaderOf(h, segments, i) == Ok(header)
    ensures forall k {:trigger HeaderOf(h, segments, k)} :: 0 <= k < i + 1 ==>
              HeaderOf(h, segments, k) == Ok((table + header)[EntrySize * k..EntrySize * (k + 1)])
  {
    forall k | 0 <= k < i + 1
      ensures HeaderOf(h, segments, k) == Ok((table + header)[EntrySize * k..EntrySize * (k + 1)])
    {
      if k < i {
        SliceOfPrefix(table, header, EntrySize * k, EntrySize * (k + 1));
      } else {
        SliceOfAppend(table, header, EntrySize * k, EntrySize * (k + 1));
        assert header[0..EntrySize] == header;
      }
    }
  }

  /** A program header that cannot be written fails the whole table. */
  lemma HeadersFail(segments: seq<LoadSegment>, i: nat, start: int)
    requires i < |segments| && start == Layout(segments[..i]).1
    requires ProgramHeader(segments[i], start).Fail?
    ensures ProgramHeaders(segments).Fail?
  {
    assert HeaderOf(ProgramHeader, segments, i).Fail?;
    TableOk(ProgramHeader, segments);
  }

  /** The layout of one more segment. */
  lemma LayoutStep(segments: seq<LoadSegment>, i: nat)
    requires i < |segments|
    ensures var (offsets, end) := Layout(segments[..i]);
      Layout(segments[..i + 1]) == (offsets + [Offset(end)], Offset(end) + |segments[i].content|)
  {
    assert segments[..i + 1][..i] == segments[..i];
  }

  /** One little-endian byte is the value itself. */
  lemma OneByte(b: int)
    requires 0 <= b < 256
    ensures LittleEndianBytes(b, 1) == [b]
  {
    Pow2Of32();
    LittleEndianLength(b, 1);
    LittleEndianRoundTrip(b, 1);
    var bytes := LittleEndianBytes(b, 1);
    assert FromLittleEndian(bytes) == bytes[0] + 256 * FromLittleEndian(bytes[1..]);
  }
}
