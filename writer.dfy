/** The writer of `elf.py` as it runs: the main block's loops and the
    functions that write through the output handle, each proved to write
    what the functions of module Elf describe. */
module ElfWriter {
  import opened Wrappers
  import opened Bits
  import opened Subv
  import opened Elf

  /** The main block's first loop: `segments` grows by one entry per
      segment line, and an instruction line extends the content of the
      last segment opened (the source's `segment`). */
  method CollectSegments(lines: seq<Line>) returns (r: Result<seq<LoadSegment>>)
    ensures r == Collect(lines)
  {
    var segments: seq<LoadSegment> := [];
    var i := 0;
    while i < |lines|
      invariant 0 <= i <= |lines|
      invariant Collect(lines[..i]) == Ok(segments)
    {
      assert lines[..i + 1][..i] == lines[..i];
      match lines[i].body {
        case SegmentBody(seg) =>
          if seg.base.None? {
            CollectFailSticks(lines, i + 1);
            return Fail;
          }
          segments := segments + [LoadSegment(seg.name, seg.base.value, [])];
        case InstrBody(instr) =>
          if segments == [] {
            CollectFailSticks(lines, i + 1);
            return Fail;
          }
          var last := segments[|segments| - 1];
          segments := segments[..|segments| - 1] + [last.(content := last.content + instr)];
        case _ =>
          CollectFailSticks(lines, i + 1);
          return Fail;
      }
      i := i + 1;
    }
    assert lines[..i] == lines;
    return Ok(segments);
  }

  /** `next(s for s in segments if s['name'] == 'code')`, then its base. */
  method FindCode(segments: seq<LoadSegment>) returns (r: Option<int>)
    ensures r == FirstCode(segments)
  {
    var i := 0;
    while i < |segments|
      invariant 0 <= i <= |segments|
      invariant forall j :: 0 <= j < i ==> segments[j].name != "code"
    {
      if segments[i].name == "code" {
        return Some(segments[i].addr);
      }
      i := i + 1;
    }
    return None;
  }

  /** Standard output: the bytes written so far. */
  class Writer {
    var out: seq<int>

    constructor ()
      ensures out == []
    {
      out := [];
    }

    /** `w(b)`: writes the bytes and returns how many there are. */
    method W(bytes: seq<int>) returns (n: nat)
      modifies this
      ensures out == old(out) + bytes && n == |bytes|
    {
      out := out + bytes;
      n := |bytes|;
    }

    /** `wi(num, size)`: writes `num` as `size` little-endian bytes and
        returns `size`; a value that does not fit fails before anything is
        written. */
    method Wi(num: int, size: nat) returns (r: Result<nat>)
      modifies this
      ensures r.Ok? <==> FitsBytes(num, size)
      ensures r.Ok? ==> r.value == size && out == old(out) + LittleEndianBytes(num, size)
      ensures r.Fail? ==> out == old(out)
    {
      var bytes := ToBytes(num, size);
      if bytes.Fail? {
        return Fail;
      }
      var n := W(bytes.value);
      return Ok(size);
    }

    /** `padto(offset, cursor)`: zeros up to `offset`; fails when the
        cursor is already past it. */
    method Padto(offset: int, cursor: int) returns (r: Result<int>)
      modifies this
      ensures r.Ok? <==> cursor <= offset
      ensures r.Ok? ==> r.value == offset && out == old(out) + Zeros(offset - cursor)
      ensures r.Fail? ==> out == old(out)
    {
      var missing := offset - cursor;
      if missing < 0 {
        return Fail;
      }
      var n := W(Zeros(missing));
      return Ok(offset);
    }

    /** A run of `wi(num, size)` calls, one per field, adding up what they
        return. */
    method WriteFields(fields: seq<(int, nat)>) returns (r: Result<nat>)
      modifies this
      ensures r.Ok? <==> Emit(fields, |fields|).Ok?
      ensures r.Ok? ==> r.value == Start(fields, |fields|) && out == old(out) + Emit(fields, |fields|).value
    {
      var c := 0;
      var i := 0;
      while i < |fields|
        invariant 0 <= i <= |fields|
        invariant Emit(fields, i).Ok? && out == old(out) + Emit(fields, i).value && c == Start(fields, i)
      {
        var n := Wi(fields[i].0, fields[i].1);
        if n.Fail? {
          EmitFailSticks(fields, i + 1, |fields|);
          return Fail;
        }
        c := c + n.value;
        i := i + 1;
      }
      return Ok(c);
    }

    /** `write_elf_header`: returns the 52 bytes it writes. */
    method WriteElfHeader(segments: seq<LoadSegment>) returns (r: Result<int>)
      modifies this
      ensures r.Ok? <==> ElfHeader(segments).Ok?
      ensures r.Ok? ==> r.value == HeaderSize && out == old(out) + ElfHeader(segments).value
    {
      var code := FindCode(segments);
      if code.None? {
        return Fail;
      }
      ElfHeaderOf(segments, code.value);
      var c := W(Magic);
      ghost var base := out;
      var fields := HeaderFields(code.value, |segments|);
      var n := WriteFields(fields);
      if n.Fail? {
        return Fail;
      }
      ElfHeaderWritten(segments, code.value, n.value, old(out), base, out);
      return Ok(c + n.value);
    }

    /** `write_program_header(segment, c, start)`: returns the cursor after
        the 32 bytes it writes and the offset it records for the segment. */
    method WriteProgramHeader(seg: LoadSegment, c: int, start: int) returns (r: Result<(int, int)>)
      modifies this
      ensures r.Ok? <==> ProgramHeader(seg, start).Ok?
      ensures r.Ok? ==> r.value == (c + EntrySize, Offset(start)) && out == old(out) + ProgramHeader(seg, start).value
    {
      var offset := (1 + start / Align) * Align;
      var size := |seg.content|;
      var flags := if seg.name == "code" then 5 else 6;
      if offset % Align != seg.addr % Align {
        return Fail;
      }
      var n := WriteFields(ProgramFields(offset, seg.addr, size, flags));
      if n.Fail? {
        return Fail;
      }
      ProgramStarts(offset, seg.addr, size, flags);
      return Ok((c + n.value, offset));
    }

    /** One turn of the main block's loop over the program headers: the
        header of segment i at the cursor, then its offset recorded and
        `segment_start` moved to its end. */
    method WriteNextHeader(segments: seq<LoadSegment>, i: nat, c0: int, c: int, offsets: seq<int>, start: int,
                           ghost base: seq<int>, ghost table: seq<int>)
      returns (r: Result<(int, seq<int>, int)>, ghost header: seq<int>)
      requires i < |segments| && HeadersWritten(ProgramHeader, segments, i, c0, c, offsets, start, base, table, out)
      modifies this
      ensures r.Fail? ==> ProgramHeaders(segments).Fail?
      ensures r.Ok? ==> HeadersWritten(ProgramHeader, segments, i + 1, c0, r.value.0, r.value.1, r.value.2, base, table + header, out)
    {
      var seg := segments[i];
      var p := WriteProgramHeader(seg, c, start);
      if p.Fail? {
        HeadersFail(segments, i, start);
        return Fail, [];
      }
      header := ProgramHeader(seg, start).value;
      HeadersStep(ProgramHeader, segments, i, c0, c, offsets, start, base, table, old(out), header);
      var (next, offset) := p.value;
      r := Ok((next, offsets + [offset], offset + |seg.content|));
    }

    /** The main block's loop over the segments writing their program
        headers: `segment_start` moves to the end of each segment as laid
        out. Returns the cursor and the recorded offsets. */
    method WriteProgramHeaders(segments: seq<LoadSegment>, c0: int) returns (r: Result<(int, seq<int>)>)
      modifies this
      ensures r.Ok? <==> ProgramHeaders(segments).Ok?
      ensures r.Ok? ==> r.value.0 == c0 + EntrySize * |segments| && r.value.1 == Layout(segments).0
      ensures r.Ok? ==> out == old(out) + ProgramHeaders(segments).value
    {
      var c, offsets, start := c0, [], Align;
      ghost var table := [];
      var i := 0;
      while i < |segments|
        invariant i <= |segments| && HeadersWritten(ProgramHeader, segments, i, c0, c, offsets, start, old(out), table, out)
      {
        var p, header := WriteNextHeader(segments, i, c0, c, offsets, start, old(out), table);
        if p.Fail? {
          return Fail;
        }
        c, offsets, start := p.value.0, p.value.1, p.value.2;
        table := table + header;
        i := i + 1;
      }
      HeadersDone(segments, c0, c, offsets, start, old(out), table, out);
      return Ok((c, offsets));
    }

    /** `padto` the segment's offset, then `wi(part[0], 1)` for each part;
        a part whose head is text has no bytes and fails. */
    method WriteSegment(seg: LoadSegment, offset: int, c: int) returns (r: Result<int>)
      modifies this
      ensures r.Ok? <==> c <= offset && MapAll(PartByte, seg.content).Ok?
      ensures r.Ok? ==> r.value == offset + |seg.content|
      ensures r.Ok? ==> out == old(out) + Zeros(offset - c) + MapAll(PartByte, seg.content).value
    {
      var d := Padto(offset, c);
      if d.Fail? {
        return Fail;
      }
      var cursor := d.value;
      ghost var padded := out;
      var j := 0;
      while j < |seg.content|
        invariant 0 <= j <= |seg.content|
        invariant MapAll(PartByte, seg.content[..j]).Ok? && out == padded + MapAll(PartByte, seg.content[..j]).value
        invariant cursor == offset + j
      {
        var part := seg.content[j];
        MapAllStep(PartByte, seg.content, j);
        if part.head.Text? {
          return Fail;
        }
        var n := Wi(part.head.n, 1);
        if n.Fail? {
          Pow2Of32();
          return Fail;
        }
        OneByte(part.head.n);
        cursor := cursor + n.value;
        j := j + 1;
      }
      assert seg.content[..j] == seg.content;
      return Ok(cursor);
    }

    /** The main block's last loop: every segment padded to its offset. */
    method WriteSegments(segments: seq<LoadSegment>, offsets: seq<int>, c0: int) returns (r: Result<int>)
      requires |offsets| == |segments|
      modifies this
      ensures r.Ok? <==> Fill(segments, offsets, c0).Ok?
      ensures r.Ok? ==> r.value == Fill(segments, offsets, c0).value.1
      ensures r.Ok? ==> out == old(out) + Fill(segments, offsets, c0).value.0
    {
      var c := c0;
      var k := 0;
      assert segments[..0] == [] && offsets[..0] == [];
      while k < |segments|
        invariant 0 <= k <= |segments| && Filled(segments, offsets, c0, k, c, old(out), out)
      {
        ghost var before := out;
        var s := WriteSegment(segments[k], offsets[k], c);
        if s.Fail? {
          FilledFail(segments, offsets, c0, k, c, old(out), before);
          return Fail;
        }
        FilledStep(segments, offsets, c0, k, c, old(out), before, MapAll(PartByte, segments[k].content).value);
        c := s.value;
        k := k + 1;
      }
      FilledDone(segments, offsets, c0, c, old(out), out);
      return Ok(c);
    }

    /** The main block after collecting the segments: the file header, the
        program headers, then the segments. */
    method WriteElf(segments: seq<LoadSegment>) returns (r: Result<int>)
      modifies this
      ensures var body := Fill(segments, Layout(segments).0, HeaderSize + EntrySize * |segments|);
        && (r.Ok? <==> ElfHeader(segments).Ok? && ProgramHeaders(segments).Ok? && body.Ok?)
        && (r.Ok? ==> out == old(out) + ElfHeader(segments).value + ProgramHeaders(segments).value + body.value.0)
    {
      var h := WriteElfHeader(segments);
      if h.Fail? {
        return Fail;
      }
      var p := WriteProgramHeaders(segments, h.value);
      if p.Fail? {
        return Fail;
      }
      var (c, offsets) := p.value;
      var s := WriteSegments(segments, offsets, c);
      if s.Fail? {
        return Fail;
      }
      return Ok(s.value);
    }
  }

  /** The writer on collected segments: the image written to a fresh
      output. */
  method WriteImage(segments: seq<LoadSegment>) returns (r: Result<seq<int>>)
    ensures r == Image(segments)
  {
    ImageSplits(segments);
    var w := new Writer();
    var c := w.WriteElf(segments);
    if c.Fail? {
      return Fail;
    }
    EmptyPrefix(w.out, ElfHeader(segments).value, ProgramHeaders(segments).value,
      Fill(segments, Layout(segments).0, HeaderSize + EntrySize * |segments|).value.0);
    return Ok(w.out);
  }

  /** The writer on the text of the lines: parse them, collect the
      segments, write the image to a fresh output. */
  method Assemble(texts: seq<string>) returns (r: Result<seq<int>>)
    ensures r == ElfFile(texts)
  {
    ElfFileSplits(texts);
    var parsed := ParseAll(texts);
    if parsed.Fail? {
      return Fail;
    }
    var segments := CollectSegments(parsed.value);
    if segments.Fail? {
      return Fail;
    }
    r := WriteImage(segments.value);
  }

  lemma EmptyPrefix(a: seq<int>, b: seq<int>, c: seq<int>, d: seq<int>)
    requires a == [] + b + c + d
    ensures a == b + c + d
  {
    assert [] + b == b;
  }
}
