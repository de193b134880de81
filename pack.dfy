/** The packer stage: every instruction line's fields, each tagged with its
    width, are concatenated with the first field in the least significant
    bits, and the word is split into bytes, lowest first. Every other line
    passes through as its text. */
module Pack {
  import opened Wrappers
  import opened Bits
  import opened Subv
  import opened Parts

  // ---------------------------------------------------------------------
  // Bytes of a word
  // ---------------------------------------------------------------------

  /** How many steps `range(0, size, 8)` takes for a size that is a
      multiple of 8: none for a size that is not positive. */
  function ByteCount(size: int): nat
  {
    if size <= 0 then 0 else size / 8
  }

  /** `byteify(word)`: the bytes of a word whose size is a multiple of 8,
      lowest first; byte k is bits [8k+7:8k] of the word. */
  function Bytes(word: Field): (r: Result<seq<int>>)
    ensures r.Ok? <==> word.size % 8 == 0
    ensures r.Ok? ==> |r.value| == ByteCount(word.size)
    ensures r.Ok? ==> forall k :: 0 <= k < |r.value| ==> Slice(word, 8 * k + 7, 8 * k) == Ok(Field(r.value[k], 8))
  {
    if word.size % 8 != 0 then Fail
    else
      var n := ByteCount(word.size);
      var bytes := LittleEndianBytes(word.val, n);
      LittleEndianLength(word.val, n);
      assert forall k :: 0 <= k < n ==> Slice(word, 8 * k + 7, 8 * k) == Ok(Field(bytes[k], 8)) by {
        forall k | 0 <= k < n
          ensures Slice(word, 8 * k + 7, 8 * k) == Ok(Field(bytes[k], 8))
        {
          ByteIsSlice(word, k);
        }
      }
      Ok(bytes)
  }

  lemma ByteIsSlice(word: Field, k: nat)
    requires word.size % 8 == 0 && k < ByteCount(word.size)
    ensures |LittleEndianBytes(word.val, ByteCount(word.size))| == ByteCount(word.size)
    ensures Slice(word, 8 * k + 7, 8 * k) == Ok(Field(LittleEndianBytes(word.val, ByteCount(word.size))[k], 8))
  {
    LittleEndianByteAt(word.val, ByteCount(word.size), k);
    SliceArithmetic(word, 8 * k + 7, 8 * k);
  }

  /** Every byte is in [0, 255], and read back little-endian the bytes give
      the word's value, when that value fits the word's size. */
  lemma BytesRoundTrip(word: Field)
    requires Fits(word) && word.size % 8 == 0
    ensures Bytes(word).Ok?
    ensures forall k :: 0 <= k < |Bytes(word).value| ==> 0 <= Bytes(word).value[k] < 256
    ensures FromLittleEndian(Bytes(word).value) == word.val
  {
    LittleEndianRoundTrip(word.val, ByteCount(word.size));
  }

  /** `byteify((0x12345678, 32))` gives 0x78, 0x56, 0x34, 0x12. */
  lemma BytesExample()
    ensures Bytes(Field(0x1234_5678, 32)) == Ok([0x78, 0x56, 0x34, 0x12])
  {
    assert LittleEndianBytes(0x12, 1) == [0x12];
    assert LittleEndianBytes(0x1234, 2) == [0x34, 0x12];
    assert LittleEndianBytes(0x12_3456, 3) == [0x56, 0x34, 0x12];
    assert LittleEndianBytes(0x1234_5678, 4) == [0x78, 0x56, 0x34, 0x12];
    assert ByteCount(32) == 4;
  }

  /** Bytes as the parts of an output line: each a bare number. */
  function ByteParts(bytes: seq<int>): (r: seq<Part>)
    ensures |r| == |bytes|
    ensures forall k :: 0 <= k < |r| ==> r[k] == Part(Num(bytes[k]), [])
  {
    seq(|bytes|, k requires 0 <= k < |bytes| => Part(Num(bytes[k]), []))
  }

  /** A line of bytes reads back as the same bytes. */
  lemma BytePartsReparse(bytes: seq<int>)
    ensures ParseInstr(FormatParts(ByteParts(bytes))) == ByteParts(bytes)
  {
    InstrRoundTrip(ByteParts(bytes));
  }

  /** The loop of `byteify`, slicing out one byte at a time. */
  method Byteify(word: Field) returns (r: Result<seq<Part>>)
    ensures r.Ok? <==> Bytes(word).Ok?
    ensures r.Ok? ==> r.value == ByteParts(Bytes(word).value)
  {
    if word.size % 8 != 0 {
      return Fail;
    }
    var bytes := Bytes(word).value;
    assert word.size <= 0 || word.size == 8 * |bytes|;
    var out: seq<Part> := [];
    var i := 0;
    while i < word.size
      invariant i == 8 * |out| && |out| <= |bytes|
      invariant forall k :: 0 <= k < |out| ==> out[k] == Part(Num(bytes[k]), [])
      decreases word.size - i
    {
      var byte := Slice(word, i + 7, i);
      assert byte == Ok(Field(bytes[|out|], 8));
      out := out + [Part(Num(byte.value.val), [])];
      i := i + 8;
    }
    return Ok(out);
  }

  // ---------------------------------------------------------------------
  // One line
  // ---------------------------------------------------------------------

  /** The parts of an instruction line as bytes: every part read as a
      field (`from_part`), the fields concatenated, the word split. */
  function PackInstr(parts: seq<Part>): (r: Result<seq<Part>>)
    ensures r.Ok? ==> forall k :: 0 <= k < |r.value| ==> r.value[k].head.Num? && r.value[k].tags == []
  {
    var fields :- MapAll(FromPart, parts);
    var total :- ConcatOf(fields);
    var bytes :- Bytes(total);
    Ok(ByteParts(bytes))
  }

  /** Fields written back as parts, each its value tagged with its width. */
  function FieldParts(fields: seq<Field>): (r: seq<Part>)
    ensures |r| == |fields|
    ensures forall k :: 0 <= k < |r| ==> r[k] == FieldPart(fields[k])
  {
    seq(|fields|, k requires 0 <= k < |fields| => FieldPart(fields[k]))
  }

  /** Parts written from fields read back as those fields. */
  lemma FieldPartsRead(fields: seq<Field>)
    ensures MapAll(FromPart, FieldParts(fields)) == Ok(fields)
  {
    var parts := FieldParts(fields);
    forall i | 0 <= i < |fields|
      ensures FromPart(parts[i]) == Ok(fields[i])
    {
      FieldPartRoundTrip(fields[i]);
    }
    var r := MapAll(FromPart, parts);
    assert r.Ok?;
    assert r.value == fields by {
      forall i | 0 <= i < |fields|
        ensures r.value[i] == fields[i]
      {
        assert FromPart(parts[i]) == Ok(r.value[i]);
      }
    }
  }

  /** A line of fields whose values fit their widths and whose widths add
      up to whole bytes packs into the little-endian bytes of the fields
      laid out first field lowest. */
  lemma PackFields(fields: seq<Field>)
    requires AllFit(fields) && SumSizes(fields) % 8 == 0
    ensures SumSizes(fields) >= 0
    ensures PackInstr(FieldParts(fields)) == Ok(ByteParts(LittleEndianBytes(Packed(fields), ByteCount(SumSizes(fields)))))
  {
    FieldPartsRead(fields);
    ConcatLaysOutFields(fields);
    SumSizesNonnegative(fields);
    var total := Field(Packed(fields), SumSizes(fields));
    assert ConcatOf(fields) == Ok(total);
    assert Bytes(total) == Ok(LittleEndianBytes(Packed(fields), ByteCount(SumSizes(fields))));
  }

  /** The bytes of a packed line are bytes, there are as many as the widths
      add up to in whole bytes, and read back little-endian they give field
      k shifted down by the widths before it, for every k. */
  lemma PackedBytes(fields: seq<Field>, k: nat)
    requires AllFit(fields) && SumSizes(fields) % 8 == 0 && k < |fields|
    ensures SumSizes(fields) >= 0
    ensures var bytes := LittleEndianBytes(Packed(fields), ByteCount(SumSizes(fields)));
      && |bytes| * 8 == SumSizes(fields)
      && (forall j :: 0 <= j < |bytes| ==> 0 <= bytes[j] < 256)
      && 0 <= SumSizes(fields[..k])
      && (FromLittleEndian(bytes) / Pow2(SumSizes(fields[..k]))) % Pow2(fields[k].size) == fields[k].val
  {
    PackedBound(fields);
    var n := ByteCount(SumSizes(fields));
    assert 8 * n == SumSizes(fields);
    LittleEndianLength(Packed(fields), n);
    LittleEndianRoundTrip(Packed(fields), n);
    PackedSlice(fields, k);
  }

  lemma PackedLui()
    ensures AllFit([Field(0x37, 7), Field(5, 5), Field(0x10010, 20)])
    ensures SumSizes([Field(0x37, 7), Field(5, 5), Field(0x10010, 20)]) == 32
    ensures Packed([Field(0x37, 7), Field(5, 5), Field(0x10010, 20)]) == 0x100102b7
  {
    var fields := [Field(0x37, 7), Field(5, 5), Field(0x10010, 20)];
    assert Pow2(5) == 32 && Pow2(7) == 128;
    assert Pow2(20) == 0x10_0000 by {
      Pow2Add(10, 10);
      assert Pow2(10) == 1024;
    }
    assert AllFit(fields);
    assert fields[1..][1..] == fields[2..] && fields[2..][1..] == [];
    assert Packed(fields[2..]) == 0x10010;
    assert Packed(fields[1..]) == 5 + 0x10010 * 32;
  }

  /** `lui t0, 0x10010` as fields `37/7 05/5 10010/20` packs into the bytes
      b7 02 01 10. */
  lemma PackLui()
    ensures PackInstr(FieldParts([Field(0x37, 7), Field(5, 5), Field(0x10010, 20)])) == Ok(ByteParts([0xb7, 0x02, 0x01, 0x10]))
  {
    PackedLui();
    PackFields([Field(0x37, 7), Field(5, 5), Field(0x10010, 20)]);
    assert ByteCount(32) == 4;
    LittleEndianLui();
  }

  lemma LittleEndianLui()
    ensures LittleEndianBytes(0x100102b7, 4) == [0xb7, 0x02, 0x01, 0x10]
  {
    assert LittleEndianBytes(0x10, 1) == [0x10];
    assert LittleEndianBytes(0x1001, 2) == [0x01, 0x10];
    assert LittleEndianBytes(0x100102, 3) == [0x02, 0x01, 0x10];
  }

  /** `pack` for one line: an instruction line is printed as its bytes
      (with its comment); any other line comes out as its stripped text. */
  function PackStep(text: string): (r: Result<string>)
    ensures Parse(text).Fail? ==> r.Fail?
    ensures Parse(text).Ok? && !Parse(text).value.body.InstrBody? ==> r == Ok(Parse(text).value.raw)
    ensures Parse(text).Ok? && Parse(text).value.body.InstrBody? ==>
      var instr := Parse(text).value.body.instr;
      && (r.Ok? <==> PackInstr(instr).Ok?)
      && (r.Ok? ==> StartsWith(r.value, FormatParts(PackInstr(instr).value)))
  {
    var line :- Parse(text);
    if line.body.InstrBody? then
      var bytes :- PackInstr(line.body.instr);
      FormatLine(line.(body := InstrBody(bytes)))
    else Ok(line.raw)
  }

  /** `pack(iter)`: every line packed, in order. */
  function PackOf(lines: seq<string>): Result<seq<string>>
  {
    MapAll(PackStep, lines)
  }

  /** The body of the loop of `pack` for one line. */
  method PackLine(text: string) returns (r: Result<string>)
    ensures r == PackStep(text)
  {
    var parsed := Parse(text);
    if parsed.Fail? {
      return Fail;
    }
    var line := parsed.value;
    if !line.body.InstrBody? {
      return Ok(line.raw);
    }
    var fields := MapAll(FromPart, line.body.instr);
    if fields.Fail? {
      return Fail;
    }
    var total := Concat(fields.value);
    if total.Fail? {
      return Fail;
    }
    var bytes := Byteify(total.value);
    if bytes.Fail? {
      return Fail;
    }
    return FormatLine(line.(body := InstrBody(bytes.value)));
  }

  /** One turn of the loop of `pack`: the lines packed so far grow by the
      next line, or the whole run fails with it. */
  method PackNext(lines: seq<string>, i: nat, out: seq<string>) returns (r: Result<seq<string>>)
    requires i < |lines| && MapAll(PackStep, lines[..i]) == Ok(out)
    ensures r.Fail? ==> PackOf(lines).Fail?
    ensures r.Ok? ==> MapAll(PackStep, lines[..i + 1]) == r
  {
    var s := PackLine(lines[i]);
    MapAllStep(PackStep, lines, i);
    if s.Fail? {
      return Fail;
    }
    return Ok(out + [s.value]);
  }

  /** The packer: the loop over the lines. */
  method Pack(lines: seq<string>) returns (r: Result<seq<string>>)
    ensures r == PackOf(lines)
  {
    var out: seq<string> := [];
    var i := 0;
    while i < |lines|
      invariant 0 <= i <= |lines|
      invariant MapAll(PackStep, lines[..i]) == Ok(out)
    {
      var next := PackNext(lines, i, out);
      if next.Fail? {
        return Fail;
      }
      out := next.value;
      i := i + 1;
    }
    MapAllWhole(PackStep, lines, out);
    return Ok(out);
  }
}
