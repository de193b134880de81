/** The formatter stage: checks the operands of every instruction line of
    the code segment against its RISC-V base format (U, I, S, B or J),
    reorders them into the format's bit layout, lowest bits first, scatters
    the S, B and J immediates into slices and gives label references a
    default slice. Every other line passes through as its text. */
module Format {
  import opened Wrappers
  import opened Bits
  import opened Subv
  import opened Parts

  /** An operand as the formatter produces it: a fixed bitfield, or a label
      reference (a part whose head is text) that a later stage resolves. */
  datatype Operand = Fixed(field: Field) | Symbolic(part: Part)

  /** The part an operand prints as. */
  function OperandPart(o: Operand): Part
  {
    match o
    case Fixed(f) => FieldPart(f)
    case Symbolic(p) => p
  }

  /** The parts a sequence of operands prints as, in order. */
  function OperandParts(ops: seq<Operand>): (r: seq<Part>)
    ensures |r| == |ops| && forall i :: 0 <= i < |ops| ==> r[i] == OperandPart(ops[i])
  {
    if ops == [] then [] else OperandParts(ops[..|ops| - 1]) + [OperandPart(ops[|ops| - 1])]
  }

  /** The width an operand occupies: a field's width, or the size in a
      reference's field tag. */
  function Width(o: Operand): Result<int>
  {
    match o
    case Fixed(f) => Ok(f.size)
    case Symbolic(p) =>
      var ref :- ParseReference(p);
      Ok(ref.size)
  }

  /** The operands have exactly these widths, in this order. */
  predicate HasWidths(ops: seq<Operand>, widths: seq<int>)
  {
    |ops| == |widths| && forall i :: 0 <= i < |ops| ==> Width(ops[i]) == Ok(widths[i])
  }

  /** HasWidths of a few operands, shown one position at a time. */
  lemma HasWidths3(ops: seq<Operand>, widths: seq<int>)
    requires |ops| == 3 && |widths| == 3
    requires Width(ops[0]) == Ok(widths[0])
    requires Width(ops[1]) == Ok(widths[1])
    requires Width(ops[2]) == Ok(widths[2])
    ensures HasWidths(ops, widths)
  {
    forall i | 0 <= i < 3
      ensures Width(ops[i]) == Ok(widths[i])
    {
      assert i == 0 || i == 1 || i == 2;
    }
  }

  lemma HasWidths5(ops: seq<Operand>, widths: seq<int>)
    requires |ops| == 5 && |widths| == 5
    requires Width(ops[0]) == Ok(widths[0])
    requires Width(ops[1]) == Ok(widths[1])
    requires Width(ops[2]) == Ok(widths[2])
    requires Width(ops[3]) == Ok(widths[3])
    requires Width(ops[4]) == Ok(widths[4])
    ensures HasWidths(ops, widths)
  {
    forall i | 0 <= i < 5
      ensures Width(ops[i]) == Ok(widths[i])
    {
      assert i == 0 || i == 1 || i == 2 || i == 3 || i == 4;
    }
  }

  lemma HasWidths6(ops: seq<Operand>, widths: seq<int>)
    requires |ops| == 6 && |widths| == 6
    requires Width(ops[0]) == Ok(widths[0])
    requires Width(ops[1]) == Ok(widths[1])
    requires Width(ops[2]) == Ok(widths[2])
    requires Width(ops[3]) == Ok(widths[3])
    requires Width(ops[4]) == Ok(widths[4])
    requires Width(ops[5]) == Ok(widths[5])
    ensures HasWidths(ops, widths)
  {
    forall i | 0 <= i < 6
      ensures Width(ops[i]) == Ok(widths[i])
    {
      assert i == 0 || i == 1 || i == 2 || i == 3 || i == 4 || i == 5;
    }
  }

  lemma HasWidths8(ops: seq<Operand>, widths: seq<int>)
    requires |ops| == 8 && |widths| == 8
    requires Width(ops[0]) == Ok(widths[0])
    requires Width(ops[1]) == Ok(widths[1])
    requires Width(ops[2]) == Ok(widths[2])
    requires Width(ops[3]) == Ok(widths[3])
    requires Width(ops[4]) == Ok(widths[4])
    requires Width(ops[5]) == Ok(widths[5])
    requires Width(ops[6]) == Ok(widths[6])
    requires Width(ops[7]) == Ok(widths[7])
    ensures HasWidths(ops, widths)
  {
    forall i | 0 <= i < 8
      ensures Width(ops[i]) == Ok(widths[i])
    {
      assert i == 0 || i == 1 || i == 2 || i == 3 || i == 4 || i == 5 || i == 6 || i == 7;
    }
  }

  function Sum(xs: seq<int>): int
  {
    if xs == [] then 0 else xs[0] + Sum(xs[1..])
  }

  // ---------------------------------------------------------------------
  // Slicing label references
  // ---------------------------------------------------------------------

  /** `ref_slice(ref, hi, lo)`: the reference narrowed to bits [hi:lo] of a
      value of its size. A reference the syntax can express stays
      expressible, shrinks, and reads back from its printed part. */
  function RefSlice(ref: Reference, hi: int, lo: int): (r: Result<Reference>)
    ensures r.Ok? <==> lo <= hi < ref.size
    ensures r.Ok? ==> r.value.name == ref.name && r.value.mode == ref.mode && r.value.meta == ref.meta
    ensures r.Ok? ==> r.value.bounds == Some(Bounds(hi, lo)) && r.value.size == hi - lo + 1
    ensures r.Ok? && Expressible(ref) && 0 <= lo ==>
      && Expressible(r.value) && r.value.size <= ref.size
      && ParseReference(ReferencePart(r.value)) == Ok(r.value)
  {
    if hi < lo then Fail
    else if hi >= ref.size then Fail
    else
      var narrowed := ref.(bounds := Some(Bounds(hi, lo)), size := hi - lo + 1);
      assert Expressible(ref) && 0 <= lo ==> ParseReference(ReferencePart(narrowed)) == Ok(narrowed) by {
        if Expressible(ref) && 0 <= lo {
          ReferenceRoundTrip(narrowed);
        }
      }
      Ok(narrowed)
  }

  /** The reference's own slice, or [hi:lo] when it has none. */
  function BoundsOr(ref: Reference, hi: int, lo: int): Bounds
  {
    if ref.bounds.Some? then ref.bounds.value else Bounds(hi, lo)
  }

  lemma DefaultSliceReparses(p: Part, ref: Reference, b: Bounds)
    requires ParseReference(p) == Ok(ref) && b.hi >= 0 && b.lo >= 0
    ensures ParseReference(Part(Text(SliceText(ref.name, b)), p.tags)) == Ok(ref.(bounds := Some(b)))
  {
    SliceSpecRoundTrip(ref.name, b);
  }

  /** `default_slice(val, hi, lo)`: a label reference given the slice
      [hi:lo] when it has none of its own; the slice's width must equal the
      size in the field tag. The result is the reference with its slice
      written out, followed by the original tags. */
  function DefaultSlice(p: Part, hi: int, lo: int): (r: Result<Part>)
    ensures r.Ok? <==>
      && ParseReference(p).Ok?
      && (var b := BoundsOr(ParseReference(p).value, hi, lo);
          ParseReference(p).value.size == b.hi - b.lo + 1)
    ensures r.Ok? ==> r.value.tags == p.tags && IsReference(r.value)
    ensures r.Ok? && 0 <= lo <= hi ==>
      var ref := ParseReference(p).value;
      ParseReference(r.value) == Ok(ref.(bounds := Some(BoundsOr(ref, hi, lo))))
  {
    var ref :- ParseReference(p);
    var b := BoundsOr(ref, hi, lo);
    if ref.size != b.hi - b.lo + 1 then Fail
    else
      assert 0 <= lo <= hi ==>
        ParseReference(Part(Text(SliceText(ref.name, b)), p.tags)) == Ok(ref.(bounds := Some(b))) by {
        if 0 <= lo <= hi {
          DefaultSliceReparses(p, ref, b);
        }
      }
      Ok(Part(Text(SliceText(ref.name, b)), p.tags))
  }

  /** Bits [hi:lo] of a reference with slice b, counted from b's low end. */
  function SubReference(ref: Reference, b: Bounds, hi: int, lo: int): Reference
  {
    Reference(ref.name, ref.mode, hi - lo + 1, ref.meta, Some(Bounds(b.lo + hi, b.lo + lo)))
  }

  /** The label-reference branch of `slice_bit_or_ref`: bits [hi:lo]
      counted from the low end of the reference's slice, which must exist
      and must contain the new high bit. The result reads back as the
      narrowed reference. */
  function SliceRef(p: Part, hi: int, lo: int): (r: Result<Part>)
    ensures r.Ok? <==>
      && ParseReference(p).Ok? && ParseReference(p).value.bounds.Some?
      && ParseReference(p).value.bounds.value.lo + hi <= ParseReference(p).value.bounds.value.hi
    ensures r.Ok? && 0 <= lo <= hi ==>
      var ref := ParseReference(p).value;
      ParseReference(r.value) == Ok(SubReference(ref, ref.bounds.value, hi, lo))
  {
    var ref :- ParseReference(p);
    if ref.bounds.None? then Fail
    else
      var b := ref.bounds.value;
      if b.lo + lo + (hi - lo) > b.hi then Fail
      else
        var sub := SubReference(ref, b, hi, lo);
        SubReferenceReparses(ref, b, hi, lo);
        Ok(ReferencePart(sub))
  }

  lemma SubReferenceReparses(ref: Reference, b: Bounds, hi: int, lo: int)
    requires ref.name != [] && '[' !in ref.name && b.lo >= 0
    ensures 0 <= lo <= hi ==>
      ParseReference(ReferencePart(SubReference(ref, b, hi, lo))) == Ok(SubReference(ref, b, hi, lo))
  {
    if 0 <= lo <= hi {
      ReferenceRoundTrip(SubReference(ref, b, hi, lo));
    }
  }

  /** `slice_bit_or_ref(val, hi, lo)`: `slice` on a fixed field, SliceRef
      on a label reference. */
  function SliceBitOrRef(o: Operand, hi: int, lo: int): (r: Result<Operand>)
    ensures o.Fixed? ==> match Slice(o.field, hi, lo)
                         case Ok(s) => r == Ok(Fixed(s))
                         case Fail => r.Fail?
    ensures o.Symbolic? ==> match SliceRef(o.part, hi, lo)
                            case Ok(q) => r == Ok(Symbolic(q))
                            case Fail => r.Fail?
  {
    match o
    case Fixed(f) =>
      var s :- Slice(f, hi, lo);
      Ok(Fixed(s))
    case Symbolic(p) =>
      var q :- SliceRef(p, hi, lo);
      Ok(Symbolic(q))
  }

  // ---------------------------------------------------------------------
  // Operands
  // ---------------------------------------------------------------------

  /** `bits.u(subv.untag(part, tag), bits)`: a register, sub-opcode or
      opcode operand, checked against its tag when one is expected. */
  function UnsignedOperand(p: Part, expected: Option<string>, bits: int): (r: Result<Field>)
    ensures r.Ok? <==> Untag(p, expected).Ok? && p.head.Num? && bits >= 0 && 0 <= p.head.n < Pow2(bits)
    ensures r.Ok? ==> r.value == Field(p.head.n, bits)
  {
    var h :- Untag(p, expected);
    match h
    case Num(n) => U(n, bits)
    case Text(_) => Fail
  }

  /** `bits.i(subv.untag(part, tag), bits)`: a numeric immediate tagged
      `tag` and fitting signed `bits` bits, as its two's-complement code. */
  function SignedOperand(p: Part, tag: string, bits: int): (r: Result<Field>)
    requires tag != ""
    ensures r.Ok? <==> p.tags != [] && p.tags[0] == tag && p.head.Num? && I(p.head.n, bits).Ok?
    ensures r.Ok? ==> r.value == I(p.head.n, bits).value
  {
    var h :- Untag(p, Some(tag));
    match h
    case Num(n) => I(n, bits)
    case Text(_) => Fail
  }

  /** The immediate operand of a format: a label reference takes the
      default slice [hi:lo] unless it has one; a number must be tagged `tag`
      and fit signed `bits` bits. */
  function Immediate(p: Part, tag: string, bits: int, hi: int, lo: int): (r: Result<Operand>)
    requires tag != ""
    ensures IsReference(p) ==> match DefaultSlice(p, hi, lo)
                               case Ok(q) => r == Ok(Symbolic(q))
                               case Fail => r.Fail?
    ensures !IsReference(p) ==> match SignedOperand(p, tag, bits)
                                case Ok(f) => r == Ok(Fixed(f))
                                case Fail => r.Fail?
  {
    if IsReference(p) then
      var q :- DefaultSlice(p, hi, lo);
      Ok(Symbolic(q))
    else
      var f :- SignedOperand(p, tag, bits);
      Ok(Fixed(f))
  }

  // ---------------------------------------------------------------------
  // The five formats, as the source writes them
  // ---------------------------------------------------------------------

  /** `pack_u`: (op, rd, imm) checked as unsigned 7 and 5 bits and a
      signed 20-bit `imm20` (a reference defaults to [31:12]). */
  function PackU(instr: seq<Part>): (r: Result<seq<Operand>>)
    ensures r.Ok? ==> |instr| == 3 && |r.value| == 3
  {
    if |instr| != 3 then Fail
    else
      var op :- UnsignedOperand(instr[0], None, 7);
      var rd :- UnsignedOperand(instr[1], Some("rd"), 5);
      var imm :- Immediate(instr[2], "imm20", 20, 31, 12);
      Ok([Fixed(op), Fixed(rd), imm])
  }

  /** `pack_i`: (op, subop, rd, rs, imm) reordered to (op, rd, subop, rs,
      imm), checked as unsigned 7, 3, 5, 5 bits and a signed 12-bit
      `imm12` (a reference defaults to [11:0]). */
  function PackI(instr: seq<Part>): (r: Result<seq<Operand>>)
    ensures r.Ok? ==> |instr| == 5 && |r.value| == 5
  {
    if |instr| != 5 then Fail
    else
      var op :- UnsignedOperand(instr[0], None, 7);
      var sub :- UnsignedOperand(instr[1], Some("subop"), 3);
      var rd :- UnsignedOperand(instr[2], Some("rd"), 5);
      var rs :- UnsignedOperand(instr[3], Some("rs"), 5);
      var imm :- Immediate(instr[4], "imm12", 12, 11, 0);
      Ok([Fixed(op), Fixed(rd), Fixed(sub), Fixed(rs), imm])
  }

  /** A number that fits, tagged as expected, is its own operand. */
  lemma NumberOperand(n: int, tags: seq<string>, expected: Option<string>, bits: nat)
    requires expected.None? || (tags != [] && tags[0] == expected.value)
    requires 0 <= n < Pow2(bits)
    ensures UnsignedOperand(Part(Num(n), tags), expected, bits) == Ok(Field(n, bits))
  {
  }

  /** `pack_i` from the results of its five operands. */
  lemma PackIOf(p0: Part, p1: Part, p2: Part, p3: Part, p4: Part, op: Field, sub: Field, rd: Field, rs: Field, imm: Operand)
    requires UnsignedOperand(p0, None, 7) == Ok(op)
    requires UnsignedOperand(p1, Some("subop"), 3) == Ok(sub)
    requires UnsignedOperand(p2, Some("rd"), 5) == Ok(rd)
    requires UnsignedOperand(p3, Some("rs"), 5) == Ok(rs)
    requires Immediate(p4, "imm12", 12, 11, 0) == Ok(imm)
    ensures PackI([p0, p1, p2, p3, p4]) == Ok([Fixed(op), Fixed(rd), Fixed(sub), Fixed(rs), imm])
  {
    var instr := [p0, p1, p2, p3, p4];
    Slots5(instr, p0, p1, p2, p3, p4);
  }

  /** Five operands of known widths. */
  lemma WidthsOf5(o0: Operand, o1: Operand, o2: Operand, o3: Operand, o4: Operand, w0: int, w1: int, w2: int, w3: int, w4: int)
    requires Width(o0) == Ok(w0) && Width(o1) == Ok(w1) && Width(o2) == Ok(w2)
    requires Width(o3) == Ok(w3) && Width(o4) == Ok(w4)
    ensures HasWidths([o0, o1, o2, o3, o4], [w0, w1, w2, w3, w4])
  {
    var ops, widths := [o0, o1, o2, o3, o4], [w0, w1, w2, w3, w4];
    Slots5(ops, o0, o1, o2, o3, o4);
    Slots5(widths, w0, w1, w2, w3, w4);
    HasWidths5(ops, widths);
  }

  /** The slots of a short sequence, one by one. */
  lemma Slots3<T>(xs: seq<T>, x0: T, x1: T, x2: T)
    requires xs == [x0, x1, x2]
    ensures |xs| == 3 && xs[0] == x0 && xs[1] == x1 && xs[2] == x2
  {
  }

  lemma Slots5<T>(xs: seq<T>, x0: T, x1: T, x2: T, x3: T, x4: T)
    requires xs == [x0, x1, x2, x3, x4]
    ensures |xs| == 5 && xs[0] == x0 && xs[1] == x1 && xs[2] == x2 && xs[3] == x3 && xs[4] == x4
  {
  }

  lemma Slots6<T>(xs: seq<T>, x0: T, x1: T, x2: T, x3: T, x4: T, x5: T)
    requires xs == [x0, x1, x2, x3, x4, x5]
    ensures |xs| == 6 && xs[0] == x0 && xs[1] == x1 && xs[2] == x2 && xs[3] == x3 && xs[4] == x4 && xs[5] == x5
  {
  }

  lemma Slots8<T>(xs: seq<T>, x0: T, x1: T, x2: T, x3: T, x4: T, x5: T, x6: T, x7: T)
    requires xs == [x0, x1, x2, x3, x4, x5, x6, x7]
    ensures |xs| == 8 && xs[0] == x0 && xs[1] == x1 && xs[2] == x2 && xs[3] == x3
    ensures xs[4] == x4 && xs[5] == x5 && xs[6] == x6 && xs[7] == x7
  {
  }

  /** The operands of `pack_u`: opcode, rd, immediate. */
  lemma PackUParts(instr: seq<Part>, ops: seq<Operand>) returns (op: Field, rd: Field, imm: Operand)
    requires PackU(instr) == Ok(ops)
    ensures |instr| == 3
    ensures UnsignedOperand(instr[0], None, 7) == Ok(op) && UnsignedOperand(instr[1], Some("rd"), 5) == Ok(rd)
    ensures Immediate(instr[2], "imm20", 20, 31, 12) == Ok(imm)
    ensures ops == [Fixed(op), Fixed(rd), imm]
  {
    op := UnsignedOperand(instr[0], None, 7).value;
    rd := UnsignedOperand(instr[1], Some("rd"), 5).value;
    imm := Immediate(instr[2], "imm20", 20, 31, 12).value;
  }

  /** `pack_u` keeps the opcode as 7 bits and rd, tagged `rd`, as 5 bits. */
  lemma PackUFields(instr: seq<Part>, ops: seq<Operand>)
    requires PackU(instr) == Ok(ops)
    ensures |instr| == 3 && |ops| == 3 && instr[0].head.Num? && instr[1].head.Num?
    ensures ops[0] == Fixed(Field(instr[0].head.n, 7)) && ops[1] == Fixed(Field(instr[1].head.n, 5))
    ensures instr[1].tags != [] && instr[1].tags[0] == "rd"
  {
    var op, rd, imm := PackUParts(instr, ops);
    Slots3(ops, Fixed(op), Fixed(rd), imm);
  }

  /** A numeric `pack_u` immediate becomes a 20-bit code that reads back,
      sign-extended, as the number; the operands are then 7, 5 and 20 bits
      wide. */
  lemma PackUNumber(instr: seq<Part>, ops: seq<Operand>)
    requires PackU(instr) == Ok(ops) && !IsReference(instr[2])
    ensures |instr| == 3 && |ops| == 3 && instr[2].head.Num?
    ensures ops[2].Fixed? && ops[2].field.size == 20 && Signed(ops[2].field) == instr[2].head.n
    ensures HasWidths(ops, [7, 5, 20])
  {
    var op, rd, imm := PackUParts(instr, ops);
    Slots3(ops, Fixed(op), Fixed(rd), imm);
    HasWidths3(ops, [7, 5, 20]);
  }

  /** A label reference given to `pack_u` reads back with its own slice,
      or [31:12] when it has none. */
  lemma PackUReference(instr: seq<Part>, ops: seq<Operand>)
    requires PackU(instr) == Ok(ops) && IsReference(instr[2])
    ensures |instr| == 3 && |ops| == 3 && ParseReference(instr[2]).Ok?
    ensures var ref := ParseReference(instr[2]).value;
      ops[2].Symbolic? && ParseReference(ops[2].part) == Ok(ref.(bounds := Some(BoundsOr(ref, 31, 12))))
  {
    var op, rd, imm := PackUParts(instr, ops);
    Slots3(ops, Fixed(op), Fixed(rd), imm);
  }

  /** The operands of `pack_i`: opcode, rd, sub-opcode, rs, immediate. */
  lemma PackIParts(instr: seq<Part>, ops: seq<Operand>)
    returns (op: Field, sub: Field, rd: Field, rs: Field, imm: Operand)
    requires PackI(instr) == Ok(ops)
    ensures |instr| == 5
    ensures UnsignedOperand(instr[0], None, 7) == Ok(op) && UnsignedOperand(instr[1], Some("subop"), 3) == Ok(sub)
    ensures UnsignedOperand(instr[2], Some("rd"), 5) == Ok(rd) && UnsignedOperand(instr[3], Some("rs"), 5) == Ok(rs)
    ensures Immediate(instr[4], "imm12", 12, 11, 0) == Ok(imm)
    ensures ops == [Fixed(op), Fixed(rd), Fixed(sub), Fixed(rs), imm]
  {
    op := UnsignedOperand(instr[0], None, 7).value;
    sub := UnsignedOperand(instr[1], Some("subop"), 3).value;
    rd := UnsignedOperand(instr[2], Some("rd"), 5).value;
    rs := UnsignedOperand(instr[3], Some("rs"), 5).value;
    imm := Immediate(instr[4], "imm12", 12, 11, 0).value;
  }

  /** `pack_i` moves rd ahead of the sub-opcode: opcode 7 bits, rd 5,
      sub-opcode 3, rs 5, each checked against its tag. */
  lemma PackIFields(instr: seq<Part>, ops: seq<Operand>)
    requires PackI(instr) == Ok(ops)
    ensures |instr| == 5 && |ops| == 5
    ensures instr[0].head.Num? && instr[1].head.Num? && instr[2].head.Num? && instr[3].head.Num?
    ensures && ops[0] == Fixed(Field(instr[0].head.n, 7))
            && ops[1] == Fixed(Field(instr[2].head.n, 5))
            && ops[2] == Fixed(Field(instr[1].head.n, 3))
            && ops[3] == Fixed(Field(instr[3].head.n, 5))
    ensures && instr[1].tags != [] && instr[1].tags[0] == "subop"
            && instr[2].tags != [] && instr[2].tags[0] == "rd"
            && instr[3].tags != [] && instr[3].tags[0] == "rs"
  {
    var op, sub, rd, rs, imm := PackIParts(instr, ops);
    Slots5(ops, Fixed(op), Fixed(rd), Fixed(sub), Fixed(rs), imm);
  }

  /** A numeric `pack_i` immediate becomes a 12-bit code that reads back,
      sign-extended, as the number; the operands are then 7, 5, 3, 5 and
      12 bits wide. */
  lemma PackINumber(instr: seq<Part>, ops: seq<Operand>)
    requires PackI(instr) == Ok(ops) && !IsReference(instr[4])
    ensures |instr| == 5 && |ops| == 5 && instr[4].head.Num?
    ensures ops[4].Fixed? && ops[4].field.size == 12 && Signed(ops[4].field) == instr[4].head.n
    ensures HasWidths(ops, [7, 5, 3, 5, 12])
  {
    var op, sub, rd, rs, imm := PackIParts(instr, ops);
    Slots5(ops, Fixed(op), Fixed(rd), Fixed(sub), Fixed(rs), imm);
    HasWidths5(ops, [7, 5, 3, 5, 12]);
  }

  /** A label reference given to `pack_i` reads back with its own slice,
      or [11:0] when it has none. */
  lemma PackIReference(instr: seq<Part>, ops: seq<Operand>)
    requires PackI(instr) == Ok(ops) && IsReference(instr[4])
    ensures |instr| == 5 && |ops| == 5 && ParseReference(instr[4]).Ok?
    ensures var ref := ParseReference(instr[4]).value;
      ops[4].Symbolic? && ParseReference(ops[4].part) == Ok(ref.(bounds := Some(BoundsOr(ref, 11, 0))))
  {
    var op, sub, rd, rs, imm := PackIParts(instr, ops);
    Slots5(ops, Fixed(op), Fixed(rd), Fixed(sub), Fixed(rs), imm);
  }

  /** The S-format registers: op, subop, rs1, rs2 as unsigned 7, 3, 5, 5
      bits with their tags; shared by `pack_s` and `pack_b`. */
  function RegistersSB(instr: seq<Part>): (r: Result<(Field, Field, Field, Field)>)
    requires |instr| == 5
    ensures r.Ok? ==> instr[0].head.Num? && instr[1].head.Num? && instr[2].head.Num? && instr[3].head.Num?
    ensures r.Ok? ==> r.value == (Field(instr[0].head.n, 7), Field(instr[1].head.n, 3),
                                  Field(instr[2].head.n, 5), Field(instr[3].head.n, 5))
  {
    var op :- UnsignedOperand(instr[0], None, 7);
    var sub :- UnsignedOperand(instr[1], Some("subop"), 3);
    var rs1 :- UnsignedOperand(instr[2], Some("rs"), 5);
    var rs2 :- UnsignedOperand(instr[3], Some("rs"), 5);
    Ok((op, sub, rs1, rs2))
  }

  /** `pack_s`: (op, subop, rs1, rs2, imm) becomes (op, imm[4:0], subop,
      rs1, rs2, imm[11:5]) of the signed 12-bit `off12` immediate (a
      reference defaults to [11:0]). */
  function PackS(instr: seq<Part>): (r: Result<seq<Operand>>)
  {
    if |instr| != 5 then Fail
    else
      var regs :- RegistersSB(instr);
      var imm :- Immediate(instr[4], "off12", 12, 11, 0);
      var immLo :- SliceBitOrRef(imm, 4, 0);
      var immHi :- SliceBitOrRef(imm, 11, 5);
      Ok([Fixed(regs.0), immLo, Fixed(regs.1), Fixed(regs.2), Fixed(regs.3), immHi])
  }

  /** `pack_j`: (op, rd, imm) becomes (op, rd, imm[18:11], imm[10],
      imm[9:0], imm[19]) of the signed 20-bit `off20` immediate (a
      reference defaults to [20:1]). */
  function PackJ(instr: seq<Part>): (r: Result<seq<Operand>>)
  {
    if |instr| != 3 then Fail
    else
      var op :- UnsignedOperand(instr[0], None, 7);
      var rd :- UnsignedOperand(instr[1], Some("rd"), 5);
      var imm :- Immediate(instr[2], "off20", 20, 20, 1);
      var immLo :- SliceBitOrRef(imm, 9, 0);
      var imm11 :- SliceBitOrRef(imm, 10, 10);
      var immHi :- SliceBitOrRef(imm, 18, 11);
      var imm20 :- SliceBitOrRef(imm, 19, 19);
      Ok([Fixed(op), Fixed(rd), immHi, imm11, immLo, imm20])
  }

  /** `pack_b`: (op, subop, rs1, rs2, imm) becomes (op, imm[10], imm[3:0],
      subop, rs1, rs2, imm[9:4], imm[11]) of the signed 12-bit `off12`
      immediate (a reference defaults to [12:1]). */
  function PackB(instr: seq<Part>): (r: Result<seq<Operand>>)
  {
    if |instr| != 5 then Fail
    else
      var regs :- RegistersSB(instr);
      var imm :- Immediate(instr[4], "off12", 12, 12, 1);
      var immLo :- SliceBitOrRef(imm, 3, 0);
      var immMd :- SliceBitOrRef(imm, 9, 4);
      var imm11 :- SliceBitOrRef(imm, 10, 10);
      var imm12 :- SliceBitOrRef(imm, 11, 11);
      Ok([Fixed(regs.0), imm11, immLo, Fixed(regs.1), Fixed(regs.2), Fixed(regs.3), immMd, imm12])
  }

  // ---------------------------------------------------------------------
  // What the scattering formats produce
  // ---------------------------------------------------------------------

  /** A slice [h:l] of an operand, number or label reference, is
      h - l + 1 bits wide. */
  lemma SliceBitOrRefWidth(o: Operand, h: int, l: int, s: Operand)
    requires 0 <= l <= h && SliceBitOrRef(o, h, l) == Ok(s)
    ensures Width(s) == Ok(h - l + 1)
  {
    if o.Symbolic? {
      var ref := ParseReference(o.part).value;
      assert ParseReference(s.part) == Ok(SubReference(ref, ref.bounds.value, h, l));
    }
  }

  /** A numeric immediate is its two's-complement code, and a slice [h:l]
      of it is that slice of the code. */
  lemma ImmediateSliceNumber(p: Part, tag: string, bits: int, hi: int, lo: int, imm: Operand, h: int, l: int, s: Operand)
    requires tag != "" && !IsReference(p)
    requires Immediate(p, tag, bits, hi, lo) == Ok(imm) && SliceBitOrRef(imm, h, l) == Ok(s)
    ensures p.head.Num? && I(p.head.n, bits) == Ok(imm.field) && imm.Fixed?
    ensures s.Fixed? && Slice(imm.field, h, l) == Ok(s.field)
  {
  }

  /** A slice [h:l] of a label reference is the reference narrowed to
      those bits of its slice ([hi:lo] when it has none of its own). */
  lemma ImmediateSliceReference(p: Part, tag: string, bits: int, hi: int, lo: int, imm: Operand, h: int, l: int, s: Operand)
    requires tag != "" && 0 <= lo <= hi && 0 <= l <= h && IsReference(p)
    requires Immediate(p, tag, bits, hi, lo) == Ok(imm) && SliceBitOrRef(imm, h, l) == Ok(s)
    ensures ParseReference(p).Ok?
    ensures var ref := ParseReference(p).value;
      s == Symbolic(ReferencePart(SubReference(ref, BoundsOr(ref, hi, lo), h, l)))
  {
    var ref := ParseReference(p).value;
    assert ParseReference(imm.part) == Ok(ref.(bounds := Some(BoundsOr(ref, hi, lo))));
  }

  /** The operands of `pack_s`: opcode, imm[4:0], sub-opcode, rs1, rs2,
      imm[11:5]. */
  lemma PackSParts(instr: seq<Part>, ops: seq<Operand>)
    returns (regs: (Field, Field, Field, Field), imm: Operand, s0: Operand, s1: Operand)
    requires PackS(instr) == Ok(ops)
    ensures |instr| == 5 && RegistersSB(instr) == Ok(regs) && Immediate(instr[4], "off12", 12, 11, 0) == Ok(imm)
    ensures SliceBitOrRef(imm, 4, 0) == Ok(s0) && SliceBitOrRef(imm, 11, 5) == Ok(s1)
    ensures ops == [Fixed(regs.0), s0, Fixed(regs.1), Fixed(regs.2), Fixed(regs.3), s1]
  {
    regs := RegistersSB(instr).value;
    imm := Immediate(instr[4], "off12", 12, 11, 0).value;
    s0, s1 := SliceBitOrRef(imm, 4, 0).value, SliceBitOrRef(imm, 11, 5).value;
  }

  /** `pack_s` keeps the registers, and its two immediate slices have
      widths 5 and 7. */
  lemma PackSWidths(instr: seq<Part>, ops: seq<Operand>)
    requires PackS(instr) == Ok(ops)
    ensures |instr| == 5 && HasWidths(ops, [7, 5, 3, 5, 5, 7])
    ensures RegistersSB(instr).Ok? && var regs := RegistersSB(instr).value;
      ops[0] == Fixed(regs.0) && ops[2] == Fixed(regs.1) && ops[3] == Fixed(regs.2) && ops[4] == Fixed(regs.3)
  {
    var regs, imm, s0, s1 := PackSParts(instr, ops);
    Slots6(ops, Fixed(regs.0), s0, Fixed(regs.1), Fixed(regs.2), Fixed(regs.3), s1);
    SliceBitOrRefWidth(imm, 4, 0, s0);
    SliceBitOrRefWidth(imm, 11, 5, s1);
    OperandsSWidths(regs, s0, s1, ops);
  }

  /** A numeric `pack_s` immediate: its two slices, concatenated low slice
      first, give back the immediate's 12-bit code. */
  lemma PackSNumber(instr: seq<Part>, ops: seq<Operand>)
    requires PackS(instr) == Ok(ops) && !IsReference(instr[4])
    ensures |instr| == 5 && |ops| == 6
    ensures ops[1].Fixed? && ops[5].Fixed?
      && ConcatOf([ops[1].field, ops[5].field]) == I(instr[4].head.n, 12)
  {
    var regs, imm, s0, s1 := PackSParts(instr, ops);
    Slots6(ops, Fixed(regs.0), s0, Fixed(regs.1), Fixed(regs.2), Fixed(regs.3), s1);
    ImmediateSliceNumber(instr[4], "off12", 12, 11, 0, imm, 4, 0, s0);
    ImmediateSliceNumber(instr[4], "off12", 12, 11, 0, imm, 11, 5, s1);
    ScatterS(imm.field, s0.field, s1.field);
  }

  /** A label reference given to `pack_s` is cut into its bits [4:0] and
      [11:5] (counted from the low end of its slice, [11:0] by default). */
  lemma PackSReference(instr: seq<Part>, ops: seq<Operand>)
    requires PackS(instr) == Ok(ops) && IsReference(instr[4])
    ensures |instr| == 5 && |ops| == 6
    ensures ParseReference(instr[4]).Ok?
    ensures var ref := ParseReference(instr[4]).value;
      var b := BoundsOr(ref, 11, 0);
      && ops[1] == Symbolic(ReferencePart(SubReference(ref, b, 4, 0)))
      && ops[5] == Symbolic(ReferencePart(SubReference(ref, b, 11, 5)))
  {
    var regs, imm, s0, s1 := PackSParts(instr, ops);
    Slots6(ops, Fixed(regs.0), s0, Fixed(regs.1), Fixed(regs.2), Fixed(regs.3), s1);
    ImmediateSliceReference(instr[4], "off12", 12, 11, 0, imm, 4, 0, s0);
    ImmediateSliceReference(instr[4], "off12", 12, 11, 0, imm, 11, 5, s1);
  }

  lemma ScatterS(code: Field, p0: Field, p1: Field)
    requires Fits(code) && code.size == 12
    requires Slice(code, 4, 0) == Ok(p0) && Slice(code, 11, 5) == Ok(p1)
    ensures ConcatOf([p0, p1]) == Ok(code)
  {
    assert Tiles(code, [p0, p1], 0) by {
      assert [p1][1..] == [];
      assert Tiles(code, [p1], 5);
      assert [p0, p1][1..] == [p1];
    }
    ConcatOfTiles(code, [p0, p1]);
  }

  /** The operands of `pack_j`: opcode, rd, imm[18:11], imm[10], imm[9:0],
      imm[19]. */
  lemma PackJParts(instr: seq<Part>, ops: seq<Operand>)
    returns (imm: Operand, s0: Operand, s1: Operand, s2: Operand, s3: Operand)
    requires PackJ(instr) == Ok(ops)
    ensures |instr| == 3 && instr[0].head.Num? && instr[1].head.Num?
    ensures Immediate(instr[2], "off20", 20, 20, 1) == Ok(imm)
    ensures SliceBitOrRef(imm, 9, 0) == Ok(s0) && SliceBitOrRef(imm, 10, 10) == Ok(s1)
    ensures SliceBitOrRef(imm, 18, 11) == Ok(s2) && SliceBitOrRef(imm, 19, 19) == Ok(s3)
    ensures ops == [Fixed(Field(instr[0].head.n, 7)), Fixed(Field(instr[1].head.n, 5)), s2, s1, s0, s3]
  {
    imm := Immediate(instr[2], "off20", 20, 20, 1).value;
    s0, s1 := SliceBitOrRef(imm, 9, 0).value, SliceBitOrRef(imm, 10, 10).value;
    s2, s3 := SliceBitOrRef(imm, 18, 11).value, SliceBitOrRef(imm, 19, 19).value;
  }

  /** `pack_j` keeps opcode and rd, and emits the immediate as slices of
      widths 8, 1, 10, 1. */
  lemma PackJWidths(instr: seq<Part>, ops: seq<Operand>)
    requires PackJ(instr) == Ok(ops)
    ensures |instr| == 3 && HasWidths(ops, [7, 5, 8, 1, 10, 1])
    ensures instr[0].head.Num? && instr[1].head.Num?
    ensures ops[0] == Fixed(Field(instr[0].head.n, 7)) && ops[1] == Fixed(Field(instr[1].head.n, 5))
  {
    var imm, s0, s1, s2, s3 := PackJParts(instr, ops);
    Slots6(ops, Fixed(Field(instr[0].head.n, 7)), Fixed(Field(instr[1].head.n, 5)), s2, s1, s0, s3);
    SliceBitOrRefWidth(imm, 9, 0, s0);
    SliceBitOrRefWidth(imm, 10, 10, s1);
    SliceBitOrRefWidth(imm, 18, 11, s2);
    SliceBitOrRefWidth(imm, 19, 19, s3);
    OperandsJWidths(Field(instr[0].head.n, 7), Field(instr[1].head.n, 5), s0, s1, s2, s3, ops);
  }

  /** A numeric `pack_j` immediate: its slices, concatenated in bit order
      ([9:0], [10], [18:11], [19]), give back its 20-bit code. */
  lemma PackJNumber(instr: seq<Part>, ops: seq<Operand>)
    requires PackJ(instr) == Ok(ops) && !IsReference(instr[2])
    ensures |instr| == 3 && |ops| == 6
    ensures ops[2].Fixed? && ops[3].Fixed? && ops[4].Fixed? && ops[5].Fixed?
      && ConcatOf([ops[4].field, ops[3].field, ops[2].field, ops[5].field]) == I(instr[2].head.n, 20)
  {
    var imm, s0, s1, s2, s3 := PackJParts(instr, ops);
    Slots6(ops, Fixed(Field(instr[0].head.n, 7)), Fixed(Field(instr[1].head.n, 5)), s2, s1, s0, s3);
    ImmediateSliceNumber(instr[2], "off20", 20, 20, 1, imm, 9, 0, s0);
    ImmediateSliceNumber(instr[2], "off20", 20, 20, 1, imm, 10, 10, s1);
    ImmediateSliceNumber(instr[2], "off20", 20, 20, 1, imm, 18, 11, s2);
    ImmediateSliceNumber(instr[2], "off20", 20, 20, 1, imm, 19, 19, s3);
    ScatterJ(imm.field, s0.field, s1.field, s2.field, s3.field);
  }

  /** A label reference given to `pack_j` is cut into its bits [10:1],
      [11], [19:12] and [20] when it takes the default slice [20:1]. */
  lemma PackJReference(instr: seq<Part>, ops: seq<Operand>)
    requires PackJ(instr) == Ok(ops) && IsReference(instr[2])
    ensures |instr| == 3 && |ops| == 6
    ensures ParseReference(instr[2]).Ok?
    ensures var ref := ParseReference(instr[2]).value;
      var b := BoundsOr(ref, 20, 1);
      && ops[4] == Symbolic(ReferencePart(SubReference(ref, b, 9, 0)))
      && ops[3] == Symbolic(ReferencePart(SubReference(ref, b, 10, 10)))
      && ops[2] == Symbolic(ReferencePart(SubReference(ref, b, 18, 11)))
      && ops[5] == Symbolic(ReferencePart(SubReference(ref, b, 19, 19)))
  {
    var imm, s0, s1, s2, s3 := PackJParts(instr, ops);
    Slots6(ops, Fixed(Field(instr[0].head.n, 7)), Fixed(Field(instr[1].head.n, 5)), s2, s1, s0, s3);
    ImmediateSliceReference(instr[2], "off20", 20, 20, 1, imm, 9, 0, s0);
    ImmediateSliceReference(instr[2], "off20", 20, 20, 1, imm, 10, 10, s1);
    ImmediateSliceReference(instr[2], "off20", 20, 20, 1, imm, 18, 11, s2);
    ImmediateSliceReference(instr[2], "off20", 20, 20, 1, imm, 19, 19, s3);
  }

  lemma ScatterJ(code: Field, p0: Field, p1: Field, p2: Field, p3: Field)
    requires Fits(code) && code.size == 20
    requires Slice(code, 9, 0) == Ok(p0) && Slice(code, 10, 10) == Ok(p1)
    requires Slice(code, 18, 11) == Ok(p2) && Slice(code, 19, 19) == Ok(p3)
    ensures ConcatOf([p0, p1, p2, p3]) == Ok(code)
  {
    assert Tiles(code, [p0, p1, p2, p3], 0) by {
      assert [p3][1..] == [];
      assert Tiles(code, [p3], 19);
      assert [p2, p3][1..] == [p3];
      assert Tiles(code, [p2, p3], 11);
      assert [p1, p2, p3][1..] == [p2, p3];
      assert Tiles(code, [p1, p2, p3], 10);
      assert [p0, p1, p2, p3][1..] == [p1, p2, p3];
    }
    ConcatOfTiles(code, [p0, p1, p2, p3]);
  }

  /** The operands of `pack_b`: opcode, imm[10], imm[3:0], sub-opcode,
      rs1, rs2, imm[9:4], imm[11]. */
  lemma PackBParts(instr: seq<Part>, ops: seq<Operand>)
    returns (regs: (Field, Field, Field, Field), imm: Operand, s0: Operand, s1: Operand, s2: Operand, s3: Operand)
    requires PackB(instr) == Ok(ops)
    ensures |instr| == 5 && RegistersSB(instr) == Ok(regs) && Immediate(instr[4], "off12", 12, 12, 1) == Ok(imm)
    ensures SliceBitOrRef(imm, 3, 0) == Ok(s0) && SliceBitOrRef(imm, 9, 4) == Ok(s1)
    ensures SliceBitOrRef(imm, 10, 10) == Ok(s2) && SliceBitOrRef(imm, 11, 11) == Ok(s3)
    ensures ops == [Fixed(regs.0), s2, s0, Fixed(regs.1), Fixed(regs.2), Fixed(regs.3), s1, s3]
  {
    regs := RegistersSB(instr).value;
    imm := Immediate(instr[4], "off12", 12, 12, 1).value;
    s0, s1 := SliceBitOrRef(imm, 3, 0).value, SliceBitOrRef(imm, 9, 4).value;
    s2, s3 := SliceBitOrRef(imm, 10, 10).value, SliceBitOrRef(imm, 11, 11).value;
  }

  /** `pack_b` keeps the registers, and emits the immediate as slices of
      widths 1, 4, 6, 1. */
  lemma PackBWidths(instr: seq<Part>, ops: seq<Operand>)
    requires PackB(instr) == Ok(ops)
    ensures |instr| == 5 && HasWidths(ops, [7, 1, 4, 3, 5, 5, 6, 1])
    ensures RegistersSB(instr).Ok? && var regs := RegistersSB(instr).value;
      ops[0] == Fixed(regs.0) && ops[3] == Fixed(regs.1) && ops[4] == Fixed(regs.2) && ops[5] == Fixed(regs.3)
  {
    var regs, imm, s0, s1, s2, s3 := PackBParts(instr, ops);
    Slots8(ops, Fixed(regs.0), s2, s0, Fixed(regs.1), Fixed(regs.2), Fixed(regs.3), s1, s3);
    SliceBitOrRefWidth(imm, 3, 0, s0);
    SliceBitOrRefWidth(imm, 9, 4, s1);
    SliceBitOrRefWidth(imm, 10, 10, s2);
    SliceBitOrRefWidth(imm, 11, 11, s3);
    OperandsBWidths(regs, s0, s1, s2, s3, ops);
  }

  /** A numeric `pack_b` immediate: its slices, concatenated in bit order
      ([3:0], [9:4], [10], [11]), give back its 12-bit code. */
  lemma PackBNumber(instr: seq<Part>, ops: seq<Operand>)
    requires PackB(instr) == Ok(ops) && !IsReference(instr[4])
    ensures |instr| == 5 && |ops| == 8
    ensures ops[1].Fixed? && ops[2].Fixed? && ops[6].Fixed? && ops[7].Fixed?
      && ConcatOf([ops[2].field, ops[6].field, ops[1].field, ops[7].field]) == I(instr[4].head.n, 12)
  {
    var regs, imm, s0, s1, s2, s3 := PackBParts(instr, ops);
    Slots8(ops, Fixed(regs.0), s2, s0, Fixed(regs.1), Fixed(regs.2), Fixed(regs.3), s1, s3);
    ImmediateSliceNumber(instr[4], "off12", 12, 12, 1, imm, 3, 0, s0);
    ImmediateSliceNumber(instr[4], "off12", 12, 12, 1, imm, 9, 4, s1);
    ImmediateSliceNumber(instr[4], "off12", 12, 12, 1, imm, 10, 10, s2);
    ImmediateSliceNumber(instr[4], "off12", 12, 12, 1, imm, 11, 11, s3);
    ScatterB(imm.field, s0.field, s1.field, s2.field, s3.field);
  }

  /** A label reference given to `pack_b` is cut into its bits [4:1],
      [10:5], [11] and [12] when it takes the default slice [12:1]. */
  lemma PackBReference(instr: seq<Part>, ops: seq<Operand>)
    requires PackB(instr) == Ok(ops) && IsReference(instr[4])
    ensures |instr| == 5 && |ops| == 8
    ensures ParseReference(instr[4]).Ok?
    ensures var ref := ParseReference(instr[4]).value;
      var b := BoundsOr(ref, 12, 1);
      && ops[2] == Symbolic(ReferencePart(SubReference(ref, b, 3, 0)))
      && ops[6] == Symbolic(ReferencePart(SubReference(ref, b, 9, 4)))
      && ops[1] == Symbolic(ReferencePart(SubReference(ref, b, 10, 10)))
      && ops[7] == Symbolic(ReferencePart(SubReference(ref, b, 11, 11)))
  {
    var regs, imm, s0, s1, s2, s3 := PackBParts(instr, ops);
    Slots8(ops, Fixed(regs.0), s2, s0, Fixed(regs.1), Fixed(regs.2), Fixed(regs.3), s1, s3);
    ImmediateSliceReference(instr[4], "off12", 12, 12, 1, imm, 3, 0, s0);
    ImmediateSliceReference(instr[4], "off12", 12, 12, 1, imm, 9, 4, s1);
    ImmediateSliceReference(instr[4], "off12", 12, 12, 1, imm, 10, 10, s2);
    ImmediateSliceReference(instr[4], "off12", 12, 12, 1, imm, 11, 11, s3);
  }

  /** The widths of S-, J- and B-format operands, given the widths of
      their pieces. */
  lemma OperandsSWidths(regs: (Field, Field, Field, Field), s0: Operand, s1: Operand, ops: seq<Operand>)
    requires regs.0.size == 7 && regs.1.size == 3 && regs.2.size == 5 && regs.3.size == 5
    requires Width(s0) == Ok(5) && Width(s1) == Ok(7)
    requires ops == [Fixed(regs.0), s0, Fixed(regs.1), Fixed(regs.2), Fixed(regs.3), s1]
    ensures HasWidths(ops, [7, 5, 3, 5, 5, 7])
  {
    Slots6(ops, Fixed(regs.0), s0, Fixed(regs.1), Fixed(regs.2), Fixed(regs.3), s1);
    HasWidths6(ops, [7, 5, 3, 5, 5, 7]);
  }

  lemma OperandsJWidths(op: Field, rd: Field, s0: Operand, s1: Operand, s2: Operand, s3: Operand, ops: seq<Operand>)
    requires op.size == 7 && rd.size == 5
    requires Width(s0) == Ok(10) && Width(s1) == Ok(1) && Width(s2) == Ok(8) && Width(s3) == Ok(1)
    requires ops == [Fixed(op), Fixed(rd), s2, s1, s0, s3]
    ensures HasWidths(ops, [7, 5, 8, 1, 10, 1])
  {
    Slots6(ops, Fixed(op), Fixed(rd), s2, s1, s0, s3);
    HasWidths6(ops, [7, 5, 8, 1, 10, 1]);
  }

  lemma OperandsBWidths(regs: (Field, Field, Field, Field), s0: Operand, s1: Operand, s2: Operand, s3: Operand,
                        ops: seq<Operand>)
    requires regs.0.size == 7 && regs.1.size == 3 && regs.2.size == 5 && regs.3.size == 5
    requires Width(s0) == Ok(4) && Width(s1) == Ok(6) && Width(s2) == Ok(1) && Width(s3) == Ok(1)
    requires ops == [Fixed(regs.0), s2, s0, Fixed(regs.1), Fixed(regs.2), Fixed(regs.3), s1, s3]
    ensures HasWidths(ops, [7, 1, 4, 3, 5, 5, 6, 1])
  {
    Slots8(ops, Fixed(regs.0), s2, s0, Fixed(regs.1), Fixed(regs.2), Fixed(regs.3), s1, s3);
    HasWidths8(ops, [7, 1, 4, 3, 5, 5, 6, 1]);
  }

  lemma ScatterB(code: Field, p0: Field, p1: Field, p2: Field, p3: Field)
    requires Fits(code) && code.size == 12
    requires Slice(code, 3, 0) == Ok(p0) && Slice(code, 9, 4) == Ok(p1)
    requires Slice(code, 10, 10) == Ok(p2) && Slice(code, 11, 11) == Ok(p3)
    ensures ConcatOf([p0, p1, p2, p3]) == Ok(code)
  {
    assert Tiles(code, [p0, p1, p2, p3], 0) by {
      assert [p3][1..] == [];
      assert Tiles(code, [p3], 11);
      assert [p2, p3][1..] == [p3];
      assert Tiles(code, [p2, p3], 10);
      assert [p1, p2, p3][1..] == [p2, p3];
      assert Tiles(code, [p1, p2, p3], 4);
      assert [p0, p1, p2, p3][1..] == [p1, p2, p3];
    }
    ConcatOfTiles(code, [p0, p1, p2, p3]);
  }

  // ---------------------------------------------------------------------
  // Width of U and I immediates given as label references
  // ---------------------------------------------------------------------

  /** A reference with a slice of its own keeps it, and its width,
      through the default slicing. */
  lemma DefaultSliceKeepsSlice(p: Part, hi: int, lo: int)
    requires ParseReference(p).Ok? && ParseReference(p).value.bounds.Some? && 0 <= lo <= hi
    requires var ref := ParseReference(p).value; ref.size == ref.bounds.value.hi - ref.bounds.value.lo + 1
    ensures IsReference(p) && DefaultSlice(p, hi, lo).Ok?
    ensures Width(Symbolic(DefaultSlice(p, hi, lo).value)) == Ok(ParseReference(p).value.size)
  {
  }

  /** As written, `pack_u` checks a label reference's slice only against
      the size in its own field tag, never against the 20 bits of the U
      format: a sliced reference of any width is accepted. */
  lemma PackUAcceptsAnyReferenceWidth(op: int, rd: int, p: Part)
    requires 0 <= op < 128 && 0 <= rd < 32
    requires ParseReference(p).Ok? && ParseReference(p).value.bounds.Some?
    requires var ref := ParseReference(p).value; ref.size == ref.bounds.value.hi - ref.bounds.value.lo + 1
    ensures var instr := [Part(Num(op), ["lui"]), Part(Num(rd), ["rd"]), p];
      PackU(instr).Ok? && HasWidths(PackU(instr).value, [7, 5, ParseReference(p).value.size])
  {
    var instr := [Part(Num(op), ["lui"]), Part(Num(rd), ["rd"]), p];
    DefaultSliceKeepsSlice(p, 31, 12);
    var q := DefaultSlice(p, 31, 12).value;
    var ops := [Fixed(Field(op, 7)), Fixed(Field(rd, 5)), Symbolic(q)];
    assert PackU(instr) == Ok(ops) by {
      Slots3(instr, Part(Num(op), ["lui"]), Part(Num(rd), ["rd"]), p);
      assert UnsignedOperand(instr[0], None, 7) == Ok(Field(op, 7));
      assert UnsignedOperand(instr[1], Some("rd"), 5) == Ok(Field(rd, 5));
      assert Immediate(instr[2], "imm20", 20, 31, 12) == Ok(Symbolic(q));
    }
    assert HasWidths(ops, [7, 5, ParseReference(p).value.size]) by {
      Slots3(ops, Fixed(Field(op, 7)), Fixed(Field(rd, 5)), Symbolic(q));
      HasWidths3(ops, [7, 5, ParseReference(p).value.size]);
    }
  }

  /** Likewise `pack_i` accepts a sliced reference of any width. */
  lemma PackIAcceptsAnyReferenceWidth(op: int, rd: int, p: Part)
    requires 0 <= op < 128 && 0 <= rd < 32
    requires ParseReference(p).Ok? && ParseReference(p).value.bounds.Some?
    requires var ref := ParseReference(p).value; ref.size == ref.bounds.value.hi - ref.bounds.value.lo + 1
    ensures var instr := [Part(Num(op), ["opi"]), Part(Num(0), ["subop"]), Part(Num(rd), ["rd"]), Part(Num(0), ["rs"]), p];
      PackI(instr).Ok? && HasWidths(PackI(instr).value, [7, 5, 3, 5, ParseReference(p).value.size])
  {
    DefaultSliceKeepsSlice(p, 11, 0);
    var q := DefaultSlice(p, 11, 0).value;
    assert Immediate(p, "imm12", 12, 11, 0) == Ok(Symbolic(q));
    PackIOfImmediate(op, rd, p, Symbolic(q), ParseReference(p).value.size);
  }

  /** `pack_i` of numeric op, subop, rd and rs and an immediate of width w. */
  lemma PackIOfImmediate(op: int, rd: int, p: Part, imm: Operand, w: int)
    requires 0 <= op < 128 && 0 <= rd < 32
    requires Immediate(p, "imm12", 12, 11, 0) == Ok(imm) && Width(imm) == Ok(w)
    ensures var instr := [Part(Num(op), ["opi"]), Part(Num(0), ["subop"]), Part(Num(rd), ["rd"]), Part(Num(0), ["rs"]), p];
      PackI(instr) == Ok([Fixed(Field(op, 7)), Fixed(Field(rd, 5)), Fixed(Field(0, 3)), Fixed(Field(0, 5)), imm])
      && HasWidths(PackI(instr).value, [7, 5, 3, 5, w])
  {
    assert Pow2(3) == 8 && Pow2(5) == 32 && Pow2(7) == 128;
    NumberOperand(op, ["opi"], None, 7);
    NumberOperand(0, ["subop"], Some("subop"), 3);
    NumberOperand(rd, ["rd"], Some("rd"), 5);
    NumberOperand(0, ["rs"], Some("rs"), 5);
    PackIOf(Part(Num(op), ["opi"]), Part(Num(0), ["subop"]), Part(Num(rd), ["rd"]), Part(Num(0), ["rs"]), p,
            Field(op, 7), Field(0, 3), Field(rd, 5), Field(0, 5), imm);
    WidthsOf5(Fixed(Field(op, 7)), Fixed(Field(rd, 5)), Fixed(Field(0, 3)), Fixed(Field(0, 5)), imm, 7, 5, 3, 5, w);
  }

  /** `lui x5, pos[11:0]`: a 24-bit U instruction the formatter lets through. */
  lemma PackUAcceptsNarrowReference()
    ensures var ref := Reference("pos", Imm, 12, [], Some(Bounds(11, 0)));
      var instr := [Part(Num(0x37), ["lui"]), Part(Num(5), ["rd"]), ReferencePart(ref)];
      PackU(instr).Ok? && HasWidths(PackU(instr).value, [7, 5, 12])
  {
    var ref := Reference("pos", Imm, 12, [], Some(Bounds(11, 0)));
    ReferenceRoundTrip(ref);
    PackUAcceptsAnyReferenceWidth(0x37, 5, ReferencePart(ref));
  }

  /** `addi x6, x0, x[19:0]`: a 40-bit I instruction the formatter lets
      through. */
  lemma PackIAcceptsWideReference()
    ensures var ref := Reference("x", Imm, 20, [], Some(Bounds(19, 0)));
      var instr := [Part(Num(0x13), ["opi"]), Part(Num(0), ["subop"]), Part(Num(6), ["rd"]),
                    Part(Num(0), ["rs"]), ReferencePart(ref)];
      PackI(instr).Ok? && HasWidths(PackI(instr).value, [7, 5, 3, 5, 20])
  {
    var ref := Reference("x", Imm, 20, [], Some(Bounds(19, 0)));
    ReferenceRoundTrip(ref);
    PackIAcceptsAnyReferenceWidth(0x13, 6, ReferencePart(ref));
  }

  /** `pack_u` with the check its numeric branch already makes: the
      immediate, a label reference included, must be 20 bits wide. */
  function CheckedPackU(instr: seq<Part>): (r: Result<seq<Operand>>)
    ensures r.Ok? <==> PackU(instr).Ok? && Width(PackU(instr).value[2]) == Ok(20)
    ensures r.Ok? ==> r == PackU(instr) && HasWidths(r.value, [7, 5, 20])
  {
    var packed := PackU(instr);
    if packed.Fail? || Width(packed.value[2]) != Ok(20) then Fail
    else
      PackUWidths(instr, packed.value);
      packed
  }

  lemma PackUWidths(instr: seq<Part>, ops: seq<Operand>)
    requires PackU(instr) == Ok(ops) && Width(ops[2]) == Ok(20)
    ensures HasWidths(ops, [7, 5, 20])
  {
    PackUFields(instr, ops);
    HasWidths3(ops, [7, 5, 20]);
  }

  /** `pack_i` with the immediate, a label reference included, required to
      be 12 bits wide. */
  function CheckedPackI(instr: seq<Part>): (r: Result<seq<Operand>>)
    ensures r.Ok? <==> PackI(instr).Ok? && Width(PackI(instr).value[4]) == Ok(12)
    ensures r.Ok? ==> r == PackI(instr) && HasWidths(r.value, [7, 5, 3, 5, 12])
  {
    var packed := PackI(instr);
    if packed.Fail? || Width(packed.value[4]) != Ok(12) then Fail
    else
      PackIWidths(instr, packed.value);
      packed
  }

  lemma PackIWidths(instr: seq<Part>, ops: seq<Operand>)
    requires PackI(instr) == Ok(ops) && Width(ops[4]) == Ok(12)
    ensures HasWidths(ops, [7, 5, 3, 5, 12])
  {
    PackIFields(instr, ops);
    HasWidths5(ops, [7, 5, 3, 5, 12]);
  }

  // ---------------------------------------------------------------------
  // Opcodes
  // ---------------------------------------------------------------------

  /** The base instruction formats the formatter knows (no R format). */
  datatype Encoding = UType | IType | SType | BType | JType

  /** `instr_map`: the format and opcode of each mnemonic tag. */
  function InstrMap(mnemonic: string): (r: Option<(Encoding, int)>)
    ensures r.Some? <==> mnemonic in ["load", "opi", "jalr", "store", "branch", "lui", "auipc", "jal"]
    ensures r.Some? ==> 0 <= r.value.1 < 128 && r.value.1 % 4 == 3
  {
    if mnemonic == "load" then Some((IType, 0x03))
    else if mnemonic == "opi" then Some((IType, 0x13))
    else if mnemonic == "jalr" then Some((IType, 0x67))
    else if mnemonic == "store" then Some((SType, 0x23))
    else if mnemonic == "branch" then Some((BType, 0x63))
    else if mnemonic == "lui" then Some((UType, 0x37))
    else if mnemonic == "auipc" then Some((UType, 0x17))
    else if mnemonic == "jal" then Some((JType, 0x6f))
    else None
  }

  /** The field widths of each format, lowest bits first. */
  function Layout(e: Encoding): (widths: seq<int>)
    ensures Sum(widths) == 32
  {
    match e
    case UType => [7, 5, 20]
    case IType => [7, 5, 3, 5, 12]
    case SType => [7, 5, 3, 5, 5, 7]
    case BType => [7, 1, 4, 3, 5, 5, 6, 1]
    case JType => [7, 5, 8, 1, 10, 1]
  }

  /** The check `format` makes of the U or I immediate only when it is a
      number: the immediate operand is exactly as wide as the format's
      immediate field. S, B and J immediates are always checked. */
  predicate ImmediateFits(e: Encoding, ops: seq<Operand>)
  {
    match e
    case UType => |ops| == 3 && Width(ops[2]) == Ok(20)
    case IType => |ops| == 5 && Width(ops[4]) == Ok(12)
    case _ => true
  }

  /** The formatter for each format, as `format` calls it: `pack_u`,
      `pack_i`, `pack_s`, `pack_b` or `pack_j`. The operands have the
      format's widths exactly when the immediate fits, which a numeric
      immediate always does; a U or I label reference keeps the width of
      its own tag. */
  function Encode(e: Encoding, instr: seq<Part>): (r: Result<seq<Operand>>)
    ensures r.Ok? ==> |r.value| == |Layout(e)| && instr != []
    ensures r.Ok? ==> (HasWidths(r.value, Layout(e)) <==> ImmediateFits(e, r.value))
    ensures r.Ok? && !IsReference(instr[|instr| - 1]) ==> HasWidths(r.value, Layout(e))
  {
    match e
    case UType =>
      var ops :- PackU(instr);
      PackUFits(instr, ops);
      Ok(ops)
    case IType =>
      var ops :- PackI(instr);
      PackIFits(instr, ops);
      Ok(ops)
    case SType =>
      var ops :- PackS(instr);
      PackSWidths(instr, ops);
      Ok(ops)
    case BType =>
      var ops :- PackB(instr);
      PackBWidths(instr, ops);
      Ok(ops)
    case JType =>
      var ops :- PackJ(instr);
      PackJWidths(instr, ops);
      Ok(ops)
  }

  /** The `pack_u` operands have the U widths exactly when the immediate
      is 20 bits wide, which a numeric one always is. */
  lemma PackUFits(instr: seq<Part>, ops: seq<Operand>)
    requires PackU(instr) == Ok(ops)
    ensures HasWidths(ops, [7, 5, 20]) <==> Width(ops[2]) == Ok(20)
    ensures !IsReference(instr[2]) ==> HasWidths(ops, [7, 5, 20])
  {
    if !IsReference(instr[2]) {
      PackUNumber(instr, ops);
    }
    if Width(ops[2]) == Ok(20) {
      PackUWidths(instr, ops);
    }
  }

  /** The `pack_i` operands have the I widths exactly when the immediate
      is 12 bits wide, which a numeric one always is. */
  lemma PackIFits(instr: seq<Part>, ops: seq<Operand>)
    requires PackI(instr) == Ok(ops)
    ensures HasWidths(ops, [7, 5, 3, 5, 12]) <==> Width(ops[4]) == Ok(12)
    ensures !IsReference(instr[4]) ==> HasWidths(ops, [7, 5, 3, 5, 12])
  {
    if !IsReference(instr[4]) {
      PackINumber(instr, ops);
    }
    if Width(ops[4]) == Ok(12) {
      PackIWidths(instr, ops);
    }
  }

  /** The formatter with the U and I immediates checked like the others:
      it accepts what `Encode` accepts when the immediate fits, gives the
      same operands, and they always lay out the 32 bits of an
      instruction. */
  function CheckedEncode(e: Encoding, instr: seq<Part>): (r: Result<seq<Operand>>)
    ensures r.Ok? <==> Encode(e, instr).Ok? && ImmediateFits(e, Encode(e, instr).value)
    ensures r.Ok? ==> r == Encode(e, instr)
    ensures r.Ok? ==> HasWidths(r.value, Layout(e)) && Sum(Layout(e)) == 32
  {
    match e
    case UType => CheckedPackU(instr)
    case IType => CheckedPackI(instr)
    case _ => Encode(e, instr)
  }

  // ---------------------------------------------------------------------
  // The stage
  // ---------------------------------------------------------------------

  /** The opcode check of `format`: the first part must carry exactly one
      tag, a mnemonic of `instr_map`, and its value must be that mnemonic's
      opcode. */
  function Mnemonic(instr: seq<Part>): (r: Result<Encoding>)
    ensures r.Ok? <==>
      && instr != [] && |instr[0].tags| == 1 && InstrMap(instr[0].tags[0]).Some?
      && instr[0].head == Num(InstrMap(instr[0].tags[0]).value.1)
    ensures r.Ok? ==> r.value == InstrMap(instr[0].tags[0]).value.0
  {
    if instr == [] || |instr[0].tags| != 1 then Fail
    else
      match InstrMap(instr[0].tags[0])
      case None => Fail
      case Some(entry) =>
        if instr[0].head != Num(entry.1) then Fail else Ok(entry.0)
  }

  /** One line of `format` with the name of the segment it is in: an
      instruction line of the `code` segment is checked, reordered and
      printed; any other line comes out as its stripped text, and a segment
      line sets the segment for the lines after it. */
  function FormatStep(segment: Option<string>, text: string): Result<(Option<string>, string)>
  {
    var line :- Parse(text);
    if segment == Some("code") && line.body.InstrBody? then
      var e :- Mnemonic(line.body.instr);
      var ops :- Encode(e, line.body.instr);
      var printed := FormatLine(line.(body := InstrBody(OperandParts(ops))));
      Ok((segment, printed.value))
    else
      Ok((if line.body.SegmentBody? then Some(line.body.segment.name) else segment, line.raw))
  }

  /** A line that does not parse fails the step; any other line outside
      the `code` segment, or that is not an instruction, comes out as its
      stripped text, a segment line moving to its segment; an instruction
      in `code` passes exactly when its mnemonic is known and its parts
      encode, and leaves the segment as it was. */
  lemma FormatStepCases(segment: Option<string>, text: string)
    ensures Parse(text).Fail? ==> FormatStep(segment, text).Fail?
    ensures Parse(text).Ok? && !(segment == Some("code") && Parse(text).value.body.InstrBody?) ==>
      var r := FormatStep(segment, text);
      && r.Ok? && r.value.1 == Parse(text).value.raw
      && r.value.0 == (if Parse(text).value.body.SegmentBody? then Some(Parse(text).value.body.segment.name) else segment)
    ensures Parse(text).Ok? && segment == Some("code") && Parse(text).value.body.InstrBody? ==>
      var line := Parse(text).value;
      var r := FormatStep(segment, text);
      && (r.Ok? <==> Mnemonic(line.body.instr).Ok? && Encode(Mnemonic(line.body.instr).value, line.body.instr).Ok?)
      && (r.Ok? ==> r.value.0 == segment)
  {
  }

  /** What `FormatStep` prints for an instruction of the `code` segment:
      the line with its parts replaced by the encoded operands. */
  lemma FormatStepInstr(segment: Option<string>, text: string)
    requires segment == Some("code") && FormatStep(segment, text).Ok?
    requires Parse(text).Ok? && Parse(text).value.body.InstrBody?
    ensures var line := Parse(text).value;
      && Mnemonic(line.body.instr).Ok? && Encode(Mnemonic(line.body.instr).value, line.body.instr).Ok?
      && var ops := Encode(Mnemonic(line.body.instr).value, line.body.instr).value;
      && FormatLine(line.(body := InstrBody(OperandParts(ops)))).Ok?
      && FormatStep(segment, text).value.1 == FormatLine(line.(body := InstrBody(OperandParts(ops)))).value
  {
  }

  /** The line is an instruction of the `code` segment with a known
      mnemonic whose U or I immediate does not fit its field. */
  predicate Overwide(segment: Option<string>, text: string)
  {
    && segment == Some("code") && Parse(text).Ok? && Parse(text).value.body.InstrBody?
    && var instr := Parse(text).value.body.instr;
    && Mnemonic(instr).Ok? && Encode(Mnemonic(instr).value, instr).Ok?
    && CheckedEncode(Mnemonic(instr).value, instr).Fail?
  }

  /** A formatter step that also rejects an overwide U or I immediate. */
  function CheckedFormatStep(segment: Option<string>, text: string): Result<(Option<string>, string)>
  {
    if Overwide(segment, text) then Fail else FormatStep(segment, text)
  }

  /** The checked step accepts a line only where `FormatStep` does, gives
      the same result, and every instruction it prints in `code` is made of
      operands that lay out exactly the 32 bits of its format. */
  lemma CheckedFormatStepLayout(segment: Option<string>, text: string)
    requires CheckedFormatStep(segment, text).Ok?
    ensures FormatStep(segment, text) == CheckedFormatStep(segment, text)
    ensures segment == Some("code") && Parse(text).value.body.InstrBody? ==>
      var line := Parse(text).value;
      var e := Mnemonic(line.body.instr).value;
      var ops := Encode(e, line.body.instr).value;
      && HasWidths(ops, Layout(e)) && Sum(Layout(e)) == 32
      && CheckedFormatStep(segment, text).value.1 == FormatLine(line.(body := InstrBody(OperandParts(ops)))).value
  {
    FormatStepCases(segment, text);
    if segment == Some("code") && Parse(text).value.body.InstrBody? {
      FormatStepInstr(segment, text);
    }
  }

  /** The checked formatter over a whole input. */
  function CheckedFormatRun(lines: seq<string>): Result<(Option<string>, seq<string>)>
  {
    Run(CheckedFormatStep, None, lines)
  }

  /** Where the checked formatter succeeds the formatter as written
      produces the same lines. */
  lemma {:induction false} CheckedFormatRunAgrees(lines: seq<string>)
    requires CheckedFormatRun(lines).Ok?
    ensures FormatRun(lines) == CheckedFormatRun(lines)
  {
    if lines != [] {
      var n := |lines|;
      var init, last := lines[..n - 1], lines[n - 1];
      RunLastStep(CheckedFormatStep, None, lines);
      CheckedFormatRunAgrees(init);
      var state := CheckedFormatRun(init).value.0;
      CheckedFormatStepLayout(state, last);
      RunSameLastStep(FormatStep, CheckedFormatStep, None, lines);
    }
  }

  /** Every line of an input the checked formatter accepts passes the
      checked step in the segment opened last before it. */
  lemma CheckedFormatRunLines(lines: seq<string>)
    requires CheckedFormatRun(lines).Ok?
    ensures FormatRun(lines) == CheckedFormatRun(lines)
    ensures forall i :: 0 <= i < |lines| ==> CheckedFormatStep(LastSegment(lines[..i]), lines[i]).Ok?
  {
    CheckedFormatRunAgrees(lines);
    RunOutputs(CheckedFormatStep, None, lines);
    forall i | 0 <= i < |lines|
      ensures CheckedFormatStep(LastSegment(lines[..i]), lines[i]).Ok?
    {
      CheckedFormatRunAgrees(lines[..i]);
      FormatRunSegment(lines[..i]);
    }
  }

  /** A step function run over xs from init: the state after the last
      element and one output per element, in order; the first failing step
      fails the run. */
  function Run<S, A, B>(step: (S, A) -> Result<(S, B)>, init: S, xs: seq<A>): Result<(S, seq<B>)>
  {
    if xs == [] then Ok((init, []))
    else
      var before :- Run(step, init, xs[..|xs| - 1]);
      var next :- step(before.0, xs[|xs| - 1]);
      Ok((next.0, before.1 + [next.1]))
  }

  lemma {:induction false} RunFailSticks<S, A, B>(step: (S, A) -> Result<(S, B)>, init: S, xs: seq<A>, n: nat)
    requires n <= |xs| && Run(step, init, xs[..n]).Fail?
    ensures Run(step, init, xs).Fail?
    decreases |xs| - n
  {
    if n < |xs| {
      assert xs[..n + 1][..n] == xs[..n];
      RunFailSticks(step, init, xs, n + 1);
    } else {
      assert xs[..n] == xs;
    }
  }

  /** A run takes one more element by one step. */
  lemma RunStep<S, A, B>(step: (S, A) -> Result<(S, B)>, init: S, xs: seq<A>, i: int)
    requires 0 <= i < |xs| && Run(step, init, xs[..i]).Ok?
    ensures var before := Run(step, init, xs[..i]).value;
      Run(step, init, xs[..i + 1]) == match step(before.0, xs[i])
                                      case Fail => Fail
                                      case Ok(next) => Ok((next.0, before.1 + [next.1]))
  {
    assert xs[..i + 1][..i] == xs[..i];
  }

  /** A run that succeeds took a successful last step. */
  lemma RunLastStep<S, A, B>(step: (S, A) -> Result<(S, B)>, init: S, xs: seq<A>)
    requires xs != [] && Run(step, init, xs).Ok?
    ensures Run(step, init, xs[..|xs| - 1]).Ok?
    ensures step(Run(step, init, xs[..|xs| - 1]).value.0, xs[|xs| - 1]).Ok?
  {
  }

  /** Two runs that agree up to the last element, and whose steps agree
      on it, agree. */
  lemma RunSameLastStep<S, A, B>(f: (S, A) -> Result<(S, B)>, g: (S, A) -> Result<(S, B)>, init: S, xs: seq<A>)
    requires xs != [] && Run(f, init, xs[..|xs| - 1]) == Run(g, init, xs[..|xs| - 1])
    requires Run(g, init, xs[..|xs| - 1]).Ok?
    requires var s := Run(g, init, xs[..|xs| - 1]).value.0; f(s, xs[|xs| - 1]) == g(s, xs[|xs| - 1])
    ensures Run(f, init, xs) == Run(g, init, xs)
  {
  }

  /** A run that succeeds has one output per element, output i being what
      the step makes of element i in the state the elements before it
      left. */
  lemma {:induction false} RunOutputs<S, A, B>(step: (S, A) -> Result<(S, B)>, init: S, xs: seq<A>)
    requires Run(step, init, xs).Ok?
    ensures |Run(step, init, xs).value.1| == |xs|
    ensures forall i :: 0 <= i < |xs| ==>
      && Run(step, init, xs[..i]).Ok?
      && step(Run(step, init, xs[..i]).value.0, xs[i]).Ok?
      && Run(step, init, xs).value.1[i] == step(Run(step, init, xs[..i]).value.0, xs[i]).value.1
  {
    if xs != [] {
      var n := |xs|;
      var init' := xs[..n - 1];
      RunOutputs(step, init, init');
      forall i | 0 <= i < n
        ensures Run(step, init, xs[..i]).Ok?
        ensures step(Run(step, init, xs[..i]).value.0, xs[i]).Ok?
        ensures Run(step, init, xs).value.1[i] == step(Run(step, init, xs[..i]).value.0, xs[i]).value.1
      {
        if i < n - 1 {
          assert xs[..i] == init'[..i];
          assert init'[i] == xs[i];
        } else {
          assert xs[..i] == init';
        }
      }
    }
  }

  /** `format` over a whole input: the segment state after the lines and
      one output line per input line. */
  function FormatRun(lines: seq<string>): Result<(Option<string>, seq<string>)>
  {
    Run(FormatStep, None, lines)
  }

  /** `format(iter)`: the loop over the lines, carrying the current
      segment's name. */
  method FormatLines(lines: seq<string>) returns (r: Result<seq<string>>)
    ensures r.Ok? <==> FormatRun(lines).Ok?
    ensures r.Ok? ==> r.value == FormatRun(lines).value.1
  {
    var segment: Option<string> := None;
    var out: seq<string> := [];
    var i := 0;
    while i < |lines|
      invariant 0 <= i <= |lines|
      invariant FormatRun(lines[..i]) == Ok((segment, out))
    {
      RunStep(FormatStep, None, lines, i);
      var step := FormatStep(segment, lines[i]);
      if step.Fail? {
        RunFailSticks(FormatStep, None, lines, i + 1);
        return Fail;
      }
      segment, out := step.value.0, out + [step.value.1];
      i := i + 1;
    }
    assert lines[..i] == lines;
    return Ok(out);
  }

  /** The name of the last segment line among the lines, if any. */
  function LastSegment(lines: seq<string>): Option<string>
  {
    if lines == [] then None
    else
      var line := Parse(lines[|lines| - 1]);
      if line.Ok? && line.value.body.SegmentBody? then Some(line.value.body.segment.name)
      else LastSegment(lines[..|lines| - 1])
  }

  /** A step of the formatter that succeeds moves to the segment its line
      opens, if it is a segment line, and otherwise stays. */
  lemma FormatStepSegment(segment: Option<string>, text: string)
    requires FormatStep(segment, text).Ok?
    ensures Parse(text).Ok?
    ensures FormatStep(segment, text).value.0 ==
      if Parse(text).value.body.SegmentBody? then Some(Parse(text).value.body.segment.name) else segment
  {
    FormatStepCases(segment, text);
  }

  /** The run over one more line ends in the state its step leaves. */
  lemma FormatRunSnoc(lines: seq<string>)
    requires lines != [] && FormatRun(lines).Ok?
    ensures var init, last := lines[..|lines| - 1], lines[|lines| - 1];
      && FormatRun(init).Ok? && FormatStep(FormatRun(init).value.0, last).Ok?
      && FormatRun(lines).value.0 == FormatStep(FormatRun(init).value.0, last).value.0
  {
    RunStep(FormatStep, None, lines, |lines| - 1);
    assert lines[..|lines|] == lines;
  }

  /** The last segment opened among one more line. */
  lemma LastSegmentSnoc(lines: seq<string>)
    requires lines != [] && Parse(lines[|lines| - 1]).Ok?
    ensures var last := Parse(lines[|lines| - 1]).value;
      LastSegment(lines) ==
        if last.body.SegmentBody? then Some(last.body.segment.name) else LastSegment(lines[..|lines| - 1])
  {
  }

  /** After a run of the formatter the current segment is the last one
      opened. */
  lemma {:induction false} FormatRunSegment(lines: seq<string>)
    requires FormatRun(lines).Ok?
    ensures FormatRun(lines).value.0 == LastSegment(lines)
  {
    if lines != [] {
      var init, last := lines[..|lines| - 1], lines[|lines| - 1];
      FormatRunSnoc(lines);
      FormatRunSegment(init);
      FormatStepSegment(LastSegment(init), last);
      LastSegmentSnoc(lines);
    }
  }

  /** The formatter emits one line per input line; line i is what
      FormatStep makes of it inside the last segment opened before it, so an
      instruction is checked and reordered exactly when that segment is
      `code`. */
  lemma FormatRunLines(lines: seq<string>)
    requires FormatRun(lines).Ok?
    ensures FormatRun(lines).value.0 == LastSegment(lines)
    ensures |FormatRun(lines).value.1| == |lines|
    ensures forall i :: 0 <= i < |lines| ==>
      && FormatStep(LastSegment(lines[..i]), lines[i]).Ok?
      && FormatRun(lines).value.1[i] == FormatStep(LastSegment(lines[..i]), lines[i]).value.1
  {
    FormatRunSegment(lines);
    RunOutputs(FormatStep, None, lines);
    forall i | 0 <= i < |lines|
      ensures FormatStep(LastSegment(lines[..i]), lines[i]).Ok?
      ensures FormatRun(lines).value.1[i] == FormatStep(LastSegment(lines[..i]), lines[i]).value.1
    {
      FormatRunSegment(lines[..i]);
    }
  }

  // ---------------------------------------------------------------------
  // Worked examples
  // ---------------------------------------------------------------------

  /** `-2` as a signed 20-bit code, and the four slices `pack_j` takes of
      it. */
  lemma MinusTwoSlices20()
    ensures I(-2, 20) == Ok(Field(0xf_fffe, 20))
    ensures Slice(Field(0xf_fffe, 20), 9, 0) == Ok(Field(1022, 10))
    ensures Slice(Field(0xf_fffe, 20), 10, 10) == Ok(Field(1, 1))
    ensures Slice(Field(0xf_fffe, 20), 18, 11) == Ok(Field(255, 8))
    ensures Slice(Field(0xf_fffe, 20), 19, 19) == Ok(Field(1, 1))
  {
    assert Pow2(1) == 2 && Pow2(8) == 256 && Pow2(10) == 1024;
    assert Pow2(11) == 2048 && Pow2(19) == 0x8_0000 by {
      Pow2Add(8, 11);
    }
    assert Pow2(20) == 0x10_0000;
  }

  /** `jal x0, -2` packs into 6f/7 00/5 ff/8 01/1 3fe/10 01/1. */
  lemma PackJMinusTwo()
    ensures PackJ([Part(Num(0x6f), ["jal"]), Part(Num(0), ["rd", "x0"]), Part(Num(-2), ["off20"])])
      == Ok([Fixed(Field(111, 7)), Fixed(Field(0, 5)), Fixed(Field(255, 8)), Fixed(Field(1, 1)),
             Fixed(Field(1022, 10)), Fixed(Field(1, 1))])
  {
    var instr := [Part(Num(0x6f), ["jal"]), Part(Num(0), ["rd", "x0"]), Part(Num(-2), ["off20"])];
    Slots3(instr, Part(Num(0x6f), ["jal"]), Part(Num(0), ["rd", "x0"]), Part(Num(-2), ["off20"]));
    MinusTwoSlices20();
    assert Pow2(5) == 32 && Pow2(7) == 128;
    assert UnsignedOperand(instr[0], None, 7) == Ok(Field(111, 7));
    assert UnsignedOperand(instr[1], Some("rd"), 5) == Ok(Field(0, 5));
    assert Immediate(instr[2], "off20", 20, 20, 1) == Ok(Fixed(Field(0xf_fffe, 20)));
  }

  /** `-2` as a signed 12-bit code, and the four slices `pack_b` takes of
      it. */
  lemma MinusTwoSlices12()
    ensures I(-2, 12) == Ok(Field(0xffe, 12))
    ensures Slice(Field(0xffe, 12), 3, 0) == Ok(Field(14, 4))
    ensures Slice(Field(0xffe, 12), 9, 4) == Ok(Field(63, 6))
    ensures Slice(Field(0xffe, 12), 10, 10) == Ok(Field(1, 1))
    ensures Slice(Field(0xffe, 12), 11, 11) == Ok(Field(1, 1))
  {
    assert Pow2(1) == 2 && Pow2(4) == 16 && Pow2(6) == 64 && Pow2(10) == 1024;
    assert Pow2(11) == 2048 && Pow2(12) == 4096;
  }

  /** `beq x6, x0, -2` packs into 63/7 01/1 0e/4 00/3 06/5 00/5 3f/6
      01/1. */
  lemma PackBMinusTwo()
    ensures PackB([Part(Num(0x63), ["branch"]), Part(Num(0), ["subop", "=="]), Part(Num(6), ["rs"]),
                   Part(Num(0), ["rs"]), Part(Num(-2), ["off12"])])
      == Ok([Fixed(Field(99, 7)), Fixed(Field(1, 1)), Fixed(Field(14, 4)), Fixed(Field(0, 3)),
             Fixed(Field(6, 5)), Fixed(Field(0, 5)), Fixed(Field(63, 6)), Fixed(Field(1, 1))])
  {
    var instr := [Part(Num(0x63), ["branch"]), Part(Num(0), ["subop", "=="]), Part(Num(6), ["rs"]),
                  Part(Num(0), ["rs"]), Part(Num(-2), ["off12"])];
    Slots5(instr, Part(Num(0x63), ["branch"]), Part(Num(0), ["subop", "=="]), Part(Num(6), ["rs"]),
           Part(Num(0), ["rs"]), Part(Num(-2), ["off12"]));
    MinusTwoSlices12();
    assert Pow2(3) == 8 && Pow2(5) == 32 && Pow2(7) == 128;
    assert RegistersSB(instr) == Ok((Field(99, 7), Field(0, 3), Field(6, 5), Field(0, 5)));
    assert Immediate(instr[4], "off12", 12, 12, 1) == Ok(Fixed(Field(0xffe, 12)));
  }

  /** `lui x5, pos[11:0]`: the formatter as written accepts this U
      instruction, whose operands are not the 32 bits of the U format;
      the checked formatter rejects it. */
  lemma EncodeAcceptsNarrowReference()
    ensures var ref := Reference("pos", Imm, 12, [], Some(Bounds(11, 0)));
      var instr := [Part(Num(0x37), ["lui"]), Part(Num(5), ["rd"]), ReferencePart(ref)];
      && Encode(UType, instr).Ok? && !HasWidths(Encode(UType, instr).value, Layout(UType))
      && CheckedEncode(UType, instr).Fail?
  {
    PackUAcceptsNarrowReference();
  }

  /** `addi x6, x0, x[19:0]`: likewise for a 20-bit I immediate. */
  lemma EncodeAcceptsWideReference()
    ensures var ref := Reference("x", Imm, 20, [], Some(Bounds(19, 0)));
      var instr := [Part(Num(0x13), ["opi"]), Part(Num(0), ["subop"]), Part(Num(6), ["rd"]),
                    Part(Num(0), ["rs"]), ReferencePart(ref)];
      && Encode(IType, instr).Ok? && !HasWidths(Encode(IType, instr).value, Layout(IType))
      && CheckedEncode(IType, instr).Fail?
  {
    PackIAcceptsWideReference();
  }
}
