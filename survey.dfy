/** The surveyor stage: a first pass lays out the address of every line
    and records where each label points; a second pass, over the whole
    input, replaces every label reference by the slice of the label's
    address (`imm`) or of its distance from the referring line (`off`) that
    the reference names. Only segment and instruction lines are kept. */
module Survey {
  import opened Wrappers
  import opened Bits
  import opened Subv
  import opened Parts

  // ---------------------------------------------------------------------
  // Resolving one reference
  // ---------------------------------------------------------------------

  /** The number a reference to a label at `addr` stands for, seen from a
      line at `rel`: the address itself (`imm`) or the distance (`off`). */
  function Distance(mode: Mode, rel: int, addr: int): int
  {
    if mode == Imm then addr else addr - rel
  }

  /** Bits `hi` down to `lo` of the 32-bit code of that number, as a
      field of the slice's width. */
  function Resolved(mode: Mode, rel: int, addr: int, b: Bounds): Field
    requires 0 <= b.lo <= b.hi
  {
    var width := b.hi - b.lo + 1;
    var code := Distance(mode, rel, addr) % Pow2(32);
    Field((code / Pow2(b.lo)) % Pow2(width), width)
  }

  /** The 32-bit code of that number: unsigned for `imm`, two's complement
      for `off`; out of range fails. */
  function Target(mode: Mode, rel: int, addr: int): Result<Field>
  {
    if mode == Imm then U(addr, 32) else I(addr - rel, 32)
  }

  /** A reference resolves when its number fits 32 bits (unsigned for
      `imm`, signed for `off`), and its code is that number modulo 2^32. */
  lemma TargetCode(mode: Mode, rel: int, addr: int)
    ensures var r := Target(mode, rel, addr);
      r.Ok? <==> if mode == Imm then 0 <= addr < Pow2(32) else -Pow2(31) <= addr - rel < Pow2(31)
    ensures var r := Target(mode, rel, addr);
      r.Ok? ==> Fits(r.value) && r.value.size == 32 && r.value.val == Distance(mode, rel, addr) % Pow2(32)
  {
    Pow2Of32();
    if mode == Imm {
      if U(addr, 32).Ok? {
        ModSmall(addr, Pow2(32));
      }
    } else {
      var code := I(addr - rel, 32);
      if code.Ok? {
        ModSmall(code.value.val, Pow2(32));
      }
    }
  }

  lemma ModSmall(x: int, m: int)
    requires 0 <= x < m
    ensures x % m == x
  {
  }

  /** `observe(part, rel_addr, map)`: a number passes through unchanged; a
      label reference is looked up in the label map and becomes bits
      [hi:lo] of the label's 32-bit target code, as a numeric part tagged
      with its width. A missing label, a target out of range, a reference
      without a slice or a slice outside the 32 bits fails. */
  function Observe(p: Part, rel: int, labels: map<string, int>): (r: Result<Part>)
    ensures !IsReference(p) ==> r == Ok(p)
    ensures r.Ok? ==> !IsReference(r.value)
  {
    if !IsReference(p) then Ok(p)
    else
      var ref :- ParseReference(p);
      if ref.name !in labels then Fail
      else
        var code :- Target(ref.mode, rel, labels[ref.name]);
        if ref.bounds.None? then Fail
        else
          var b := ref.bounds.value;
          if !(0 <= b.lo <= b.hi < 32) then Fail
          else
            var f :- Slice(code, b.hi, b.lo);
            Ok(FieldPart(f))
  }

  /** A reference resolves exactly when it parses, names a known label
      whose distance fits 32 bits, and carries a slice inside those 32
      bits; it then becomes the sliced bits of the distance's 32-bit
      code, as a printed field of the slice's width. */
  lemma ObserveReference(p: Part, rel: int, labels: map<string, int>)
    requires IsReference(p)
    ensures Observe(p, rel, labels).Ok? <==>
      && ParseReference(p).Ok?
      && var ref := ParseReference(p).value;
         && ref.name in labels && Target(ref.mode, rel, labels[ref.name]).Ok?
         && ref.bounds.Some? && 0 <= ref.bounds.value.lo <= ref.bounds.value.hi < 32
    ensures Observe(p, rel, labels).Ok? ==>
      var ref := ParseReference(p).value;
      Observe(p, rel, labels) == Ok(FieldPart(Resolved(ref.mode, rel, labels[ref.name], ref.bounds.value)))
  {
    if ParseReference(p).Ok? {
      ObserveParsed(p, ParseReference(p).value, rel, labels);
    }
  }

  lemma ObserveParsed(p: Part, ref: Reference, rel: int, labels: map<string, int>)
    requires IsReference(p) && ParseReference(p) == Ok(ref)
    ensures Observe(p, rel, labels).Ok? <==>
      ref.name in labels && Target(ref.mode, rel, labels[ref.name]).Ok?
      && ref.bounds.Some? && 0 <= ref.bounds.value.lo <= ref.bounds.value.hi < 32
    ensures Observe(p, rel, labels).Ok? ==>
      Observe(p, rel, labels) == Ok(FieldPart(Resolved(ref.mode, rel, labels[ref.name], ref.bounds.value)))
  {
    if ref.name !in labels {
      assert Observe(p, rel, labels) == Fail;
    } else {
      Pow2Of32();
      TargetCode(ref.mode, rel, labels[ref.name]);
      var t := Target(ref.mode, rel, labels[ref.name]);
      if t.Fail? || ref.bounds.None? {
        assert Observe(p, rel, labels) == Fail;
      } else {
        var b := ref.bounds.value;
        if 0 <= b.lo <= b.hi < 32 {
          ResolvedSlice(t.value, ref.mode, rel, labels[ref.name], b);
          assert Observe(p, rel, labels) == Ok(FieldPart(Resolved(ref.mode, rel, labels[ref.name], b)));
        } else {
          assert Observe(p, rel, labels) == Fail;
        }
      }
    }
  }

  /** The slice of a target's code is the resolved field. */
  lemma ResolvedSlice(code: Field, mode: Mode, rel: int, addr: int, b: Bounds)
    requires code.val == Distance(mode, rel, addr) % Pow2(32)
    requires 0 <= b.lo <= b.hi < code.size
    ensures Slice(code, b.hi, b.lo) == Ok(Resolved(mode, rel, addr, b))
  {
    SliceArithmetic(code, b.hi, b.lo);
  }

  /** A reference whose slice is as wide as its field tag says. */
  predicate Consistent(ref: Reference)
  {
    ref.bounds.Some? && ref.size == ref.bounds.value.hi - ref.bounds.value.lo + 1
  }

  /** The width pass 1 counts for a part: the size in a reference's field
      tag, or the decimal first tag of a number. */
  function PartWidth(p: Part): (r: Result<int>)
  {
    if IsReference(p) then
      var ref :- ParseReference(p);
      Ok(ref.size)
    else if p.tags == [] then Fail
    else
      match ParseInt(p.tags[0], 10)
      case None => Fail
      case Some(n) => Ok(n)
  }

  /** A printed field counts as its own width, and resolving a reference
      whose slice agrees with its field tag keeps the width pass 1 counted
      for it, so the addresses laid out before resolution stay right. */
  lemma ObserveKeepsWidth(p: Part, rel: int, labels: map<string, int>)
    requires Observe(p, rel, labels).Ok?
    requires IsReference(p) ==> ParseReference(p).Ok? && Consistent(ParseReference(p).value)
    ensures PartWidth(Observe(p, rel, labels).value) == PartWidth(p)
  {
    if IsReference(p) {
      ObserveReference(p, rel, labels);
      var ref := ParseReference(p).value;
      var f := Resolved(ref.mode, rel, labels[ref.name], ref.bounds.value);
      PartWidthOfField(f);
      assert PartWidth(p) == Ok(ref.size);
    }
  }

  /** An `off` reference to a label behind the line wraps around: with the
      label at 1000 and the line at 2000, `label[31:0]/off32` becomes
      4294966296 in 32 bits. */
  lemma ObserveBackwardOffset()
    ensures var ref := Reference("label", Off, 32, [], Some(Bounds(31, 0)));
      Observe(ReferencePart(ref), 2000, map["label" := 1000]) == Ok(FieldPart(Field(4294966296, 32)))
  {
    var ref := Reference("label", Off, 32, [], Some(Bounds(31, 0)));
    ReferenceRoundTrip(ref);
    Pow2Of32();
    ObserveReference(ReferencePart(ref), 2000, map["label" := 1000]);
    var code := Distance(Off, 2000, 1000) % Pow2(32);
    assert code == 4294966296 by {
      DivModUnique(-1000, 0x1_0000_0000, -1, 4294966296);
    }
    assert code / Pow2(0) == code;
    assert code % Pow2(31 - 0 + 1) == code by {
      ModSmall(code, Pow2(32));
    }
  }

  /** The closing `jal` of the survey's worked example, 52 bytes after
      `main` at 0x80000000: its four slices of the `off` reference to
      `main` resolve to ff/8 01/1 3e6/10 01/1. */
  lemma ObserveBackwardJump()
    ensures var rel, labels := 0x8000_0034, map["main" := 0x8000_0000];
      && Observe(ReferencePart(Reference("main", Off, 8, [], Some(Bounds(19, 12)))), rel, labels) == Ok(FieldPart(Field(0xff, 8)))
      && Observe(ReferencePart(Reference("main", Off, 1, [], Some(Bounds(11, 11)))), rel, labels) == Ok(FieldPart(Field(1, 1)))
      && Observe(ReferencePart(Reference("main", Off, 10, [], Some(Bounds(10, 1)))), rel, labels) == Ok(FieldPart(Field(0x3e6, 10)))
      && Observe(ReferencePart(Reference("main", Off, 1, [], Some(Bounds(20, 20)))), rel, labels) == Ok(FieldPart(Field(1, 1)))
  {
    var rel, labels := 0x8000_0034, map["main" := 0x8000_0000];
    assert Pow2(1) == 2 && Pow2(8) == 256 && Pow2(10) == 1024 && Pow2(11) == 2048;
    assert Pow2(12) == 4096 by {
      assert Pow2(12) == 2 * Pow2(11);
    }
    assert Pow2(20) == 0x10_0000 by {
      Pow2Add(8, 12);
    }
    assert (0xffff_ffcc / 4096) % 256 == 0xff;
    assert (0xffff_ffcc / 2048) % 2 == 1;
    assert (0xffff_ffcc / 2) % 1024 == 0x3e6;
    assert (0xffff_ffcc / 0x10_0000) % 2 == 1;
    ObserveJumpSlice(rel, labels, 8, Bounds(19, 12), 0xff);
    ObserveJumpSlice(rel, labels, 1, Bounds(11, 11), 1);
    ObserveJumpSlice(rel, labels, 10, Bounds(10, 1), 0x3e6);
    ObserveJumpSlice(rel, labels, 1, Bounds(20, 20), 1);
  }

  lemma ObserveJumpSlice(rel: int, labels: map<string, int>, size: int, b: Bounds, v: int)
    requires rel == 0x8000_0034 && labels == map["main" := 0x8000_0000]
    requires 0 <= b.lo <= b.hi < 32 && size == b.hi - b.lo + 1
    requires (0xffff_ffcc / Pow2(b.lo)) % Pow2(size) == v
    ensures Observe(ReferencePart(Reference("main", Off, size, [], Some(b))), rel, labels) == Ok(FieldPart(Field(v, size)))
  {
    var ref := Reference("main", Off, size, [], Some(b));
    ReferenceRoundTrip(ref);
    Pow2Of32();
    JumpCode();
    ObserveReference(ReferencePart(ref), rel, labels);
  }

  /** 0x80000000 seen from 0x80000034 is -52, which is 0xffffffcc in 32 bits. */
  lemma JumpCode()
    ensures Distance(Off, 0x8000_0034, 0x8000_0000) % Pow2(32) == 0xffff_ffcc
  {
    Pow2Of32();
    DivModUnique(-52, 0x1_0000_0000, -1, 0xffff_ffcc);
  }

  // ---------------------------------------------------------------------
  // Widths of a line
  // ---------------------------------------------------------------------

  /** The sum of f over xs, left to right; the first failure fails it. */
  function Total<A>(f: A -> Result<int>, xs: seq<A>): Result<int>
  {
    if xs == [] then Ok(0)
    else
      var before :- Total(f, xs[..|xs| - 1]);
      var w :- f(xs[|xs| - 1]);
      Ok(before + w)
  }

  /** The sum of the widths of the parts of a line, left to right. */
  function WidthSum(parts: seq<Part>): Result<int>
  {
    Total(PartWidth, parts)
  }

  lemma {:induction false} TotalFailSticks<A>(f: A -> Result<int>, xs: seq<A>, n: nat)
    requires n <= |xs| && Total(f, xs[..n]).Fail?
    ensures Total(f, xs).Fail?
    decreases |xs| - n
  {
    if n < |xs| {
      assert xs[..n + 1][..n] == xs[..n];
      TotalFailSticks(f, xs, n + 1);
    } else {
      assert xs[..n] == xs;
    }
  }

  lemma TotalSnoc<A>(f: A -> Result<int>, xs: seq<A>, before: int, w: int)
    requires xs != []
    requires Total(f, xs[..|xs| - 1]) == Ok(before)
    requires f(xs[|xs| - 1]) == Ok(w)
    ensures Total(f, xs) == Ok(before + w)
  {
  }

  /** Pass 1 counts a printed field by its width. */
  lemma PartWidthOfField(f: Field)
    ensures PartWidth(FieldPart(f)) == Ok(f.size)
  {
    DecimalRoundTrip(f.size);
  }

  /** A total of values that are the sizes of some fields is their sum. */
  lemma {:induction false} TotalOfSizes<A>(f: A -> Result<int>, xs: seq<A>, fields: seq<Field>)
    requires |xs| == |fields|
    requires forall i :: 0 <= i < |xs| ==> f(xs[i]) == Ok(fields[i].size)
    ensures Total(f, xs) == Ok(SumSizes(fields))
  {
    if xs != [] {
      var n := |xs|;
      var init := fields[..n - 1];
      forall i | 0 <= i < n - 1
        ensures f(xs[..n - 1][i]) == Ok(init[i].size)
      {
        assert xs[..n - 1][i] == xs[i];
      }
      TotalOfSizes(f, xs[..n - 1], init);
      TotalSnoc(f, xs, SumSizes(init), fields[n - 1].size);
      assert init + [fields[n - 1]] == fields;
      SumSizesSnoc(init, fields[n - 1]);
    }
  }

  /** A line of printed fields is as wide as the fields together: the
      width pass 1 counts is the size their concatenation has. */
  lemma WidthSumOfFields(fields: seq<Field>)
    ensures WidthSum(seq(|fields|, i requires 0 <= i < |fields| => FieldPart(fields[i]))) == Ok(SumSizes(fields))
  {
    var parts := seq(|fields|, i requires 0 <= i < |fields| => FieldPart(fields[i]));
    forall i | 0 <= i < |parts|
      ensures PartWidth(parts[i]) == Ok(fields[i].size)
    {
      PartWidthOfField(fields[i]);
    }
    TotalOfSizes(PartWidth, parts, fields);
  }

  /** The inner loop of pass 1 summing a line's widths. */
  method LineWidth(parts: seq<Part>) returns (r: Result<int>)
    ensures r == WidthSum(parts)
  {
    var bits := 0;
    var i := 0;
    while i < |parts|
      invariant 0 <= i <= |parts|
      invariant WidthSum(parts[..i]) == Ok(bits)
    {
      assert parts[..i + 1][..i] == parts[..i];
      assert parts[..i + 1][i] == parts[i];
      var w := PartWidth(parts[i]);
      if w.Fail? {
        TotalFailSticks(PartWidth, parts, i + 1);
        return Fail;
      }
      TotalSnoc(PartWidth, parts[..i + 1], bits, w.value);
      bits := bits + w.value;
      i := i + 1;
    }
    assert parts[..i] == parts;
    return Ok(bits);
  }

  // ---------------------------------------------------------------------
  // Pass 1: layout
  // ---------------------------------------------------------------------

  /** A parsed line stamped with the address before it. */
  datatype Entry = Entry(line: Line, addr: int)

  /** The state of pass 1: the queued lines, the label map and the current
      address. */
  datatype Plan = Plan(entries: seq<Entry>, labels: map<string, int>, addr: int)

  /** One line of pass 1: a segment line moves to its base (it must have
      one), a label line maps the label to the current address, and an
      instruction line advances by its width in bytes, which must be whole. */
  function Step(line: Line, addr: int, labels: map<string, int>): (r: Result<(int, map<string, int>)>)
    ensures r.Ok? && !line.body.LabelBody? ==> r.value.1 == labels
    ensures r.Ok? && line.body.LabelBody? ==> r.value == (addr, labels[line.body.name := addr])
    ensures r.Ok? && line.body.SegmentBody? ==> line.body.segment.base == Some(r.value.0)
    ensures r.Ok? && (line.body.NoBody? || line.body.LabelBody?) ==> r.value.0 == addr
    ensures line.body.InstrBody? ==>
      (r.Ok? <==> WidthSum(line.body.instr).Ok? && WidthSum(line.body.instr).value % 8 == 0)
      && (r.Ok? ==> r.value.0 == addr + WidthSum(line.body.instr).value / 8)
    ensures line.body.SegmentBody? ==> (r.Ok? <==> line.body.segment.base.Some?)
    ensures !line.body.InstrBody? && !line.body.SegmentBody? ==> r.Ok?
  {
    match line.body
    case NoBody => Ok((addr, labels))
    case SegmentBody(segment) =>
      if segment.base.None? then Fail else Ok((segment.base.value, labels))
    case LabelBody(name) => Ok((addr, labels[name := addr]))
    case InstrBody(parts) =>
      var bits :- WidthSum(parts);
      if bits % 8 != 0 then Fail else Ok((addr + bits / 8, labels))
  }

  /** Pass 1 over the parsed lines; the address starts at -1. */
  function Pass1(lines: seq<Line>): (r: Result<Plan>)
    ensures r.Ok? ==> |r.value.entries| == |lines|
  {
    if lines == [] then Ok(Plan([], map[], -1))
    else
      var before :- Pass1(lines[..|lines| - 1]);
      var line := lines[|lines| - 1];
      var next :- Step(line, before.addr, before.labels);
      Ok(Plan(before.entries + [Entry(line, before.addr)], next.1, next.0))
  }

  lemma {:induction false} Pass1FailSticks(lines: seq<Line>, n: nat)
    requires n <= |lines| && Pass1(lines[..n]).Fail?
    ensures Pass1(lines).Fail?
    decreases |lines| - n
  {
    if n < |lines| {
      assert lines[..n + 1][..n] == lines[..n];
      Pass1FailSticks(lines, n + 1);
    } else {
      assert lines[..n] == lines;
    }
  }

  /** Pass 1 over one more line queues that line after the others. */
  lemma {:induction false} Pass1Snoc(lines: seq<Line>)
    requires lines != [] && Pass1(lines).Ok?
    ensures Pass1(lines[..|lines| - 1]).Ok?
    ensures var before := Pass1(lines[..|lines| - 1]).value;
      Pass1(lines).value.entries == before.entries + [Entry(lines[|lines| - 1], before.addr)]
  {
  }

  /** Every line is queued, stamped with the address pass 1 had reached
      before it. */
  lemma {:induction false} Pass1Stamps(lines: seq<Line>)
    requires Pass1(lines).Ok?
    ensures var entries := Pass1(lines).value.entries;
      && |entries| == |lines|
      && forall i :: 0 <= i < |lines| ==>
           && entries[i].line == lines[i]
           && Pass1(lines[..i]).Ok? && entries[i].addr == Pass1(lines[..i]).value.addr
  {
    if lines != [] {
      var init := lines[..|lines| - 1];
      Pass1Snoc(lines);
      Pass1Stamps(init);
      var entries := Pass1(lines).value.entries;
      forall i | 0 <= i < |lines|
        ensures entries[i].line == lines[i]
        ensures Pass1(lines[..i]).Ok? && entries[i].addr == Pass1(lines[..i]).value.addr
      {
        if i < |lines| - 1 {
          assert lines[..i] == init[..i];
          assert init[i] == lines[i];
        } else {
          assert lines[..i] == init;
        }
      }
    }
  }

  /** How the address moves from one line to the next: it starts at -1; a
      segment line sets it to the segment's base; label and empty lines
      leave it; an instruction line, whose widths must add up to whole
      bytes, advances it by that many bytes. */
  lemma {:induction false} Pass1Addresses(lines: seq<Line>)
    requires Pass1(lines).Ok?
    ensures |Pass1(lines).value.entries| == |lines|
    ensures LaidOut(Pass1(lines).value)
  {
    if lines != [] {
      var init := lines[..|lines| - 1];
      Pass1Addresses(init);
      var before := Pass1(init).value;
      var plan := Pass1(lines).value;
      var e, n := plan.entries, |lines| - 1;
      assert e[..n] == before.entries && e[n] == Entry(lines[n], before.addr);
      if n == 0 {
        assert init == [];
      } else {
        assert e[0] == before.entries[0];
      }
      forall i | 0 <= i < |e|
        ensures Moves(e[i], NextAddr(plan, i))
      {
        if i < n {
          assert e[i] == before.entries[i];
          assert Moves(before.entries[i], NextAddr(before, i));
          if i + 1 < n {
            assert e[i + 1] == before.entries[i + 1];
          }
        } else {
          StepMoves(lines[n], before.addr, before.labels);
        }
      }
    }
  }

  /** The addresses of a plan start at -1 and move from line to line as
      each line's kind says, ending at the plan's current address. */
  predicate LaidOut(plan: Plan)
  {
    && (|plan.entries| > 0 ==> plan.entries[0].addr == -1)
    && forall i :: 0 <= i < |plan.entries| ==> Moves(plan.entries[i], NextAddr(plan, i))
  }

  /** The address after entry i of a plan. */
  function NextAddr(plan: Plan, i: int): int
    requires 0 <= i < |plan.entries|
  {
    if i + 1 < |plan.entries| then plan.entries[i + 1].addr else plan.addr
  }

  /** A step moves the address as Moves says. */
  lemma StepMoves(line: Line, addr: int, labels: map<string, int>)
    requires Step(line, addr, labels).Ok?
    ensures Moves(Entry(line, addr), Step(line, addr, labels).value.0)
  {
  }

  /** The address after a line, as its kind moves it. */
  predicate Moves(e: Entry, next: int)
  {
    match e.line.body
    case NoBody => next == e.addr
    case LabelBody(_) => next == e.addr
    case SegmentBody(s) => s.base == Some(next)
    case InstrBody(parts) =>
      && WidthSum(parts).Ok? && WidthSum(parts).value % 8 == 0
      && next == e.addr + WidthSum(parts).value / 8
  }

  /** The label map holds exactly the labels defined somewhere in the
      input. */
  lemma {:induction false} Pass1LabelNames(lines: seq<Line>)
    requires Pass1(lines).Ok?
    ensures var plan := Pass1(lines).value;
      var e := plan.entries;
      forall name :: name in plan.labels <==> exists i :: 0 <= i < |e| && e[i].line.body == LabelBody(name)
  {
    if lines != [] {
      var init := lines[..|lines| - 1];
      Pass1LabelNames(init);
      var before := Pass1(init).value;
      var plan := Pass1(lines).value;
      assert plan.entries[..|init|] == before.entries;
      forall name
        ensures name in plan.labels <==> exists i :: 0 <= i < |plan.entries| && plan.entries[i].line.body == LabelBody(name)
      {
        if name in plan.labels && name !in before.labels {
          assert plan.entries[|plan.entries| - 1].line.body == LabelBody(name);
        }
        if exists i :: 0 <= i < |plan.entries| && plan.entries[i].line.body == LabelBody(name) {
          var i :| 0 <= i < |plan.entries| && plan.entries[i].line.body == LabelBody(name);
          if i < |before.entries| {
            assert before.entries[i].line.body == LabelBody(name);
          }
        }
      }
    }
  }

  /** The label map holds exactly the labels defined somewhere in the
      input, each at the address of its last definition. */
  lemma {:induction false} Pass1Labels(lines: seq<Line>)
    requires Pass1(lines).Ok?
    ensures var plan := Pass1(lines).value;
      var e := plan.entries;
      && (forall name :: name in plan.labels <==> exists i :: 0 <= i < |e| && e[i].line.body == LabelBody(name))
      && forall i :: 0 <= i < |e| && e[i].line.body.LabelBody? && LastDefinition(e, i) ==>
           plan.labels[e[i].line.body.name] == e[i].addr
  {
    Pass1LabelNames(lines);
    if lines != [] {
      var init := lines[..|lines| - 1];
      Pass1Labels(init);
      var before := Pass1(init).value;
      var plan := Pass1(lines).value;
      var n := |before.entries|;
      var last := lines[|lines| - 1];
      assert plan.entries == before.entries + [Entry(last, before.addr)];
      assert plan.labels == Step(last, before.addr, before.labels).value.1;
      forall i | 0 <= i < |plan.entries| && plan.entries[i].line.body.LabelBody? && LastDefinition(plan.entries, i)
        ensures plan.labels[plan.entries[i].line.body.name] == plan.entries[i].addr
      {
        if i < n {
          assert plan.entries[i] == before.entries[i];
          assert LastDefinition(before.entries, i) by {
            forall j | i < j < n
              ensures before.entries[j].line.body != before.entries[i].line.body
            {
              assert plan.entries[j] == before.entries[j];
            }
          }
          assert last.body != plan.entries[i].line.body by {
            assert plan.entries[n].line == last;
          }
        }
      }
    }
  }

  /** No line after entry i defines the same label again. */
  predicate LastDefinition(e: seq<Entry>, i: int)
    requires 0 <= i < |e|
  {
    forall j :: i < j < |e| ==> e[j].line.body != e[i].line.body
  }

  /** A reference resolves against the last definition of its label,
      whether that comes before the referring line or after it: pass 2
      runs only once pass 1 has seen every label. */
  lemma ReferenceSeesLastDefinition(lines: seq<Line>, i: int, k: int, j: int)
    requires Pass1(lines).Ok?
    requires 0 <= i < |lines| && lines[i].body.InstrBody? && 0 <= k < |lines[i].body.instr|
    requires ParseReference(lines[i].body.instr[k]).Ok?
    requires 0 <= j < |lines| && lines[j].body == LabelBody(ParseReference(lines[i].body.instr[k]).value.name)
    requires forall j' :: j < j' < |lines| ==> lines[j'].body != lines[j].body
    ensures var plan := Pass1(lines).value;
      var name := ParseReference(lines[i].body.instr[k]).value.name;
      && name in plan.labels && plan.labels[name] == plan.entries[j].addr
      && Observe(lines[i].body.instr[k], plan.entries[i].addr, plan.labels)
         == Observe(lines[i].body.instr[k], plan.entries[i].addr, plan.labels[name := plan.entries[j].addr])
  {
    var plan := Pass1(lines).value;
    var e := plan.entries;
    var name := ParseReference(lines[i].body.instr[k]).value.name;
    assert |e| == |lines| && e[j].line.body == LabelBody(name) && LastDefinition(e, j) by {
      Pass1Stamps(lines);
      forall j' | j < j' < |e|
        ensures e[j'].line.body != e[j].line.body
      {
        assert e[j'].line == lines[j'];
      }
    }
    assert name in plan.labels && plan.labels[name] == e[j].addr by {
      Pass1Labels(lines);
    }
    assert plan.labels[name := e[j].addr] == plan.labels;
  }

  // ---------------------------------------------------------------------
  // Pass 2: resolution
  // ---------------------------------------------------------------------

  /** The parts of a line, each observed. */
  function ObserveAll(parts: seq<Part>, rel: int, labels: map<string, int>): (r: Result<seq<Part>>)
    ensures r.Ok? <==> forall i :: 0 <= i < |parts| ==> Observe(parts[i], rel, labels).Ok?
    ensures r.Ok? ==> |r.value| == |parts|
    ensures r.Ok? ==> forall i :: 0 <= i < |parts| ==> r.value[i] == Observe(parts[i], rel, labels).value
  {
    MapAll(p => Observe(p, rel, labels), parts)
  }

  /** The inner loop of pass 2. */
  method ObserveParts(parts: seq<Part>, rel: int, labels: map<string, int>) returns (r: Result<seq<Part>>)
    ensures r == ObserveAll(parts, rel, labels)
  {
    var out: seq<Part> := [];
    var i := 0;
    while i < |parts|
      invariant 0 <= i <= |parts|
      invariant ObserveAll(parts[..i], rel, labels) == Ok(out)
    {
      var q := Observe(parts[i], rel, labels);
      if q.Fail? {
        assert !ObserveAll(parts, rel, labels).Ok? by {
          assert !Observe(parts[i], rel, labels).Ok?;
        }
        return Fail;
      }
      assert ObserveAll(parts[..i + 1], rel, labels) == Ok(out + [q.value]) by {
        MapAllStep(p => Observe(p, rel, labels), parts, i);
      }
      out := out + [q.value];
      i := i + 1;
    }
    assert parts[..i] == parts;
    return Ok(out);
  }

  /** Pass 2 keeps instruction and segment lines. */
  predicate Kept(e: Entry)
  {
    e.line.body.InstrBody? || e.line.body.SegmentBody?
  }

  /** A kept line as pass 2 writes it: an instruction with its parts
      observed from its own address, printed with its comment; a segment
      line as its stripped text. */
  function Render(e: Entry, labels: map<string, int>): (r: Result<string>)
    requires Kept(e)
    ensures e.line.body.SegmentBody? ==> r == Ok(e.line.raw)
    ensures e.line.body.InstrBody? ==> (r.Ok? <==> ObserveAll(e.line.body.instr, e.addr, labels).Ok?)
    ensures e.line.body.InstrBody? && r.Ok? ==>
      var observed := ObserveAll(e.line.body.instr, e.addr, labels).value;
      StartsWith(r.value, FormatParts(observed)) && forall k :: 0 <= k < |observed| ==> !IsReference(observed[k])
  {
    if e.line.body.SegmentBody? then Ok(e.line.raw)
    else
      var observed :- ObserveAll(e.line.body.instr, e.addr, labels);
      FormatLine(e.line.(body := InstrBody(observed)))
  }

  /** The kept lines, in input order. */
  function KeptEntries(entries: seq<Entry>): (r: seq<Entry>)
    ensures |r| <= |entries|
    ensures forall k :: 0 <= k < |r| ==> Kept(r[k])
  {
    if entries == [] then []
    else
      var last := entries[|entries| - 1];
      KeptEntries(entries[..|entries| - 1]) + if Kept(last) then [last] else []
  }

  /** Pass 2 over the queued lines, with the final label map. */
  function Pass2(entries: seq<Entry>, labels: map<string, int>): Result<seq<string>>
  {
    if entries == [] then Ok([])
    else
      var before :- Pass2(entries[..|entries| - 1], labels);
      var last := entries[|entries| - 1];
      if Kept(last) then
        var s :- Render(last, labels);
        Ok(before + [s])
      else Ok(before)
  }

  /** Pass 2 over one more line writes that line after the others when it
      is kept. */
  lemma Pass2Snoc(entries: seq<Entry>, labels: map<string, int>)
    requires entries != []
    ensures var init, last := entries[..|entries| - 1], entries[|entries| - 1];
      Pass2(entries, labels).Ok? <==> Pass2(init, labels).Ok? && (Kept(last) ==> Render(last, labels).Ok?)
    ensures var init, last := entries[..|entries| - 1], entries[|entries| - 1];
      Pass2(entries, labels).Ok? ==>
        Pass2(entries, labels).value == Pass2(init, labels).value + if Kept(last) then [Render(last, labels).value] else []
  {
  }

  /** Pass 2 succeeds exactly when every kept line renders. */
  lemma {:induction false} Pass2Succeeds(entries: seq<Entry>, labels: map<string, int>)
    ensures Pass2(entries, labels).Ok? <==> forall i :: 0 <= i < |entries| && Kept(entries[i]) ==> Render(entries[i], labels).Ok?
  {
    if entries != [] {
      var n := |entries| - 1;
      var init, last := entries[..n], entries[n];
      Pass2Succeeds(init, labels);
      Pass2Snoc(entries, labels);
      if Pass2(entries, labels).Ok? {
        forall i | 0 <= i < |entries| && Kept(entries[i])
          ensures Render(entries[i], labels).Ok?
        {
          if i < n {
            assert init[i] == entries[i];
          }
        }
      } else if Pass2(init, labels).Ok? {
        assert Kept(entries[n]) && Render(entries[n], labels).Fail?;
      } else {
        var i :| 0 <= i < n && Kept(init[i]) && !Render(init[i], labels).Ok?;
        assert init[i] == entries[i];
      }
    }
  }

  /** Pass 2 writes the kept lines, each rendered, in input order and
      nothing else. */
  lemma {:induction false} Pass2Output(entries: seq<Entry>, labels: map<string, int>)
    requires Pass2(entries, labels).Ok?
    ensures var out := Pass2(entries, labels).value;
      var kept := KeptEntries(entries);
      && |out| == |kept|
      && forall k :: 0 <= k < |kept| ==> Render(kept[k], labels).Ok? && out[k] == Render(kept[k], labels).value
  {
    if entries != [] {
      var n := |entries| - 1;
      var init, last := entries[..n], entries[n];
      Pass2Snoc(entries, labels);
      Pass2Output(init, labels);
      assert KeptEntries(entries) == KeptEntries(init) + if Kept(last) then [last] else [];
    }
  }

  /** Pass 1 over an input: every line parsed, then laid out. */
  function Survey1(lines: seq<string>): Result<Plan>
  {
    var parsed :- ParseAll(lines);
    Pass1(parsed)
  }

  /** `survey(iter)`: pass 1 over every line, then pass 2 with the label
      map pass 1 ended with. */
  function SurveyOf(lines: seq<string>): Result<seq<string>>
  {
    var plan :- Survey1(lines);
    Pass2(plan.entries, plan.labels)
  }

  lemma {:induction false} Pass2FailSticks(entries: seq<Entry>, labels: map<string, int>, n: nat)
    requires n <= |entries| && Pass2(entries[..n], labels).Fail?
    ensures Pass2(entries, labels).Fail?
    decreases |entries| - n
  {
    if n < |entries| {
      assert entries[..n + 1][..n] == entries[..n];
      Pass2FailSticks(entries, labels, n + 1);
    } else {
      assert entries[..n] == entries;
    }
  }

  /** The body of the first loop for one parsed line: move the address
      or record the label. */
  method Advance(line: Line, addr: int, labels: map<string, int>) returns (r: Result<(int, map<string, int>)>)
    ensures r == Step(line, addr, labels)
  {
    match line.body {
      case NoBody =>
        return Ok((addr, labels));
      case SegmentBody(segment) =>
        if segment.base.None? {
          return Fail;
        }
        return Ok((segment.base.value, labels));
      case LabelBody(name) =>
        return Ok((addr, labels[name := addr]));
      case InstrBody(parts) =>
        var bits := LineWidth(parts);
        if bits.Fail? || bits.value % 8 != 0 {
          return Fail;
        }
        return Ok((addr + bits.value / 8, labels));
    }
  }

  /** The first loop of `survey` over the parsed lines: queue each line
      stamped with the current address, and move the address or record
      the label. */
  method LayOut(lines: seq<Line>) returns (r: Result<Plan>)
    ensures r == Pass1(lines)
  {
    var plan := Plan([], map[], -1);
    var i := 0;
    while i < |lines|
      invariant 0 <= i <= |lines|
      invariant Pass1(lines[..i]) == Ok(plan)
    {
      assert lines[..i + 1][..i] == lines[..i];
      var step := Advance(lines[i], plan.addr, plan.labels);
      if step.Fail? {
        Pass1FailSticks(lines, i + 1);
        return Fail;
      }
      plan := Plan(plan.entries + [Entry(lines[i], plan.addr)], step.value.1, step.value.0);
      i := i + 1;
    }
    assert lines[..i] == lines;
    return Ok(plan);
  }

  /** The second loop of `survey`: resolve and write the kept lines. */
  method Resolve(entries: seq<Entry>, labels: map<string, int>) returns (r: Result<seq<string>>)
    ensures r == Pass2(entries, labels)
  {
    var out: seq<string> := [];
    var j := 0;
    while j < |entries|
      invariant 0 <= j <= |entries|
      invariant Pass2(entries[..j], labels) == Ok(out)
    {
      assert entries[..j + 1][..j] == entries[..j];
      var e := entries[j];
      if e.line.body.InstrBody? {
        var observed := ObserveParts(e.line.body.instr, e.addr, labels);
        if observed.Fail? {
          Pass2FailSticks(entries, labels, j + 1);
          return Fail;
        }
        out := out + [FormatLine(e.line.(body := InstrBody(observed.value))).value];
      } else if e.line.body.SegmentBody? {
        out := out + [e.line.raw];
      }
      j := j + 1;
    }
    assert entries[..j] == entries;
    return Ok(out);
  }

  /** The surveyor: every line parsed, pass 1, then pass 2. */
  method Survey(lines: seq<string>) returns (r: Result<seq<string>>)
    ensures r == SurveyOf(lines)
  {
    var parsed := ParseAll(lines);
    if parsed.Fail? {
      return Fail;
    }
    var plan := LayOut(parsed.value);
    if plan.Fail? {
      return Fail;
    }
    r := Resolve(plan.value.entries, plan.value.labels);
  }
}
