/** Bitfields as the parts of a line that the stages print and read:
    the value as the head, the width as the first tag. */
module Parts {
  import opened Wrappers
  import opened Bits
  import opened Subv

  /** `from_part(part)`: the head read as an integer (a text head through
      `int()` in base 10) and the first tag read as the width; further tags
      are ignored. */
  function FromPart(p: Part): (r: Result<Field>)
    ensures r.Ok? <==> p.tags != [] && ParseInt(p.tags[0], 10).Some?
                        && (p.head.Num? || ParseInt(p.head.s, 10).Some?)
    ensures r.Ok? ==> r.value.size == ParseInt(p.tags[0], 10).value
    ensures r.Ok? && p.head.Num? ==> r.value.val == p.head.n
  {
    var val :- match p.head
               case Num(n) => Ok(n)
               case Text(s) => if ParseInt(s, 10).Some? then Ok(ParseInt(s, 10).value) else Fail;
    if p.tags == [] then Fail
    else
      match ParseInt(p.tags[0], 10)
      case Some(size) => Ok(Field(val, size))
      case None => Fail
  }

  /** A field as a stage prints it: its value, tagged with its width. */
  function FieldPart(f: Field): Part
  {
    Part(Num(f.val), [DecimalString(f.size)])
  }

  /** A field printed as a part, then printed and parsed, reads back as the
      same field. */
  lemma FieldPartRoundTrip(f: Field)
    ensures Printable(FieldPart(f))
    ensures ParsePart(FormatPart(FieldPart(f))) == FieldPart(f)
    ensures FromPart(FieldPart(f)) == Ok(f)
  {
    DecimalRoundTrip(f.size);
    FormatPartRoundTrip(FieldPart(f));
  }
}
