# subv: an RV32I assembler in four stages, modelled in Dafny

subv turns a RISC-V (RV32I) program into a bootable ELF file. The source is
written as *subv lines*, and four stages each read and write such lines:

1. **format** (`format.py`): checks the mnemonic tag and opcode of every
   instruction in the `code` segment. It then reorders and slices the operands
   into the bit fields of the instruction's format (U, I, S, B or J).
2. **survey** (`survey.py`): pass 1 gives every line its address and maps
   every label to the address where it is defined. Pass 2 replaces every label
   reference with bits of the label's absolute address (`imm`) or of its
   distance from the line (`off`).
3. **pack** (`pack.py`): concatenates the fields of every instruction line,
   first field lowest, and splits the result into little-endian bytes.
4. **elf** (`elf.py`): collects the bytes into segments. It writes a 32-bit
   little-endian ELF file: the file header, one program header per segment,
   then each segment's bytes on the first page boundary after the previous
   segment.

A subv line is one of four kinds:

- empty (or comment-only);
- a segment line `== name [base]`;
- a label line `name:`;
- an instruction line of parts `head/tag/tag...`. The head of a part is a
  number written in hex, or a label reference `label[hi:lo]` tagged
  `immN`/`offN`.

Modules:

- `bits.dfy` (`Bits`): bitfields `(value, width)`, with `u`, `i`, `slice` and `concat`.
- `subv.dfy` (`Subv`): parsing and printing of lines and parts, and label references.
- `parts.dfy` (`Parts`): `from_part`, which reads a part as a bitfield.
- `format.dfy`, `survey.dfy`, `pack.dfy`, `elf.dfy`: the four stages.
- `writer.dfy` (`ElfWriter`): the imperative ELF writer. A class `Writer`
  whose `out` field is the byte stream that `w`, `wi` and `padto` append to.
- `wrappers.dfy` (`Wrappers`): `Result` and `Option`.

Every exception the source raises is the `Fail` case of a `Result`: ValueError,
AssertionError, IndexError, StopIteration, OverflowError, and the TypeError or
KeyError of malformed input. Each stage is a function from the input lines to
`Result` of the output lines (the ELF stage: to bytes), and each source loop
is a method proved equal to that function.

## Model

| member | source | states |
|---|---|---|
| Wrappers.MapAll | pack.py:70 | a list built by mapping succeeds exactly when every element succeeds, and element i is the result for input i |
| Bits.U | bits.py:18-25 | `u` succeeds exactly when 0 <= num < 2^bits (bit length within the width) and returns (num, bits) |
| Bits.I | bits.py:48-58 | `i` succeeds exactly when bits >= 1 and num lies in [-2^(bits-1), 2^(bits-1)-1]; the result fits its width, equals num modulo 2^bits and sign-extends back to num |
| Bits.Slice | bits.py:113-122 | `slice` succeeds exactly when lo <= hi, lo >= 0 and hi < width; the result fits, is hi-lo+1 wide, and its bit k is bit lo+k of the input |
| Bits.SliceArithmetic | bits.py:120-122 | the sliced value is floor(val / 2^lo) mod 2^(hi-lo+1), also for negative values |
| Bits.SliceBit | bits.py:121 | bit k of `(x >> lo) & mask` is bit lo+k of x |
| Bits.OrBits | bits.py:82 | `|` is bitwise: a bit of the result is set exactly when it is set in either operand |
| Bits.Or | bits.py:82 | Python's `\|` on integers of either sign; OrBits proves it bitwise and OrDisjoint proves it is addition on disjoint fields |
| Bits.OrDisjoint | bits.py:82 | `a | b << k` with a below 2^k is a + b * 2^k |
| Bits.Concat | bits.py:80-84 | the loop of `concat` computes `ConcatOf` |
| Bits.ConcatOf | bits.py:72-84 | `concat` as a function, part by part: `val \| pval << size`, then `size += psize`; its results are stated by ConcatLaysOutFields, ConcatSize, ConcatFailSticks and ConcatSliceRecovers |
| Bits.ConcatLaysOutFields | bits.py:72-84 | on fields that fit, `concat` succeeds with width the sum of the widths and the fields side by side, first lowest, in a value that fits |
| Bits.ConcatSize | bits.py:83 | the width of a concatenation is the sum of the widths |
| Bits.ConcatFailSticks | bits.py:80-84 | once a prefix fails to concatenate (negative width), the whole concatenation fails |
| Bits.PackedBound | bits.py:80-84 | fitting fields concatenate to a value below 2 to the sum of their widths |
| Bits.PackedSlice | bits.py:80-84 | field k is recovered from the concatenation by shifting down by the widths before it |
| Bits.ConcatSliceRecovers | bits.py:72-122 | slicing a concatenation at a field's offset and width gives that field back |
| Bits.ConcatOfTiles | bits.py:72-122 | concatenating consecutive slices that cover a field, lowest first, gives the field back |
| Bits.LittleEndianByteAt | pack.py:60-62 | byte k of the little-endian bytes of x is bits [8k+7:8k] of x |
| Bits.LittleEndianRoundTrip | elf.py:26 | `to_bytes(n, 'little')`: every byte is in [0, 255], and the bytes of a value below 256^n read back as that value |
| Subv.DigitsRoundTrip | subv.py:243 | the digits printed for n are lower-case digits of the base and read back as n |
| Subv.LooksHexParses | subv.py:47-48 | text that matches the `hex` pattern is accepted by `int(text, 16)` |
| Subv.HexDigitsParse | subv.py:3 | lower-case hex digits, with or without a leading '-', match the `hex` pattern and read back with the sign |
| Subv.HexRoundTrip | subv.py:243 | `'{:02x}'.format(n)` matches the `hex` pattern, reads back as n, and contains no separator |
| Subv.DecimalRoundTrip | subv.py:245 | `str(n)` reads back as n with `int()` and contains no separator |
| Subv.ParseInt | subv.py:47-48 | `int(s, 16)` and `int(s)`: an optional sign, `0x` for base 16, then digits; LooksHexParses, HexDigitsParse, HexRoundTrip and DecimalRoundTrip state what it accepts and that printed numbers read back |
| Subv.SplitOn | subv.py:46 | `split('/')` gives at least one piece, and no piece contains the separator |
| Subv.SplitJoin | subv.py:245 | joining separator-free pieces with the separator and splitting again gives the pieces back |
| Subv.JoinSplit | subv.py:46 | splitting and joining again gives the text back |
| Subv.SplitWhite | subv.py:57 | `white.split` gives at least one piece; no piece holds a white character; every piece but the first and the last is non-empty; the first is non-empty when the text starts with a non-white character |
| Subv.SplitWhiteSqueeze | subv.py:57 | the pieces joined by single spaces are the text with every run of white characters squeezed to one space (`white.sub(' ', s)`); with white-free pieces this fixes the split |
| Subv.SplitWhiteJoin | subv.py:57-58 | non-empty words without white characters, joined by single spaces, split back into those words |
| Subv.ParsePart | subv.py:46-49 | the head becomes a number exactly when the first '/'-piece matches the `hex` pattern, and it is that piece read in base 16; tags hold no '/'; a text part prints back to its text |
| Subv.FormatPart | subv.py:225-245 | `format_part`: a number as two or more lower-case hex digits, then the tags, joined by '/'; FormatPartRoundTrip proves `parse_part` reads it back |
| Subv.FormatPartRoundTrip | subv.py:225-245 | `parse_part(format_part(p)) == p` for every part with printable tags |
| Subv.Untag | subv.py:221-223 | `untag` fails exactly when a non-empty expected tag is given and the first tag is missing or differs; otherwise it returns the head |
| Subv.IsReference | subv.py:170-195 | `is_reference`: the head is text; IsReferenceParsed relates it to parsing |
| Subv.IsReferenceParsed | subv.py:170-195 | a part read from text is a label reference exactly when its first '/'-piece does not match the `hex` pattern |
| Subv.InstrRoundTrip | subv.py:51-59 | an instruction line printed by one stage parses back to the same parts in the next |
| Subv.ParseInstr | subv.py:51-59 | `parse_instr`: each non-empty piece of `white.split` parsed as a part; InstrRoundTrip proves it inverts FormatParts on printable parts |
| Subv.FormatParts | subv.py:257-258 | the parts printed with `format_part` and joined by single spaces; InstrRoundTrip proves ParseInstr reads them back |
| Subv.ParseSegment | subv.py:69-75 | three pieces give the name and a base read in hex; two pieces give the name; any other count, or a base that is not hex, fails |
| Subv.ParseLabel | subv.py:85 | the label is the line without its last character |
| Subv.ParseBoundsText | subv.py:4 | the `[hi:lo]` group of `slice_re` gives non-negative bounds |
| Subv.ParseSliceSpec | subv.py:4 | `slice_re`: a non-empty label without '[' that starts the text, and bounds present exactly when the label is not the whole text |
| Subv.ParseFieldTag | subv.py:5 | `field_re`: the tag starts with the mode's name and gives a non-negative size |
| Subv.BoundsTextRoundTrip | subv.py:4 | printed bounds parse back as the same bounds |
| Subv.SliceSpecRoundTrip | subv.py:4 | `label[hi:lo]` parses back to the label and the bounds |
| Subv.FieldTagRoundTrip | subv.py:5 | `immN`/`offN` parses back to the mode and N |
| Subv.ParseReference | subv.py:96-113 | a reference comes from a text head and a first tag `imm`/`off`+size; the label is the head up to '['; bounds exist exactly when the label is not the whole head; the other tags are kept as meta |
| Subv.ReferenceRoundTrip | subv.py:87-113 | a reference written out as a part parses back to itself |
| Subv.TrimLeft | subv.py:143 | the result is a suffix of the text, does not start with whitespace, and everything removed before it is whitespace |
| Subv.TrimRight | subv.py:143 | the result is a prefix of the text, does not end with whitespace, and everything removed after it is whitespace |
| Subv.Strip | subv.py:143 | `str.strip()`: the result is the slice of the text between a leading and a trailing run of whitespace, and neither starts nor ends with whitespace; it is empty exactly when the text is all whitespace |
| Subv.Classify | subv.py:131-138 | empty exactly for "", segment exactly for a line starting "==", label exactly for another non-empty line ending ':' |
| Subv.SplitComment | subv.py:144-149 | the code holds no '#'; without a comment it is the whole line, otherwise line == code + "#" + comment |
| Subv.ParseBodyKind | subv.py:151-160 | the parsed body has the classified kind, and only a malformed segment line fails |
| Subv.Parse | subv.py:140-168 | `raw` is the stripped line, `line` is the part before the first '#', and the body has the kind `classify` gives; only a segment line can fail |
| Subv.CommentOnlyIsEmpty | subv.py:143-160 | a line holding only a comment parses as an empty line |
| Subv.FormatLine | subv.py:257-263 | only an instruction line prints; it prints its parts joined by spaces, and then " # " and the comment exactly when there is a non-empty comment |
| Subv.ParseAll | elf.py:86-87 | parsing every line succeeds exactly when each line parses, and line i is the parse of input i |
| Parts.FromPart | bits.py:68-70 | `from_part` succeeds exactly when there is a first tag that reads as a decimal number and the head is a number or reads as one; the width is the tag's number and a numeric head is the value |
| Parts.FieldPartRoundTrip | bits.py:60-70 | a field printed as `value/width` parses back and reads back through `from_part` as the same field |
| Format.RefSlice | format.py:69-80 | `ref_slice`, which no path of the source calls: succeeds exactly when lo <= hi < size; it keeps label, mode and meta, sets the bounds, and the size becomes hi-lo+1; the result still parses back |
| Format.DefaultSlice | format.py:96-105 | `default_slice` succeeds exactly when the reference parses and its own slice, or [hi:lo] when it has none, is as wide as its tag says; the result keeps the tags and parses to the reference with that slice |
| Format.DefaultSliceReparses | format.py:104-105 | the reference printed with a slice parses back with that slice |
| Format.DefaultSliceKeepsSlice | format.py:96-105 | a reference that has its own slice keeps it and its width |
| Format.SliceRef | format.py:128-141 | slicing a reference succeeds exactly when it has a slice that contains the new high bit; the result parses to the reference narrowed to those bits of its slice |
| Format.SubReferenceReparses | format.py:136-141 | the narrowed reference parses back |
| Format.SliceBitOrRef | format.py:125-141 | a number is sliced by `slice`, a label reference by the reference branch, and each fails exactly when that does |
| Format.SliceBitOrRefWidth | format.py:107-141 | a slice [h:l] of a number or a reference is h-l+1 bits wide |
| Format.ImmediateSliceNumber | format.py:125-126 | a slice of a numeric immediate is that slice of its two's-complement code |
| Format.ImmediateSliceReference | format.py:128-141 | a slice of a reference immediate narrows its slice, or the default slice when it has none |
| Format.UnsignedOperand | format.py:161-162 | `bits.u(subv.untag(part, tag), n)` succeeds exactly when the tag checks, the head is a number and it fits n bits |
| Format.SignedOperand | format.py:166 | a numeric immediate must carry the expected first tag and fit signed n bits; it becomes its two's-complement code |
| Format.NumberOperand | format.py:161 | a number that fits, tagged as expected, is its own operand |
| Format.Immediate | format.py:163-166 | a reference goes through `default_slice`, a number through the signed check |
| Format.PackU | format.py:160-168 | `pack_u` takes 3 parts and gives 3 operands |
| Format.PackUParts | format.py:160-168 | the `pack_u` operands are opcode, rd and the immediate, each from its own check |
| Format.PackUFields | format.py:160-162 | the opcode is kept as 7 bits, and rd, tagged `rd`, as 5 bits |
| Format.PackUNumber | format.py:165-166 | a numeric immediate becomes a 20-bit code that sign-extends back to the number; the operands are then 7, 5 and 20 bits wide |
| Format.PackUReference | format.py:163-164 | a reference immediate keeps its own slice, or gets [31:12] |
| Format.PackUFits | format.py:163-166 | the `pack_u` operands have the U widths exactly when the immediate is 20 bits wide, which a numeric one always is |
| Format.PackI | format.py:179-189 | `pack_i` takes 5 parts and gives 5 operands |
| Format.PackIParts | format.py:179-189 | the `pack_i` operands are opcode, rd, sub-opcode, rs and the immediate, each from its own check |
| Format.PackIFields | format.py:179-189 | rd moves ahead of the sub-opcode; opcode 7 bits, rd 5, sub-opcode 3, rs 5, each checked against its tag |
| Format.PackINumber | format.py:186-187 | a numeric immediate becomes a 12-bit code that sign-extends back; the operands are then 7, 5, 3, 5 and 12 bits wide |
| Format.PackIReference | format.py:184-185 | a reference immediate keeps its own slice, or gets [11:0] |
| Format.PackIFits | format.py:184-187 | the `pack_i` operands have the I widths exactly when the immediate is 12 bits wide, which a numeric one always is |
| Format.PackUAcceptsAnyReferenceWidth | format.py:163-164 | `pack_u` accepts a sliced reference of any width; the operands are 7, 5 and that width |
| Format.PackIAcceptsAnyReferenceWidth | format.py:184-185 | `pack_i` accepts a sliced reference of any width |
| Format.PackUAcceptsNarrowReference | format.py:160-168 | `pack_u` accepts `pos[11:0]/imm12`, giving operands of 7, 5 and 12 bits |
| Format.PackIAcceptsWideReference | format.py:179-189 | `pack_i` accepts `x[19:0]/imm20`, giving operands of 7, 5, 3, 5 and 20 bits |
| Format.CheckedPackU | format.py:160-168 | corrected `pack_u`: accepts exactly what `pack_u` accepts with a 20-bit immediate, and gives the same operands |
| Format.CheckedPackI | format.py:179-189 | corrected `pack_i`: accepts exactly what `pack_i` accepts with a 12-bit immediate, and gives the same operands |
| Format.RegistersSB | format.py:200-204 | the S and B registers are opcode, sub-opcode, rs1 and rs2 as unsigned 7, 3, 5 and 5 bits |
| Format.PackSParts | format.py:200-213 | the `pack_s` operands are opcode, imm[4:0], sub-opcode, rs1, rs2, imm[11:5] |
| Format.PackSWidths | format.py:200-213 | `pack_s` keeps the registers, and the operands are 7, 5, 3, 5, 5 and 7 bits wide |
| Format.PackSNumber | format.py:208-213 | the two slices of a numeric immediate, concatenated low slice first, give back its 12-bit code |
| Format.PackSReference | format.py:206-213 | a reference immediate is cut into bits [4:0] and [11:5] of its slice, [11:0] by default |
| Format.PackS | format.py:191-213 | `pack_s`; PackSParts, PackSWidths, PackSNumber and PackSReference state its operands, widths and slices |
| Format.PackJParts | format.py:227-241 | the `pack_j` operands are opcode, rd, imm[18:11], imm[10], imm[9:0], imm[19] |
| Format.PackJWidths | format.py:227-241 | `pack_j` keeps opcode and rd, and the operands are 7, 5, 8, 1, 10 and 1 bits wide |
| Format.PackJNumber | format.py:233-241 | the four slices of a numeric immediate, concatenated in bit order, give back its 20-bit code |
| Format.PackJReference | format.py:231-241 | a reference immediate with the default slice [20:1] is cut into its bits [10:1], [11], [19:12] and [20] |
| Format.PackJ | format.py:215-241 | `pack_j`; PackJParts, PackJWidths, PackJNumber and PackJReference state its operands, widths and slices |
| Format.MinusTwoSlices20 | format.py:221-222 | -2 as a 20-bit code is 0xffffe, and its `pack_j` slices are 1022, 1, 255 and 1 |
| Format.PackJMinusTwo | format.py:221-222 | `pack_j` of `jal x0, -2` gives (111,7) (0,5) (255,8) (1,1) (1022,10) (1,1) |
| Format.PackBParts | format.py:255-270 | the `pack_b` operands are opcode, imm[10], imm[3:0], sub-opcode, rs1, rs2, imm[9:4], imm[11] |
| Format.PackBWidths | format.py:255-270 | `pack_b` keeps the registers, and the operands are 7, 1, 4, 3, 5, 5, 6 and 1 bits wide |
| Format.PackBNumber | format.py:263-270 | the four slices of a numeric immediate, concatenated in bit order, give back its 12-bit code |
| Format.PackBReference | format.py:261-270 | a reference immediate with the default slice [12:1] is cut into its bits [4:1], [10:5], [11] and [12] |
| Format.PackB | format.py:243-270 | `pack_b`; PackBParts, PackBWidths, PackBNumber and PackBReference state its operands, widths and slices |
| Format.MinusTwoSlices12 | format.py:249-250 | -2 as a 12-bit code is 0xffe, and its `pack_b` slices are 14, 63, 1 and 1 |
| Format.PackBMinusTwo | format.py:249-250 | `pack_b` of `beq x6, x0, -2` gives (99,7) (1,1) (14,4) (0,3) (6,5) (0,5) (63,6) (1,1) |
| Format.InstrMap | format.py:272-282 | exactly the eight mnemonics have an entry, and each opcode is a 7-bit RV32I opcode ending in binary 11 |
| Format.Layout | format.py:143-270 | the field widths of every format add up to 32 |
| Format.Encode | format.py:301 | the formatter as `format` calls it: the operands have the format's count, and they have the format's widths exactly when the immediate fits (always, for a numeric one) |
| Format.CheckedEncode | format.py:301 | corrected formatter: accepts what `Encode` accepts when the immediate fits, gives the same operands, and they lay out exactly 32 bits |
| Format.Mnemonic | format.py:290-299 | the opcode check passes exactly when the first part has exactly one tag, a known mnemonic, and its value is that mnemonic's opcode |
| Format.FormatStepCases | format.py:286-306 | a line that does not parse fails; a line outside `code`, or not an instruction, is emitted as its stripped text, and a segment line moves to its segment; an instruction in `code` passes exactly when the mnemonic and the formatter do |
| Format.FormatStepInstr | format.py:301-302 | an instruction in `code` is printed with its parts replaced by the encoded operands and with its comment |
| Format.FormatStepSegment | format.py:303-305 | a successful step moves to the segment a segment line opens and otherwise stays |
| Format.FormatStep | format.py:286-306 | the body of `format`'s loop for one line; FormatStepCases, FormatStepInstr and FormatStepSegment state each branch |
| Format.RunOutputs | format.py:286-306 | the generator emits one line per input line, line i being the step on line i in the state left by the lines before |
| Format.FormatRun | format.py:284-306 | `format` over a whole input; FormatRunLines and FormatRunSegment state its output line by line and its final segment |
| Format.FormatRunSegment | format.py:285-305 | after a run the current segment is the last one opened |
| Format.FormatRunLines | format.py:284-306 | `format` emits one line per input line; line i is the step on line i inside the last segment opened before it |
| Format.FormatLines | format.py:284-306 | the loop of `format` computes the run of the step over all lines |
| Format.CheckedFormatStepLayout | format.py:289-302 | corrected step: where it succeeds it equals the step as written, and every instruction it prints in `code` is exactly the 32 bits of its format |
| Format.CheckedFormatRunAgrees | format.py:284-306 | where the corrected formatter succeeds, the formatter as written gives the same lines |
| Format.CheckedFormatRunLines | format.py:284-306 | every line of an input the corrected formatter accepts passes the corrected step in the segment opened last before it |
| Format.EncodeAcceptsNarrowReference | format.py:160-168 | as written, `lui x5, pos[11:0]` is accepted with operands that are not the 32 bits of the U format; the corrected formatter rejects it |
| Format.EncodeAcceptsWideReference | format.py:179-189 | as written, `addi x6, x0, x[19:0]` is accepted with operands that are not the 32 bits of the I format; the corrected formatter rejects it |
| Survey.TargetCode | survey.py:86-89 | an `imm` target must be in [0, 2^32) and an `off` distance in [-2^31, 2^31); the code is that number modulo 2^32 in 32 bits |
| Survey.Target | survey.py:86-89 | the 32-bit code of a reference's target; TargetCode states when it exists and that it is the number modulo 2^32 |
| Survey.Observe | survey.py:77-91 | a number passes through unchanged, and what `observe` returns is never a label reference |
| Survey.ObserveReference | survey.py:80-91 | a reference resolves exactly when it parses, its label is known, the target fits 32 bits and the slice lies inside them; it becomes that slice of the 32-bit code |
| Survey.ResolvedSlice | survey.py:91 | the slice of a target's code is the resolved field |
| Survey.ObserveBackwardOffset | survey.py:69-70 | `label[31:0]/off32` with the label at 1000 and the line at 2000 resolves to 4294966296 in 32 bits |
| Survey.ObserveBackwardJump | survey.py:31-47 | the final `jal` of the worked example, 0x34 bytes after `main`, resolves to ff/8 01/1 3e6/10 01/1 |
| Survey.ObserveKeepsWidth | survey.py:107-126 | resolving a reference whose slice agrees with its tag keeps the width pass 1 counted for it |
| Survey.PartWidthOfField | survey.py:113-114 | pass 1 counts a printed field by its width |
| Survey.PartWidth | survey.py:110-114 | the width pass 1 counts for a part; PartWidthOfField and ObserveKeepsWidth state it for fields and references |
| Survey.WidthSumOfFields | survey.py:108-114 | the width pass 1 counts for a line of fields is the sum of their widths |
| Survey.WidthSum | survey.py:108-114 | the width of a line in pass 1; WidthSumOfFields and LineWidth state it |
| Survey.LineWidth | survey.py:108-114 | the inner loop of pass 1 computes the line's width sum |
| Survey.Step | survey.py:103-117 | a segment line moves to its base and fails without one; a label maps to the current address; an instruction advances by its width in bytes and fails unless the width is whole bytes; only a label changes the map |
| Survey.StepMoves | survey.py:103-117 | a step moves the address as the line's kind says |
| Survey.Advance | survey.py:102-117 | the body of the first loop computes the step |
| Survey.Pass1 | survey.py:94-117 | pass 1 queues one entry per line |
| Survey.Pass1FailSticks | survey.py:97-117 | once a prefix fails pass 1, the whole input does |
| Survey.Pass1Snoc | survey.py:97-100 | one more line is queued after the others, stamped with the address reached before it |
| Survey.Pass1Stamps | survey.py:98-100 | every line is queued in order, stamped with the address pass 1 reached before it |
| Survey.Pass1Addresses | survey.py:96-117 | the address starts at -1, a segment line sets it to its base, labels and empty lines keep it, and an instruction advances it by its whole bytes |
| Survey.Pass1LabelNames | survey.py:105-106 | the label map holds exactly the labels defined in the input |
| Survey.Pass1Labels | survey.py:105-106 | the label map holds exactly the defined labels, each at the address of its last definition |
| Survey.ReferenceSeesLastDefinition | survey.py:97-123 | a reference resolves against the last definition of its label, whether that comes before or after the line |
| Survey.LayOut | survey.py:94-117 | the first loop of `survey` computes pass 1 |
| Survey.ObserveAll | survey.py:121-124 | the observed parts exist exactly when every part resolves, and part i is part i observed |
| Survey.ObserveParts | survey.py:121-124 | the inner loop of pass 2 computes the observed parts |
| Survey.Render | survey.py:120-128 | a segment line is written as its stripped text; an instruction is written exactly when all its parts resolve, with resolved parts only, from its own address |
| Survey.KeptEntries | survey.py:119-128 | the kept lines are segment and instruction lines, in input order |
| Survey.Pass2Snoc | survey.py:119-128 | pass 2 over one more line appends that line's rendering when it is kept |
| Survey.Pass2Succeeds | survey.py:119-128 | pass 2 succeeds exactly when every kept line renders |
| Survey.Pass2Output | survey.py:119-128 | pass 2 writes the kept lines, each rendered, in input order and nothing else |
| Survey.Pass2FailSticks | survey.py:119-128 | once a prefix fails pass 2, the whole run does |
| Survey.Pass2 | survey.py:119-128 | the second loop of `survey`; Pass2Succeeds, Pass2Output and Pass2Snoc state when it succeeds and what it writes |
| Survey.Resolve | survey.py:119-128 | the second loop of `survey` computes pass 2 |
| Survey.Survey | survey.py:93-128 | `survey` is parsing, then pass 1, then pass 2 |
| Survey.SurveyOf | survey.py:93-128 | `survey`: pass 1, then pass 2 with pass 1's label map; Survey, Pass1Labels and Pass2Output state it |
| Pack.Bytes | pack.py:56-63 | `byteify` succeeds exactly when the width is a multiple of 8; it gives width/8 bytes, byte k being bits [8k+7:8k] |
| Pack.ByteIsSlice | pack.py:60-62 | byte k is the slice [8k+7:8k] of the word |
| Pack.BytesRoundTrip | pack.py:44-63 | every byte is in [0, 255], and read back little-endian the bytes give the word |
| Pack.BytesExample | pack.py:47-48 | `byteify((0x12345678, 32))` gives 0x78, 0x56, 0x34, 0x12 |
| Pack.Byteify | pack.py:56-63 | the loop of `byteify` computes the bytes as bare numeric parts |
| Pack.ByteParts | pack.py:62 | each byte becomes a bare numeric part |
| Pack.BytePartsReparse | pack.py:73-74 | a printed line of bytes parses back as the same bytes |
| Pack.PackInstr | pack.py:70-73 | a packed instruction is made of bare numbers |
| Pack.FieldPartsRead | pack.py:70 | fields printed as parts read back through `from_part` as the same fields |
| Pack.PackFields | pack.py:69-73 | fitting fields of whole bytes pack into the little-endian bytes of their concatenation |
| Pack.PackedBytes | pack.py:70-73 | the packed bytes are bytes, there are as many as the width in bytes, and field k comes back from them shifted down by the widths before it |
| Pack.PackedLui | pack.py:70-71 | `37/7 05/5 10010/20` concatenates to 0x100102b7 |
| Pack.PackLui | pack.py:69-74 | `37/7 05/5 10010/20` packs into the bytes b7 02 01 10 |
| Pack.PackStep | pack.py:67-78 | a line that does not parse fails; a non-instruction line is its stripped text; an instruction line is written exactly when it packs, starting with its bytes |
| Pack.PackLine | pack.py:68-78 | the loop body of `pack` computes the step |
| Pack.PackNext | pack.py:67-78 | one turn of the loop grows the output by the next line, or fails the whole run |
| Pack.Pack | pack.py:65-78 | the loop of `pack` maps the step over all lines |
| Pack.PackOf | pack.py:65-78 | `pack` as a function, PackStep over every line; the method Pack is proved equal to it |
| Elf.Collect | elf.py:84-99 | one segment per segment line |
| Elf.CollectAccepts | elf.py:86-99 | collection succeeds exactly when every line is a segment line with a base or an instruction line, and the first line opens a segment |
| Elf.CollectSnocOk | elf.py:89-99 | one more line is collected exactly when the lines before are, it is accepted, and an instruction has a segment to go into |
| Elf.CollectFailSticks | elf.py:86-99 | once a prefix fails to collect, the whole input does |
| Elf.CollectKeepsInstrs | elf.py:89-97 | the segments hold all instruction parts in input order, one segment per segment line |
| Elf.FirstCode | elf.py:39-40 | the entry point is the base of the first segment named `code`, and there is none exactly when no segment is named `code` |
| Elf.ToBytes | elf.py:26 | `to_bytes(size, 'little')` succeeds exactly when 0 <= num < 2^(8 size); it gives size bytes that read back as num |
| Elf.FitsWords | elf.py:26 | a 2- or 4-byte field holds exactly the numbers below 2^16 or 2^32 |
| Elf.Emit | elf.py:25-27 | a run of `wi` calls writes as many bytes as their sizes add up to |
| Elf.EmitOk | elf.py:25-27 | a run of writes succeeds exactly when every value fits its size |
| Elf.EmitExtend | elf.py:25-27 | one more write extends a run exactly when its value fits |
| Elf.EmitFailSticks | elf.py:25-27 | once a write fails, the longer run fails |
| Elf.EmitAt | elf.py:25-27 | every value of a run of writes reads back from its place |
| Elf.HeaderFields | elf.py:43-57 | the file header writes 15 fields after the magic number |
| Elf.HeaderLayoutFields | elf.py:48-57 | the layout fields are the entry point, the header size twice, the program-header size, the segment count and 0 sections |
| Elf.HeaderStarts | elf.py:42-57 | the byte offsets of the header fields after the magic number |
| Elf.HeaderEnd | elf.py:42-58 | the file header ends at byte 52 |
| Elf.HeaderFieldFits | elf.py:43-57 | only the entry point and the segment count can fail to fit their fields |
| Elf.HeaderFieldsOk | elf.py:43-57 | the header fields can be written exactly when the entry point fits 32 bits and the segment count fits 16 bits |
| Elf.ElfHeaderOf | elf.py:36-58 | with the entry point found, the file header is the magic number followed by the fields, when they all fit |
| Elf.ElfHeader | elf.py:36-58 | `write_elf_header`; ElfHeaderOk, ElfHeaderIdent and ElfHeaderLayout state when it is written and every field |
| Elf.ElfHeaderWritten | elf.py:36-58 | the magic number then the fields, written after any output, make the 52-byte file header |
| Elf.ElfHeaderOk | elf.py:36-58 | the file header can be written exactly when a `code` segment exists whose base fits 32 bits, and there are fewer than 2^16 segments |
| Elf.ElfHeaderIdent | elf.py:42-46 | the header is 52 bytes: the magic, class 32-bit, little-endian, version 1, ET_EXEC and machine RISC-V (0xf3) |
| Elf.ElfHeaderLayout | elf.py:48-57 | `e_entry` is the base of the first `code` segment; `e_phoff` and `e_ehsize` are 52; `e_phentsize` is 32; `e_phnum` is the segment count; `e_shnum` is 0 |
| Elf.Offset | elf.py:62 | `(1 + start // align) * align` is on a page boundary, strictly after start and at most a page later |
| Elf.Layout | elf.py:104-107 | one file offset per segment |
| Elf.LayoutPrefix | elf.py:104-107 | the layout of the first segments is the start of the layout of all |
| Elf.LayoutStep | elf.py:105-107 | one more segment goes on the first page after the end of the last one |
| Elf.LayoutAt | elf.py:105-107 | the offset of segment k is the first page after where the segments before it end |
| Elf.LayoutSeparates | elf.py:104-107 | every segment starts on a page boundary, the first at 0x2000, and the segments' file ranges are in order and never overlap |
| Elf.ProgramFields | elf.py:73-80 | a program header writes 8 fields |
| Elf.ProgramSize | elf.py:73-80 | eight 4-byte fields make 32 bytes |
| Elf.ProgramStarts | elf.py:73-80 | field i of a program header starts at byte 4i |
| Elf.ProgramFieldFits | elf.py:73-80 | only the offset, the base and the size can fail to fit 32 bits |
| Elf.ProgramHeader | elf.py:60-81 | a program header is 32 bytes |
| Elf.ProgramHeaderOk | elf.py:60-81 | a program header can be written exactly when the base is on a page boundary and the offset, the base and the size fit 32 bits |
| Elf.ProgramHeaderLayout | elf.py:60-81 | PT_LOAD, the offset, the base twice, the size twice, flags 5 for `code` and 6 otherwise, and the page alignment |
| Elf.Flags | elf.py:66 | `p_flags` is 5 (read, execute) for `code` and 6 (read, write) otherwise, as ProgramHeaderLayout states |
| Elf.ProgramFieldsLayout | elf.py:73-80 | the eight written fields, word by word |
| Elf.ProgramHeaders | elf.py:104-107 | the program-header table has 32 bytes per segment |
| Elf.TableLength | elf.py:105-107 | a table of 32-byte headers has 32 bytes per segment |
| Elf.TableSnoc | elf.py:105-107 | one more header extends the table exactly when it can be written |
| Elf.TableOk | elf.py:105-107 | the table can be written exactly when every segment's header can, each placed after the segments before |
| Elf.TableAt | elf.py:105-107 | header k sits 32k bytes into the table |
| Elf.TableOfSlots | elf.py:105-107 | 32 bytes per segment whose slot k holds header k is the table |
| Elf.HeadersStep | elf.py:105-107 | one turn of the program-header loop keeps the loop's state |
| Elf.HeadersDone | elf.py:104-107 | after the loop, the bytes written are the table and the recorded offsets are the layout |
| Elf.HeadersFail | elf.py:105-107 | a header that cannot be written fails the table |
| Elf.PartByte | elf.py:112 | `wi(part[0], 1)` succeeds exactly when the head is a number in [0, 255], and writes it |
| Elf.Zeros | elf.py:33 | the padding is the given number of zero bytes |
| Elf.Fill | elf.py:109-112 | the last loop writes exactly as many bytes as the cursor advances |
| Elf.FillStep | elf.py:109-112 | one more segment is padded to its offset and then written, failing when the cursor is past the offset or a part is not a byte |
| Elf.FillPlaces | elf.py:109-112 | byte j of segment k lands at file offset offsets[k] + j |
| Elf.FillLastByte | elf.py:109-112 | byte j of the last segment lands at its offset plus j |
| Elf.FillLast | elf.py:109-112 | what was written for the segments before the last is kept |
| Elf.FillKeeps | elf.py:109-112 | a byte written for the segments before the last stays where it is |
| Elf.FilledStep | elf.py:110-112 | one more segment padded to its offset keeps the loop's state |
| Elf.FilledFail | elf.py:110-112 | a segment that cannot be padded to its offset, or has a part that is not a byte, fails the whole run |
| Elf.FilledDone | elf.py:109-112 | after the last segment, the writer has written the whole fill |
| Elf.FillFailSticks | elf.py:109-112 | once a prefix fails, the whole fill fails |
| Elf.FillOk | elf.py:101-112 | with the layout's offsets, the bytes can be written exactly when the headers end by 0x2000 and every part is a byte, and they end where the layout ends |
| Elf.ImageSplits | elf.py:101-112 | the file is the file header, the program headers and the segments' bytes from the end of the headers on; it fails when any of them does |
| Elf.ImagePlaces | elf.py:101-112 | with both headers written, the file is the headers followed by the placed segments |
| Elf.PlaceSplits | elf.py:109-112 | the headers are followed by the segments' bytes from the end of the headers on |
| Elf.ImageOk | elf.py:101-112 | the file can be written exactly when both headers can, the headers end by 0x2000 (at most 254 segments), and every part is a byte |
| Elf.ImageWithHeaders | elf.py:101-112 | with both headers written, the file can be written exactly when the headers end by 0x2000 and every part is a byte |
| Elf.ImageHeaders | elf.py:103-107 | the file opens with the file header, then the program headers |
| Elf.PlaceHeaders | elf.py:103-107 | the placed file opens with the given headers |
| Elf.PlaceByte | elf.py:109-112 | byte j of segment k is placed at offsets[k] + j |
| Elf.ImageByte | elf.py:101-112 | byte j of segment k is at file offset offsets[k] + j, the offset its program header records |
| Elf.Image | elf.py:101-112 | `main`'s output for collected segments; ImageOk, ImageSplits, ImageHeaders and ImageByte state when it exists and where each byte is |
| Elf.Place | elf.py:109-112 | the headers followed by the segments' bytes; PlaceSplits, PlaceHeaders and PlaceByte state its layout |
| Elf.ElfFileSplits | elf.py:83-112 | the writer fails when a line does not parse or the lines do not collect, and otherwise writes the file of the segments |
| Elf.ElfFile | elf.py:83-112 | the whole writer on the text of the lines; ElfFileSplits states it and ElfWriter.Assemble is proved to produce it |
| ElfWriter.CollectSegments | elf.py:84-99 | the collecting loop computes the segments |
| ElfWriter.FindCode | elf.py:39-40 | finds the first `code` segment's base |
| ElfWriter.Writer.constructor | elf.py:21-23 | the output starts empty |
| ElfWriter.Writer.W | elf.py:21-23 | `w` appends the bytes and returns how many |
| ElfWriter.Writer.Wi | elf.py:25-27 | `wi` succeeds exactly when the value fits; it appends its little-endian bytes and returns the size; on failure nothing is written |
| ElfWriter.Writer.Padto | elf.py:29-34 | `padto` succeeds exactly when the cursor is not past the offset; it appends the missing zeros and returns the offset |
| ElfWriter.Writer.WriteFields | elf.py:42-57 | a run of `wi` calls writes the emitted fields and returns their total size |
| ElfWriter.Writer.WriteElfHeader | elf.py:36-58 | `write_elf_header` succeeds exactly when the file header can be written; it writes it and returns 52 |
| ElfWriter.Writer.WriteProgramHeader | elf.py:60-81 | `write_program_header` succeeds exactly when the header can be written; it writes it and returns the cursor 32 bytes on and the segment's offset |
| ElfWriter.Writer.WriteNextHeader | elf.py:105-107 | one turn of the header loop writes the next header and records its offset, or fails the table |
| ElfWriter.Writer.WriteProgramHeaders | elf.py:104-107 | the header loop succeeds exactly when the table can be written; it writes it, advances the cursor by 32 per segment, and records the layout's offsets |
| ElfWriter.Writer.WriteSegment | elf.py:110-112 | pads to the offset and writes each part as a byte; succeeds exactly when the cursor is not past the offset and every part is a byte |
| ElfWriter.Writer.WriteSegments | elf.py:109-112 | the last loop succeeds exactly when the fill does, and writes it |
| ElfWriter.Writer.WriteElf | elf.py:101-112 | the main block after collection succeeds exactly when the file header, the program headers and the fill can be written, and writes them in that order |
| ElfWriter.WriteImage | elf.py:101-112 | the writer on collected segments produces the file image |
| ElfWriter.Assemble | elf.py:83-112 | the main block on the input lines produces the file of `ElfFile` |

## Left out

- Subv.Strip: strips ASCII whitespace only (space, `\t` to `\r`, `\x1c` to `\x1f`). Python's `str.strip()` also strips `\x85`, `\xa0`, `\u3000` and the other Unicode spaces. Such a line keeps those characters in the model.
- Subv.ParseInt: reads an optional sign, `0x`/`0X` in base 16, and ASCII digits. Python's `int()` also accepts underscores between digits (`1_0`), whitespace around the number, and Unicode digits, and this model rejects them. Three places in the source are affected:
  - `from_part` (bits.py:68-70) on a text head or a width tag;
  - the width sum of the survey (survey.py:114);
  - the `\d+` groups of `slice_re` and `field_re` (subv.py:4-5), which also match Unicode digits that `int()` then reads.

  Whitespace inside a token can happen: `8\r` survives the split on `[ \t.\n]`, and `int()` reads it while the model fails.
- Elf.ElfFile and ElfWriter.Writer.WriteElf: when a write fails, `elf.py` has already put part of the file on standard output before raising. The model's result is `Fail`, and the method's contract does not say what `out` holds after a failure.
- Elf.ProgramHeader: the two debug `print` calls before the alignment error (elf.py:69-70) are left out, because they write diagnostic text, not part of the file.
- pack.py keeps a `segment` variable (pack.py:66, 76-77) that is never read. It is not modelled, because it has no effect on the output.
- The R format (`pack_r`) is commented out of `instr_map` (format.py:273), so an `opr` mnemonic fails like any unknown one.
- Standard input, standard output and the `__main__` drivers are parameters and results: each stage takes the input lines as a sequence of strings and returns its output lines (for `elf.py`, its bytes). `join_all` (subv.py:265-267) only joins output lines with newlines and is not modelled.
- Elf.ElfFile parses every line before collecting any. elf.py parses and collects line by line. The results are the same, because nothing is written before collection ends.
- Elf.Collect: a segment is a value. The Python `segment` alias of the last entry of `segments` is modelled as updating the last element of the sequence. The offsets that `write_program_header` stores in the segment dictionaries are a separate sequence returned by `Writer.WriteProgramHeaders`.
- The generators of `format`, `survey` and `pack` are modelled as whole-sequence functions. A failing line fails the whole run; lines the source yields before the failure are not part of the result.
- Formatter results such as `(19, 7)` carry an integer width. The model prints them as the part `13/7`, which is what `subv.format` makes of them.

## Findings

| source | as written | input that shows it | evidently intended | confidence | as-written member | corrected member |
|---|---|---|---|---|---|---|
| format.py:160-168, format.py:179-189 with format.py:96-105 | `pack_u` and `pack_i` send a label reference through `default_slice`, which checks the slice only against the size in the reference's own tag, never against the 20 or 12 bits of the format | `37/lui 05/rd pos[11:0]/imm12` in `code` becomes a 24-bit U instruction (3 bytes after packing); `13/opi 00/subop 06/rd 00/rs x[19:0]/imm20` becomes a 40-bit I instruction | a U immediate is exactly 20 bits and an I immediate exactly 12, as the numeric branch already requires, so every instruction is 32 bits | not executed | Format.EncodeAcceptsNarrowReference, Format.EncodeAcceptsWideReference (via Format.PackUAcceptsNarrowReference, Format.PackIAcceptsWideReference) | Format.CheckedEncode, Format.CheckedFormatStepLayout, Format.CheckedFormatRunAgrees |
