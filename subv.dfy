/** The line format the stages hand to each other. A line is classified as
    empty, segment (`== name base`), label (`name:`) or instruction; an
    instruction line is a list of parts `value/tag/tag...` separated by
    white characters. Parsing and printing of those parts. */
module Subv {
  import opened Wrappers

  // ---------------------------------------------------------------------
  // Characters and digits
  // ---------------------------------------------------------------------

  /** The characters Python's `str.strip()` removes (its ASCII whitespace). */
  predicate IsSpace(c: char)
  {
    c == ' ' || ('\t' <= c <= '\r') || ('\U{1C}' <= c <= '\U{1F}')
  }

  /** The separators of the `white` pattern: space, tab, dot and newline. */
  predicate IsWhite(c: char)
  {
    c == ' ' || c == '\t' || c == '.' || c == '\n'
  }

  predicate NoWhite(s: string)
  {
    forall i :: 0 <= i < |s| ==> !IsWhite(s[i])
  }

  /** A digit of base 10 or 16 as Python's `int()` reads it (hex digits in
      either case). */
  predicate IsDigit(c: char, base: int)
  {
    ('0' <= c <= '9') || (base == 16 && ('a' <= c <= 'f' || 'A' <= c <= 'F'))
  }

  /** A digit as the source prints it: decimal, or lower-case hex. */
  predicate IsLowerDigit(c: char, base: int)
  {
    ('0' <= c <= '9') || (base == 16 && 'a' <= c <= 'f')
  }

  predicate AllDigits(ds: string, base: int)
  {
    forall i :: 0 <= i < |ds| ==> IsDigit(ds[i], base)
  }

  function DigitValue(c: char): int
    requires IsDigit(c, 16)
  {
    if '0' <= c <= '9' then c as int - '0' as int
    else if 'a' <= c <= 'f' then c as int - 'a' as int + 10
    else c as int - 'A' as int + 10
  }

  /** The number a string of digits stands for, most significant first. */
  function DigitsValue(ds: string, base: int): int
    requires AllDigits(ds, base)
  {
    if ds == [] then 0 else DigitsValue(ds[..|ds| - 1], base) * base + DigitValue(ds[|ds| - 1])
  }

  /** The lower-case digit character of 0 <= d < 16. */
  function DigitChar(d: int): char
    requires 0 <= d < 16
  {
    if d < 10 then ('0' as int + d) as char else ('a' as int + d - 10) as char
  }

  /** The digits of n in base 10 or 16, most significant first, without
      leading zeros. */
  function Digits(n: nat, base: int): string
    requires base == 10 || base == 16
    decreases n
  {
    if n < base then [DigitChar(n)] else Digits(n / base, base) + [DigitChar(n % base)]
  }

  /** Digits(n) is a non-empty string of lower-case digits that reads back
      as n. */
  lemma {:induction false} DigitsRoundTrip(n: nat, base: int)
    requires base == 10 || base == 16
    ensures |Digits(n, base)| >= 1
    ensures forall i :: 0 <= i < |Digits(n, base)| ==> IsLowerDigit(Digits(n, base)[i], base)
    ensures AllDigits(Digits(n, base), base)
    ensures DigitsValue(Digits(n, base), base) == n
    decreases n
  {
    var s := Digits(n, base);
    if n < base {
      assert s[..0] == [];
    } else {
      DigitsRoundTrip(n / base, base);
      assert s[..|s| - 1] == Digits(n / base, base);
      assert DigitsValue(s, base) == (n / base) * base + n % base;
    }
  }

  /** Python's `str(n)`. */
  function DecimalString(n: int): string
  {
    if n < 0 then "-" + Digits(-n, 10) else Digits(n, 10)
  }

  /** Python's `'{:02x}'.format(n)`: lower-case hex, padded with zeros to at
      least two characters (the sign counts towards the two). */
  function HexString(n: int): string
  {
    if n < 0 then "-" + Digits(-n, 16)
    else
      var ds := Digits(n, 16);
      if |ds| < 2 then "0" + ds else ds
  }

  /** Python's `int(s, base)` for base 10 or 16: an optional sign, for base 16
      an optional 0x/0X prefix, then one or more digits; None where Python
      raises. */
  function ParseInt(s: string, base: int): Option<int>
  {
    var body := if |s| > 0 && (s[0] == '-' || s[0] == '+') then s[1..] else s;
    var ds := if base == 16 && |body| >= 2 && body[0] == '0' && (body[1] == 'x' || body[1] == 'X')
              then body[2..] else body;
    if ds != [] && AllDigits(ds, base) then
      Some(if |s| > 0 && s[0] == '-' then -DigitsValue(ds, base) else DigitsValue(ds, base))
    else None
  }

  /** The `hex` pattern: an optional '-', an optional "0x", then one or more
      lower-case hex digits, and nothing else. */
  predicate LooksHex(s: string)
  {
    var body := if |s| > 0 && s[0] == '-' then s[1..] else s;
    var ds := if |body| >= 2 && body[0] == '0' && body[1] == 'x' then body[2..] else body;
    ds != [] && forall i :: 0 <= i < |ds| ==> IsLowerDigit(ds[i], 16)
  }

  /** Text that matches the hex pattern is accepted by `int(text, 16)`. */
  lemma LooksHexParses(s: string)
    requires LooksHex(s)
    ensures ParseInt(s, 16).Some?
  {
    var body := if |s| > 0 && s[0] == '-' then s[1..] else s;
    var ds := if |body| >= 2 && body[0] == '0' && body[1] == 'x' then body[2..] else body;
    forall k | 0 <= k < |ds| ensures IsDigit(ds[k], 16) {
      assert IsLowerDigit(ds[k], 16);
    }
  }

  /** `str(n)` reads back with `int(_, 10)`. */
  lemma DecimalRoundTrip(n: int)
    ensures ParseInt(DecimalString(n), 10) == Some(n)
    ensures NoWhite(DecimalString(n)) && '/' !in DecimalString(n) && DecimalString(n) != ""
  {
    var m := if n < 0 then -n else n;
    DigitsRoundTrip(m, 10);
    NoWhiteDigits(Digits(m, 10), 10);
    if n < 0 {
      assert DecimalString(n)[1..] == Digits(m, 10);
    }
  }

  predicate LowerDigits(ds: string, base: int)
  {
    ds != [] && forall k :: 0 <= k < |ds| ==> IsLowerDigit(ds[k], base)
  }

  /** Lower-case hex digits, with or without a leading '-', match the hex
      pattern and read back in base 16. */
  lemma HexDigitsParse(ds: string, negative: bool)
    requires LowerDigits(ds, 16)
    ensures AllDigits(ds, 16)
    ensures var s := if negative then "-" + ds else ds;
      LooksHex(s) && ParseInt(s, 16) == Some(if negative then -DigitsValue(ds, 16) else DigitsValue(ds, 16))
  {
    forall k | 0 <= k < |ds| ensures IsDigit(ds[k], 16) {
      assert IsLowerDigit(ds[k], 16);
    }
    if negative {
      assert ("-" + ds)[1..] == ds;
    }
  }

  lemma NoWhiteDigits(ds: string, base: int)
    requires LowerDigits(ds, base)
    ensures NoWhite(ds) && NoWhite("-" + ds) && NoWhite("0" + ds) && '/' !in ds
  {
    assert forall k :: 0 <= k < |ds| ==> IsLowerDigit(ds[k], base);
  }

  /** `'{:02x}'.format(n)` matches the hex pattern and reads back with
      `int(_, 16)`. */
  lemma HexRoundTrip(n: int)
    ensures LooksHex(HexString(n))
    ensures ParseInt(HexString(n), 16) == Some(n)
    ensures NoWhite(HexString(n)) && '/' !in HexString(n) && HexString(n) != ""
  {
    var m := if n < 0 then -n else n;
    DigitsRoundTrip(m, 16);
    var ds := Digits(m, 16);
    NoWhiteDigits(ds, 16);
    if n < 0 {
      HexDigitsParse(ds, true);
    } else if |ds| < 2 {
      var s := "0" + ds;
      assert s == ['0', ds[0]];
      HexDigitsParse(s, false);
      assert s[..1] == "0" && ds[..0] == [];
      assert DigitsValue(s, 16) == DigitsValue(ds, 16);
    } else {
      HexDigitsParse(ds, false);
    }
  }

  // ---------------------------------------------------------------------
  // Splitting and joining
  // ---------------------------------------------------------------------

  /** Python's `s.split(sep)` for a one-character separator. */
  function SplitOn(s: string, sep: char): (pieces: seq<string>)
    ensures |pieces| >= 1
    ensures forall i :: 0 <= i < |pieces| ==> sep !in pieces[i]
  {
    if s == [] then [""]
    else
      var rest := SplitOn(s[1..], sep);
      if s[0] == sep then [""] + rest else [[s[0]] + rest[0]] + rest[1..]
  }

  /** Python's `sep.join(pieces)`. */
  function Join(pieces: seq<string>, sep: string): string
  {
    if pieces == [] then ""
    else if |pieces| == 1 then pieces[0]
    else pieces[0] + sep + Join(pieces[1..], sep)
  }

  lemma {:induction false} SplitOnPrefix(w: string, t: string, sep: char)
    requires sep !in w
    ensures SplitOn(w + t, sep) == [w + SplitOn(t, sep)[0]] + SplitOn(t, sep)[1..]
  {
    if w != [] {
      assert (w + t)[1..] == w[1..] + t;
      SplitOnPrefix(w[1..], t, sep);
      assert [w[0]] + (w[1..] + SplitOn(t, sep)[0]) == w + SplitOn(t, sep)[0];
    } else {
      assert w + t == t;
      assert w + SplitOn(t, sep)[0] == SplitOn(t, sep)[0];
      assert [SplitOn(t, sep)[0]] + SplitOn(t, sep)[1..] == SplitOn(t, sep);
    }
  }

  /** Joining pieces that do not contain the separator and splitting again
      gives the pieces back. */
  lemma {:induction false} SplitJoin(pieces: seq<string>, sep: char)
    requires |pieces| >= 1
    requires forall i :: 0 <= i < |pieces| ==> sep !in pieces[i]
    ensures SplitOn(Join(pieces, [sep]), sep) == pieces
  {
    if |pieces| == 1 {
      SplitOnPrefix(pieces[0], "", sep);
      assert pieces[0] + "" == pieces[0];
    } else {
      var t := Join(pieces[1..], [sep]);
      SplitJoin(pieces[1..], sep);
      assert pieces[0] + [sep] + t == pieces[0] + ([sep] + t);
      SplitOnPrefix(pieces[0], [sep] + t, sep);
      assert ([sep] + t)[1..] == t;
      assert pieces[0] + "" == pieces[0];
    }
  }

  /** Splitting and joining again gives the text back. */
  lemma {:induction false} JoinSplit(s: string, sep: char)
    ensures Join(SplitOn(s, sep), [sep]) == s
  {
    if s != [] {
      JoinSplit(s[1..], sep);
      var rest := SplitOn(s[1..], sep);
      if s[0] == sep {
        assert s == [sep] + Join(rest, [sep]);
      } else {
        if |rest| == 1 {
          assert s == [s[0]] + s[1..];
        } else {
          assert Join(rest, [sep]) == rest[0] + [sep] + Join(rest[1..], [sep]);
          assert ([[s[0]] + rest[0]] + rest[1..])[1..] == rest[1..];
          assert s == [s[0]] + s[1..];
        }
      }
    }
  }

  /** The text after the leading run of white characters. */
  function DropWhite(s: string): (r: string)
    ensures |r| <= |s|
    ensures s != [] && IsWhite(s[0]) ==> |r| < |s|
    ensures r == [] || !IsWhite(r[0])
  {
    if s != [] && IsWhite(s[0]) then DropWhite(s[1..]) else s
  }

  /** `white.split(s)`: the pieces between maximal runs of white characters;
      a run at either end leaves an empty piece there. */
  function SplitWhite(s: string): (pieces: seq<string>)
    ensures |pieces| >= 1
    ensures forall k :: 0 <= k < |pieces| ==> NoWhite(pieces[k])
    ensures forall k :: 0 < k < |pieces| - 1 ==> pieces[k] != ""
    ensures s != [] && !IsWhite(s[0]) ==> pieces[0] != ""
    decreases |s|
  {
    if s == [] then [""]
    else if IsWhite(s[0]) then [""] + SplitWhite(DropWhite(s))
    else
      var rest := SplitWhite(s[1..]);
      [[s[0]] + rest[0]] + rest[1..]
  }

  /** `white.sub(' ', s)`: every maximal run of white characters replaced
      by a single space. */
  function Squeeze(s: string): string
    decreases |s|
  {
    if s == [] then ""
    else if IsWhite(s[0]) then " " + Squeeze(DropWhite(s))
    else [s[0]] + Squeeze(s[1..])
  }

  /** The pieces of `white.split(s)`, joined by single spaces, are `s` with
      its white runs squeezed; as the pieces hold no white character, this
      determines them. */
  lemma {:induction false} SplitWhiteSqueeze(s: string)
    ensures Join(SplitWhite(s), " ") == Squeeze(s)
    decreases |s|
  {
    if s == [] {
    } else if IsWhite(s[0]) {
      SplitWhiteSqueeze(DropWhite(s));
    } else {
      var rest := SplitWhite(s[1..]);
      SplitWhiteSqueeze(s[1..]);
      var pieces := [[s[0]] + rest[0]] + rest[1..];
      if |rest| == 1 {
        assert Join(pieces, " ") == [s[0]] + Join(rest, " ");
      } else {
        assert pieces[1..] == rest[1..];
        assert Join(pieces, " ") == [s[0]] + (rest[0] + " " + Join(rest[1..], " "));
      }
    }
  }

  /** The non-empty pieces, in order. */
  function NonEmptyWords(ws: seq<string>): seq<string>
  {
    if ws == [] then [] else (if ws[0] == "" then [] else [ws[0]]) + NonEmptyWords(ws[1..])
  }

  lemma {:induction false} SplitWhitePrefix(w: string, t: string)
    requires NoWhite(w)
    ensures SplitWhite(w + t) == [w + SplitWhite(t)[0]] + SplitWhite(t)[1..]
  {
    if w != [] {
      assert (w + t)[0] == w[0];
      assert (w + t)[1..] == w[1..] + t;
      SplitWhitePrefix(w[1..], t);
      assert [w[0]] + (w[1..] + SplitWhite(t)[0]) == w + SplitWhite(t)[0];
    } else {
      assert w + t == t;
      assert w + SplitWhite(t)[0] == SplitWhite(t)[0];
      assert [SplitWhite(t)[0]] + SplitWhite(t)[1..] == SplitWhite(t);
    }
  }

  /** Words without white characters, joined by single spaces, split back
      into those words. */
  lemma {:induction false} SplitWhiteJoin(words: seq<string>)
    requires |words| >= 1
    requires forall i :: 0 <= i < |words| ==> words[i] != "" && NoWhite(words[i])
    ensures SplitWhite(Join(words, " ")) == words
  {
    if |words| == 1 {
      SplitWhitePrefix(words[0], "");
      assert words[0] + "" == words[0];
    } else {
      var t := Join(words[1..], " ");
      SplitWhiteJoin(words[1..]);
      assert t != [] && !IsWhite(t[0]) by {
        if |words[1..]| == 1 {
        } else {
          assert t == words[1] + " " + Join(words[2..], " ");
        }
        assert t[0] == words[1][0];
      }
      assert words[0] + " " + t == words[0] + (" " + t);
      SplitWhitePrefix(words[0], " " + t);
      assert DropWhite(" " + t) == t by {
        assert (" " + t)[1..] == t;
      }
      assert words[0] + "" == words[0];
    }
  }

  lemma {:induction false} NonEmptyWordsKeeps(ws: seq<string>)
    requires forall i :: 0 <= i < |ws| ==> ws[i] != ""
    ensures NonEmptyWords(ws) == ws
  {
    if ws != [] {
      NonEmptyWordsKeeps(ws[1..]);
    }
  }

  /** The position of the first c in s, or |s| when there is none. */
  function IndexOf(s: string, c: char): (i: nat)
    ensures i <= |s| && (i < |s| ==> s[i] == c)
    ensures forall k :: 0 <= k < i ==> s[k] != c
  {
    if s == [] || s[0] == c then 0 else 1 + IndexOf(s[1..], c)
  }

  lemma {:induction false} IndexOfAppend(a: string, b: string, c: char)
    requires c !in a
    ensures IndexOf(a + b, c) == |a| + IndexOf(b, c)
  {
    if a != [] {
      assert (a + b)[1..] == a[1..] + b;
      IndexOfAppend(a[1..], b, c);
    } else {
      assert a + b == b;
    }
  }

  // ---------------------------------------------------------------------
  // Parts
  // ---------------------------------------------------------------------

  /** The first item of a part: a number (its text matched the hex pattern)
      or text. */
  datatype Head = Num(n: int) | Text(s: string)

  /** A part, the source's tuple `(head, tag, tag, ...)`. */
  datatype Part = Part(head: Head, tags: seq<string>)

  function HeadText(h: Head): string
  {
    match h
    case Num(n) => HexString(n)
    case Text(s) => s
  }

  /** `format_part`: the head (a number as lower-case hex, at least two
      digits) and the tags, joined by '/'. */
  function FormatPart(p: Part): string
  {
    Join([HeadText(p.head)] + p.tags, "/")
  }

  /** `parse_part`: split at every '/'; the first item becomes a number read
      in base 16 exactly when it matches the hex pattern, the others stay
      text. Text parts print back to the text they were read from. */
  function ParsePart(s: string): (p: Part)
    ensures forall i :: 0 <= i < |p.tags| ==> '/' !in p.tags[i]
    ensures p.head.Num? <==> LooksHex(SplitOn(s, '/')[0])
    ensures p.head.Num? ==> ParseInt(SplitOn(s, '/')[0], 16) == Some(p.head.n)
    ensures p.head.Text? ==> FormatPart(p) == s
  {
    var items := SplitOn(s, '/');
    var first := items[0];
    if LooksHex(first) then
      LooksHexParses(first);
      Part(Num(ParseInt(first, 16).value), items[1..])
    else
      JoinSplit(s, '/');
      assert [first] + items[1..] == items;
      Part(Text(first), items[1..])
  }

  /** A part that `parse_part` reads back from its printed form: no item
      contains '/', and a text head does not itself look like a number. */
  predicate Reparsable(p: Part)
  {
    && (p.head.Text? ==> '/' !in p.head.s && !LooksHex(p.head.s))
    && forall i :: 0 <= i < |p.tags| ==> '/' !in p.tags[i]
  }

  /** Printing a part and parsing it again gives the part back. */
  lemma FormatPartRoundTrip(p: Part)
    requires Reparsable(p)
    ensures ParsePart(FormatPart(p)) == p
  {
    HexRoundTrip(if p.head.Num? then p.head.n else 0);
    var items := [HeadText(p.head)] + p.tags;
    assert forall i :: 0 <= i < |items| ==> '/' !in items[i] by {
      forall i | 0 <= i < |items| ensures '/' !in items[i] {
        if i > 0 {
          assert items[i] == p.tags[i - 1];
        }
      }
    }
    SplitJoin(items, '/');
  }

  /** `is_reference`: a part whose head is text (a label reference). */
  predicate IsReference(p: Part)
  {
    p.head.Text?
  }

  /** A part read from text is a label reference exactly when its first
      '/'-piece is not a number in the `hex` pattern. */
  lemma IsReferenceParsed(s: string)
    ensures IsReference(ParsePart(s)) <==> !LooksHex(SplitOn(s, '/')[0])
  {
  }

  /** `untag(part, expected)`: the head of a part. When an expected tag is
      given (a non-empty string) the part's first tag must exist and equal
      it. */
  function Untag(p: Part, expected: Option<string>): (r: Result<Head>)
    ensures r.Ok? ==> r.value == p.head
    ensures r.Fail? <==> expected.Some? && expected.value != "" && (p.tags == [] || p.tags[0] != expected.value)
  {
    if expected.Some? && expected.value != "" && (|p.tags| == 0 || p.tags[0] != expected.value) then Fail
    else Ok(p.head)
  }

  // ---------------------------------------------------------------------
  // Instruction lines
  // ---------------------------------------------------------------------

  /** `parse_instr`: the non-empty pieces of the line between runs of white
      characters, each parsed as a part. */
  function ParseInstr(line: string): (parts: seq<Part>)
  {
    var words := NonEmptyWords(SplitWhite(line));
    seq(|words|, i requires 0 <= i < |words| => ParsePart(words[i]))
  }

  /** The parts printed with `format_part` and joined by single spaces. */
  function FormatParts(parts: seq<Part>): string
  {
    Join(seq(|parts|, i requires 0 <= i < |parts| => FormatPart(parts[i])), " ")
  }

  /** A part whose printed form is one non-empty word that reads back as
      the part. */
  predicate Printable(p: Part)
  {
    && Reparsable(p)
    && (p.head.Text? ==> NoWhite(p.head.s))
    && (forall i :: 0 <= i < |p.tags| ==> NoWhite(p.tags[i]))
    && (p.head.Num? || p.head.s != "" || p.tags != [])
  }

  lemma {:induction false} JoinNoWhite(pieces: seq<string>)
    requires forall i :: 0 <= i < |pieces| ==> NoWhite(pieces[i])
    ensures NoWhite(Join(pieces, "/"))
  {
    if |pieces| > 1 {
      JoinNoWhite(pieces[1..]);
      var t := Join(pieces[1..], "/");
      var s := pieces[0] + "/" + t;
      forall i | 0 <= i < |s| ensures !IsWhite(s[i]) {
        if i < |pieces[0]| {
          assert s[i] == pieces[0][i];
        } else if i > |pieces[0]| {
          assert s[i] == t[i - |pieces[0]| - 1];
        }
      }
    }
  }

  lemma PrintableWord(p: Part)
    requires Printable(p)
    ensures FormatPart(p) != "" && NoWhite(FormatPart(p))
  {
    HexRoundTrip(if p.head.Num? then p.head.n else 0);
    var items := [HeadText(p.head)] + p.tags;
    assert forall i :: 0 <= i < |items| ==> NoWhite(items[i]) by {
      forall i | 0 <= i < |items| ensures NoWhite(items[i]) {
        if i > 0 {
          assert items[i] == p.tags[i - 1];
        }
      }
    }
    JoinNoWhite(items);
    if |items| > 1 {
      assert FormatPart(p) == items[0] + "/" + Join(items[1..], "/");
    }
  }

  /** An instruction line printed by one stage is parsed back to the same
      parts by the next. */
  lemma InstrRoundTrip(parts: seq<Part>)
    requires forall i :: 0 <= i < |parts| ==> Printable(parts[i])
    ensures ParseInstr(FormatParts(parts)) == parts
  {
    var words := seq(|parts|, i requires 0 <= i < |parts| => FormatPart(parts[i]));
    if parts == [] {
      assert FormatParts(parts) == "";
    } else {
      forall i | 0 <= i < |words| ensures words[i] != "" && NoWhite(words[i]) {
        PrintableWord(parts[i]);
      }
      SplitWhiteJoin(words);
      NonEmptyWordsKeeps(words);
      forall i | 0 <= i < |parts| ensures ParsePart(words[i]) == parts[i] {
        FormatPartRoundTrip(parts[i]);
      }
    }
  }

  // ---------------------------------------------------------------------
  // Segment, label and reference syntax
  // ---------------------------------------------------------------------

  /** A segment line's name and, when one is given, its base address. */
  datatype Segment = Segment(name: string, base: Option<int>)

  /** `parse_segment`: three pieces give the name and a base read in hex,
      two give the name alone, any other count fails. */
  function ParseSegment(line: string): (r: Result<Segment>)
    ensures var ws := SplitWhite(line);
      r.Ok? <==> |ws| == 2 || (|ws| == 3 && ParseInt(ws[2], 16).Some?)
    ensures var ws := SplitWhite(line);
      r.Ok? ==> r.value.name == ws[1] && (r.value.base.Some? <==> |ws| == 3)
    ensures var ws := SplitWhite(line);
      r.Ok? && |ws| == 3 ==> r.value.base == ParseInt(ws[2], 16)
  {
    var ws := SplitWhite(line);
    if |ws| == 3 then
      match ParseInt(ws[2], 16)
      case Some(b) => Ok(Segment(ws[1], Some(b)))
      case None => Fail
    else if |ws| == 2 then Ok(Segment(ws[1], None))
    else Fail
  }

  /** `parse_label`: the line without its last character. */
  function ParseLabel(line: string): (r: string)
    ensures line != [] ==> r + [line[|line| - 1]] == line
    ensures line == [] ==> r == []
  {
    if line == [] then [] else line[..|line| - 1]
  }

  datatype Mode = Imm | Off

  datatype Bounds = Bounds(hi: int, lo: int)

  /** A parsed label reference: `label[hi:lo]` with the field tag
      `imm<size>` or `off<size>` and any further tags as meta. */
  datatype Reference = Reference(name: string, mode: Mode, size: int, meta: seq<string>, bounds: Option<Bounds>)

  function ModeName(m: Mode): string
  {
    match m
    case Imm => "imm"
    case Off => "off"
  }

  /** The `[hi:lo]` part of the `slice_re` pattern, without its '[': decimal
      hi, ':', decimal lo, ']' and nothing else. */
  function ParseBoundsText(inner: string): (r: Result<Bounds>)
    ensures r.Ok? ==> r.value.hi >= 0 && r.value.lo >= 0
  {
    var j := IndexOf(inner, ':');
    if j == |inner| || inner[|inner| - 1] != ']' then Fail
    else
      var hi, lo := inner[..j], inner[j + 1..|inner| - 1];
      if hi != [] && lo != [] && AllDigits(hi, 10) && AllDigits(lo, 10) then
        DigitsNonNegative(hi);
        DigitsNonNegative(lo);
        Ok(Bounds(DigitsValue(hi, 10), DigitsValue(lo, 10)))
      else Fail
  }

  /** The `slice_re` pattern: one or more characters other than '[', then
      optionally `[hi:lo]`; the label is the text before the '['. */
  function ParseSliceSpec(text: string): (r: Result<(string, Option<Bounds>)>)
    ensures r.Ok? ==> r.value.0 != [] && '[' !in r.value.0
    ensures r.Ok? ==> |r.value.0| <= |text| && text[..|r.value.0|] == r.value.0
    ensures r.Ok? ==> (r.value.1.None? <==> r.value.0 == text)
    ensures r.Ok? && r.value.1.Some? ==> r.value.1.value.hi >= 0 && r.value.1.value.lo >= 0
  {
    var i := IndexOf(text, '[');
    if i == 0 then Fail
    else if i == |text| then
      assert text[..i] == text;
      Ok((text, None))
    else
      var b :- ParseBoundsText(text[i + 1..]);
      Ok((text[..i], Some(b)))
  }

  /** The `field_re` pattern: "imm" or "off" followed by decimal digits. */
  function ParseFieldTag(t: string): (r: Result<(Mode, int)>)
    ensures r.Ok? ==> |t| > 3 && t[..3] == ModeName(r.value.0) && r.value.1 >= 0
  {
    if |t| > 3 && AllDigits(t[3..], 10) && (t[..3] == "imm" || t[..3] == "off") then
      DigitsNonNegative(t[3..]);
      Ok((if t[..3] == "imm" then Imm else Off, DigitsValue(t[3..], 10)))
    else Fail
  }

  /** `parse_reference`: the label is the text before '['; bounds exist only
      when a `[hi:lo]` suffix does; the first tag must be `imm` or `off`
      followed by a decimal size; the remaining tags are kept as meta. */
  function ParseReference(p: Part): (r: Result<Reference>)
    ensures r.Ok? ==> p.head.Text? && p.tags != [] && r.value.meta == p.tags[1..]
    ensures r.Ok? ==> r.value.name != [] && '[' !in r.value.name
    ensures r.Ok? ==> |r.value.name| <= |p.head.s| && p.head.s[..|r.value.name|] == r.value.name
    ensures r.Ok? ==> (r.value.bounds.None? <==> r.value.name == p.head.s)
    ensures r.Ok? ==> r.value.size >= 0
    ensures r.Ok? && r.value.bounds.Some? ==> r.value.bounds.value.hi >= 0 && r.value.bounds.value.lo >= 0
    ensures r.Ok? ==> |p.tags[0]| > 3 && p.tags[0][..3] == ModeName(r.value.mode)
  {
    if p.head.Num? || p.tags == [] then Fail
    else
      var spec :- ParseSliceSpec(p.head.s);
      var field :- ParseFieldTag(p.tags[0]);
      Ok(Reference(spec.0, field.0, field.1, p.tags[1..], spec.1))
  }

  lemma {:induction false} DigitsNonNegative(ds: string)
    requires AllDigits(ds, 10)
    ensures DigitsValue(ds, 10) >= 0
  {
    if ds != [] {
      DigitsNonNegative(ds[..|ds| - 1]);
    }
  }

  /** The text `label[hi:lo]`, as the formatter writes a sliced reference. */
  function SliceText(name: string, b: Bounds): string
  {
    name + "[" + DecimalString(b.hi) + ":" + DecimalString(b.lo) + "]"
  }

  /** The field tag `<mode><size>`. */
  function FieldTag(mode: Mode, size: int): string
  {
    ModeName(mode) + DecimalString(size)
  }

  /** A reference as a part: its label (with its slice when it has one),
      its field tag, then its meta tags. */
  function ReferencePart(ref: Reference): Part
  {
    var head := if ref.bounds.Some? then SliceText(ref.name, ref.bounds.value) else ref.name;
    Part(Text(head), [FieldTag(ref.mode, ref.size)] + ref.meta)
  }

  /** A reference the syntax can express: a non-empty label without '[',
      and non-negative size and bounds. */
  predicate Expressible(ref: Reference)
  {
    && ref.name != [] && '[' !in ref.name && ref.size >= 0
    && (ref.bounds.Some? ==> ref.bounds.value.hi >= 0 && ref.bounds.value.lo >= 0)
  }

  lemma BoundsTextSplits(hs: string, ls: string)
    requires forall k :: 0 <= k < |hs| ==> IsLowerDigit(hs[k], 10)
    ensures var inner := hs + ":" + ls + "]";
      && IndexOf(inner, ':') == |hs| && inner[|inner| - 1] == ']'
      && inner[..|hs|] == hs && inner[|hs| + 1..|inner| - 1] == ls
  {
    var inner := hs + ":" + ls + "]";
    assert ':' !in hs by {
      forall k | 0 <= k < |hs| ensures hs[k] != ':' {
        assert IsLowerDigit(hs[k], 10);
      }
    }
    assert inner == hs + (":" + ls + "]");
    IndexOfAppend(hs, ":" + ls + "]", ':');
    assert inner[..|hs|] == hs;
    assert inner[|hs| + 1..|inner| - 1] == ls;
  }

  lemma BoundsTextRoundTrip(b: Bounds)
    requires b.hi >= 0 && b.lo >= 0
    ensures ParseBoundsText(Digits(b.hi, 10) + ":" + Digits(b.lo, 10) + "]") == Ok(b)
  {
    var hs, ls := Digits(b.hi, 10), Digits(b.lo, 10);
    DigitsRoundTrip(b.hi, 10);
    DigitsRoundTrip(b.lo, 10);
    BoundsTextSplits(hs, ls);
  }

  lemma SliceSpecSplits(name: string, inner: string)
    requires name != [] && '[' !in name && ParseBoundsText(inner).Ok?
    ensures ParseSliceSpec(name + "[" + inner) == Ok((name, Some(ParseBoundsText(inner).value)))
  {
    var text := name + "[" + inner;
    assert text == name + ("[" + inner);
    IndexOfAppend(name, "[" + inner, '[');
    assert text[..|name|] == name;
    assert text[|name| + 1..] == inner;
  }

  lemma SliceSpecRoundTrip(name: string, b: Bounds)
    requires name != [] && '[' !in name && b.hi >= 0 && b.lo >= 0
    ensures ParseSliceSpec(SliceText(name, b)) == Ok((name, Some(b)))
  {
    var inner := Digits(b.hi, 10) + ":" + Digits(b.lo, 10) + "]";
    assert DecimalString(b.hi) == Digits(b.hi, 10) && DecimalString(b.lo) == Digits(b.lo, 10);
    var text := SliceText(name, b);
    assert text == name + "[" + inner;
    BoundsTextRoundTrip(b);
    SliceSpecSplits(name, inner);
  }

  lemma FieldTagRoundTrip(mode: Mode, size: int)
    requires size >= 0
    ensures ParseFieldTag(FieldTag(mode, size)) == Ok((mode, size))
  {
    DigitsRoundTrip(size, 10);
    var t := FieldTag(mode, size);
    assert t[..3] == ModeName(mode);
    assert t[3..] == Digits(size, 10);
  }

  /** A reference written out as a part parses back to itself. */
  lemma ReferenceRoundTrip(ref: Reference)
    requires Expressible(ref)
    ensures ParseReference(ReferencePart(ref)) == Ok(ref)
  {
    FieldTagRoundTrip(ref.mode, ref.size);
    if ref.bounds.Some? {
      SliceSpecRoundTrip(ref.name, ref.bounds.value);
    } else {
      assert IndexOf(ref.name, '[') == |ref.name|;
    }
  }

  // ---------------------------------------------------------------------
  // Whole lines
  // ---------------------------------------------------------------------

  function TrimLeft(s: string): (r: string)
    ensures r == [] || !IsSpace(r[0])
    ensures |r| <= |s| && r == s[|s| - |r|..]
    ensures forall i :: 0 <= i < |s| - |r| ==> IsSpace(s[i])
  {
    if s != [] && IsSpace(s[0]) then TrimLeft(s[1..]) else s
  }

  function TrimRight(s: string): (r: string)
    ensures r == [] || !IsSpace(r[|r| - 1])
    ensures |r| <= |s| && r == s[..|r|]
    ensures forall i :: |r| <= i < |s| ==> IsSpace(s[i])
  {
    if s != [] && IsSpace(s[|s| - 1]) then TrimRight(s[..|s| - 1]) else s
  }

  /** Python's `str.strip()`: the text between the leading and the
      trailing run of whitespace. */
  function Strip(s: string): (r: string)
    ensures r == [] || (!IsSpace(r[0]) && !IsSpace(r[|r| - 1]))
    ensures var a := |s| - |TrimLeft(s)|;
      && a + |r| <= |s| && r == s[a..a + |r|]
      && (forall i :: 0 <= i < a ==> IsSpace(s[i]))
      && (forall i :: a + |r| <= i < |s| ==> IsSpace(s[i]))
    ensures r == [] <==> forall i :: 0 <= i < |s| ==> IsSpace(s[i])
  {
    TrimRight(TrimLeft(s))
  }

  datatype Kind = EmptyLine | SegmentLine | LabelLine | InstrLine

  predicate StartsWith(s: string, prefix: string)
  {
    |prefix| <= |s| && s[..|prefix|] == prefix
  }

  /** `classify`, which tests in this order: the empty line, a line
      starting with "==" (segment), a line ending with ':' (label), and
      everything else (instruction). */
  function Classify(line: string): (k: Kind)
    ensures k == EmptyLine <==> line == ""
    ensures k == SegmentLine <==> StartsWith(line, "==")
    ensures k == LabelLine <==> !StartsWith(line, "==") && line != "" && line[|line| - 1] == ':'
  {
    if line == "" then EmptyLine
    else if StartsWith(line, "==") then SegmentLine
    else if line[|line| - 1] == ':' then LabelLine
    else InstrLine
  }

  /** What a line holds once parsed, by kind. */
  datatype Body = NoBody | SegmentBody(segment: Segment) | LabelBody(name: string) | InstrBody(instr: seq<Part>)

  function KindOf(b: Body): Kind
  {
    match b
    case NoBody => EmptyLine
    case SegmentBody(_) => SegmentLine
    case LabelBody(_) => LabelLine
    case InstrBody(_) => InstrLine
  }

  /** A parsed line: the stripped text, the code before the first '#', the
      comment after it (if there is a '#'), and the parsed code. */
  datatype Line = Line(raw: string, clean: string, comment: Option<string>, body: Body)

  /** The code before the first '#' and the comment after it, if any. */
  function SplitComment(raw: string): (r: (string, Option<string>))
    ensures '#' !in r.0
    ensures r.1.None? ==> r.0 == raw
    ensures r.1.Some? ==> raw == r.0 + "#" + r.1.value
  {
    var i := IndexOf(raw, '#');
    if i < |raw| then
      assert raw == raw[..i] + "#" + raw[i + 1..];
      (raw[..i], Some(raw[i + 1..]))
    else
      assert raw[..i] == raw;
      (raw, None)
  }

  /** The code of a line parsed by its kind. */
  function ParseBody(clean: string): Result<Body>
  {
    match Classify(clean)
    case EmptyLine => Ok(NoBody)
    case SegmentLine =>
      (match ParseSegment(clean)
       case Ok(seg) => Ok(SegmentBody(seg))
       case Fail => Fail)
    case LabelLine => Ok(LabelBody(ParseLabel(clean)))
    case InstrLine => Ok(InstrBody(ParseInstr(clean)))
  }

  /** The body has the line's kind, and only a malformed segment line
      fails. */
  lemma ParseBodyKind(clean: string)
    ensures ParseBody(clean).Ok? ==> KindOf(ParseBody(clean).value) == Classify(clean)
    ensures ParseBody(clean).Fail? <==> Classify(clean) == SegmentLine && ParseSegment(clean).Fail?
  {
    match Classify(clean)
    case EmptyLine =>
      assert ParseBody(clean) == Ok(NoBody);
    case SegmentLine =>
      if ParseSegment(clean).Ok? {
        assert ParseBody(clean) == Ok(SegmentBody(ParseSegment(clean).value));
      } else {
        assert ParseBody(clean) == Fail;
      }
    case LabelLine =>
      assert ParseBody(clean) == Ok(LabelBody(ParseLabel(clean)));
    case InstrLine =>
      assert ParseBody(clean) == Ok(InstrBody(ParseInstr(clean)));
  }

  /** `parse`: strip the line, split it at the first '#', classify the code
      before it and parse that by its kind. */
  function Parse(text: string): (r: Result<Line>)
    ensures r.Ok? ==> r.value.raw == Strip(text) && '#' !in r.value.clean
    ensures r.Ok? ==> match r.value.comment
                      case None => r.value.clean == r.value.raw
                      case Some(c) => r.value.raw == r.value.clean + "#" + c
    ensures r.Ok? ==> KindOf(r.value.body) == Classify(r.value.clean)
    ensures r.Fail? ==> Classify(SplitComment(Strip(text)).0) == SegmentLine
  {
    var raw := Strip(text);
    var (clean, comment) := SplitComment(raw);
    ParseBodyKind(clean);
    var body :- ParseBody(clean);
    Ok(Line(raw, clean, comment, body))
  }

  /** A line holding only a comment parses as an empty line. */
  lemma CommentOnlyIsEmpty(text: string)
    requires Strip(text) != "" && Strip(text)[0] == '#'
    ensures Parse(text).Ok? && Parse(text).value.body == NoBody
  {
  }

  /** `format(line)` for an instruction line: its parts printed and joined
      by single spaces, followed by " # " and the comment when there is a
      non-empty one. Other kinds of line cannot be printed (the source
      raises). */
  function FormatLine(line: Line): (r: Result<string>)
    ensures r.Ok? <==> line.body.InstrBody?
    ensures r.Ok? ==> StartsWith(r.value, FormatParts(line.body.instr))
    ensures r.Ok? ==> (r.value == FormatParts(line.body.instr) <==> line.comment.None? || line.comment.value == "")
    ensures r.Ok? && line.comment.Some? && line.comment.value != "" ==>
      r.value == FormatParts(line.body.instr) + " # " + line.comment.value
  {
    match line.body
    case InstrBody(parts) =>
      var printed := FormatParts(parts);
      if line.comment.Some? && line.comment.value != "" then
        assert (printed + " # " + line.comment.value)[..|printed|] == printed;
        Ok(printed + " # " + line.comment.value)
      else Ok(printed)
    case _ => Fail
  }

  /** Every line of an input parsed, in order; fails when any line does. */
  function ParseAll(lines: seq<string>): (r: Result<seq<Line>>)
    ensures r.Ok? <==> forall i :: 0 <= i < |lines| ==> Parse(lines[i]).Ok?
    ensures r.Ok? ==> |r.value| == |lines| && forall i :: 0 <= i < |lines| ==> Parse(lines[i]) == Ok(r.value[i])
  {
    MapAll(Parse, lines)
  }
}
