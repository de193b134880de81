/** Bitfields: a value paired with its width in bits. Unsigned and signed
    (two's-complement) construction with range checks, concatenation with the
    first field in the least significant bits, and slicing by bit indices. */
module Bits {
  import opened Wrappers

  /** A bitfield, the source's `(value, width)` pair. */
  datatype Field = Field(val: int, size: int)

  function Pow2(n: nat): (r: int)
    ensures r >= 1
  {
    if n == 0 then 1 else 2 * Pow2(n - 1)
  }

  /** Python's `int.bit_length()` of a non-negative number. */
  function BitLength(n: nat): nat
  {
    if n == 0 then 0 else 1 + BitLength(n / 2)
  }

  /** Bit k of x in two's complement: Python's `(x >> k) & 1`. */
  function Bit(x: int, k: nat): int
  {
    (x / Pow2(k)) % 2
  }

  /** A field whose width is non-negative and whose value fits it unsigned. */
  predicate Fits(f: Field)
  {
    0 <= f.size && 0 <= f.val < Pow2(f.size)
  }

  /** Every field of the sequence fits its width. */
  predicate AllFit(parts: seq<Field>)
  {
    forall j :: 0 <= j < |parts| ==> Fits(parts[j])
  }

  // ---------------------------------------------------------------------
  // Arithmetic facts about powers of two and floor division.
  // ---------------------------------------------------------------------

  lemma {:induction false} Pow2Add(a: nat, b: nat)
    ensures Pow2(a + b) == Pow2(a) * Pow2(b)
  {
    if a > 0 {
      Pow2Add(a - 1, b);
      assert Pow2(a + b) == 2 * Pow2(a - 1 + b);
    }
  }

  lemma Pow2Sum(a: nat, b: nat, n: nat)
    requires n == a + b
    ensures Pow2(n) == Pow2(a) * Pow2(b)
  {
    Pow2Add(a, b);
  }

  /** The powers of two the instruction and file formats use. */
  lemma Pow2Of32()
    ensures Pow2(8) == 256 && Pow2(16) == 0x1_0000
    ensures Pow2(31) == 0x8000_0000 && Pow2(32) == 0x1_0000_0000
  {
    assert Pow2(8) == 256;
    Pow2Add(8, 8);
    Pow2Add(16, 15);
    Pow2Add(16, 16);
    assert Pow2(15) == 0x8000 by {
      Pow2Add(8, 7);
      assert Pow2(7) == 128;
    }
  }

  lemma {:induction false} Pow2Monotone(a: nat, b: nat)
    requires a <= b
    ensures Pow2(a) <= Pow2(b)
  {
    if a < b {
      Pow2Monotone(a, b - 1);
    }
  }

  lemma MulAtLeast(a: int, d: int)
    requires a >= 1 && d > 0
    ensures a * d >= d
  {
    assert (a - 1) * d >= 0;
  }

  lemma MulMonotone(a: int, b: int, d: int)
    requires a <= b && d >= 0
    ensures a * d <= b * d
  {
    assert (b - a) * d >= 0;
  }

  lemma DivModUnique(x: int, d: int, q: int, r: int)
    requires d > 0 && 0 <= r < d && x == q * d + r
    ensures x / d == q && x % d == r
  {
    var q', r' := x / d, x % d;
    assert x == q' * d + r';
    assert (q - q') * d == r' - r;
    if q - q' >= 1 {
      MulAtLeast(q - q', d);
    } else if q' - q >= 1 {
      MulAtLeast(q' - q, d);
    }
  }

  lemma DivDiv(x: int, d: int, e: int)
    requires d > 0 && e > 0
    ensures x / d / e == x / (d * e)
  {
    var q1, r1 := x / d, x % d;
    var q2, r2 := q1 / e, q1 % e;
    assert x == q2 * (d * e) + (r2 * d + r1) by {
      assert x == q1 * d + r1;
      assert q1 == q2 * e + r2;
    }
    MulMonotone(r2, e - 1, d);
    assert 0 <= r2 * d;
    DivModUnique(x, d * e, q2, r2 * d + r1);
  }

  lemma ModDiv(y: int, d: int, m: int)
    requires d > 0 && m > 0
    ensures (y % (d * m)) / d == (y / d) % m
  {
    var q, r := y / (d * m), y % (d * m);
    var a, b := r / d, r % d;
    assert y == q * (d * m) + r;
    assert r == a * d + b;
    assert 0 <= a;
    if a >= m {
      MulMonotone(m, a, d);
      assert false;
    }
    assert y == (q * m + a) * d + b;
    DivModUnique(y, d, q * m + a, b);
    DivModUnique(q * m + a, m, q, a);
  }

  lemma ModMod(z: int, a: int, b: int)
    requires a > 0 && b > 0
    ensures (z % (a * b)) % a == z % a
  {
    var q, r := z / (a * b), z % (a * b);
    var s, t := r / a, r % a;
    assert z == (q * b + s) * a + t;
    DivModUnique(z, a, q * b + s, t);
  }

  lemma BitShift(x: int, k: nat)
    requires k > 0
    ensures Bit(x, k) == Bit(x / 2, k - 1)
  {
    DivDiv(x, 2, Pow2(k - 1));
  }

  /** Bit k of a slice taken from bit lo is bit lo + k of the whole. */
  lemma SliceBit(x: int, lo: nat, n: nat, k: nat)
    requires k < n
    ensures Bit((x / Pow2(lo)) % Pow2(n), k) == Bit(x, lo + k)
  {
    var y := x / Pow2(lo);
    var pk, pm := Pow2(k), Pow2(n - k);
    assert Pow2(n) == pk * pm by {
      Pow2Add(k, n - k);
    }
    assert (y % (pk * pm)) / pk == (y / pk) % pm by {
      ModDiv(y, pk, pm);
    }
    assert (y / pk) % pm % 2 == (y / pk) % 2 by {
      assert pm == 2 * Pow2(n - k - 1);
      ModMod(y / pk, 2, Pow2(n - k - 1));
    }
    assert y / pk == x / Pow2(lo + k) by {
      DivDiv(x, Pow2(lo), pk);
      Pow2Add(lo, k);
    }
  }

  /** Two numbers below 2^n with the same n low bits are equal. */
  lemma {:induction false} BitsDetermine(x: int, y: int, n: nat)
    requires 0 <= x < Pow2(n) && 0 <= y < Pow2(n)
    requires forall k: nat :: k < n ==> Bit(x, k) == Bit(y, k)
    ensures x == y
  {
    if n > 0 {
      forall k: nat | k < n - 1 ensures Bit(x / 2, k) == Bit(y / 2, k) {
        BitShift(x, k + 1);
        BitShift(y, k + 1);
      }
      BitsDetermine(x / 2, y / 2, n - 1);
      assert Bit(x, 0) == Bit(y, 0);
    }
  }

  // ---------------------------------------------------------------------
  // u, i, slice
  // ---------------------------------------------------------------------

  lemma {:induction false} BitLengthBelow(n: nat, b: nat)
    ensures BitLength(n) <= b <==> n < Pow2(b)
  {
    if b > 0 && n > 0 {
      BitLengthBelow(n / 2, b - 1);
    }
  }

  /** `u(num, bits)`: an unsigned bitfield; fails on a negative value and on
      a value whose bit length exceeds the width. */
  function U(num: int, bits: int): (r: Result<Field>)
    ensures r.Ok? <==> 0 <= num && 0 <= bits && num < Pow2(bits)
    ensures r.Ok? ==> r.value == Field(num, bits)
  {
    if num < 0 then Fail
    else
      assert bits >= 0 ==> (BitLength(num) <= bits <==> num < Pow2(bits)) by {
        if bits >= 0 {
          BitLengthBelow(num, bits);
        }
      }
      if BitLength(num) > bits then Fail
      else Ok(Field(num, bits))
  }

  /** The number a bits-wide two's-complement code stands for. */
  function Signed(f: Field): int
    requires f.size >= 1
  {
    if f.val < Pow2(f.size - 1) then f.val else f.val - Pow2(f.size)
  }

  /** `i(num, bits)`: a signed bitfield holding the two's-complement code of
      num; fails unless num lies in [-2^(bits-1), 2^(bits-1) - 1]. A width
      below 1 fails as well (the source's `1 << (bits - 1)` raises). */
  function I(num: int, bits: int): (r: Result<Field>)
    ensures r.Ok? <==> 1 <= bits && -Pow2(bits - 1) <= num < Pow2(bits - 1)
    ensures r.Ok? ==> Fits(r.value) && r.value.size == bits
    ensures r.Ok? ==> r.value.val % Pow2(bits) == num % Pow2(bits)
    ensures r.Ok? ==> Signed(r.value) == num
  {
    if bits < 1 then Fail
    else
      var min := -Pow2(bits - 1);
      var max := -1 - min;
      if num > max || num < min then Fail
      else
        var code := if num < 0 then Pow2(bits) + num else num;
        assert code % Pow2(bits) == num % Pow2(bits) by {
          if num < 0 {
            DivModUnique(num, Pow2(bits), -1, code);
            DivModUnique(code, Pow2(bits), 0, code);
          }
        }
        U(code, bits)
  }

  /** `slice(bits, hi, lo)`: bits hi down to lo of a field. Fails on a
      reversed range, a negative lo, or a hi at or beyond the field's width. */
  function Slice(f: Field, hi: int, lo: int): (r: Result<Field>)
    ensures r.Ok? <==> lo <= hi && 0 <= lo && hi < f.size
    ensures r.Ok? ==> Fits(r.value) && r.value.size == hi - lo + 1
    ensures r.Ok? ==> forall k: nat :: k < hi - lo + 1 ==> Bit(r.value.val, k) == Bit(f.val, lo + k)
  {
    if hi < lo then Fail
    else if lo < 0 || hi >= f.size then Fail
    else
      var size := hi - lo + 1;
      var val := (f.val / Pow2(lo)) % Pow2(size);
      assert forall k: nat :: k < size ==> Bit(val, k) == Bit(f.val, lo + k) by {
        forall k: nat | k < size ensures Bit(val, k) == Bit(f.val, lo + k) {
          SliceBit(f.val, lo, size, k);
        }
      }
      Ok(Field(val, size))
  }

  /** Slicing [hi:lo] of a value is floor division by 2^lo reduced modulo
      2^(hi-lo+1), whatever the value's sign. */
  lemma SliceArithmetic(f: Field, hi: int, lo: int)
    requires 0 <= lo <= hi < f.size
    ensures Slice(f, hi, lo) == Ok(Field((f.val / Pow2(lo)) % Pow2(hi - lo + 1), hi - lo + 1))
  {
    var r := Slice(f, hi, lo).value;
    var v := (f.val / Pow2(lo)) % Pow2(hi - lo + 1);
    forall k: nat | k < hi - lo + 1 ensures Bit(r.val, k) == Bit(v, k) {
      SliceBit(f.val, lo, hi - lo + 1, k);
    }
    BitsDetermine(r.val, v, hi - lo + 1);
  }

  // ---------------------------------------------------------------------
  // Bitwise or, and concatenation
  // ---------------------------------------------------------------------

  function Abs(x: int): nat
  {
    if x < 0 then -x else x
  }

  /** Python's `a | b` on integers of either sign (two's complement). */
  function Or(a: int, b: int): int
    decreases Abs(a) + Abs(b)
  {
    if a == 0 then b
    else if b == 0 then a
    else if a == -1 || b == -1 then -1
    else 2 * Or(a / 2, b / 2) + (if a % 2 == 1 || b % 2 == 1 then 1 else 0)
  }

  /** Or is bitwise: each bit of the result is set exactly when that bit is
      set in either operand. */
  lemma {:induction false} OrBits(a: int, b: int, k: nat)
    ensures Bit(Or(a, b), k) == if Bit(a, k) == 1 || Bit(b, k) == 1 then 1 else 0
    decreases Abs(a) + Abs(b)
  {
    if a == 0 || b == 0 {
      DivModUnique(0, Pow2(k), 0, 0);
    } else if a == -1 || b == -1 {
      DivModUnique(-1, Pow2(k), -1, Pow2(k) - 1);
    } else if k == 0 {
    } else {
      var o := Or(a / 2, b / 2);
      var c := if a % 2 == 1 || b % 2 == 1 then 1 else 0;
      assert Or(a, b) == 2 * o + c;
      BitShift(Or(a, b), k);
      BitShift(a, k);
      BitShift(b, k);
      assert (2 * o + c) / 2 == o;
      OrBits(a / 2, b / 2, k - 1);
    }
  }

  /** Or of two values whose bits do not overlap is their sum. */
  lemma {:induction false} OrDisjoint(a: int, b: int, k: nat)
    requires 0 <= a < Pow2(k)
    ensures Or(a, b * Pow2(k)) == a + b * Pow2(k)
  {
    if a == 0 || b == 0 {
    } else {
      assert k > 0;
      var B := b * Pow2(k);
      assert B == 2 * (b * Pow2(k - 1));
      assert B / 2 == b * Pow2(k - 1) && B % 2 == 0;
      assert B != -1;
      OrDisjoint(a / 2, b, k - 1);
      assert Or(a, B) == 2 * Or(a / 2, B / 2) + a % 2;
    }
  }

  function SumSizes(parts: seq<Field>): int
  {
    if parts == [] then 0 else parts[0].size + SumSizes(parts[1..])
  }

  /** The value of fields laid side by side: the first in the lowest bits and
      every later one shifted by the widths of those before it. */
  function Packed(parts: seq<Field>): int
    requires AllFit(parts)
  {
    if parts == [] then 0 else parts[0].val + Packed(parts[1..]) * Pow2(parts[0].size)
  }

  /** `concat(*parts)` as the source's loop computes it: `val | pval << size`
      then `size += psize`, part by part; a negative shift count fails. */
  function ConcatOf(parts: seq<Field>): Result<Field>
  {
    if parts == [] then Ok(Field(0, 0))
    else
      var acc :- ConcatOf(parts[..|parts| - 1]);
      var p := parts[|parts| - 1];
      if acc.size < 0 then Fail
      else Ok(Field(Or(acc.val, p.val * Pow2(acc.size)), acc.size + p.size))
  }

  lemma {:induction false} SumSizesSnoc(parts: seq<Field>, p: Field)
    ensures SumSizes(parts + [p]) == SumSizes(parts) + p.size
  {
    if parts != [] {
      assert (parts + [p])[1..] == parts[1..] + [p];
      SumSizesSnoc(parts[1..], p);
    }
  }

  lemma AllFitSnoc(parts: seq<Field>, p: Field)
    requires AllFit(parts) && Fits(p)
    ensures AllFit(parts + [p])
  {
  }

  lemma {:induction false} SumSizesNonnegative(parts: seq<Field>)
    requires AllFit(parts)
    ensures SumSizes(parts) >= 0
  {
    if parts != [] {
      SumSizesNonnegative(parts[1..]);
    }
  }

  lemma {:induction false} PackedSnoc(parts: seq<Field>, p: Field)
    requires AllFit(parts) && Fits(p)
    ensures AllFit(parts + [p]) && SumSizes(parts) >= 0
    ensures Packed(parts + [p]) == Packed(parts) + p.val * Pow2(SumSizes(parts))
  {
    AllFitSnoc(parts, p);
    SumSizesNonnegative(parts);
    if parts != [] {
      PackedSnoc(parts[1..], p);
      PackedSnocCons(parts, p);
    }
  }

  /** The step of `PackedSnoc` from the fields after the first to all. */
  lemma PackedSnocCons(parts: seq<Field>, p: Field)
    requires AllFit(parts) && Fits(p) && parts != []
    requires AllFit(parts[1..] + [p]) && SumSizes(parts[1..]) >= 0
    requires Packed(parts[1..] + [p]) == Packed(parts[1..]) + p.val * Pow2(SumSizes(parts[1..]))
    ensures AllFit(parts + [p])
    ensures Packed(parts + [p]) == Packed(parts) + p.val * Pow2(SumSizes(parts))
  {
    var all, rest := parts + [p], parts[1..];
    assert all[1..] == rest + [p];
    assert Fits(parts[0]);
    var a: nat, sr: nat := parts[0].size, SumSizes(rest);
    var x := Packed(all);
    var y := Packed(parts);
    assert x == parts[0].val + Packed(rest + [p]) * Pow2(a);
    assert y == parts[0].val + Packed(rest) * Pow2(a);
    Pow2Sum(a, sr, SumSizes(parts));
    PackedSnocStep(parts[0].val, Packed(rest), p.val, Pow2(sr), Pow2(a), Packed(rest + [p]), x, y, Pow2(SumSizes(parts)));
  }

  lemma PackedSnocStep(v0: int, a: int, pv: int, w: int, s0: int, b: int, x: int, y: int, z: int)
    requires b == a + pv * w && x == v0 + b * s0 && y == v0 + a * s0 && z == s0 * w
    ensures x == y + pv * z
  {
    assert (a + pv * w) * s0 == a * s0 + pv * (w * s0);
  }

  lemma {:induction false} PackedBound(parts: seq<Field>)
    requires AllFit(parts)
    ensures SumSizes(parts) >= 0
    ensures 0 <= Packed(parts) < Pow2(SumSizes(parts))
  {
    if parts != [] {
      assert AllFit(parts[1..]) by {
        forall j | 0 <= j < |parts[1..]| ensures Fits(parts[1..][j]) {
          assert parts[1..][j] == parts[j + 1];
        }
      }
      PackedBound(parts[1..]);
      var s0, v0 := Pow2(parts[0].size), parts[0].val;
      var rest, top := Packed(parts[1..]), Pow2(SumSizes(parts[1..]));
      assert 0 <= v0 < s0 by {
        assert Fits(parts[0]);
      }
      assert 0 <= rest * s0 <= top * s0 - s0 by {
        MulMonotone(0, rest, s0);
        MulMonotone(rest, top - 1, s0);
        assert (top - 1) * s0 == top * s0 - s0;
      }
      assert top * s0 == Pow2(SumSizes(parts)) by {
        Pow2Sum(parts[0].size, SumSizes(parts[1..]), SumSizes(parts));
        assert s0 * top == top * s0;
      }
      assert Packed(parts) == v0 + rest * s0;
    }
  }

  /** The concatenation succeeds on fitting fields and lays them out side by
      side, first field lowest: its width is the sum of the widths and its
      value is Packed(parts), which fits that width. */
  lemma {:induction false} ConcatLaysOutFields(parts: seq<Field>)
    requires AllFit(parts)
    ensures ConcatOf(parts) == Ok(Field(Packed(parts), SumSizes(parts)))
    ensures Fits(ConcatOf(parts).value)
  {
    PackedBound(parts);
    if parts != [] {
      var init, p := parts[..|parts| - 1], parts[|parts| - 1];
      assert parts == init + [p];
      ConcatLaysOutFields(init);
      PackedBound(init);
      PackedSnoc(init, p);
      SumSizesSnoc(init, p);
      OrDisjoint(Packed(init), p.val, SumSizes(init));
    }
  }

  /** Once a prefix of the parts fails to concatenate, so do all the parts. */
  lemma {:induction false} ConcatFailSticks(parts: seq<Field>, n: nat)
    requires n <= |parts|
    requires ConcatOf(parts[..n]).Fail?
    ensures ConcatOf(parts).Fail?
    decreases |parts| - n
  {
    if n < |parts| {
      assert parts[..n + 1][..n] == parts[..n];
      ConcatFailSticks(parts, n + 1);
    } else {
      assert parts[..n] == parts;
    }
  }

  /** The concatenation's width is the sum of the parts' widths. */
  lemma {:induction false} ConcatSize(parts: seq<Field>)
    requires ConcatOf(parts).Ok?
    ensures ConcatOf(parts).value.size == SumSizes(parts)
  {
    if parts != [] {
      var init, p := parts[..|parts| - 1], parts[|parts| - 1];
      assert parts == init + [p];
      ConcatSize(init);
      SumSizesSnoc(init, p);
    }
  }

  lemma {:induction false} PackedSlice(parts: seq<Field>, k: nat)
    requires AllFit(parts)
    requires k < |parts|
    ensures 0 <= SumSizes(parts[..k])
    ensures SumSizes(parts[..k]) + parts[k].size <= SumSizes(parts)
    ensures (Packed(parts) / Pow2(SumSizes(parts[..k]))) % Pow2(parts[k].size) == parts[k].val
  {
    var rest := parts[1..];
    PackedBound(rest);
    var s0 := parts[0].size;
    DivModUnique(Packed(parts), Pow2(s0), Packed(rest), parts[0].val);
    if k == 0 {
      assert parts[..0] == [];
    } else {
      assert parts[..k][1..] == rest[..k - 1];
      PackedSlice(rest, k - 1);
      var off := SumSizes(rest[..k - 1]);
      assert SumSizes(parts[..k]) == s0 + off;
      Pow2Add(s0, off);
      DivDiv(Packed(parts), Pow2(s0), Pow2(off));
    }
  }

  /** Slicing a concatenation of fitting fields at a field's offset and width
      gives that field back. */
  lemma ConcatSliceRecovers(parts: seq<Field>, k: nat)
    requires AllFit(parts)
    requires k < |parts| && parts[k].size >= 1
    ensures ConcatOf(parts).Ok?
    ensures Slice(ConcatOf(parts).value, SumSizes(parts[..k]) + parts[k].size - 1, SumSizes(parts[..k])) == Ok(parts[k])
  {
    ConcatLaysOutFields(parts);
    PackedSlice(parts, k);
  }

  /** `concat(*parts)`: the source's loop over the parts. */
  method Concat(parts: seq<Field>) returns (r: Result<Field>)
    ensures r == ConcatOf(parts)
  {
    var val, size := 0, 0;
    var i := 0;
    while i < |parts|
      invariant 0 <= i <= |parts|
      invariant ConcatOf(parts[..i]) == Ok(Field(val, size))
    {
      assert parts[..i + 1][..i] == parts[..i];
      if size < 0 {
        ConcatFailSticks(parts, i + 1);
        return Fail;
      }
      val := Or(val, parts[i].val * Pow2(size));
      size := size + parts[i].size;
      i := i + 1;
    }
    assert parts[..i] == parts;
    return Ok(Field(val, size));
  }

  /** The pieces are consecutive slices of f, the first starting at bit lo
      and the last ending at f's top bit. */
  predicate Tiles(f: Field, pieces: seq<Field>, lo: int)
    decreases |pieces|
  {
    if pieces == [] then lo == f.size
    else
      && pieces[0].size >= 1
      && Slice(f, lo + pieces[0].size - 1, lo) == Ok(pieces[0])
      && Tiles(f, pieces[1..], lo + pieces[0].size)
  }

  lemma {:induction false} TilesReassemble(f: Field, pieces: seq<Field>, lo: nat)
    requires Fits(f) && Tiles(f, pieces, lo)
    decreases |pieces|
    ensures AllFit(pieces) && SumSizes(pieces) == f.size - lo
    ensures Packed(pieces) == f.val / Pow2(lo)
  {
    if pieces == [] {
      DivModUnique(f.val, Pow2(lo), 0, f.val);
    } else {
      var p, rest := pieces[0], pieces[1..];
      var s := p.size;
      TilesReassemble(f, rest, lo + s);
      SliceArithmetic(f, lo + s - 1, lo);
      var y := f.val / Pow2(lo);
      assert p.val == y % Pow2(s);
      assert Packed(rest) == y / Pow2(s) by {
        Pow2Add(lo, s);
        DivDiv(f.val, Pow2(lo), Pow2(s));
      }
      assert AllFit(pieces) by {
        forall j | 0 <= j < |pieces| ensures Fits(pieces[j]) {
          if j > 0 {
            assert pieces[j] == rest[j - 1];
          }
        }
      }
      DivModSum(y, Pow2(s));
    }
  }

  lemma DivModSum(y: int, m: int)
    requires m > 0
    ensures y % m + (y / m) * m == y
  {
  }

  /** Concatenating consecutive slices that cover a field, lowest first,
      gives the field back. */
  lemma ConcatOfTiles(f: Field, pieces: seq<Field>)
    requires Fits(f) && Tiles(f, pieces, 0)
    ensures ConcatOf(pieces) == Ok(f)
  {
    assert AllFit(pieces) && SumSizes(pieces) == f.size && Packed(pieces) == f.val by {
      TilesReassemble(f, pieces, 0);
      assert Pow2(0) == 1;
    }
    ConcatLaysOutFields(pieces);
  }

  // ---------------------------------------------------------------------
  // Little-endian bytes
  // ---------------------------------------------------------------------

  /** The n bytes of x, least significant first. */
  function LittleEndianBytes(x: int, n: nat): seq<int>
    decreases n
  {
    if n == 0 then [] else [x % 256] + LittleEndianBytes(x / 256, n - 1)
  }

  /** The number a little-endian byte sequence stands for. */
  function FromLittleEndian(bytes: seq<int>): int
  {
    if bytes == [] then 0 else bytes[0] + 256 * FromLittleEndian(bytes[1..])
  }

  /** Byte k of LittleEndianBytes(x, n) is bits [8k+7:8k] of x. */
  lemma {:induction false} LittleEndianByteAt(x: int, n: nat, k: nat)
    requires k < n
    decreases n
    ensures |LittleEndianBytes(x, n)| == n
    ensures LittleEndianBytes(x, n)[k] == (x / Pow2(8 * k)) % Pow2(8)
  {
    LittleEndianLength(x, n);
    assert Pow2(8) == 256;
    if k > 0 {
      LittleEndianByteAt(x / 256, n - 1, k - 1);
      Pow2Add(8, 8 * (k - 1));
      DivDiv(x, 256, Pow2(8 * (k - 1)));
    }
  }

  lemma {:induction false} LittleEndianLength(x: int, n: nat)
    ensures |LittleEndianBytes(x, n)| == n
    decreases n
  {
    if n > 0 {
      LittleEndianLength(x / 256, n - 1);
    }
  }

  /** Every byte is in [0, 255], and the bytes of a value below 256^n read
      back, little-endian, as that value. */
  lemma {:induction false} LittleEndianRoundTrip(x: int, n: nat)
    requires 0 <= x < Pow2(8 * n)
    decreases n
    ensures forall k :: 0 <= k < |LittleEndianBytes(x, n)| ==> 0 <= LittleEndianBytes(x, n)[k] < 256
    ensures FromLittleEndian(LittleEndianBytes(x, n)) == x
  {
    if n > 0 {
      Pow2Add(8, 8 * (n - 1));
      assert Pow2(8) == 256;
      LittleEndianRoundTrip(x / 256, n - 1);
      assert LittleEndianBytes(x, n)[1..] == LittleEndianBytes(x / 256, n - 1);
    }
  }
}
