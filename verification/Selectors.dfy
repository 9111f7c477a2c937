/** Bit masking and entry point selectors (utils/keccak.go, curve/utils.go). */
module Selectors {
  import opened NumberTheory
  import opened Powers
  import opened Octets
  import opened Transactions

  /** A byte shifted left and back: its top `excess` bits are lost, all of them from 8 on. */
  function ClearTop(b: byte, excess: nat): (r: byte)
    ensures excess <= 8 ==> r as int == b % Pow2(8 - excess)
  {
    if excess > 8 then 0
    else
      ClearTopValue(b, excess);
      b * Pow2(excess) % 256 / Pow2(excess)
  }

  lemma ClearTopValue(b: byte, excess: nat)
    requires excess <= 8
    ensures b * Pow2(excess) % 256 / Pow2(excess) == b % Pow2(8 - excess) < 256
  {
    hide Pow2;
    SplitEight(excess);
    ClearTopProduct(b, Pow2(excess), Pow2(8 - excess));
  }

  lemma SplitEight(e: nat)
    requires e <= 8
    ensures Pow2(e) * Pow2(8 - e) == 256
  {
    Pow2Sum(e, 8 - e);
    assert Pow2(8) == 256 by { Pow2Small(); }
  }

  lemma ClearTopProduct(b: nat, w: nat, k: nat)
    requires w * k == 256 && w >= 1 && k >= 1
    ensures b * w % 256 / w == b % k < 256
  {
    var q, r := b / k, b % k;
    assert b == k * q + r;
    assert b * w == q * 256 + r * w by {
      assert (k * q) * w == q * (w * k);
    }
    MulMonotone(w, r + 1, k);
    DivModUnique(b * w, 256, q, r * w);
    DivModUnique(r * w, w, r, 0);
    MulMonotone(k, 1, w);
  }

  /** The bytes after masking. With 8-bit words, as in every call of the source, their value is
      the slice's modulo 2^mask. */
  method MaskBits(mask: int, wordSize: nat, slice: seq<byte>) returns (ret: seq<byte>)
    ensures wordSize == 8 && mask >= 0 ==> Value(ret) == Value(slice) % Pow2(mask)
    ensures wordSize == 8 && mask >= 0 ==> |ret| <= |slice| && 8 * |ret| <= mask + 8
  {
    hide Pow2, Value, ClearTop;
    var excess := |slice| * wordSize - mask;
    ret := [];
    MaskedNothing(slice, mask);
    for i := 0 to |slice|
      invariant wordSize == 8 && excess > 0 ==> ret == [] && excess == 8 * (|slice| - i) - mask
      invariant wordSize == 8 && excess <= 0 ==> Masked(slice[..i], ret, mask - 8 * (|slice| - i))
    {
      var b := slice[i];
      assert slice[..i + 1] == slice[..i] + [b];
      var kept := b;
      if excess > 0 {
        if excess > wordSize {
          excess := excess - wordSize;
          continue;
        }
        if wordSize == 8 {
          MaskedFirst(slice[..i], b, excess);
        }
        kept := ClearTop(b, excess);
        excess := 0;
      } else if wordSize == 8 {
        MaskedNext(slice[..i], ret, b, mask - 8 * (|slice| - i));
      }
      ret := ret + [kept];
    }
    assert slice[..|slice|] == slice;
  }

  /** ret holds the low r bits of s. */
  predicate Masked(s: seq<byte>, ret: seq<byte>, r: int) {
    r >= 0 && |ret| <= |s| && 8 * |ret| <= r + 8 && Value(ret) == Value(s) % Pow2(r)
  }

  lemma MaskedNothing(slice: seq<byte>, mask: int)
    ensures mask - 8 * |slice| >= 0 ==> Masked(slice[..0], [], mask - 8 * |slice|)
  {
    assert slice[..0] == [];
    EmptyValue(mask - 8 * |slice|);
  }

  lemma MaskedFirst(s: seq<byte>, b: byte, excess: nat)
    requires 1 <= excess <= 8
    ensures Masked(s + [b], [] + [ClearTop(b, excess)], 8 - excess)
  {
    hide Pow2;
    ValueSnoc(s, b);
    ValueSnoc([], ClearTop(b, excess));
    EmptyValue(0);
    SplitByte(Value(s), b, 8 - excess);
  }

  lemma MaskedNext(s: seq<byte>, ret: seq<byte>, b: byte, r: nat)
    requires Masked(s, ret, r)
    ensures Masked(s + [b], ret + [b], r + 8)
  {
    hide Pow2, Value;
    ValueSnoc(s, b);
    ValueSnoc(ret, b);
    AppendByte(Value(s), b, r);
  }

  lemma EmptyValue(r: int)
    ensures Value([]) == 0
    ensures r >= 0 ==> 0 % Pow2(r) == 0
  {
    if r >= 0 {
      DivModUnique(0, Pow2(r), 0, 0);
    }
  }

  lemma AppendByte(v: nat, b: byte, r: nat)
    ensures (v * 256 + b) % Pow2(r + 8) == (v % Pow2(r)) * 256 + b
  {
    hide Pow2;
    Pow2Sum(r, 8);
    assert Pow2(8) == 256 by { Pow2Small(); }
    var w := Pow2(r);
    assert v == w * (v / w) + v % w;
    assert v * 256 + b == (v / w) * (w * 256) + (v % w * 256 + b);
    DivModUnique(v * 256 + b, w * 256, v / w, v % w * 256 + b);
  }

  lemma SplitByte(v: nat, b: byte, r: nat)
    requires r <= 8
    ensures (v * 256 + b) % Pow2(r) == b % Pow2(r)
  {
    hide Pow2;
    SplitEight(r);
    SplitProduct(v, b, Pow2(r), Pow2(8 - r));
  }

  lemma SplitProduct(v: nat, b: nat, w: nat, k: nat)
    requires w >= 1 && w * k == 256
    ensures (v * 256 + b) % w == b % w
  {
    assert v * 256 == (v * k) * w by {
      assert (v * k) * w == v * (w * k);
    }
    ZeroMultiple(v * k, w);
    ModEqual(v * 256 + b, b, w);
  }

  /** Both selector functions, the one returning a big.Int and the one returning a felt, give
      the low 250 bits of the Keccak digest. */
  method GetSelector(keccak: seq<byte>) returns (number: nat, asFelt: felt)
    requires |keccak| == 32
    ensures number == Value(keccak) % Pow2(250) && asFelt == number
    ensures number < Pow2(250)
  {
    var masked := MaskBits(250, 8, keccak);
    number := Value(masked);
    asFelt := SetBytes(masked);
    QuotientBounds(Value(keccak), Pow2(250));
    Pow2Monotone(250, 251);
    Pow2Curve();
    DivModUnique(number, FIELD_PRIME, 0, number);
  }
}
