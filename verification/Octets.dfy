/** Big-endian byte strings and the integers they denote (curve/utils.go). */
module Octets {
  import opened NumberTheory
  import opened Powers

  type byte = b: int | 0 <= b < 256

  function Value(s: seq<byte>): nat {
    if |s| == 0 then 0 else Value(s[..|s| - 1]) * 256 + s[|s| - 1]
  }

  /** big.Int.Bytes of a non-negative number: no leading zero byte. */
  function Bytes(v: nat): seq<byte> {
    if v == 0 then [] else Bytes(v / 256) + [v % 256]
  }

  function BitLen(v: nat): nat {
    if v == 0 then 0 else 1 + BitLen(v / 2)
  }

  function Zeros(n: nat): (s: seq<byte>)
    ensures |s| == n
  {
    seq(n, _ => 0)
  }

  function Abs(v: int): nat { if v < 0 then -v else v }

  // ---------- the conversions of curve/utils.go ----------

  function Int2Octets(v: int, rolen: nat): seq<byte> {
    var out := Bytes(Abs(v));
    if |out| < rolen then Zeros(rolen - |out|) + out
    else if |out| > rolen then out[|out| - rolen..]
    else out
  }

  /** The bit length is taken from the minimal byte string, so leading zero bytes of the
      string that was converted no longer count. */
  function Bits2Int(v: nat, qlen: nat): nat {
    var blen := 8 * |Bytes(v)|;
    if blen > qlen then Shr(v, blen - qlen) else v
  }

  function Bits2Octets(v: nat, q: int, qlen: nat, rolen: nat): seq<byte> {
    var z1 := Bits2Int(v, qlen);
    var z2 := z1 - q;
    if z2 < 0 then Int2Octets(z1, rolen) else Int2Octets(z2, rolen)
  }

  // ---------- byte strings as numbers ----------

  lemma PowByte(n: nat)
    ensures Pow2(8 * (n + 1)) == 256 * Pow2(8 * n)
  {
    Pow2Small();
    Pow2Sum(8, 8 * n);
    assert 8 + 8 * n == 8 * (n + 1);
  }

  lemma {:induction false} ValueConcat(a: seq<byte>, b: seq<byte>)
    ensures Value(a + b) == Value(a) * Pow2(8 * |b|) + Value(b)
  {
    hide Pow2;
    Pow2Zero();
    if |b| == 0 {
      assert a + b == a;
    } else {
      var c := b[..|b| - 1];
      assert (a + b)[..|a + b| - 1] == a + c;
      ValueConcat(a, c);
      PowByte(|c|);
      assert Value(a) * Pow2(8 * |c|) * 256 == Value(a) * (256 * Pow2(8 * |c|));
    }
  }

  lemma ValueSnoc(s: seq<byte>, b: byte)
    ensures Value(s + [b]) == Value(s) * 256 + b
  {
    assert (s + [b])[..|s|] == s;
  }

  lemma ValueSix(a: byte, b: byte, c: byte, d: byte, e: byte, f: byte)
    ensures Value([a, b, c, d, e, f]) == ((((a * 256 + b) * 256 + c) * 256 + d) * 256 + e) * 256 + f
  {
    ValueSnoc([], a);
    ValueSnoc([a], b);
    ValueSnoc([a, b], c);
    ValueSnoc([a, b, c], d);
    ValueSnoc([a, b, c, d], e);
    ValueSnoc([a, b, c, d, e], f);
    assert [] + [a] == [a] && [a] + [b] == [a, b] && [a, b] + [c] == [a, b, c] && [a, b, c] + [d] == [a, b, c, d]
        && [a, b, c, d] + [e] == [a, b, c, d, e] && [a, b, c, d, e] + [f] == [a, b, c, d, e, f];
    assert Value([]) == 0;
  }

  lemma {:induction false} ValueBound(s: seq<byte>)
    ensures Value(s) < Pow2(8 * |s|)
  {
    hide Pow2;
    Pow2Zero();
    if |s| > 0 {
      var c := s[..|s| - 1];
      ValueBound(c);
      PowByte(|c|);
    }
  }

  lemma {:induction false} ValueInjective(a: seq<byte>, b: seq<byte>)
    requires |a| == |b| && Value(a) == Value(b)
    ensures a == b
  {
    if |a| > 0 {
      ValueInjective(a[..|a| - 1], b[..|b| - 1]);
      assert a == a[..|a| - 1] + [a[|a| - 1]];
      assert b == b[..|b| - 1] + [b[|b| - 1]];
    }
  }

  lemma {:induction false} BytesValue(v: nat)
    ensures Value(Bytes(v)) == v
  {
    if v > 0 {
      BytesValue(v / 256);
    }
  }

  /** Bytes is as short as it can be. */
  lemma {:induction false} BytesMinimal(v: nat)
    ensures v < Pow2(8 * |Bytes(v)|)
    ensures v > 0 ==> |Bytes(v)| >= 1 && Pow2(8 * (|Bytes(v)| - 1)) <= v
  {
    hide Pow2;
    Pow2Zero();
    if v > 0 {
      BytesMinimal(v / 256);
      var n := |Bytes(v / 256)|;
      PowByte(n);
      if n > 0 {
        PowByte(n - 1);
      }
    }
  }

  lemma BytesLength(v: nat, n: nat)
    ensures |Bytes(v)| <= n <==> v < Pow2(8 * n)
  {
    BytesMinimal(v);
    if |Bytes(v)| <= n {
      Pow2Monotone(8 * |Bytes(v)|, 8 * n);
    } else {
      Pow2Monotone(8 * n, 8 * (|Bytes(v)| - 1));
    }
  }

  lemma {:induction false} ZerosValue(n: nat)
    ensures Value(Zeros(n)) == 0
  {
    if n > 0 {
      assert Zeros(n)[..n - 1] == Zeros(n - 1);
      ZerosValue(n - 1);
    }
  }

  /** Section 2.3.3 of RFC 6979: exactly rolen octets; what does not fit is dropped from the top. */
  lemma Int2OctetsValue(v: int, rolen: nat)
    ensures |Int2Octets(v, rolen)| == rolen
    ensures Value(Int2Octets(v, rolen)) == Abs(v) % Pow2(8 * rolen)
  {
    hide Bytes, Value, Pow2;
    var out := Bytes(Abs(v));
    BytesValue(Abs(v));
    BytesLength(Abs(v), rolen);
    var r := Int2Octets(v, rolen);
    if |out| <= rolen {
      if |out| < rolen {
        ZerosValue(rolen - |out|);
        ValueConcat(Zeros(rolen - |out|), out);
      }
      DivModUnique(Abs(v), Pow2(8 * rolen), 0, Abs(v));
    } else {
      var top := out[..|out| - rolen];
      assert out == top + r;
      ValueConcat(top, r);
      ValueBound(r);
      DivModUnique(Abs(v), Pow2(8 * rolen), Value(top), Value(r));
    }
  }

  lemma {:induction false} BitLenBounds(v: nat)
    ensures v < Pow2(BitLen(v))
    ensures v > 0 ==> BitLen(v) >= 1 && Pow2(BitLen(v) - 1) <= v
  {
    if v > 0 {
      BitLenBounds(v / 2);
    }
  }

  lemma ShiftBound(v: nat, a: nat, b: nat)
    requires v < Pow2(a + b)
    ensures Shr(v, a) < Pow2(b)
  {
    Pow2Sum(a, b);
    var q := Shr(v, a);
    QuotientBounds(v, Pow2(a));
    if q >= Pow2(b) {
      MulMonotone(Pow2(a), Pow2(b), q);
    }
  }

  lemma Bits2IntBound(v: nat, qlen: nat)
    ensures Bits2Int(v, qlen) < Pow2(qlen)
  {
    var blen := 8 * |Bytes(v)|;
    BytesMinimal(v);
    if blen > qlen {
      ShiftBound(v, blen - qlen, qlen);
    } else {
      Pow2Monotone(blen, qlen);
    }
  }

  /** Section 2.3.4 of RFC 6979: one conditional subtraction is the reduction modulo q. */
  lemma Bits2OctetsReduces(v: nat, q: int, qlen: nat, rolen: nat)
    requires 0 < q <= Pow2(qlen) <= 2 * q && qlen <= 8 * rolen
    ensures |Bits2Octets(v, q, qlen, rolen)| == rolen
    ensures Value(Bits2Octets(v, q, qlen, rolen)) == Bits2Int(v, qlen) % q
  {
    var z := Bits2Int(v, qlen);
    Bits2IntBound(v, qlen);
    var w := if z < q then z else z - q;
    DivModUnique(z, q, if z < q then 0 else 1, w);
    Int2OctetsValue(w, rolen);
    Pow2Monotone(qlen, 8 * rolen);
    DivModUnique(w, Pow2(8 * rolen), 0, w);
  }

  /** bits2int as section 2.3.2 of RFC 6979 defines it, on the octets themselves. */
  function RfcBits2Int(t: seq<byte>, qlen: nat): nat {
    if 8 * |t| > qlen then Shr(Value(t), 8 * |t| - qlen) else Value(t)
  }

  /** The source agrees with the RFC exactly on strings that need no shift, start with a
      nonzero byte, or are all zero; a leading zero byte makes it shift too little. */
  lemma Bits2IntVersusRfc(t: seq<byte>, qlen: nat)
    requires qlen >= 8
    ensures Bits2Int(Value(t), qlen) == RfcBits2Int(t, qlen)
       <==> 8 * |t| <= qlen || t[0] != 0 || Value(t) == 0
  {
    hide Value, Bytes, Shr, Pow2;
    var v := Value(t);
    ValueBound(t);
    BytesLength(v, |t|);
    ZeroBits2Int(qlen, |t|);
    if 8 * |t| > qlen && v != 0 {
      FirstByte(t);
      BytesLength(v, |t| - 1);
      if t[0] == 0 {
        LeadingZeroShift(v, |t|, qlen);
      }
    }
  }

  lemma ZeroBits2Int(qlen: nat, len: nat)
    ensures Bits2Int(0, qlen) == 0
    ensures 8 * len > qlen ==> Shr(0, 8 * len - qlen) == 0
  {}

  lemma LeadingZeroShift(v: nat, len: nat, qlen: nat)
    requires v > 0 && |Bytes(v)| < len && 8 * len > qlen >= 8
    ensures Bits2Int(v, qlen) != Shr(v, 8 * len - qlen)
  {
    var n := |Bytes(v)|;
    var low: nat := if 8 * n > qlen then 8 * n - qlen else 0;
    BytesMinimal(v);
    Pow2Monotone(low, 8 * (n - 1));
    ShiftsDiffer(v, low, 8 * len - qlen);
    assert Shr(v, 0) == v by { assert Pow2(0) == 1; }
  }

  /** A zero first byte means the value fits in one byte less. */
  lemma FirstByte(t: seq<byte>)
    requires |t| > 0
    ensures t[0] == 0 <==> Value(t) < Pow2(8 * (|t| - 1))
  {
    hide Pow2;
    assert t == t[..1] + t[1..];
    ValueConcat(t[..1], t[1..]);
    ValueBound(t[1..]);
    assert Value(t[..1]) == t[0] by {
      assert t[..1][..0] == [];
    }
    if t[0] >= 1 {
      MulMonotone(Pow2(8 * (|t| - 1)), 1, t[0]);
    }
  }

  lemma ShiftsDiffer(v: nat, low: nat, high: nat)
    requires low < high && v >= Pow2(low)
    ensures Shr(v, low) != Shr(v, high)
  {
    Pow2Sum(low, high - low);
    assert Pow2(high - low) == 2 * Pow2(high - low - 1);
    Pow2Sum(low + 1, high - low - 1);
    QuotientBounds(v, Pow2(low));
    QuotientBounds(v, Pow2(high));
    HalvingDiffers(v, Pow2(low), Pow2(high - low), Shr(v, low));
  }

  lemma HalvingDiffers(v: nat, w: nat, k: nat, q: nat)
    requires w >= 1 && k >= 2 && v >= w
    ensures !(v < w * q + w && (w * k) * q <= v)
  {
    if v < w * q + w && (w * k) * q <= v {
      if q == 0 {
      } else {
        assert (w * k) * q == k * (w * q);
        MulMonotone(w * q, 2, k);
        MulMonotone(w, 1, q);
      }
    }
  }
}
