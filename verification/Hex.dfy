/** 64-bit numbers written in hexadecimal (rpc/types_contract.go). */
module Hex {
  import opened Results

  // ---------- the parser ----------

  function HexDigit(c: char): Option<nat> {
    if '0' <= c <= '9' then Some((c as int) - ('0' as int))
    else if 'a' <= c <= 'f' then Some((c as int) - ('a' as int) + 10)
    else if 'A' <= c <= 'F' then Some((c as int) - ('A' as int) + 10)
    else None
  }

  function HexValue(s: string): Option<nat> {
    if |s| == 0 then Some(0)
    else
      match (HexValue(s[..|s| - 1]), HexDigit(s[|s| - 1]))
      case (Some(v), Some(d)) => Some(16 * v + d)
      case _ => None
  }

  /** U64.ToUint64: at most one "0x" is dropped; empty, malformed and too large fail. */
  function ToUint64(u: string): (r: Option<nat>)
    ensures r.Some? ==> r.value < 0x1_0000_0000_0000_0000
  {
    var digits := if |u| >= 2 && u[..2] == "0x" then u[2..] else u;
    if |digits| == 0 then None
    else
      match HexValue(digits)
      case Some(v) => if v < 0x1_0000_0000_0000_0000 then Some(v) else None
      case None => None
  }

  // ---------- numbers as they are written ----------

  function DigitChar(d: nat): char
    requires d < 16
  {
    "0123456789abcdef"[d]
  }

  /** The digits of n, without leading zeros. */
  function HexText(n: nat): string {
    if n < 16 then [DigitChar(n)] else HexText(n / 16) + [DigitChar(n % 16)]
  }

  function LowerChar(c: char): char {
    if 'A' <= c <= 'F' then ((c as int) + 32) as char else c
  }

  function Lower(s: string): (t: string)
    ensures |t| == |s| && forall i :: 0 <= i < |s| ==> t[i] == LowerChar(s[i])
  {
    seq(|s|, i requires 0 <= i < |s| => LowerChar(s[i]))
  }

  function Padding(z: nat): (s: string)
    ensures |s| == z && forall i :: 0 <= i < z ==> s[i] == '0'
  {
    seq(z, _ => '0')
  }

  /** s is n in hexadecimal, in either case, after any number of zeros. */
  ghost predicate Spells(s: string, n: nat) {
    exists z: nat :: Lower(s) == Padding(z) + HexText(n)
  }

  /** What is left without a leading "0x". */
  function Bare(u: string): string {
    if "0x" <= u then u[2..] else u
  }

  predicate IsHexChar(c: char) { c in "0123456789abcdefABCDEF" }

  // ---------- the parser reads what is written ----------

  lemma DigitIff(c: char, d: nat)
    ensures HexDigit(c) == Some(d) <==> d < 16 && LowerChar(c) == DigitChar(d)
  {}

  lemma DigitValue(d: nat)
    requires d < 16
    ensures HexDigit(DigitChar(d)) == Some(d)
  {}

  lemma HexCharIff(c: char)
    ensures HexDigit(c).Some? <==> IsHexChar(c)
  {}

  lemma {:induction false} LowerSame(s: string)
    ensures HexValue(Lower(s)) == HexValue(s)
  {
    if |s| > 0 {
      var n := |s| - 1;
      LowerSame(s[..n]);
      assert Lower(s)[..n] == Lower(s[..n]);
    }
  }

  lemma {:induction false} PaddingValue(z: nat)
    ensures HexValue(Padding(z)) == Some(0)
  {
    if z > 0 {
      PaddingValue(z - 1);
      assert Padding(z)[..z - 1] == Padding(z - 1);
    }
  }

  /** One digit more. */
  lemma HexValueSnoc(s: string, c: char, d: nat)
    requires HexDigit(c) == Some(d) && HexValue(s).Some?
    ensures HexValue(s + [c]) == Some(16 * HexValue(s).value + d)
  {
    hide HexDigit;
    assert (s + [c])[..|s|] == s;
  }

  lemma TextSnoc(v: nat, d: nat)
    requires d < 16
    ensures HexText(d) == [DigitChar(d)] && (v > 0 ==> HexText(16 * v + d) == HexText(v) + [DigitChar(d)])
  {
    hide DigitChar;
    assert (16 * v + d) / 16 == v && (16 * v + d) % 16 == d;
  }

  lemma {:induction false} TextValue(z: nat, n: nat)
    ensures HexValue(Padding(z) + HexText(n)) == Some(n)
    decreases n
  {
    hide HexValue, HexText, HexDigit, Padding, DigitChar, LowerChar;
    assert n == 16 * (n / 16) + n % 16;
    TextSnoc(n / 16, n % 16);
    DigitValue(n % 16);
    if n < 16 {
      PaddingValue(z);
      HexValueSnoc(Padding(z), DigitChar(n), n);
    } else {
      TextValue(z, n / 16);
      var s := Padding(z) + HexText(n / 16);
      HexValueSnoc(s, DigitChar(n % 16), n % 16);
      assert Padding(z) + HexText(n) == s + [DigitChar(n % 16)];
    }
  }

  lemma PaddingSnoc(z: nat)
    ensures Padding(z + 1) == Padding(z) + [DigitChar(0)] && Padding(0) == ""
  {}

  lemma LowerSnoc(s: string, c: char)
    ensures Lower(s + [c]) == Lower(s) + [LowerChar(c)] && Lower("") == ""
  {}

  lemma HexValueParts(s: string)
    requires |s| > 0 && HexValue(s).Some?
    ensures HexValue(s[..|s| - 1]).Some? && HexDigit(s[|s| - 1]).Some?
    ensures HexValue(s) == Some(16 * HexValue(s[..|s| - 1]).value + HexDigit(s[|s| - 1]).value)
    ensures |s| == 1 ==> HexValue(s[..0]) == Some(0)
  {
    hide HexDigit;
  }

  lemma {:induction false} ValueText(s: string)
    requires |s| > 0 && HexValue(s).Some?
    ensures Spells(s, HexValue(s).value)
    decreases |s|
  {
    hide HexValue, HexDigit, HexText, Lower, LowerChar, Padding, DigitChar;
    HexValueParts(s);
    var front, c := s[..|s| - 1], s[|s| - 1];
    var v, d := HexValue(front).value, HexDigit(c).value;
    assert s == front + [c];
    DigitIff(c, d);
    LowerSnoc(front, c);
    TextSnoc(v, d);
    if |front| == 0 {
      PaddingSnoc(0);
      assert Lower(s) == Padding(0) + HexText(d);
    } else {
      ValueText(front);
      var z: nat :| Lower(front) == Padding(z) + HexText(v);
      if v == 0 {
        TextSnoc(0, 0);
        PaddingSnoc(z);
        assert Lower(s) == Padding(z + 1) + HexText(d);
      } else {
        assert Lower(s) == Padding(z) + HexText(16 * v + d);
      }
    }
  }

  lemma HexValueIff(s: string, n: nat)
    requires |s| > 0
    ensures HexValue(s) == Some(n) <==> Spells(s, n)
  {
    hide HexText, HexValue, Lower, Padding;
    if HexValue(s).Some? {
      ValueText(s);
    }
    if z: nat :| Lower(s) == Padding(z) + HexText(n) {
      TextValue(z, n);
      LowerSame(s);
    }
  }

  lemma NothingSpelled(n: nat)
    ensures !Spells("", n)
  {
    assert |HexText(n)| > 0;
  }

  /** ToUint64 gives n exactly for n below 2^64 in hexadecimal, "0x" or not, zeros or not. */
  lemma ToUint64Iff(u: string, n: nat)
    ensures ToUint64(u) == Some(n) <==> n < 0x1_0000_0000_0000_0000 && Spells(Bare(u), n)
  {
    hide HexValue, Spells;
    NothingSpelled(n);
    if Bare(u) != "" {
      HexValueIff(Bare(u), n);
    }
  }

  lemma {:induction false} HexValueFails(s: string)
    ensures HexValue(s) == None <==> exists i :: 0 <= i < |s| && !IsHexChar(s[i])
  {
    hide HexDigit, IsHexChar;
    if |s| > 0 {
      var n := |s| - 1;
      HexValueFails(s[..n]);
      HexCharIff(s[n]);
      if HexValue(s[..n]) == None {
        var i :| 0 <= i < n && !IsHexChar(s[..n][i]);
        assert !IsHexChar(s[i]);
      } else {
        assert forall i :: 0 <= i < n ==> s[..n][i] == s[i];
      }
    }
  }

  /** And it fails exactly on no digits, a character that is no digit, and 2^64 or more. */
  lemma ToUint64Fails(u: string)
    ensures ToUint64(u) == None
       <==> Bare(u) == "" || (exists i :: 0 <= i < |Bare(u)| && !IsHexChar(Bare(u)[i]))
            || exists n: nat :: n >= 0x1_0000_0000_0000_0000 && Spells(Bare(u), n)
  {
    hide HexValue, Spells, IsHexChar;
    var s := Bare(u);
    HexValueFails(s);
    forall n: nat
      ensures s != "" ==> (HexValue(s) == Some(n) <==> Spells(s, n))
      ensures s == "" ==> !Spells(s, n)
    {
      NothingSpelled(n);
      if s != "" {
        HexValueIff(s, n);
      }
    }
  }

  /** Two texts write one number below 2^64. */
  ghost predicate SameNumber(u: string, v: string) {
    exists n: nat :: n < 0x1_0000_0000_0000_0000 && Spells(Bare(u), n) && Spells(Bare(v), n)
  }

  lemma SameNumberIff(u: string, v: string)
    ensures SameNumber(u, v) <==> ToUint64(u).Some? && ToUint64(u) == ToUint64(v)
  {
    hide Spells, ToUint64, Bare;
    if ToUint64(u).Some? {
      ToUint64Iff(u, ToUint64(u).value);
      ToUint64Iff(v, ToUint64(u).value);
    }
    if n: nat :| n < 0x1_0000_0000_0000_0000 && Spells(Bare(u), n) && Spells(Bare(v), n) {
      ToUint64Iff(u, n);
      ToUint64Iff(v, n);
    }
  }
}
