/** Decimal numbers, eight-byte big-endian lengths and length-framed strings, each with its decoder. */
module Frames {

  datatype Option<+T> = None | Some(value: T)

  const TWO64 := 0x1_0000_0000_0000_0000

  /** The first length whose leading big-endian byte is 'n'. */
  const N_LENGTH := 0x6E00_0000_0000_0000

  function DecimalNat(n: nat): (s: string)
    ensures |s| > 0 && forall i :: 0 <= i < |s| ==> '0' <= s[i] <= '9'
  {
    if n < 10 then [('0' as int + n) as char] else DecimalNat(n / 10) + [('0' as int + n % 10) as char]
  }

  /** strconv.FormatInt(i, 10). */
  function Decimal(i: int): (s: string)
    ensures |s| > 0
  {
    if i < 0 then "-" + DecimalNat(-i) else DecimalNat(i)
  }

  function ParseNat(s: string): int {
    if |s| == 0 then 0 else ParseNat(s[..|s| - 1]) * 10 + (s[|s| - 1] as int - '0' as int)
  }

  function ParseDecimal(s: string): int {
    if |s| > 0 && s[0] == '-' then -ParseNat(s[1..]) else ParseNat(s)
  }

  lemma {:induction false} ParseDecimalNat(n: nat)
    ensures ParseNat(DecimalNat(n)) == n
    ensures |DecimalNat(n)| <= n / 10 + 1
  {
    if n >= 10 {
      ParseDecimalNat(n / 10);
      var front := DecimalNat(n / 10);
      assert DecimalNat(n)[..|front|] == front;
    } else {
      assert DecimalNat(n)[..0] == "";
    }
  }

  lemma ParsesDecimal(i: int)
    ensures ParseDecimal(Decimal(i)) == i
    ensures -TWO64 < i < TWO64 ==> |Decimal(i)| < TWO64
  {
    ParseDecimalNat(if i < 0 then -i else i);
    if i < 0 {
      assert Decimal(i)[1..] == DecimalNat(-i);
    }
  }

  /** The low k bytes of n, most significant first. */
  function BigEndian(n: nat, k: nat): (s: string)
    ensures |s| == k
  {
    if k == 0 then "" else BigEndian(n / 256, k - 1) + [(n % 256) as char]
  }

  function FromBigEndian(s: string): nat {
    if |s| == 0 then 0 else FromBigEndian(s[..|s| - 1]) * 256 + s[|s| - 1] as int
  }

  function Pow256(k: nat): nat {
    if k == 0 then 1 else 256 * Pow256(k - 1)
  }

  lemma {:induction false} BigEndianRoundTrip(n: nat, k: nat)
    requires n < Pow256(k)
    ensures FromBigEndian(BigEndian(n, k)) == n
  {
    if k > 0 {
      BigEndianRoundTrip(n / 256, k - 1);
      assert BigEndian(n, k)[..k - 1] == BigEndian(n / 256, k - 1);
    }
  }

  lemma {:induction false} BigEndianLead(n: nat, k: nat)
    requires k > 0 && n < Pow256(k)
    ensures n / Pow256(k - 1) < 256 && BigEndian(n, k)[0] as int == n / Pow256(k - 1)
  {
    if k > 1 {
      BigEndianLead(n / 256, k - 1);
      DivideTwice(n, Pow256(k - 2));
    } else {
      assert Pow256(0) == 1 && n / 1 == n;
    }
  }

  lemma DivideTwice(n: nat, p: nat)
    requires p > 0
    ensures n / 256 / p == n / (256 * p)
  {
    var q := n / 256 / p;
    var r := n / 256 - q * p;
    assert n == 256 * (q * p + r) + n % 256;
    assert 256 * r + n % 256 < 256 * p;
    assert n == q * (256 * p) + (256 * r + n % 256);
    QuotientUnique(n, 256 * p, q, 256 * r + n % 256);
  }

  lemma AtLeast(e: nat, d: nat)
    requires e >= 1
    ensures e * d >= d
  {
  }

  lemma QuotientUnique(n: nat, d: nat, q: nat, r: nat)
    requires d > 0 && n == q * d + r && r < d
    ensures n / d == q
  {
    var e := n / d - q;
    assert n == (n / d) * d + n % d;
    assert (n / d) * d == e * d + q * d;
    if e >= 1 { AtLeast(e, d); }
    if e <= -1 { AtLeast(-e, d); assert (-e) * d == -(e * d); }
  }

  lemma Pow256Values()
    ensures Pow256(8) == TWO64 && Pow256(7) == 0x100_0000_0000_0000
  {
    assert Pow256(4) == 0x1_0000_0000;
  }

  /** writeLength. */
  function Length8(n: nat): (s: string)
    ensures |s| == 8
  {
    BigEndian(n, 8)
  }

  /** A length starts with the byte 'n' exactly from 0x6E * 2^56 to 0x6F * 2^56, so no type frame
      that fits in memory can be taken for the bare nil byte. */
  lemma LengthLead(n: nat)
    requires n < TWO64
    ensures Length8(n)[0] == 'n' <==> N_LENGTH <= n < 0x6F00_0000_0000_0000
    ensures FromBigEndian(Length8(n)) == n
  {
    Pow256Values();
    BigEndianRoundTrip(n, 8);
    BigEndianLead(n, 8);
  }

  /** writeFrame. */
  function Frame(s: string): string {
    Length8(|s|) + s
  }

  function Unframe(b: string): (r: Option<(string, string)>)
    ensures r.Some? ==> |r.value.0| + |r.value.1| + 8 == |b|
  {
    if |b| < 8 then None
    else
      var n := FromBigEndian(b[..8]);
      if 8 + n > |b| then None else Some((b[8..8 + n], b[8 + n..]))
  }

  lemma UnframesFrame(s: string, rest: string)
    requires |s| < TWO64
    ensures Unframe(Frame(s) + rest) == Some((s, rest))
  {
    LengthLead(|s|);
    var b := Frame(s) + rest;
    assert b[..8] == Length8(|s|);
    assert b[8..8 + |s|] == s && b[8 + |s|..] == rest;
  }
}
