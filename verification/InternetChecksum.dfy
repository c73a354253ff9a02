/** The ones' complement header checksum (section 3.1 of RFC 791, section 1 of RFC 1071) in the
  * 32-bit arithmetic of test/integration/tun_plaintext_linux.go. */
module InternetChecksum {
  import opened Basics

  function Big16(hi: byte, lo: byte): uint16 { var h: int := hi; h * 256 + lo }

  /** The exact sum of all whole 16-bit words; an odd last byte is left out. */
  function WordSum(b: seq<byte>): nat {
    if |b| < 2 then 0 else Big16(b[0], b[1]) as int + WordSum(b[2..])
  }

  /** Adds the carries back in until none is left. */
  function Fold(x: nat): (r: uint16)
    ensures r as int % 65535 == x % 65535
    ensures r == 0 <==> x == 0
    decreases x
  {
    if x < 0x1_0000 then x
    else
      FoldStep(x);
      Fold(x % 0x1_0000 + x / 0x1_0000)
  }

  lemma FoldStep(x: nat)
    requires x >= 0x1_0000
    ensures 0 < x % 0x1_0000 + x / 0x1_0000 < x
    ensures (x % 0x1_0000 + x / 0x1_0000) % 65535 == x % 65535
  {
    var q, r := x / 0x1_0000, x % 0x1_0000;
    assert x == (q + r) + 65535 * q;
  }

  function Complement(x: uint16): uint16 { 0xffff - x }

  function Checksum(b: seq<byte>): uint16 { Complement(Fold(WordSum(b))) }

  /** The accumulator of the code, which wraps around. */
  function Wrap32(x: nat): uint32 { x % 0x1_0000_0000 }

  method IpChecksum(hdr: seq<byte>) returns (sum16: uint16)
    ensures |hdr| / 2 <= 65537 ==> sum16 == Checksum(hdr)
    ensures sum16 == Complement(Fold(Wrap32(WordSum(hdr))))
  {
    hide Wrap32, WordSum;
    var sum: uint32 := 0;
    var i := 0;
    assert hdr[0..] == hdr;
    while i + 1 < |hdr|
      invariant 0 <= i <= |hdr| && i % 2 == 0
      invariant Wrap32(sum + WordSum(hdr[i..])) == Wrap32(WordSum(hdr))
    {
      WordSumStep(hdr, i);
      ghost var rest := WordSum(hdr[i + 2..]);
      WrapAdds(sum + Big16(hdr[i], hdr[i + 1]) as int, rest);
      sum := Wrap32(sum + Big16(hdr[i], hdr[i + 1]) as int);
      i := i + 2;
    }
    WordSumEnds(hdr[i..]);
    WrapFits(sum);
    var x: uint32 := sum;
    while x / 0x1_0000 != 0
      invariant Fold(x) == Fold(sum)
      decreases x
    {
      FoldStep(x);
      x := x % 0x1_0000 + x / 0x1_0000;
    }
    sum16 := Complement(x);
    if |hdr| / 2 <= 65537 {
      WordSumBound(hdr);
      WrapFits(WordSum(hdr));
    }
  }

  lemma WordSumEnds(b: seq<byte>)
    requires |b| < 2
    ensures WordSum(b) == 0
  {}

  lemma WrapFits(x: nat)
    requires x < 0x1_0000_0000
    ensures Wrap32(x) == x
  {}

  lemma WordSumStep(b: seq<byte>, i: nat)
    requires i + 1 < |b|
    ensures WordSum(b[i..]) == Big16(b[i], b[i + 1]) as int + WordSum(b[i + 2..])
  {
    assert b[i..][2..] == b[i + 2..];
  }

  lemma WrapAdds(x: nat, y: nat)
    ensures Wrap32(Wrap32(x) as int + y) == Wrap32(x + y)
  {}

  lemma {:induction false} WordSumBound(b: seq<byte>)
    ensures WordSum(b) <= |b| / 2 * 65535
  {
    if |b| >= 2 { WordSumBound(b[2..]); }
  }

  // ---------------------------------------------------------------- what the checksum is

  /** The complement of the sum modulo 65535, where a sum that is a positive multiple counts as 65535. */
  lemma ChecksumValue(b: seq<byte>)
    ensures Checksum(b) as int == if WordSum(b) == 0 then 65535 else 65534 - (WordSum(b) - 1) % 65535
  {
    var s := WordSum(b);
    if s > 0 {
      var q, m := (s - 1) / 65535, (s - 1) % 65535;
      assert s == 65535 * q + (m + 1);
      Residue(Fold(s), s, q, m + 1);
    }
  }

  lemma Residue(f: int, s: nat, q: int, m: int)
    requires 0 < f <= 65535 && f % 65535 == s % 65535 && s == 65535 * q + m && 1 <= m <= 65535
    ensures f == m
  {
    assert s % 65535 == m % 65535;
  }

  /** Adds up the words at even positions, each with its more significant byte first; an odd last byte is
    * left out. */
  lemma {:induction false} WordSumIs(b: seq<byte>)
    ensures WordSum(b) == if |b| < 2 then 0 else 256 * b[0] as int + b[1] as int + WordSum(b[2..])
  {}

  /** The example of section 3 of RFC 1071. */
  lemma Rfc1071Example()
    ensures WordSum([0x00, 0x01, 0xf2, 0x03, 0xf4, 0xf5, 0xf6, 0xf7]) == 0x2ddf0
    ensures Checksum([0x00, 0x01, 0xf2, 0x03, 0xf4, 0xf5, 0xf6, 0xf7]) == 0x220d
  {
    hide WordSum, Checksum;
    var b: seq<byte> := [0x00, 0x01, 0xf2, 0x03, 0xf4, 0xf5, 0xf6, 0xf7];
    assert b[2..] == [0xf2, 0x03, 0xf4, 0xf5, 0xf6, 0xf7];
    assert b[2..][2..] == [0xf4, 0xf5, 0xf6, 0xf7];
    assert b[2..][2..][2..] == [0xf6, 0xf7];
    WordSumIs(b);
    WordSumIs(b[2..]);
    WordSumIs(b[2..][2..]);
    WordSumIs(b[2..][2..][2..]);
    WordSumIs([]);
    assert b[2..][2..][2..][2..] == [];
    ChecksumValue(b);
  }

  // ---------------------------------------------------------------- how long a header may be

  function AllOnes(words: nat): seq<byte> { seq(2 * words, i => 255) }

  lemma {:induction false} AllOnesSum(words: nat)
    ensures WordSum(AllOnes(words)) == words * 65535
  {
    if words > 0 {
      assert AllOnes(words)[2..] == AllOnes(words - 1);
      AllOnesSum(words - 1);
    }
  }

  /** The 32-bit accumulator holds the exact sum of every input of up to n words exactly when n is
    * at most 65537. */
  lemma NoOverflowIff(n: nat)
    ensures (forall b: seq<byte> :: |b| / 2 <= n ==> WordSum(b) < 0x1_0000_0000) <==> n <= 65537
  {
    if n <= 65537 {
      forall b: seq<byte> | |b| / 2 <= n ensures WordSum(b) < 0x1_0000_0000 { WordSumBound(b); }
    } else {
      AllOnesSum(65538);
      assert |AllOnes(65538)| / 2 <= n;
    }
  }

  // ---------------------------------------------------------------- verifying a header

  lemma {:induction false} WordSumUpdate(b: seq<byte>, i: nat, hi: byte, lo: byte)
    requires i % 2 == 0 && i + 1 < |b|
    ensures WordSum(b[i := hi][i + 1 := lo]) == WordSum(b) - Big16(b[i], b[i + 1]) as int + Big16(hi, lo) as int
  {
    var c := b[i := hi][i + 1 := lo];
    if i == 0 {
      assert c[2..] == b[2..];
    } else {
      assert c[2..] == b[2..][i - 2 := hi][i - 1 := lo];
      WordSumUpdate(b[2..], i - 2, hi, lo);
    }
  }

  /** The value is zero exactly when the words sum to a positive multiple of 65535. */
  lemma ZeroIff(b: seq<byte>)
    ensures Checksum(b) == 0 <==> WordSum(b) > 0 && WordSum(b) % 65535 == 0
  {
    var f := Fold(WordSum(b));
    assert f == 0xffff <==> f > 0 && f as int % 65535 == 0;
  }

  /** A header, not all zero, into whose zero checksum field the checksum has been stored, sums up
    * to zero again. */
  lemma FilledHeaderVerifies(b: seq<byte>, i: nat)
    requires i % 2 == 0 && i + 1 < |b| && b[i] == b[i + 1] == 0 && WordSum(b) > 0
    ensures var c := Checksum(b) as int;
            Checksum(b[i := c / 256][i + 1 := c % 256]) == 0
  {
    var s, c: int := WordSum(b), Checksum(b);
    var hi, lo := c / 256, c % 256;
    WordSumUpdate(b, i, hi, lo);
    var f: int := Fold(s);
    assert Big16(hi, lo) as int == c && c == 65535 - f;
    SumVanishes(s, f);
    ZeroIff(b[i := hi][i + 1 := lo]);
  }

  lemma SumVanishes(s: nat, f: int)
    requires 0 <= f <= 65535 && f % 65535 == s % 65535
    ensures (s + (65535 - f)) % 65535 == 0
  {}

  /** Changing one word of a header that verifies goes unnoticed only for the two ways to write zero
    * in ones' complement. */
  lemma OneWordErrorDetected(b: seq<byte>, i: nat, hi: byte, lo: byte)
    requires i % 2 == 0 && i + 1 < |b| && Checksum(b) == 0
    ensures var was, now := Big16(b[i], b[i + 1]), Big16(hi, lo);
            Checksum(b[i := hi][i + 1 := lo]) == 0 ==>
              was == now || (was == 0 && now == 0xffff) || (was == 0xffff && now == 0)
  {
    var c := b[i := hi][i + 1 := lo];
    WordSumUpdate(b, i, hi, lo);
    ZeroIff(b);
    ZeroIff(c);
    if Checksum(c) == 0 { SameResidue(WordSum(b), WordSum(c), Big16(b[i], b[i + 1]), Big16(hi, lo)); }
  }

  lemma SameResidue(s: nat, t: nat, was: int, now: int)
    requires 0 <= was <= 65535 && 0 <= now <= 65535
    requires s % 65535 == 0 && t % 65535 == 0 && t == s - was + now
    ensures was == now || (was == 0 && now == 65535) || (was == 65535 && now == 0)
  {}
}
