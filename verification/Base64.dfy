/** Unpadded base64 with the standard alphabet: sections 3.2, 3.5 and 4 of RFC 4648. */
module Base64 {
  import opened Ascii
  import opened Basics

  type sextet = x: int | 0 <= x < 64

  /** Table 1 of RFC 4648, in the order of the values. */
  const ALPHABET := UPPER + LOWER + DIGITS + "+/"

  /** The character of a value, table 1. */
  function Letter(v: sextet): byte {
    if v < 26 then 65 + v
    else if v < 52 then 97 + (v - 26)
    else if v < 62 then 48 + (v - 52)
    else if v == 62 then 43
    else 47
  }

  predicate InAlphabet(b: byte) {
    65 <= b <= 90 || 97 <= b <= 122 || 48 <= b <= 57 || b == 43 || b == 47
  }

  function Value(b: byte): sextet
    requires InAlphabet(b)
  {
    if 65 <= b <= 90 then b - 65
    else if 97 <= b <= 122 then b - 97 + 26
    else if 48 <= b <= 57 then b - 48 + 52
    else if b == 43 then 62
    else 63
  }

  lemma LetterValue(v: sextet)
    ensures InAlphabet(Letter(v)) && Value(Letter(v)) == v
  {}

  // Three bytes x, y, z are four groups of six bits.
  function Group1(x: int): sextet requires 0 <= x < 256 { x / 4 }
  function Group2(x: int, y: int): sextet requires 0 <= x < 256 && 0 <= y < 256 { x % 4 * 16 + y / 16 }
  function Group3(y: int, z: int): sextet requires 0 <= y < 256 && 0 <= z < 256 { y % 16 * 4 + z / 64 }
  function Group4(z: int): sextet requires 0 <= z < 256 { z % 64 }

  // Four groups a, b, c, d are three bytes.
  function Octet1(a: int, b: int): byte requires 0 <= a < 64 && 0 <= b < 64 { a * 4 + b / 16 }
  function Octet2(b: int, c: int): byte requires 0 <= b < 64 && 0 <= c < 64 { b % 16 * 16 + c / 4 }
  function Octet3(c: int, d: int): byte requires 0 <= c < 64 && 0 <= d < 64 { c % 4 * 64 + d }

  /** The last group of an input that is not a multiple of three bytes is filled with zero bits. */
  function Sextets(b: seq<byte>): seq<sextet> {
    if |b| == 0 then []
    else if |b| == 1 then [Group1(b[0]), Group2(b[0], 0)]
    else if |b| == 2 then [Group1(b[0]), Group2(b[0], b[1]), Group3(b[1], 0)]
    else [Group1(b[0]), Group2(b[0], b[1]), Group3(b[1], b[2]), Group4(b[2])] + Sextets(b[3..])
  }

  /** The inverse direction. A single left-over group is an error; the unused low bits of a last,
    * partial group are not looked at. */
  function Octets(v: seq<sextet>): Option<seq<byte>> {
    if |v| == 0 then Some([])
    else if |v| == 1 then None
    else if |v| == 2 then Some([Octet1(v[0], v[1])])
    else if |v| == 3 then Some([Octet1(v[0], v[1]), Octet2(v[1], v[2])])
    else match Octets(v[4..])
      case None => None
      case Some(rest) => Some([Octet1(v[0], v[1]), Octet2(v[1], v[2]), Octet3(v[2], v[3])] + rest)
  }

  function Letters(v: seq<sextet>): (s: seq<byte>)
    ensures |s| == |v|
  {
    seq(|v|, i requires 0 <= i < |v| => Letter(v[i]))
  }

  predicate AllInAlphabet(s: seq<byte>) { forall i | 0 <= i < |s| :: InAlphabet(s[i]) }

  function Values(s: seq<byte>): (v: seq<sextet>)
    requires AllInAlphabet(s)
    ensures |v| == |s|
  {
    seq(|s|, i requires 0 <= i < |s| => Value(s[i]))
  }

  function EncodeToString(b: seq<byte>): seq<byte> { Letters(Sextets(b)) }

  function DecodeString(s: seq<byte>): Option<seq<byte>> {
    if AllInAlphabet(s) then Octets(Values(s)) else None
  }

  // ---------------------------------------------------------------- laws

  /** The characters are those of the table, each for its own position. */
  lemma LetterOfTable(v: sextet)
    ensures |ALPHABET| == 64 && Letter(v) == ALPHABET[v] as int
  {
    if v < 26 { UpperAt(v); }
    else if v < 52 { LowerAt(v - 26); }
    else if v < 62 { DigitAt(v - 52); }
  }

  lemma ValueOfTable(b: byte)
    ensures |ALPHABET| == 64
    ensures InAlphabet(b) <==> exists v | 0 <= v < 64 :: ALPHABET[v] as int == b
    ensures InAlphabet(b) ==> ALPHABET[Value(b)] as int == b
  {
    hide ALPHABET;
    LetterOfTable(0);
    if InAlphabet(b) {
      LetterOfTable(Value(b));
      assert Letter(Value(b)) == b;
    }
    forall v | 0 <= v < 64 ensures InAlphabet(Letter(v)) && Letter(v) == ALPHABET[v] as int {
      LetterOfTable(v);
      LetterValue(v);
    }
  }

  /** The k-th element, or zero bits beyond the end. */
  function At(xs: seq<int>, k: nat): int { if k < |xs| then xs[k] else 0 }

  /** Three bytes from m on and four sextets from n on are the same 24 bits, the most significant first. */
  predicate SameBits(b: seq<byte>, m: nat, v: seq<sextet>, n: nat) {
    At(b, m) * 65536 + At(b, m + 1) * 256 + At(b, m + 2)
    == ((At(v, n) * 64 + At(v, n + 1)) * 64 + At(v, n + 2)) * 64 + At(v, n + 3)
  }

  lemma SameBitsTail(b: seq<byte>, m: nat, v: seq<sextet>, n: nat)
    requires |b| >= 3 && |v| >= 4
    ensures SameBits(b[3..], m, v[4..], n) <==> SameBits(b, m + 3, v, n + 4)
  {
    assert At(b[3..], m) == At(b, m + 3) && At(b[3..], m + 1) == At(b, m + 4) && At(b[3..], m + 2) == At(b, m + 5);
    assert At(v[4..], n) == At(v, n + 4) && At(v[4..], n + 1) == At(v, n + 5);
    assert At(v[4..], n + 2) == At(v, n + 6) && At(v[4..], n + 3) == At(v, n + 7);
  }

  /** Every group of three bytes and its group of four characters are the same bits; what a partial group
    * lacks is zero. */
  lemma {:induction false} SextetsAreBits(b: seq<byte>, i: nat)
    requires 3 * i < |b|
    ensures SameBits(b, 3 * i, Sextets(b), 4 * i)
  {
    hide Group1, Group2, Group3, Group4, At;
    var v := Sextets(b);
    if i > 0 {
      hide SameBits;
      assert v[4..] == Sextets(b[3..]);
      SextetsAreBits(b[3..], i - 1);
      SameBitsTail(b, 3 * (i - 1), v, 4 * (i - 1));
    } else {
      FirstGroup(b);
    }
  }

  lemma FirstGroup(b: seq<byte>)
    requires b != []
    ensures SameBits(b, 0, Sextets(b), 0)
  {
    hide Group1, Group2, Group3, Group4;
    GroupIsBits(b[0], At(b, 1), At(b, 2));
  }

  lemma GroupIsBits(x: byte, y: byte, z: byte)
    ensures ((Group1(x) * 64 + Group2(x, y)) * 64 + Group3(y, z)) * 64 + Group4(z) == x * 65536 + y * 256 + z
    ensures Group3(0, 0) == 0 && Group4(0) == 0
  {
    BitsRegrouped(x / 4, x % 4, y / 16, y % 16, z / 64, z % 64);
  }

  lemma BitsRegrouped(a: int, p: int, b: int, q: int, c: int, d: int)
    ensures ((a * 64 + (p * 16 + b)) * 64 + (q * 4 + c)) * 64 + d
         == (a * 4 + p) * 65536 + (b * 16 + q) * 256 + (c * 64 + d)
  {}

  lemma GroupRoundTrip(x: byte, y: byte, z: byte)
    ensures Octet1(Group1(x), Group2(x, y)) == x
    ensures Octet2(Group2(x, y), Group3(y, z)) == y
    ensures Octet3(Group3(y, z), Group4(z)) == z
  {}

  lemma {:induction false} OctetsOfSextets(b: seq<byte>)
    ensures Octets(Sextets(b)) == Some(b)
  {
    hide Octet1, Octet2, Octet3, Group1, Group2, Group3, Group4;
    if |b| == 1 {
      GroupRoundTrip(b[0], 0, 0);
      assert b == [b[0]];
    } else if |b| == 2 {
      GroupRoundTrip(b[0], b[1], 0);
      assert b == [b[0], b[1]];
    } else if |b| >= 3 {
      GroupRoundTrip(b[0], b[1], b[2]);
      OctetsOfSextets(b[3..]);
      assert Sextets(b)[4..] == Sextets(b[3..]);
      assert b == [b[0], b[1], b[2]] + b[3..];
    }
  }

  lemma DecodeEncode(b: seq<byte>)
    ensures AllInAlphabet(EncodeToString(b)) && DecodeString(EncodeToString(b)) == Some(b)
  {
    var v := Sextets(b);
    forall i | 0 <= i < |v| ensures InAlphabet(Letter(v[i])) && Value(Letter(v[i])) == v[i] { LetterValue(v[i]); }
    assert Values(Letters(v)) == v;
    OctetsOfSextets(b);
  }

  lemma {:induction false} SextetsLength(b: seq<byte>)
    ensures |Sextets(b)| == (|b| * 4 + 2) / 3
  {
    hide Group1, Group2, Group3, Group4;
    if |b| >= 3 { SextetsLength(b[3..]); }
  }

  lemma ThreeQuarters(m: nat)
    ensures (m + 4) % 4 == m % 4 && (m + 4) * 3 / 4 == m * 3 / 4 + 3
  {}

  lemma {:induction false} OctetsLength(v: seq<sextet>)
    ensures Octets(v) == None <==> |v| % 4 == 1
    ensures Octets(v).Some? ==> |Octets(v).value| == |v| * 3 / 4
  {
    hide Octet1, Octet2, Octet3;
    if |v| >= 4 {
      var m := |v| - 4;
      OctetsLength(v[4..]);
      ThreeQuarters(m);
    }
  }

  /** The bytes determine the groups, but for the two low bits of a third group without a fourth. */
  lemma GroupInjective(a: sextet, b: sextet, c: sextet, d: sextet, a': sextet, b': sextet, c': sextet, d': sextet)
    ensures Octet1(a, b) == Octet1(a', b') && Octet2(b, c) == Octet2(b', c') <==> a == a' && b == b' && c / 4 == c' / 4
    ensures Octet1(a, b) == Octet1(a', b') && Octet2(b, c) == Octet2(b', c') && Octet3(c, d) == Octet3(c', d')
       <==> a == a' && b == b' && c == c' && d == d'
  {
    hide Octet1, Octet2, Octet3;
    Octet1Injective(a, b, a', b');
    Octet2Injective(b, c, b', c');
    Octet3Injective(c, d, c', d');
  }

  lemma Octet1Injective(a: sextet, b: sextet, a': sextet, b': sextet)
    ensures Octet1(a, b) == Octet1(a', b') <==> a == a' && b / 16 == b' / 16
  {}

  lemma Octet2Injective(b: sextet, c: sextet, b': sextet, c': sextet)
    ensures Octet2(b, c) == Octet2(b', c') <==> b % 16 == b' % 16 && c / 4 == c' / 4
  {}

  lemma Octet3Injective(c: sextet, d: sextet, c': sextet, d': sextet)
    ensures Octet3(c, d) == Octet3(c', d') <==> c % 4 == c' % 4 && d == d'
  {}

  lemma SameConcat<T>(a: seq<T>, x: seq<T>, b: seq<T>, y: seq<T>)
    requires |a| == |b|
    ensures a + x == b + y <==> a == b && x == y
  {
    if a + x == b + y {
      assert a == (a + x)[..|a|] && b == (b + y)[..|a|];
      assert x == (a + x)[|a|..] && y == (b + y)[|a|..];
    }
  }

  lemma SameThree<T>(a: T, b: T, c: T, a': T, b': T, c': T)
    ensures [a, b, c] == [a', b', c'] <==> a == a' && b == b' && c == c'
  {
    assert [a, b, c][0] == a && [a, b, c][1] == b && [a, b, c][2] == c;
    assert [a', b', c'][0] == a' && [a', b', c'][1] == b' && [a', b', c'][2] == c';
  }

  lemma SameFour<T>(a: seq<T>, b: seq<T>)
    requires |a| == |b| == 4
    ensures a == b <==> a[0] == b[0] && a[1] == b[1] && a[2] == b[2] && a[3] == b[3]
  {}

  /** One group of four, and then the rest. */
  lemma OctetsStep(v: seq<sextet>, w: seq<sextet>)
    requires |v| == |w| >= 4 && Octets(v[4..]).Some? && Octets(w[4..]).Some?
    ensures Octets(v) == Octets(w) <==> v[..4] == w[..4] && Octets(v[4..]) == Octets(w[4..])
  {
    hide Octet1, Octet2, Octet3;
    GroupInjective(v[0], v[1], v[2], v[3], w[0], w[1], w[2], w[3]);
    var p := [Octet1(v[0], v[1]), Octet2(v[1], v[2]), Octet3(v[2], v[3])];
    var q := [Octet1(w[0], w[1]), Octet2(w[1], w[2]), Octet3(w[2], w[3])];
    SameThree(p[0], p[1], p[2], q[0], q[1], q[2]);
    SameConcat(p, Octets(v[4..]).value, q, Octets(w[4..]).value);
    SameFour(v[..4], w[..4]);
  }

  /** Two inputs with three groups left over decode alike exactly when they differ at most in the
    * two low bits of the last group. */
  lemma {:induction false} SameOctets(v: seq<sextet>, w: seq<sextet>)
    requires |v| == |w| && |v| % 4 == 3
    ensures Octets(v) == Octets(w) <==> v[..|v| - 1] == w[..|w| - 1] && v[|v| - 1] / 4 == w[|w| - 1] / 4
  {
    hide Octet1, Octet2, Octet3;
    if |v| == 3 {
      GroupInjective(v[0], v[1], v[2], 0, w[0], w[1], w[2], 0);
      SameThree(Octet1(v[0], v[1]), Octet2(v[1], v[2]), 0, Octet1(w[0], w[1]), Octet2(w[1], w[2]), 0);
      assert v[..2] == [v[0], v[1]] && w[..2] == [w[0], w[1]];
      assert Octets(v).value[0] == Octet1(v[0], v[1]) && Octets(v).value[1] == Octet2(v[1], v[2]);
      assert Octets(w).value[0] == Octet1(w[0], w[1]) && Octets(w).value[1] == Octet2(w[1], w[2]);
      assert v[..2] == w[..2] <==> v[0] == w[0] && v[1] == w[1];
    } else {
      var v', w' := v[4..], w[4..];
      SameOctets(v', w');
      OctetsLength(v');
      OctetsLength(w');
      OctetsStep(v, w);
      assert v[..|v| - 1] == v[..4] + v'[..|v'| - 1] && w[..|w| - 1] == w[..4] + w'[..|w'| - 1];
      SameConcat(v[..4], v'[..|v'| - 1], w[..4], w'[..|w'| - 1]);
    }
  }
}
