/** The key file format of internal/identity: ParseKey and its printer Encode. */
module KeyFile {
  import opened Base64
  import opened Basics

  const KEY_LEN := 32

  datatype Error =
    | Empty | InteriorNewline | Whitespace | InteriorWhitespace | Padded | NotBase64 | WrongLength(n: nat)

  datatype Parsed = Ok(key: seq<byte>) | Err(error: Error)

  const LF: byte := 10
  const CR: byte := 13
  const PAD: byte := 61

  predicate IsSpace(b: byte) { b == 32 || b == 9 || b == CR || b == LF || b == 11 || b == 12 }

  predicate ContainsSpace(s: seq<byte>) { exists i | 0 <= i < |s| :: IsSpace(s[i]) }

  predicate HasPadding(s: seq<byte>) { |s| > 0 && s[|s| - 1] == PAD }

  /** One optional trailing newline, with an optional carriage return before it. */
  function Body(raw: seq<byte>): seq<byte> {
    if raw == [] || raw[|raw| - 1] != LF then raw
    else
      var b := raw[..|raw| - 1];
      if b != [] && b[|b| - 1] == CR then b[..|b| - 1] else b
  }

  function ParseBody(body: seq<byte>): Parsed {
    if body == [] then Err(Empty)
    else if LF in body then Err(InteriorNewline)
    else if IsSpace(body[0]) || IsSpace(body[|body| - 1]) then Err(Whitespace)
    else if ContainsSpace(body) then Err(InteriorWhitespace)
    else if HasPadding(body) then Err(Padded)
    else match DecodeString(body)
      case None => Err(NotBase64)
      case Some(dec) => if |dec| != KEY_LEN then Err(WrongLength(|dec|)) else Ok(dec)
  }

  function ParseKey(raw: seq<byte>): Parsed {
    if raw == [] then Err(Empty) else ParseBody(Body(raw))
  }

  function Encode(key: seq<byte>): seq<byte>
    requires |key| == KEY_LEN
  {
    EncodeToString(key) + [LF]
  }

  // ---------------------------------------------------------------- the language of key files

  /** 43 characters of the base64 alphabet. */
  ghost predicate IsBody(s: seq<byte>) { |s| == 43 && AllInAlphabet(s) }

  lemma BodyHasNoSpace(s: seq<byte>)
    requires IsBody(s)
    ensures LF !in s && !ContainsSpace(s) && !HasPadding(s) && !IsSpace(s[0]) && !IsSpace(s[|s| - 1])
  {}

  lemma ParseBodyIff(s: seq<byte>)
    ensures ParseBody(s).Ok? <==> IsBody(s)
    ensures IsBody(s) ==> Octets(Values(s)) == Some(ParseBody(s).key)
  {
    if AllInAlphabet(s) { OctetsLength(Values(s)); }
    if IsBody(s) { BodyHasNoSpace(s); }
  }

  lemma BodyOf(body: seq<byte>)
    requires IsBody(body)
    ensures Body(body) == body && Body(body + [LF]) == body && Body(body + [CR, LF]) == body
  {
    assert (body + [LF])[..43] == body;
    assert (body + [CR, LF])[..44] == body + [CR] && (body + [CR])[..43] == body;
  }

  /** A key file is a body with nothing, a newline, or a carriage return and a newline after it. */
  lemma AcceptedIff(raw: seq<byte>)
    ensures ParseKey(raw).Ok? <==>
              exists body | IsBody(body) :: raw == body || raw == body + [LF] || raw == body + [CR, LF]
  {
    var body := Body(raw);
    if ParseKey(raw).Ok? {
      ParseBodyIff(body);
      if raw[|raw| - 1] == LF {
        var b := raw[..|raw| - 1];
        assert raw == b + [LF];
        if b != [] && b[|b| - 1] == CR { assert raw == body + [CR, LF]; }
      }
    }
    if body' :| IsBody(body') && (raw == body' || raw == body' + [LF] || raw == body' + [CR, LF]) {
      BodyOf(body');
      ParseBodyIff(body');
    }
  }

  /** Every 32-byte key survives being written and read. */
  lemma RoundTrip(key: seq<byte>)
    requires |key| == KEY_LEN
    ensures ParseKey(Encode(key)) == Ok(key)
  {
    var body := EncodeToString(key);
    EncodedKey(key);
    BodyOf(body);
    ParsesBack(body, key);
  }

  /** Two bodies hold the same key exactly when they agree in the first 42 characters and in the
    * four high bits of the last: the decoder is not strict about the two low bits. */
  lemma SameKeyIff(a: seq<byte>, b: seq<byte>)
    requires IsBody(a) && IsBody(b)
    ensures ParseKey(a) == ParseKey(b) <==> a[..42] == b[..42] && Value(a[42]) / 4 == Value(b[42]) / 4
  {
    var v, w := Values(a), Values(b);
    BodyOf(a);
    BodyOf(b);
    ParseBodyIff(a);
    ParseBodyIff(b);
    SameOctets(v, w);
    forall i | 0 <= i < 42 ensures v[..42][i] == w[..42][i] <==> a[..42][i] == b[..42][i] {
      ValueInjective(a[i], b[i]);
    }
    assert v[..42] == w[..42] <==> a[..42] == b[..42] by {
      if v[..42] == w[..42] { assert forall i | 0 <= i < 42 :: a[..42][i] == b[..42][i]; }
      if a[..42] == b[..42] { assert forall i | 0 <= i < 42 :: v[..42][i] == w[..42][i]; }
    }
  }

  lemma ValueInjective(x: byte, y: byte)
    requires InAlphabet(x) && InAlphabet(y)
    ensures Value(x) == Value(y) <==> x == y
  {}

  lemma EncodedKey(key: seq<byte>)
    requires |key| == KEY_LEN
    ensures IsBody(EncodeToString(key)) && DecodeString(EncodeToString(key)) == Some(key)
    ensures Value(EncodeToString(key)[42]) % 4 == 0
  {
    DecodeEncode(key);
    SextetsLength(key);
    LastSextet(key);
    LetterValue(Sextets(key)[42]);
  }

  /** Of the bodies of a key Encode writes the one whose low bits are zero. */
  lemma CanonicalBody(body: seq<byte>, key: seq<byte>)
    requires ParseBody(body) == Ok(key)
    ensures |key| == KEY_LEN && |body| == 43 && InAlphabet(body[42])
    ensures EncodeToString(key) == body <==> Value(body[42]) % 4 == 0
    ensures |EncodeToString(key)| == 43 && EncodeToString(key)[..42] == body[..42]
  {
    hide EncodeToString, DecodeString, ParseBody;
    KeyLength(body, key);
    var canonical := EncodeToString(key);
    EncodedKey(key);
    ParseBodyIff(body);
    ParsesBack(canonical, key);
    BodyOf(body);
    BodyOf(canonical);
    SameKeyIff(canonical, body);
    ValueInjective(canonical[42], body[42]);
    assert canonical == canonical[..42] + [canonical[42]] && body == body[..42] + [body[42]];
  }

  /** The body with i in the two ignored bits of its last character. */
  ghost function Variant(body: seq<byte>, i: nat): (r: seq<byte>)
    requires IsBody(body) && i < 4
    ensures |r| == 43
  {
    body[..42] + [Letter(Value(body[42]) / 4 * 4 + i)]
  }

  lemma VariantFacts(body: seq<byte>, i: nat)
    requires IsBody(body) && i < 4
    ensures var b := Variant(body, i); IsBody(b) && b[..42] == body[..42] && Value(b[42]) == Value(body[42]) / 4 * 4 + i
  {
    LetterValue(Value(body[42]) / 4 * 4 + i);
  }

  /** With the canonical one every key has exactly four bodies: the variants of any of them. */
  lemma FourBodies(key: seq<byte>, body: seq<byte>, other: seq<byte>)
    requires IsBody(body) && ParseBody(body) == Ok(key)
    ensures ParseBody(other) == Ok(key) <==> exists i: nat | i < 4 :: other == Variant(body, i)
    ensures forall i: nat, k: nat | i < k < 4 :: Variant(body, i) != Variant(body, k)
  {
    hide ParseBody, AllInAlphabet, Letter, Value, Variant;
    BodyOf(body);
    forall i: nat | i < 4 ensures ParseBody(Variant(body, i)) == Ok(key) { SameParse(body, Variant(body, i), i); }
    forall i: nat, k: nat | i < k < 4 ensures Variant(body, i) != Variant(body, k) {
      VariantFacts(body, i);
      VariantFacts(body, k);
    }
    if ParseBody(other) == Ok(key) {
      ParseBodyIff(other);
      VariantOf(key, body, other);
    }
  }

  lemma SameParse(body: seq<byte>, other: seq<byte>, i: nat)
    requires IsBody(body) && i < 4 && other == Variant(body, i)
    ensures ParseBody(other) == ParseBody(body)
  {
    hide ParseBody, Letter, Value, Variant;
    VariantFacts(body, i);
    BodyOf(body);
    BodyOf(other);
    SameKeyIff(body, other);
  }

  lemma VariantOf(key: seq<byte>, body: seq<byte>, other: seq<byte>)
    requires IsBody(body) && IsBody(other) && ParseBody(body) == ParseBody(other) == Ok(key)
    ensures exists i: nat | i < 4 :: other == Variant(body, i)
  {
    hide ParseBody, Letter, Value, Variant;
    BodyOf(body);
    BodyOf(other);
    SameKeyIff(body, other);
    var i := Value(other[42]) % 4;
    VariantFacts(body, i);
    ValueInjective(Variant(body, i)[42], other[42]);
    var b := Variant(body, i);
    assert b == b[..42] + [b[42]] && other == other[..42] + [other[42]];
  }

  /** A key file is the letters of the key's 43 sextets, in order, and a line feed. */
  lemma EncodedFile(key: seq<byte>, i: nat)
    requires |key| == KEY_LEN && i < 43
    ensures var file := Encode(key);
            |Sextets(key)| == 43 && |file| == 44 && file[43] == 10 && file[i] == ALPHABET[Sextets(key)[i]] as int
  {
    hide ALPHABET;
    SextetsLength(key);
    LetterOfTable(Sextets(key)[i]);
  }

  lemma KeyLength(body: seq<byte>, key: seq<byte>)
    requires ParseBody(body) == Ok(key)
    ensures |key| == KEY_LEN
  {}

  lemma ParsesBack(body: seq<byte>, key: seq<byte>)
    requires IsBody(body) && DecodeString(body) == Some(key)
    ensures ParseBody(body) == Ok(key)
  {
    ParseBodyIff(body);
  }

  lemma {:induction false} LastSextet(b: seq<byte>)
    requires |b| % 3 == 2
    ensures var v := Sextets(b); |v| > 0 && v[|v| - 1] % 4 == 0
  {
    if |b| > 2 { LastSextet(b[3..]); }
  }

  /** The padded encoding of any key, with or without a line end, is refused as padded. */
  lemma PaddedIsRefused(key: seq<byte>, end: seq<byte>)
    requires |key| == KEY_LEN && (end == [] || end == [LF] || end == [CR, LF])
    ensures ParseKey(EncodeToString(key) + [PAD] + end) == Err(Padded)
  {
    hide EncodeToString, DecodeString, AllInAlphabet;
    var s := EncodeToString(key);
    var body := s + [PAD];
    EncodedKey(key);
    assert Body(body + end) == body by {
      assert body + [] == body;
      assert (body + [LF])[..44] == body;
      assert (body + [CR, LF])[..45] == body + [CR] && (body + [CR])[..44] == body;
    }
    AlphabetHasNoSpace(s);
  }

  lemma AlphabetHasNoSpace(s: seq<byte>)
    requires AllInAlphabet(s)
    ensures forall i | 0 <= i < |s| :: !IsSpace(s[i])
  {}

  // ---------------------------------------------------------------- refusals

  /** Space, tab, carriage return, line feed, vertical tab, form feed. */
  const SPACES: seq<byte> := [32, 9, 13, 10, 11, 12]

  lemma SpaceIs(b: byte)
    ensures IsSpace(b) <==> b in SPACES
  {}

  /** What follows the body: nothing, LF, or CRLF. */
  function Ending(raw: seq<byte>): (end: seq<byte>)
    ensures end in [[], [LF], [CR, LF]]
  {
    match |raw| - |Body(raw)|
    case 0 => []
    case 1 => [LF]
    case _ => [CR, LF]
  }

  /** The body is the file without one line end, LF or CRLF, if it has one. */
  lemma BodyIs(raw: seq<byte>)
    ensures raw == Body(raw) + Ending(raw)
    ensures Ending(raw) == [] <==> raw == [] || raw[|raw| - 1] != LF
    ensures Ending(raw) == [LF] ==> Body(raw) == [] || Body(raw)[|Body(raw)| - 1] != CR
  {
    if raw != [] && raw[|raw| - 1] == LF {
      var b := raw[..|raw| - 1];
      assert raw == b + [LF];
      if b != [] && b[|b| - 1] == CR { assert b == b[..|b| - 1] + [CR]; }
    }
  }

  ghost predicate Spaceless(s: seq<byte>) { forall b <- s :: b !in SPACES }

  ghost predicate SpaceAtEnd(s: seq<byte>) { s != [] && (s[0] in SPACES || s[|s| - 1] in SPACES) }

  ghost predicate PadAtEnd(s: seq<byte>) { s != [] && s[|s| - 1] == PAD }

  /** Exactly when a file is refused, and for what: the first of these that applies to its body. */
  lemma ErrorMeans(raw: seq<byte>)
    ensures var body, r := Body(raw), ParseKey(raw);
            && (r == Err(Empty) <==> body == [])
            && (r == Err(InteriorNewline) <==> LF in body)
            && (r == Err(Whitespace) <==> LF !in body && SpaceAtEnd(body))
            && (r == Err(InteriorWhitespace) <==> LF !in body && !SpaceAtEnd(body) && !Spaceless(body))
            && (r == Err(Padded) <==> Spaceless(body) && PadAtEnd(body))
            && (r == Err(NotBase64) <==>
                  Spaceless(body) && !PadAtEnd(body) && (!AllInAlphabet(body) || |body| % 4 == 1))
            && (forall n :: r == Err(WrongLength(n)) <==>
                  AllInAlphabet(body) && body != [] && |body| % 4 != 1 && |body| != 43 && n == |body| * 3 / 4)
  {
    hide DecodeString, AllInAlphabet, Spaceless, SpaceAtEnd, PadAtEnd, IsSpace, ContainsSpace;
    var body := Body(raw);
    assert ParseKey(raw) == ParseBody(body);
    SpacesMean(body);
    if AllInAlphabet(body) { Clean(body); }
    NothingInAlphabet();
    Decoded(body);
  }

  lemma NothingInAlphabet()
    ensures AllInAlphabet([])
  {}

  lemma SpacesMean(s: seq<byte>)
    ensures ContainsSpace(s) <==> !Spaceless(s)
    ensures s != [] ==> (IsSpace(s[0]) || IsSpace(s[|s| - 1]) <==> SpaceAtEnd(s))
    ensures HasPadding(s) <==> PadAtEnd(s)
    ensures Spaceless(s) ==> LF !in s && !SpaceAtEnd(s)
    ensures s == [] ==> Spaceless(s) && !SpaceAtEnd(s) && !PadAtEnd(s)
  {
    hide IsSpace;
    forall b: byte ensures IsSpace(b) <==> b in SPACES { SpaceIs(b); }
    assert LF in SPACES;
  }

  lemma Clean(body: seq<byte>)
    requires AllInAlphabet(body)
    ensures Spaceless(body) && !PadAtEnd(body)
  {}

  lemma Decoded(body: seq<byte>)
    ensures DecodeString(body) == None <==> !AllInAlphabet(body) || |body| % 4 == 1
    ensures DecodeString(body).Some? ==> |DecodeString(body).value| == |body| * 3 / 4
  {
    if AllInAlphabet(body) { OctetsLength(Values(body)); }
  }
}
