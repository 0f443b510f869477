/**
 `base64.h`: the table-driven encoder and decoder of section 4 of RFC 4648, on a little-endian
 machine. The tables are given by the rule that their entries follow.
 */
module Base64 {
  import opened Bytes

  type octet = bv8
  type octets = seq<octet>

  const PADDING: octet := 0x3D
  const BAD_CHAR: bv32 := 0x01FF_FFFF

  // ---------------------------------------------------------------- tables

  /** The alphabet of section 4 of RFC 4648. */
  function Letter(v: octet): octet {
    if v < 26 then v + 65
    else if v < 52 then v + 71
    else if v < 62 then v - 4
    else if v == 62 then 0x2B
    else 0x2F
  }

  predicate InAlphabet(c: octet) {
    65 <= c <= 90 || 97 <= c <= 122 || 48 <= c <= 57 || c == 0x2B || c == 0x2F
  }

  function Sextet(c: octet): (v: octet)
    requires InAlphabet(c)
    ensures v < 64
  {
    if 65 <= c <= 90 then c - 65
    else if 97 <= c <= 122 then c - 71
    else if 48 <= c <= 57 then c + 4
    else if c == 0x2B then 62
    else 63
  }

  function EncodeTable0(t: octet): octet {
    Letter(t >> 2)
  }

  function EncodeTable1(t: octet): octet {
    Letter(t & 0x3F)
  }

  function DecodeTable0(c: octet): bv32 {
    if InAlphabet(c) then (Sextet(c) as bv32) << 2 else BAD_CHAR
  }

  function DecodeTable1(c: octet): bv32 {
    if InAlphabet(c) then ((Sextet(c) as bv32) >> 4) | (((Sextet(c) as bv32) & 0x0F) << 12) else BAD_CHAR
  }

  function DecodeTable2(c: octet): bv32 {
    if InAlphabet(c) then (((Sextet(c) as bv32) >> 2) << 8) | (((Sextet(c) as bv32) & 0x03) << 22) else BAD_CHAR
  }

  function DecodeTable3(c: octet): bv32 {
    if InAlphabet(c) then (Sextet(c) as bv32) << 16 else BAD_CHAR
  }

  /** `bit_cast` of a word to bytes, on a little-endian machine. */
  function Byte0(w: bv32): octet { (w & 0xFF) as octet }
  function Byte1(w: bv32): octet { ((w >> 8) & 0xFF) as octet }
  function Byte2(w: bv32): octet { ((w >> 16) & 0xFF) as octet }

  /** The alphabet and its inverse. */
  lemma LetterOfSextet(v: octet)
    requires v < 64
    ensures InAlphabet(Letter(v)) && Sextet(Letter(v)) == v
  {
  }

  lemma SextetOfLetter(c: octet)
    requires InAlphabet(c)
    ensures Letter(Sextet(c)) == c
  {
  }

  /** The word of four characters. */
  function Word4(c1: octet, c2: octet, c3: octet, c4: octet): bv32 {
    DecodeTable0(c1) | DecodeTable1(c2) | DecodeTable2(c3) | DecodeTable3(c4)
  }

  function Word3(c1: octet, c2: octet, c3: octet): bv32 {
    DecodeTable0(c1) | DecodeTable1(c2) | DecodeTable2(c3)
  }

  function Word2(c1: octet, c2: octet): bv32 {
    DecodeTable0(c1) | DecodeTable1(c2)
  }

  /** The single test on the OR of the table words finds a bad character exactly when there is one. */
  lemma SentinelFindsBadCharacter(c1: octet, c2: octet, c3: octet, c4: octet)
    ensures Word4(c1, c2, c3, c4) >= BAD_CHAR <==> !(InAlphabet(c1) && InAlphabet(c2) && InAlphabet(c3) && InAlphabet(c4))
    ensures Word3(c1, c2, c3) >= BAD_CHAR <==> !(InAlphabet(c1) && InAlphabet(c2) && InAlphabet(c3))
    ensures Word2(c1, c2) >= BAD_CHAR <==> !(InAlphabet(c1) && InAlphabet(c2))
  {
  }

  // Four sextets and the three bytes of the same 24-bit group, each from the other.

  function Octet1(v1: octet, v2: octet): octet { (v1 << 2) | (v2 >> 4) }
  function Octet2(v2: octet, v3: octet): octet { (v2 << 4) | (v3 >> 2) }
  function Octet3(v3: octet, v4: octet): octet { (v3 << 6) | v4 }

  function Sextet1(t1: octet): octet { t1 >> 2 }
  function Sextet2(t1: octet, t2: octet): octet { ((t1 & 0x03) << 4) | (t2 >> 4) }
  function Sextet3(t2: octet, t3: octet): octet { ((t2 & 0x0F) << 2) | (t3 >> 6) }
  function Sextet4(t3: octet): octet { t3 & 0x3F }

  /** Regrouping in both directions; the sextets that padding stands for are zero. */
  lemma Regroup(v1: octet, v2: octet, v3: octet, v4: octet)
    requires v1 < 64 && v2 < 64 && v3 < 64 && v4 < 64
    ensures var t1, t2, t3 := Octet1(v1, v2), Octet2(v2, v3), Octet3(v3, v4);
            && Sextet1(t1) == v1 && Sextet2(t1, t2) == v2 && Sextet3(t2, t3) == v3 && Sextet4(t3) == v4
            && (Sextet2(t1, 0) == v2 <==> v2 & 0x0F == 0)
            && (Sextet3(t2, 0) == v3 <==> v3 & 0x03 == 0)
  {
  }

  lemma RegroupOctets(t1: octet, t2: octet, t3: octet)
    ensures Sextet1(t1) < 64 && Sextet2(t1, t2) < 64 && Sextet3(t2, t3) < 64 && Sextet4(t3) < 64
    ensures Octet1(Sextet1(t1), Sextet2(t1, t2)) == t1
    ensures Octet2(Sextet2(t1, t2), Sextet3(t2, t3)) == t2
    ensures Octet3(Sextet3(t2, t3), Sextet4(t3)) == t3
  {
  }

  /** Otherwise the low bytes of the word are the 24-bit group of the sextets. */
  lemma WordIsGroup(c1: octet, c2: octet, c3: octet, c4: octet)
    requires InAlphabet(c1) && InAlphabet(c2) && InAlphabet(c3) && InAlphabet(c4)
    ensures var w := Word4(c1, c2, c3, c4);
            && Byte0(w) == Octet1(Sextet(c1), Sextet(c2))
            && Byte1(w) == Octet2(Sextet(c2), Sextet(c3))
            && Byte2(w) == Octet3(Sextet(c3), Sextet(c4))
  {
  }

  lemma ShortWordIsGroup(c1: octet, c2: octet, c3: octet)
    requires InAlphabet(c1) && InAlphabet(c2)
    ensures Byte0(Word2(c1, c2)) == Octet1(Sextet(c1), Sextet(c2))
    ensures InAlphabet(c3) ==> Byte0(Word3(c1, c2, c3)) == Octet1(Sextet(c1), Sextet(c2))
    ensures InAlphabet(c3) ==> Byte1(Word3(c1, c2, c3)) == Octet2(Sextet(c2), Sextet(c3))
  {
  }

  // ---------------------------------------------------------------- encoding

  function Quad(t1: octet, t2: octet, t3: octet): octets {
    [EncodeTable0(t1),
     EncodeTable1(((t1 & 0x03) << 4) | ((t2 >> 4) & 0x0F)),
     EncodeTable1(((t2 & 0x0F) << 2) | ((t3 >> 6) & 0x03)),
     EncodeTable1(t3)]
  }

  /** The last one or two bytes. */
  function Tail(x: octets): (r: octets)
    requires 1 <= |x| <= 2
    ensures |r| == 4
  {
    if |x| == 1 then
      [EncodeTable0(x[0]), EncodeTable1((x[0] & 0x03) << 4), PADDING, PADDING]
    else
      [EncodeTable0(x[0]), EncodeTable1(((x[0] & 0x03) << 4) | ((x[1] >> 4) & 0x0F)),
       EncodeTable1((x[1] & 0x0F) << 2), PADDING]
  }

  function Encode(x: octets): (r: octets)
    ensures |r| == (|x| + 2) / 3 * 4
  {
    if x == [] then []
    else if |x| < 3 then Tail(x)
    else Quad(x[0], x[1], x[2]) + Encode(x[3..])
  }

  /** An output buffer nothing has been written to. */
  ghost function Pads(n: nat): (r: octets)
    ensures |r| == n
    ensures forall k :: 0 <= k <= n ==> r[k..] == Pads(n - k)
  {
    seq(n, _ => PADDING)
  }

  /** Writes through the output pointer of the coder. */
  method Put(out: array<octet>, at: nat, x: octets)
    requires at + |x| <= out.Length
    modifies out
    ensures out[..at + |x|] == old(out[..at]) + x && out[at + |x|..] == old(out[at + |x|..])
  {
    forall k | 0 <= k < |x| {
      out[at + k] := x[k];
    }
  }

  /** `encode_into`: an output buffer of padding characters that is overwritten from the front. */
  method EncodeInto(x: octets) returns (encoded: array<octet>)
    ensures fresh(encoded) && encoded[..] == Encode(x)
  {
    hide Quad, EncodeTable0, EncodeTable1, Encode, Tail;
    var size := (|x| / 3 + (if |x| % 3 > 0 then 1 else 0)) * 4;
    encoded := new octet[size](_ => PADDING);
    assert encoded[..] == Pads(size);
    var full := |x| / 3;
    EncodeQuads(encoded, x, full);
    FinishEncoding(encoded, x[3 * full..], 4 * full);
  }

  /** The loop over whole groups of three bytes. */
  method EncodeQuads(encoded: array<octet>, x: octets, full: nat)
    requires 3 * full <= |x| && 4 * full <= encoded.Length && encoded[..] == Pads(encoded.Length)
    modifies encoded
    ensures encoded[..4 * full] + Encode(x[3 * full..]) == Encode(x)
    ensures encoded[4 * full..] == Pads(encoded.Length - 4 * full)
  {
    hide Quad, EncodeTable0, EncodeTable1, Encode, Tail;
    var i := 0;
    assert x[0..] == x && encoded[0..] == encoded[..];
    assert encoded[..0] + Encode(x) == Encode(x);
    while i < full
      invariant 0 <= i <= full
      invariant encoded[..4 * i] + Encode(x[3 * i..]) == Encode(x)
      invariant encoded[4 * i..] == Pads(encoded.Length - 4 * i)
    {
      var q := Quad(x[3 * i], x[3 * i + 1], x[3 * i + 2]);
      EncodeSplit(x, 3 * i);
      PutKeepsJoin(encoded[..4 * i], q, Encode(x[3 * i + 3..]));
      assert encoded[4 * i + 4..] == encoded[4 * i..][4..];
      Put(encoded, 4 * i, q);
      i := i + 1;
    }
  }

  lemma PutKeepsJoin(a: octets, b: octets, c: octets)
    ensures a + (b + c) == a + b + c
  {
  }

  /** The switch after the loop: the padding characters are already there. */
  method FinishEncoding(encoded: array<octet>, rest: octets, at: nat)
    requires |rest| < 3 && encoded.Length == at + (if rest == [] then 0 else 4)
    requires encoded[at..] == Pads(encoded.Length - at)
    modifies encoded
    ensures encoded[..] == old(encoded[..at]) + Encode(rest)
  {
    hide EncodeTable0, EncodeTable1;
    if rest != [] {
      var t := Tail(rest);
      assert encoded[at + |rest| + 1..] == encoded[at..][|rest| + 1..];
      Put(encoded, at, t[..|rest| + 1]);
      assert t[|rest| + 1..] == encoded[at + |rest| + 1..];
    }
  }

  lemma EncodeSplit(x: octets, i: nat)
    requires i + 3 <= |x|
    ensures Encode(x[i..]) == Quad(x[i], x[i + 1], x[i + 2]) + Encode(x[i + 3..])
    ensures |Quad(x[i], x[i + 1], x[i + 2])| == 4
  {
    hide EncodeTable0, EncodeTable1;
    assert x[i..][3..] == x[i + 3..];
  }

  // ---------------------------------------------------------------- decoding

  function Triple(w: bv32): (r: octets)
    ensures |r| == 3
  {
    [Byte0(w), Byte1(w), Byte2(w)]
  }

  /** One turn of the loop: four characters to three bytes. */
  function DecodeQuad(s: octets): (r: Option<octets>)
    requires |s| == 4
    ensures r.Some? ==> |r.value| == 3
  {
    var w := Word4(s[0], s[1], s[2], s[3]);
    if w >= BAD_CHAR then None else Some(Triple(w))
  }

  function DecodeQuads(s: octets): (r: Option<octets>)
    requires |s| % 4 == 0
    ensures r.Some? ==> |r.value| == |s| / 4 * 3
  {
    if s == [] then Some([]) else
      var first, rest := DecodeQuad(s[..4]), DecodeQuads(s[4..]);
      if first.None? || rest.None? then None else Some(first.value + rest.value)
  }

  /** The characters before the padding. */
  function DecodeTail(s: octets, padding: nat): (r: Option<octets>)
    requires |s| == 4 && 1 <= padding <= 2
    ensures r.Some? ==> |r.value| == 3 - padding
  {
    if padding == 1 then
      var w := Word3(s[0], s[1], s[2]);
      if w >= BAD_CHAR then None else Some([Byte0(w), Byte1(w)])
    else
      var w := Word2(s[0], s[1]);
      if w >= BAD_CHAR then None else Some([Byte0(w)])
  }

  /** `std::count` of padding characters. */
  function CountPadding(s: octets): nat {
    if s == [] then 0 else (if s[0] == PADDING then 1 else 0) + CountPadding(s[1..])
  }

  /** `decode_into`; nothing when it throws. */
  function Decode(s: octets): Option<octets> {
    if s == [] then Some([])
    else if |s| % 4 != 0 then None
    else
      var cut := |s| - 4;
      var padding := CountPadding(s[cut..]);
      if padding > 2 then None
      else if padding == 0 then DecodeQuads(s)
      else
        var body, tail := DecodeQuads(s[..cut]), DecodeTail(s[cut..], padding);
        if body.None? || tail.None? then None else Some(body.value + tail.value)
  }

  /** `decode_into`: an output buffer of the computed size that is filled from the front. */
  method DecodeInto(s: octets) returns (decoded: Option<array<octet>>)
    ensures decoded.Some? <==> Decode(s).Some?
    ensures decoded.Some? ==> fresh(decoded.value) && decoded.value[..] == Decode(s).value
  {
    hide DecodeQuads, DecodeTail, CountPadding, DecodeQuad;
    if s == [] {
      var none := new octet[0];
      assert none[..] == [];
      return Some(none);
    }
    if |s| % 4 != 0 {
      return None;
    }
    var padding := CountPadding(s[|s| - 4..]);
    if padding > 2 {
      return None;
    }
    var out := new octet[|s| * 3 / 4 - padding](_ => 46);
    var full := |s| / 4 - (if padding != 0 then 1 else 0);
    var ok := DecodeFull(out, s, full);
    if !ok {
      assert padding == 0 ==> s[..4 * full] == s;
      return None;
    }
    if padding == 0 {
      assert s[..4 * full] == s && out[..3 * full] == out[..];
      return Some(out);
    }
    var tail := DecodeTail(s[4 * full..], padding);
    if tail.None? {
      return None;
    }
    Put(out, 3 * full, tail.value);
    assert out[..3 * full + |tail.value|] == out[..];
    return Some(out);
  }

  /** The loop over whole groups of four characters. */
  method DecodeFull(out: array<octet>, s: octets, full: nat) returns (ok: bool)
    requires 4 * full <= |s| && 3 * full <= out.Length
    modifies out
    ensures ok <==> DecodeQuads(s[..4 * full]).Some?
    ensures ok ==> DecodeQuads(s[..4 * full]) == Some(out[..3 * full])
  {
    hide DecodeQuads, DecodeQuad;
    NoQuads();
    var i := 0;
    assert s[..0] == [] && out[..0] == [];
    while i < full
      invariant 0 <= i <= full
      invariant DecodeQuads(s[..4 * i]) == Some(out[..3 * i])
    {
      var bytes := DecodeQuad(s[4 * i..4 * i + 4]);
      assert s[..4 * i] + s[4 * i..4 * i + 4] == s[..4 * (i + 1)];
      QuadsExtend(s[..4 * i], s[4 * i..4 * i + 4], s[..4 * (i + 1)]);
      if bytes.None? {
        QuadsAppend(s[..4 * (i + 1)], s[4 * i + 4..4 * full]);
        assert s[..4 * (i + 1)] + s[4 * i + 4..4 * full] == s[..4 * full];
        return false;
      }
      Put(out, 3 * i, bytes.value);
      i := i + 1;
    }
    return true;
  }

  lemma NoQuads()
    ensures DecodeQuads([]) == Some([])
  {
  }

  /** Decoding one group more. */
  lemma QuadsExtend(a: octets, quad: octets, all: octets)
    requires |a| % 4 == 0 && |quad| == 4 && |all| % 4 == 0 && all == a + quad
    ensures DecodeQuads(all) == Join(DecodeQuads(a), DecodeQuad(quad))
  {
    hide DecodeQuad, DecodeQuads;
    QuadsAppend(a, quad);
    OneQuad(quad);
  }

  lemma OneQuad(s: octets)
    requires |s| == 4
    ensures DecodeQuads(s) == DecodeQuad(s)
  {
    hide DecodeQuad;
    assert s[..4] == s && s[4..] == [];
    assert DecodeQuads(s[4..]) == Some([]);
    if DecodeQuad(s).Some? {
      var v := DecodeQuad(s).value;
      assert DecodeQuads(s) == Some(v + []);
      assert v + [] == v;
    }
  }

  lemma {:induction false} QuadsAppend(a: octets, b: octets)
    requires |a| % 4 == 0 && |b| % 4 == 0
    ensures DecodeQuads(a + b) ==
            if DecodeQuads(a).None? || DecodeQuads(b).None? then None
            else Some(DecodeQuads(a).value + DecodeQuads(b).value)
    decreases |a|
  {
    hide DecodeQuad;
    if a == [] {
      assert a + b == b;
      if DecodeQuads(b).Some? {
        assert [] + DecodeQuads(b).value == DecodeQuads(b).value;
      }
    } else {
      assert (a + b)[..4] == a[..4] && (a + b)[4..] == a[4..] + b;
      QuadsAppend(a[4..], b);
      if DecodeQuads(a).Some? && DecodeQuads(b).Some? {
        PutKeepsJoin(DecodeQuad(a[..4]).value, DecodeQuads(a[4..]).value, DecodeQuads(b).value);
      }
    }
  }

  // ---------------------------------------------------------------- round trip

  lemma QuadIsLetters(t1: octet, t2: octet, t3: octet)
    ensures Quad(t1, t2, t3)
         == [Letter(Sextet1(t1)), Letter(Sextet2(t1, t2)), Letter(Sextet3(t2, t3)), Letter(Sextet4(t3))]
  {
    hide Letter;
    assert (((t1 & 0x03) << 4) | ((t2 >> 4) & 0x0F)) & 0x3F == Sextet2(t1, t2);
    assert (((t2 & 0x0F) << 2) | ((t3 >> 6) & 0x03)) & 0x3F == Sextet3(t2, t3);
  }

  lemma TailIsLetters(x: octets)
    requires 1 <= |x| <= 2
    ensures Tail(x) ==
            if |x| == 1 then [Letter(Sextet1(x[0])), Letter(Sextet2(x[0], 0)), PADDING, PADDING]
            else [Letter(Sextet1(x[0])), Letter(Sextet2(x[0], x[1])), Letter(Sextet3(x[1], 0)), PADDING]
  {
    hide Letter;
    var t1, t2 := x[0], if |x| == 2 then x[1] else 0;
    assert ((t1 & 0x03) << 4) & 0x3F == Sextet2(t1, 0);
    assert (((t1 & 0x03) << 4) | ((t2 >> 4) & 0x0F)) & 0x3F == Sextet2(t1, t2);
    assert ((t2 & 0x0F) << 2) & 0x3F == Sextet3(t2, 0);
  }

  lemma QuadIsOctets(s: octets)
    requires |s| == 4
    ensures DecodeQuad(s) ==
            if Letters(s) then
              var v1, v2, v3, v4 := Sextet(s[0]), Sextet(s[1]), Sextet(s[2]), Sextet(s[3]);
              Some([Octet1(v1, v2), Octet2(v2, v3), Octet3(v3, v4)])
            else None
  {
    hide InAlphabet, Sextet, Word4, Byte0, Byte1, Byte2, Octet1, Octet2, Octet3;
    SentinelFindsBadCharacter(s[0], s[1], s[2], s[3]);
    if Letters(s) {
      WordIsGroup(s[0], s[1], s[2], s[3]);
    }
  }

  lemma TailIsOctets(s: octets, padding: nat)
    requires |s| == 4 && 1 <= padding <= 2
    ensures DecodeTail(s, padding) ==
            if !Letters(s[..4 - padding]) then None
            else
              assert InAlphabet(s[..4 - padding][0]) && InAlphabet(s[..4 - padding][1]);
              if padding == 2 then Some([Octet1(Sextet(s[0]), Sextet(s[1]))])
              else
                assert InAlphabet(s[..3][2]);
                Some([Octet1(Sextet(s[0]), Sextet(s[1])), Octet2(Sextet(s[1]), Sextet(s[2]))])
  {
    hide InAlphabet, Sextet, Word2, Word3, Byte0, Byte1, Octet1, Octet2;
    SentinelFindsBadCharacter(s[0], s[1], s[2], s[3]);
    assert forall i :: 0 <= i < 4 - padding ==> s[..4 - padding][i] == s[i];
    if Letters(s[..4 - padding]) {
      ShortWordIsGroup(s[0], s[1], s[2]);
    }
  }

  predicate Letters(s: octets) {
    forall i :: 0 <= i < |s| ==> InAlphabet(s[i])
  }

  lemma QuadDecodes(t1: octet, t2: octet, t3: octet)
    ensures |Quad(t1, t2, t3)| == 4 && DecodeQuad(Quad(t1, t2, t3)) == Some([t1, t2, t3])
  {
    hide Quad, DecodeQuad, Letter, InAlphabet, Sextet, Sextet1, Sextet2, Sextet3, Sextet4, Octet1, Octet2, Octet3;
    QuadIsLetters(t1, t2, t3);
    RegroupOctets(t1, t2, t3);
    LetterOfSextet(Sextet1(t1));
    LetterOfSextet(Sextet2(t1, t2));
    LetterOfSextet(Sextet3(t2, t3));
    LetterOfSextet(Sextet4(t3));
    QuadIsOctets(Quad(t1, t2, t3));
  }

  lemma LettersAreNoPadding(v: octet)
    requires v < 64
    ensures Letter(v) != PADDING
  {
  }

  lemma TailDecodes(x: octets)
    requires 1 <= |x| <= 2
    ensures CountPadding(Tail(x)) == 3 - |x| && DecodeTail(Tail(x), 3 - |x|) == Some(x)
  {
    hide Tail, DecodeTail, Letter, InAlphabet, Sextet, Sextet1, Sextet2, Sextet3, Octet1, Octet2, CountPadding;
    var t1, t2 := x[0], if |x| == 2 then x[1] else 0;
    var t := Tail(x);
    TailIsLetters(x);
    RegroupOctets(t1, t2, 0);
    LetterOfSextet(Sextet1(t1));
    LetterOfSextet(Sextet2(t1, t2));
    LetterOfSextet(Sextet3(t2, 0));
    LettersAreNoPadding(Sextet1(t1));
    LettersAreNoPadding(Sextet2(t1, t2));
    LettersAreNoPadding(Sextet3(t2, 0));
    CountFour(t);
    TailIsOctets(t, 3 - |x|);
    assert x == if |x| == 1 then [t1] else [t1, t2];
  }

  lemma CountFour(s: octets)
    requires |s| == 4
    ensures CountPadding(s) == (if s[0] == PADDING then 1 else 0) + (if s[1] == PADDING then 1 else 0)
                             + (if s[2] == PADDING then 1 else 0) + (if s[3] == PADDING then 1 else 0)
  {
    var s1, s2, s3 := [s[1], s[2], s[3]], [s[2], s[3]], [s[3]];
    assert s[1..] == s1 && s1[1..] == s2 && s2[1..] == s3 && s3[1..] == [];
    assert CountPadding(s3) == (if s[3] == PADDING then 1 else 0) + CountPadding([]);
    assert CountPadding(s2) == (if s[2] == PADDING then 1 else 0) + CountPadding(s3);
    assert CountPadding(s1) == (if s[1] == PADDING then 1 else 0) + CountPadding(s2);
  }

  lemma QuadHasNoPadding(t1: octet, t2: octet, t3: octet)
    ensures CountPadding(Quad(t1, t2, t3)) == 0
  {
    hide Quad, Letter, Sextet1, Sextet2, Sextet3, Sextet4, CountPadding;
    QuadIsLetters(t1, t2, t3);
    RegroupOctets(t1, t2, t3);
    CountFour(Quad(t1, t2, t3));
    LettersAreNoPadding(Sextet1(t1));
    LettersAreNoPadding(Sextet2(t1, t2));
    LettersAreNoPadding(Sextet3(t2, t3));
    LettersAreNoPadding(Sextet4(t3));
  }

  /** The last four characters. */
  function DecodeLast(t: octets): Option<octets>
    requires |t| == 4
  {
    var padding := CountPadding(t);
    if padding > 2 then None else if padding == 0 then DecodeQuad(t) else DecodeTail(t, padding)
  }

  function Join(a: Option<octets>, b: Option<octets>): Option<octets> {
    if a.None? || b.None? then None else Some(a.value + b.value)
  }

  /** Decoding is decoding all groups but the last, and the last. */
  lemma DecodeByLast(s: octets)
    requires s != [] && |s| % 4 == 0
    ensures Decode(s) == Join(DecodeQuads(s[..|s| - 4]), DecodeLast(s[|s| - 4..]))
  {
    hide DecodeQuad, DecodeQuads, DecodeTail, CountPadding;
    var cut := |s| - 4;
    assert s == s[..cut] + s[cut..];
    QuadsAppend(s[..cut], s[cut..]);
    OneQuad(s[cut..]);
  }

  lemma JoinAssociates(a: Option<octets>, b: Option<octets>, c: Option<octets>)
    ensures Join(a, Join(b, c)) == Join(Join(a, b), c)
  {
    if a.Some? && b.Some? && c.Some? {
      PutKeepsJoin(a.value, b.value, c.value);
    }
  }

  /** A group in front of an encoding is decoded in front of its decoding. */
  lemma DecodeAfterQuad(q: octets, s: octets, head: octets)
    requires |q| == 4 && DecodeQuad(q) == Some(head) && CountPadding(q) == 0 && |s| % 4 == 0
    ensures Decode(q + s) == Join(Some(head), Decode(s))
  {
    hide DecodeQuad, DecodeTail, CountPadding, DecodeQuads, Decode;
    DecodeByLast(q + s);
    if s == [] {
      assert q + s == q && q[..0] == [] && q[0..] == q;
      NoQuads();
      DecodeNothing();
      assert [] + head == head && head + [] == head;
    } else {
      var cut := |s| - 4;
      DecodeByLast(s);
      assert (q + s)[|q + s| - 4..] == s[cut..];
      assert (q + s)[..|q + s| - 4] == q + s[..cut];
      QuadsAppend(q, s[..cut]);
      OneQuad(q);
      JoinAssociates(Some(head), DecodeQuads(s[..cut]), DecodeLast(s[cut..]));
    }
  }

  lemma DecodeNothing()
    ensures Decode([]) == Some([])
  {
  }

  lemma ShortRoundTrip(x: octets)
    requires 1 <= |x| <= 2
    ensures Decode(Tail(x)) == Some(x)
  {
    hide Tail, DecodeQuad, DecodeTail, CountPadding, DecodeQuads, Decode;
    var t := Tail(x);
    TailDecodes(x);
    DecodeByLast(t);
    assert t[..0] == [] && t[0..] == t;
    NoQuads();
    assert [] + x == x;
  }

  /** Decoding inverts encoding, for every byte sequence. */
  lemma {:induction false} DecodeInvertsEncode(x: octets)
    ensures Decode(Encode(x)) == Some(x)
  {
    hide Quad, Tail, DecodeQuad, CountPadding, Decode;
    if x == [] {
      DecodeNothing();
    } else if |x| < 3 {
      ShortRoundTrip(x);
    } else {
      DecodeInvertsEncode(x[3..]);
      QuadDecodes(x[0], x[1], x[2]);
      QuadHasNoPadding(x[0], x[1], x[2]);
      DecodeAfterQuad(Quad(x[0], x[1], x[2]), Encode(x[3..]), [x[0], x[1], x[2]]);
      assert [x[0], x[1], x[2]] + x[3..] == x;
    }
  }

  // ---------------------------------------------------------------- what is accepted

  /** Letters, then `p` padding characters. */
  predicate Padded(s: octets, p: nat) {
    p <= |s| && Letters(s[..|s| - p]) && forall i :: |s| - p <= i < |s| ==> s[i] == PADDING
  }

  lemma {:induction false} QuadsAcceptLetters(s: octets)
    requires |s| % 4 == 0
    ensures DecodeQuads(s).Some? <==> Letters(s)
    decreases |s|
  {
    hide InAlphabet;
    if s != [] {
      SentinelFindsBadCharacter(s[0], s[1], s[2], s[3]);
      QuadsAcceptLetters(s[4..]);
      assert forall i :: 4 <= i < |s| ==> s[i] == s[4..][i - 4];
      assert Letters(s[4..]) <==> forall i :: 4 <= i < |s| ==> InAlphabet(s[i]);
    }
  }

  lemma TailAccepts(t: octets)
    requires |t| == 4 && 1 <= CountPadding(t) <= 2
    ensures DecodeTail(t, CountPadding(t)).Some? <==> Padded(t, CountPadding(t))
  {
    CountFour(t);
    SentinelFindsBadCharacter(t[0], t[1], t[2], t[3]);
  }

  /** Padding is counted anywhere in the last four characters, but a text is accepted exactly when it
      is empty, or a multiple of four letters long with at most two padding characters at its end. */
  lemma AcceptsExactly(s: octets)
    ensures Decode(s).Some? <==> |s| % 4 == 0 && exists p :: 0 <= p <= 2 && Padded(s, p)
  {
    hide DecodeTail, InAlphabet;
    if s == [] {
      assert Padded(s, 0);
    } else if |s| % 4 == 0 {
      var cut := |s| - 4;
      var t := s[cut..];
      var padding := CountPadding(t);
      CountFour(t);
      PaddedCount(s);
      if 1 <= padding <= 2 {
        TailAccepts(t);
        QuadsAcceptLetters(s[..cut]);
        PaddedSplit(s, padding);
      } else if padding == 0 {
        QuadsAcceptLetters(s);
        assert s[..|s| - 0] == s;
        assert Letters(s) <==> Padded(s, 0);
      }
    }
  }

  /** Padded in its last four characters: only as often as padding characters are counted there. */
  lemma PaddedCount(s: octets)
    requires |s| >= 4
    ensures forall p :: 0 <= p <= 2 && Padded(s, p) ==> p == CountPadding(s[|s| - 4..])
  {
    var t := s[|s| - 4..];
    CountFour(t);
    forall p | 0 <= p <= 2 && Padded(s, p)
      ensures p == CountPadding(t)
    {
      forall k | 0 <= k < 4
        ensures t[k] == PADDING <==> k >= 4 - p
      {
        assert t[k] == s[|s| - 4 + k];
        assert k < 4 - p ==> InAlphabet(s[..|s| - p][|s| - 4 + k]);
      }
    }
  }

  lemma PaddedSplit(s: octets, p: nat)
    requires |s| >= 4 && 1 <= p <= 2
    ensures Padded(s, p) <==> Letters(s[..|s| - 4]) && Padded(s[|s| - 4..], p)
  {
    var cut := |s| - 4;
    var t := s[cut..];
    assert s[..|s| - p] == s[..cut] + t[..4 - p];
    assert forall i :: cut <= i < |s| ==> s[i] == t[i - cut];
    assert (forall i :: |s| - p <= i < |s| ==> s[i] == PADDING) <==> (forall i :: 4 - p <= i < 4 ==> t[i] == PADDING);
    assert Letters(s[..cut] + t[..4 - p]) <==> Letters(s[..cut]) && Letters(t[..4 - p]) by {
      LettersAppend(s[..cut], t[..4 - p]);
    }
  }

  lemma LettersAppend(a: octets, b: octets)
    ensures Letters(a + b) <==> Letters(a) && Letters(b)
  {
    assert forall i :: 0 <= i < |a| ==> (a + b)[i] == a[i];
    assert forall i :: 0 <= i < |b| ==> (a + b)[|a| + i] == b[i];
  }

  // ---------------------------------------------------------------- canonical texts

  /** The bits of the last letter that no byte uses (section 3.5 of RFC 4648). */
  predicate UnusedBitsZero(t: octets, p: nat)
    requires |t| == 4 && Padded(t, p)
  {
    match p
    case 1 => assert InAlphabet(t[..3][2]); Sextet(t[2]) & 0x03 == 0
    case 2 => assert InAlphabet(t[..2][1]); Sextet(t[1]) & 0x0F == 0
    case _ => true
  }

  lemma QuadEncodesBack(s: octets)
    requires |s| == 4 && DecodeQuad(s).Some?
    ensures var x := DecodeQuad(s).value; Quad(x[0], x[1], x[2]) == s
  {
    hide Quad, DecodeQuad, Letter, InAlphabet, Sextet, Sextet1, Sextet2, Sextet3, Sextet4, Octet1, Octet2, Octet3;
    QuadIsOctets(s);
    Regroup(Sextet(s[0]), Sextet(s[1]), Sextet(s[2]), Sextet(s[3]));
    SextetOfLetter(s[0]);
    SextetOfLetter(s[1]);
    SextetOfLetter(s[2]);
    SextetOfLetter(s[3]);
    var x := DecodeQuad(s).value;
    QuadIsLetters(x[0], x[1], x[2]);
  }

  lemma LetterIs(v: octet, c: octet)
    requires v < 64 && InAlphabet(c)
    ensures Letter(v) == c <==> v == Sextet(c)
  {
    LetterOfSextet(v);
    SextetOfLetter(c);
  }

  /** The last letters are encoded back to themselves exactly when their unused bits are zero. */
  lemma TailEncodesBack(t: octets, p: nat)
    requires |t| == 4 && 1 <= p <= 2 && Padded(t, p)
    ensures DecodeTail(t, p).Some? && InAlphabet(t[3 - p])
    ensures Tail(DecodeTail(t, p).value) == t <==> Sextet(t[3 - p]) & (if p == 1 then 0x03 else 0x0F) == 0
  {
    if p == 1 {
      TailOfTwoEncodesBack(t);
    } else {
      TailOfOneEncodesBack(t);
    }
  }

  lemma TailOfTwoEncodesBack(t: octets)
    requires |t| == 4 && Padded(t, 1)
    ensures DecodeTail(t, 1).Some? && InAlphabet(t[2])
    ensures Tail(DecodeTail(t, 1).value) == t <==> Sextet(t[2]) & 0x03 == 0
  {
    hide Tail, DecodeTail, Letter, InAlphabet, Sextet, Sextet1, Sextet2, Sextet3, Octet1, Octet2;
    TailIsOctets(t, 1);
    assert t[..3][0] == t[0] && t[..3][1] == t[1] && t[..3][2] == t[2];
    var v1, v2, v3 := Sextet(t[0]), Sextet(t[1]), Sextet(t[2]);
    var x := DecodeTail(t, 1).value;
    Regroup(v1, v2, v3, 0);
    RegroupOctets(x[0], x[1], 0);
    TailIsLetters(x);
    LetterIs(Sextet1(x[0]), t[0]);
    LetterIs(Sextet2(x[0], x[1]), t[1]);
    LetterIs(Sextet3(x[1], 0), t[2]);
  }

  lemma TailOfOneEncodesBack(t: octets)
    requires |t| == 4 && Padded(t, 2)
    ensures DecodeTail(t, 2).Some? && InAlphabet(t[1])
    ensures Tail(DecodeTail(t, 2).value) == t <==> Sextet(t[1]) & 0x0F == 0
  {
    hide Tail, DecodeTail, Letter, InAlphabet, Sextet, Sextet1, Sextet2, Octet1;
    TailIsOctets(t, 2);
    assert t[..2][0] == t[0] && t[..2][1] == t[1];
    var v1, v2 := Sextet(t[0]), Sextet(t[1]);
    var x := DecodeTail(t, 2).value;
    Regroup(v1, v2, 0, 0);
    RegroupOctets(x[0], 0, 0);
    TailIsLetters(x);
    LetterIs(Sextet1(x[0]), t[0]);
    LetterIs(Sextet2(x[0], 0), t[1]);
  }

  lemma {:induction false} EncodeAppend(a: octets, b: octets)
    requires |a| % 3 == 0
    ensures Encode(a + b) == Encode(a) + Encode(b)
    decreases |a|
  {
    hide Quad, Tail;
    if a == [] {
      assert a + b == b;
    } else {
      assert (a + b)[3..] == a[3..] + b;
      EncodeAppend(a[3..], b);
      PutKeepsJoin(Quad(a[0], a[1], a[2]), Encode(a[3..]), Encode(b));
    }
  }

  lemma {:induction false} QuadsEncodeBack(s: octets)
    requires |s| % 4 == 0 && DecodeQuads(s).Some?
    ensures Encode(DecodeQuads(s).value) == s
    decreases |s|
  {
    hide Quad, Tail, DecodeQuad;
    if s != [] {
      var x, rest := DecodeQuad(s[..4]).value, DecodeQuads(s[4..]).value;
      QuadEncodesBack(s[..4]);
      QuadsEncodeBack(s[4..]);
      assert (x + rest)[3..] == rest;
      assert s == s[..4] + s[4..];
    }
  }

  /** The last four characters are encoded back to themselves exactly when the unused bits are zero. */
  lemma LastEncodesBack(t: octets)
    requires |t| == 4 && DecodeLast(t).Some? && Padded(t, CountPadding(t))
    ensures Encode(DecodeLast(t).value) == t <==> UnusedBitsZero(t, CountPadding(t))
  {
    hide Quad, Tail, DecodeQuad, DecodeTail, InAlphabet, CountPadding, Padded;
    var p := CountPadding(t);
    if p == 0 {
      var x := DecodeQuad(t).value;
      QuadEncodesBack(t);
      assert x[3..] == [];
      assert Encode(x) == Quad(x[0], x[1], x[2]) + Encode([]);
    } else {
      TailEncodesBack(t, p);
    }
  }

  /** A decoded text is encoded back to itself exactly when the unused bits at its end are zero. */
  lemma EncodesBackExactly(s: octets)
    requires |s| >= 4 && Decode(s).Some?
    ensures var t := s[|s| - 4..];
            Padded(t, CountPadding(t))
            && (Encode(Decode(s).value) == s <==> UnusedBitsZero(t, CountPadding(t)))
  {
    hide Encode, Decode, DecodeLast, DecodeQuads, UnusedBitsZero, CountPadding, Padded, InAlphabet;
    LastIsPadded(s);
    EncodesBackByLast(s);
    LastEncodesBack(s[|s| - 4..]);
  }

  lemma EncodesBackByLast(s: octets)
    requires |s| >= 4 && Decode(s).Some?
    ensures var t := s[|s| - 4..];
            DecodeLast(t).Some? && (Encode(Decode(s).value) == s <==> Encode(DecodeLast(t).value) == t)
  {
    hide Encode, Decode, DecodeLast, DecodeQuads, CountPadding, InAlphabet;
    AcceptsExactly(s);
    DecodeByLast(s);
    BodyEncodesBack(s[..|s| - 4], s[|s| - 4..]);
    assert s == s[..|s| - 4] + s[|s| - 4..];
  }

  lemma BodyEncodesBack(body: octets, t: octets)
    requires |body| % 4 == 0 && |t| == 4 && DecodeQuads(body).Some? && DecodeLast(t).Some?
    ensures var x := DecodeQuads(body).value + DecodeLast(t).value;
            Encode(x) == body + t <==> Encode(DecodeLast(t).value) == t
  {
    hide Encode, DecodeLast, DecodeQuads;
    QuadsEncodeBack(body);
    JoinEncodesBack(DecodeQuads(body).value, body, DecodeLast(t).value, t);
  }

  lemma JoinEncodesBack(x: octets, body: octets, y: octets, t: octets)
    requires |x| % 3 == 0 && Encode(x) == body
    ensures Encode(x + y) == body + t <==> Encode(y) == t
  {
    hide Encode;
    EncodeAppend(x, y);
    assert (body + Encode(y))[|body|..] == Encode(y) && (body + t)[|body|..] == t;
  }

  lemma LastIsPadded(s: octets)
    requires |s| >= 4 && Decode(s).Some?
    ensures var t := s[|s| - 4..]; CountPadding(t) <= 2 && Padded(t, CountPadding(t))
  {
    hide Decode, CountPadding, InAlphabet;
    AcceptsExactly(s);
    PaddedCount(s);
    var t, p := s[|s| - 4..], CountPadding(s[|s| - 4..]);
    assert t[..4 - p] == s[..|s| - p][|s| - 4..];
    assert forall i :: 4 - p <= i < 4 ==> t[i] == s[|s| - 4 + i];
  }

  // ---------------------------------------------------------------- on strings

  /** `reinterpret_cast` between `char` and `uint8_t`. */
  function ToOctet(c: byte): octet { (c as int) as bv8 }
  function ToByte(b: octet): byte { (b as int) as char }

  lemma OctetCastInverts(b: octet)
    ensures ToOctet(ToByte(b)) == b
  {
  }

  lemma NextOctet(b: octet)
    requires b as int < 255
    ensures (b + 1) as int == b as int + 1
  {
    assert b < 255;
  }

  lemma {:induction false} OctetFor(n: nat) returns (b: octet)
    requires n < 256
    ensures b as int == n
  {
    if n == 0 {
      b := 0;
    } else {
      b := OctetFor(n - 1);
      NextOctet(b);
      b := b + 1;
    }
  }

  lemma ByteCastInverts(c: byte)
    ensures ToByte(ToOctet(c)) == c
  {
    var b := OctetFor(c as int);
    OctetCastInverts(b);
  }

  function Octets(s: bytes): (r: octets)
    ensures |r| == |s|
  {
    seq(|s|, i requires 0 <= i < |s| => ToOctet(s[i]))
  }

  function Chars(s: octets): (r: bytes)
    ensures |r| == |s|
  {
    seq(|s|, i requires 0 <= i < |s| => ToByte(s[i]))
  }

  /** `to_base64`. */
  function ToBase64(data: bytes): (r: bytes)
    ensures |r| == (|data| + 2) / 3 * 4
  {
    Chars(Encode(Octets(data)))
  }

  /** `from_base64`; nothing when it throws. */
  function FromBase64(text: bytes): Option<bytes> {
    match Decode(Octets(text))
    case None => None
    case Some(x) => Some(Chars(x))
  }

  lemma CastRoundTrip(s: octets, t: bytes)
    ensures Octets(Chars(s)) == s && Chars(Octets(t)) == t
  {
    hide ToOctet, ToByte;
    forall i | 0 <= i < |s|
      ensures Octets(Chars(s))[i] == s[i]
    {
      OctetCastInverts(s[i]);
    }
    forall i | 0 <= i < |t|
      ensures Chars(Octets(t))[i] == t[i]
    {
      ByteCastInverts(t[i]);
    }
  }

  lemma FromInvertsTo(data: bytes)
    ensures FromBase64(ToBase64(data)) == Some(data)
  {
    CastRoundTrip(Encode(Octets(data)), data);
    DecodeInvertsEncode(Octets(data));
  }

  predicate LettersOrPadding(s: octets) {
    forall i :: 0 <= i < |s| ==> InAlphabet(s[i]) || s[i] == PADDING
  }

  lemma QuadIsText(t1: octet, t2: octet, t3: octet)
    ensures LettersOrPadding(Quad(t1, t2, t3))
  {
    hide Quad, InAlphabet, Letter, Sextet, Sextet1, Sextet2, Sextet3, Sextet4;
    QuadIsLetters(t1, t2, t3);
    RegroupOctets(t1, t2, t3);
    LetterOfSextet(Sextet1(t1));
    LetterOfSextet(Sextet2(t1, t2));
    LetterOfSextet(Sextet3(t2, t3));
    LetterOfSextet(Sextet4(t3));
  }

  lemma TailIsText(x: octets)
    requires 1 <= |x| <= 2
    ensures LettersOrPadding(Tail(x))
  {
    hide Tail, InAlphabet, Letter, Sextet, Sextet1, Sextet2, Sextet3;
    var t1, t2 := x[0], if |x| == 2 then x[1] else 0;
    TailIsLetters(x);
    RegroupOctets(t1, t2, 0);
    LetterOfSextet(Sextet1(t1));
    LetterOfSextet(Sextet2(t1, t2));
    LetterOfSextet(Sextet3(t2, 0));
  }

  lemma {:induction false} EncodedIsText(x: octets)
    ensures LettersOrPadding(Encode(x))
    decreases |x|
  {
    hide Quad, Tail, InAlphabet;
    if |x| >= 3 {
      QuadIsText(x[0], x[1], x[2]);
      EncodedIsText(x[3..]);
    } else if x != [] {
      TailIsText(x);
    }
  }

  /** Encoded text never contains the last character of the end tag. */
  lemma EncodedHasNoDelimiter(data: bytes)
    ensures '>' !in ToBase64(data)
  {
    hide Encode;
    EncodedIsText(Octets(data));
    var e := Encode(Octets(data));
    forall i | 0 <= i < |e|
      ensures ToByte(e[i]) != '>'
    {
      NotDelimiter(e[i]);
    }
  }

  lemma NotDelimiter(c: octet)
    requires InAlphabet(c) || c == PADDING
    ensures ToByte(c) != '>'
  {
    OctetCastInverts(c);
    assert ToOctet('>') == 62;
  }

  // ---------------------------------------------------------------- the alphabet, and where the bits go

  const DECIMAL_DIGITS: bytes := "0123456789"

  /** Table 1 of RFC 4648. */
  const ALPHABET: bytes := CAPITALS + SMALL_LETTERS + DECIMAL_DIGITS + "+/"

  lemma AlphabetNumber(v: nat)
    requires v < 64
    ensures |ALPHABET| == 64
    ensures ALPHABET[v] as int == if v < 26 then v + 65 else if v < 52 then v + 71 else if v < 62 then v - 4
                                  else if v == 62 then 43 else 47
  {
    hide CAPITALS, SMALL_LETTERS;
    CapitalsInOrder('A');
  }

  lemma LetterNumber(v: octet)
    requires v < 64
    ensures v as int < 64
    ensures Letter(v) as int == if v as int < 26 then v as int + 65 else if v as int < 52 then v as int + 71
                                else if v as int < 62 then v as int - 4 else if v as int == 62 then 43 else 47
  {
  }

  /** The letters are those of the alphabet, in its order, and the padding is the equals sign. */
  lemma LettersExactly(v: octet)
    requires v < 64
    ensures v as int < |ALPHABET| == 64 && ToByte(Letter(v)) == ALPHABET[v as int]
    ensures ToByte(PADDING) == '='
  {
    hide Letter, ALPHABET;
    LetterNumber(v);
    AlphabetNumber(v as int);
  }

  /** Three bytes as one number of 24 bits, and its six bits from `at` on. */
  function Group(t1: octet, t2: octet, t3: octet): bv32 {
    ((t1 as bv32) << 16) | ((t2 as bv32) << 8) | (t3 as bv32)
  }

  function SixBits(n: bv32, at: nat): octet
    requires at <= 18
  {
    ((n >> at) & 0x3F) as octet
  }

  /** The letters of a group are its four runs of six bits from the front; a group of one or two bytes is
      filled up with zeros, and letters that come from nothing else are padding. */
  lemma GroupsExactly(t1: octet, t2: octet, t3: octet)
    ensures var n := Group(t1, t2, t3);
            Encode([t1, t2, t3]) == [Letter(SixBits(n, 18)), Letter(SixBits(n, 12)), Letter(SixBits(n, 6)), Letter(SixBits(n, 0))]
    ensures var n := Group(t1, t2, 0);
            Encode([t1, t2]) == [Letter(SixBits(n, 18)), Letter(SixBits(n, 12)), Letter(SixBits(n, 6)), PADDING]
    ensures var n := Group(t1, 0, 0);
            Encode([t1]) == [Letter(SixBits(n, 18)), Letter(SixBits(n, 12)), PADDING, PADDING]
  {
    hide Letter, Quad, Tail, Group, SixBits, Sextet1, Sextet2, Sextet3, Sextet4;
    QuadIsLetters(t1, t2, t3);
    assert [t1, t2, t3][3..] == [];
    assert Encode([t1, t2, t3]) == Quad(t1, t2, t3) + Encode([]);
    TailIsLetters([t1, t2]);
    TailIsLetters([t1]);
    SixBitsAre(t1, t2, t3);
    SixBitsAre(t1, t2, 0);
    SixBitsAre(t1, 0, 0);
  }

  lemma SixBitsAre(t1: octet, t2: octet, t3: octet)
    ensures var n := Group(t1, t2, t3);
            SixBits(n, 18) == Sextet1(t1) && SixBits(n, 12) == Sextet2(t1, t2) && SixBits(n, 6) == Sextet3(t2, t3)
            && SixBits(n, 0) == Sextet4(t3)
  {
  }
}
