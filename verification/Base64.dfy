// encoding/base64: the standard and the URL-safe alphabet of sections 4 and 5
// of RFC 4648, both padded. Decoding skips line breaks, as Go's decoder does.
module Base64 {
  import opened Common
  import opened ByteStrings

  datatype Alphabet = Std | Url

  function Digit(a: Alphabet, v: nat): (c: char)
    requires v < 64
    ensures Value(a, c) == Some(v)
  {
    if v < 26 then ('A' as int + v) as char
    else if v < 52 then ('a' as int + v - 26) as char
    else if v < 62 then ('0' as int + v - 52) as char
    else if v == 62 then (if a.Std? then '+' else '-')
    else (if a.Std? then '/' else '_')
  }

  function Value(a: Alphabet, c: char): (v: Option<nat>)
    ensures v.Some? ==> v.value < 64
  {
    if 'A' <= c <= 'Z' then Some(c as int - 'A' as int)
    else if 'a' <= c <= 'z' then Some(c as int - 'a' as int + 26)
    else if '0' <= c <= '9' then Some(c as int - '0' as int + 52)
    else if c == (if a.Std? then '+' else '-') then Some(62)
    else if c == (if a.Std? then '/' else '_') then Some(63)
    else None
  }

  predicate IsDigit(a: Alphabet, c: char) {
    Value(a, c).Some?
  }

  // ---- Encoding ---------------------------------------------------------

  function EncodeTriple(a: Alphabet, x: byte, y: byte, z: byte): (s: string)
    ensures |s| == 4 && forall i :: 0 <= i < 4 ==> IsDigit(a, s[i])
  {
    [Digit(a, x / 4), Digit(a, x % 4 * 16 + y / 16), Digit(a, y % 16 * 4 + z / 64), Digit(a, z % 64)]
  }

  function Encode(a: Alphabet, b: Bytes): string {
    if |b| == 0 then ""
    else if |b| == 1 then EncodeTriple(a, b[0], 0, 0)[..2] + "=="
    else if |b| == 2 then EncodeTriple(a, b[0], b[1], 0)[..3] + "="
    else EncodeTriple(a, b[0], b[1], b[2]) + Encode(a, b[3..])
  }

  // ---- Decoding ---------------------------------------------------------

  predicate IsLineBreak(c: char) {
    c == '\r' || c == '\n'
  }

  function Strip(s: string): string {
    if s == "" then ""
    else if IsLineBreak(s[0]) then Strip(s[1..])
    else [s[0]] + Strip(s[1..])
  }

  function DecodeQuads(a: Alphabet, s: string): Option<Bytes> {
    if s == "" then Some([])
    else if |s| < 4 then None
    else
      match (Value(a, s[0]), Value(a, s[1]), Value(a, s[2]), Value(a, s[3]))
      case (Some(p), Some(q), Some(r), Some(t)) =>
        (match DecodeQuads(a, s[4..])
         case None => None
         case Some(rest) => Some([p * 4 + q / 16, q % 16 * 16 + r / 4, r % 4 * 64 + t] + rest))
      case (Some(p), Some(q), Some(r), None) =>
        if s[3..] == "=" then Some([p * 4 + q / 16, q % 16 * 16 + r / 4]) else None
      case (Some(p), Some(q), None, None) =>
        if s[2..] == "==" then Some([p * 4 + q / 16]) else None
      case _ => None
  }

  function Decode(a: Alphabet, s: string): Option<Bytes> {
    DecodeQuads(a, Strip(s))
  }

  // ---- Properties -------------------------------------------------------

  lemma {:induction false} EncodedCharacters(a: Alphabet, b: Bytes)
    ensures forall i :: 0 <= i < |Encode(a, b)| ==> IsDigit(a, Encode(a, b)[i]) || Encode(a, b)[i] == '='
  {
    if |b| >= 3 {
      EncodedCharacters(a, b[3..]);
    }
  }

  lemma {:induction false} StripNothing(s: string)
    requires forall i :: 0 <= i < |s| ==> !IsLineBreak(s[i])
    ensures Strip(s) == s
  {
    if s != "" {
      StripNothing(s[1..]);
    }
  }

  lemma {:induction false} DecodeFullQuad(a: Alphabet, s: string, p: nat, q: nat, r: nat, t: nat)
    requires |s| >= 4 && p < 64 && q < 64 && r < 64 && t < 64
    requires Value(a, s[0]) == Some(p) && Value(a, s[1]) == Some(q) && Value(a, s[2]) == Some(r) && Value(a, s[3]) == Some(t)
    ensures DecodeQuads(a, s) ==
            match DecodeQuads(a, s[4..])
            case None => None
            case Some(rest) => Some([p * 4 + q / 16, q % 16 * 16 + r / 4, r % 4 * 64 + t] + rest)
  {
  }

  lemma {:induction false} TripleRoundTrip(a: Alphabet, x: byte, y: byte, z: byte, tail: string)
    ensures DecodeQuads(a, EncodeTriple(a, x, y, z) + tail) ==
            match DecodeQuads(a, tail)
            case None => None
            case Some(rest) => Some([x, y, z] + rest)
  {
    var s := EncodeTriple(a, x, y, z) + tail;
    assert s[4..] == tail;
    TripleValues(a, x, y, z);
    Regroup(x, y, z);
    DecodeFullQuad(a, s, x / 4, x % 4 * 16 + y / 16, y % 16 * 4 + z / 64, z % 64);
  }

  lemma {:induction false} TripleValues(a: Alphabet, x: byte, y: byte, z: byte)
    ensures var s := EncodeTriple(a, x, y, z);
            && Value(a, s[0]) == Some(x / 4) && Value(a, s[1]) == Some(x % 4 * 16 + y / 16)
            && Value(a, s[2]) == Some(y % 16 * 4 + z / 64) && Value(a, s[3]) == Some(z % 64)
  {
  }

  lemma {:induction false} DecodePadded(a: Alphabet, s: string, p: nat, q: nat)
    requires |s| == 4 && p < 64 && q < 64 && s[3] == '='
    requires Value(a, s[0]) == Some(p) && Value(a, s[1]) == Some(q)
    ensures s[2] == '=' ==> DecodeQuads(a, s) == Some([p * 4 + q / 16])
    ensures forall r :: Value(a, s[2]) == Some(r) ==> DecodeQuads(a, s) == Some([p * 4 + q / 16, q % 16 * 16 + r / 4])
  {
    assert !IsDigit(a, '=');
    assert s[3..] == "=";
    assert s[2] == '=' ==> s[2..] == "==";
  }

  lemma {:induction false} OneByteRoundTrip(a: Alphabet, x: byte)
    ensures DecodeQuads(a, Encode(a, [x])) == Some([x])
  {
    var s, t := Encode(a, [x]), EncodeTriple(a, x, 0, 0);
    TripleValues(a, x, 0, 0);
    Regroup(x, 0, 0);
    assert s == t[..2] + "==" && s[0] == t[0] && s[1] == t[1];
    DecodePadded(a, s, x / 4, x % 4 * 16 + 0 / 16);
  }

  lemma {:induction false} TwoByteRoundTrip(a: Alphabet, x: byte, y: byte)
    ensures DecodeQuads(a, Encode(a, [x, y])) == Some([x, y])
  {
    var s, t := Encode(a, [x, y]), EncodeTriple(a, x, y, 0);
    TripleValues(a, x, y, 0);
    Regroup(x, y, 0);
    assert s == t[..3] + "=" && s[0] == t[0] && s[1] == t[1] && s[2] == t[2];
    DecodePadded(a, s, x / 4, x % 4 * 16 + y / 16);
    assert Value(a, s[2]) == Some(y % 16 * 4 + 0 / 64);
  }

  // Four groups of six bits hold the three bytes they were cut from.
  lemma {:induction false} Regroup(x: byte, y: byte, z: byte)
    ensures var q, r := x % 4 * 16 + y / 16, y % 16 * 4 + z / 64;
            x / 4 * 4 + q / 16 == x && q % 16 * 16 + r / 4 == y && r % 4 * 64 + z % 64 == z
  {
    var q, r := x % 4 * 16 + y / 16, y % 16 * 4 + z / 64;
    assert q / 16 == x % 4 && q % 16 == y / 16;
    assert r / 4 == y % 16 && r % 4 == z / 64;
  }

  lemma {:induction false} QuadsRoundTrip(a: Alphabet, b: Bytes)
    ensures DecodeQuads(a, Encode(a, b)) == Some(b)
  {
    if |b| >= 3 {
      QuadsRoundTrip(a, b[3..]);
      TripleRoundTrip(a, b[0], b[1], b[2], Encode(a, b[3..]));
      assert b == [b[0], b[1], b[2]] + b[3..];
    } else if |b| == 2 {
      TwoByteRoundTrip(a, b[0], b[1]);
      assert b == [b[0], b[1]];
    } else if |b| == 1 {
      OneByteRoundTrip(a, b[0]);
      assert b == [b[0]];
    }
  }

  // Decoding undoes encoding, in either alphabet.
  lemma {:induction false} RoundTrip(a: Alphabet, b: Bytes)
    ensures Decode(a, Encode(a, b)) == Some(b)
  {
    EncodedCharacters(a, b);
    StripNothing(Encode(a, b));
    QuadsRoundTrip(a, b);
  }

  lemma {:induction false} QuadsRejectForeign(a: Alphabet, s: string, i: nat)
    requires i < |s| && !IsDigit(a, s[i]) && s[i] != '='
    ensures DecodeQuads(a, s) == None
  {
    if i >= 4 {
      QuadsRejectForeign(a, s[4..], i - 4);
    }
    if |s| >= 4 {
      assert s[3..] == "=" ==> |s| == 4 && s[3..][0] == '=';
      assert s[2..] == "==" ==> |s| == 4 && s[2..][0] == '=' && s[2..][1] == '=';
    }
  }

  // A character outside the alphabet, other than padding and line breaks,
  // makes the text undecodable wherever it stands first after line breaks.
  lemma {:induction false} RejectsForeignFirst(a: Alphabet, s: string)
    requires s != "" && !IsDigit(a, s[0]) && s[0] != '=' && !IsLineBreak(s[0])
    ensures Decode(a, s) == None
  {
    QuadsRejectForeign(a, Strip(s), 0);
  }

  lemma {:induction false} QuadsShrink(a: Alphabet, s: string)
    ensures DecodeQuads(a, s).Some? ==> |DecodeQuads(a, s).value| <= |s|
  {
    if |s| >= 4 {
      QuadsShrink(a, s[4..]);
    }
  }

  lemma {:induction false} StripShrinks(s: string)
    ensures |Strip(s)| <= |s|
  {
    if s != "" {
      StripShrinks(s[1..]);
    }
  }

  lemma {:induction false} DecodeShrinks(a: Alphabet, s: string)
    ensures Decode(a, s).Some? ==> |Decode(a, s).value| <= |s|
  {
    QuadsShrink(a, Strip(s));
    StripShrinks(s);
  }

  // A line break anywhere makes no difference to what is decoded.
  lemma {:induction false} LineBreaksIgnored(a: Alphabet, s: string, c: char, t: string)
    requires IsLineBreak(c)
    ensures Decode(a, s + [c] + t) == Decode(a, s + t)
  {
    StripConcat(s, [c] + t);
    StripConcat(s, t);
    assert s + [c] + t == s + ([c] + t);
    assert ([c] + t)[1..] == t;
  }

  lemma {:induction false} StripConcat(s: string, t: string)
    ensures Strip(s + t) == Strip(s) + Strip(t)
  {
    if s == "" {
      assert s + t == t;
    } else {
      assert (s + t)[1..] == s[1..] + t;
      StripConcat(s[1..], t);
    }
  }

  // ---- What the characters stand for ------------------------------------

  // The character of a six-bit value in tables 1 and 2 of RFC 4648.
  predicate StandsFor(a: Alphabet, c: char, v: nat) {
    || (v < 26 && c as int == 'A' as int + v)
    || (26 <= v < 52 && c as int == 'a' as int + v - 26)
    || (52 <= v < 62 && c as int == '0' as int + v - 52)
    || (v == 62 && c == if a.Std? then '+' else '-')
    || (v == 63 && c == if a.Std? then '/' else '_')
  }

  function ByteAt(b: Bytes, i: nat): byte {
    if i < |b| then b[i] else 0
  }

  // The 24 bits of three bytes, missing ones counting as zero.
  function Group(b: Bytes, q: nat): nat {
    ByteAt(b, 3 * q) * 65536 + ByteAt(b, 3 * q + 1) * 256 + ByteAt(b, 3 * q + 2)
  }

  lemma {:induction false} GroupDigits(x: byte, y: byte, z: byte)
    ensures var g := x * 65536 + y * 256 + z;
            && g / 262144 % 64 == x / 4
            && g / 4096 % 64 == x % 4 * 16 + y / 16
            && g / 64 % 64 == y % 16 * 4 + z / 64
            && g % 64 == z % 64
  {
    var g := x * 65536 + y * 256 + z;
    DivModUnique(g, 262144, x / 4, x % 4 * 65536 + y * 256 + z);
    DivModUnique(g, 4096, x * 16 + y / 16, y % 16 * 256 + z);
    DivModUnique(x * 16 + y / 16, 64, x / 4, x % 4 * 16 + y / 16);
    DivModUnique(g, 64, x * 1024 + y * 4 + z / 64, z % 64);
    DivModUnique(x * 1024 + y * 4 + z / 64, 64, x * 16 + y / 16, y % 16 * 4 + z / 64);
  }

  function SixBits(g: nat, k: nat): nat {
    (if k == 0 then g / 262144 else if k == 1 then g / 4096 else if k == 2 then g / 64 else g) % 64
  }

  lemma {:induction false} TripleStandsFor(a: Alphabet, x: byte, y: byte, z: byte, k: nat)
    requires k < 4
    ensures StandsFor(a, EncodeTriple(a, x, y, z)[k], SixBits(x * 65536 + y * 256 + z, k))
  {
    GroupDigits(x, y, z);
    DigitStandsFor(a, SixBits(x * 65536 + y * 256 + z, k));
  }

  lemma {:induction false} FirstQuad(a: Alphabet, b: Bytes, k: nat)
    requires b != [] && k < 4
    ensures |Encode(a, b)| >= 4
    ensures Encode(a, b)[k] == if k > |b| then '=' else EncodeTriple(a, ByteAt(b, 0), ByteAt(b, 1), ByteAt(b, 2))[k]
  {
  }

  lemma {:induction false} DigitStandsFor(a: Alphabet, v: nat)
    requires v < 64
    ensures StandsFor(a, Digit(a, v), v)
  {
  }

  lemma {:induction false} FirstWrites(a: Alphabet, b: Bytes, k: nat)
    requires Encode(a, b) != [] && k < 4
    ensures |Encode(a, b)| >= 4 && Writes(a, b, 0, k, Encode(a, b)[k])
  {
    FirstQuad(a, b, k);
    TripleStandsFor(a, ByteAt(b, 0), ByteAt(b, 1), ByteAt(b, 2), k);
  }

  // How many quads the bytes take.
  function Quads(n: nat): nat {
    (n + 2) / 3
  }

  // Every three bytes, or the last one or two, take four characters.
  lemma {:induction false} EncodedLength(a: Alphabet, b: Bytes)
    ensures |Encode(a, b)| == 4 * Quads(|b|)
  {
    if |b| >= 3 {
      EncodedLength(a, b[3..]);
      EncodedGrows(a, b);
      assert Quads(|b|) == Quads(|b| - 3) + 1;
    } else {
      ShortEncodedLength(a, b);
    }
  }

  lemma {:induction false} ShortEncodedLength(a: Alphabet, b: Bytes)
    requires |b| < 3
    ensures |Encode(a, b)| == if b == [] then 0 else 4
  {
  }

  lemma {:induction false} EncodedGrows(a: Alphabet, b: Bytes)
    requires |b| >= 3
    ensures |Encode(a, b)| == 4 + |Encode(a, b[3..])|
  {
  }

  lemma {:induction false} EncodedStep(a: Alphabet, b: Bytes, i: nat)
    requires |b| >= 3 && i < |Encode(a, b[3..])|
    ensures |Encode(a, b)| == 4 + |Encode(a, b[3..])| && Encode(a, b)[4 + i] == Encode(a, b[3..])[i]
  {
  }

  predicate Writes(a: Alphabet, b: Bytes, q: nat, k: nat, c: char)
    requires k < 4
  {
    if 3 * q + k > |b| then c == '=' else StandsFor(a, c, SixBits(Group(b, q), k))
  }

  // Every three bytes are written as the characters of their four groups of
  // six bits, in order; what stands for no byte is padding.
  lemma {:induction false} EncodingReads(a: Alphabet, b: Bytes, q: nat, k: nat)
    requires k < 4 && 4 * q + k < |Encode(a, b)|
    ensures Writes(a, b, q, k, Encode(a, b)[4 * q + k])
  {
    if q == 0 {
      FirstWrites(a, b, k);
    } else {
      LaterQuad(a, b, q, k);
      EncodingReads(a, b[3..], q - 1, k);
      var c := Encode(a, b[3..])[4 * (q - 1) + k];
      assert Encode(a, b)[4 * q + k] == c;
      LaterWrites(a, b, q, k, c);
    }
  }

  lemma {:induction false} LaterWrites(a: Alphabet, b: Bytes, q: nat, k: nat, c: char)
    requires q > 0 && k < 4 && |b| >= 3 && Writes(a, b[3..], q - 1, k, c)
    ensures Writes(a, b, q, k, c)
  {
    LaterGroup(b, q);
  }

  lemma {:induction false} LaterQuad(a: Alphabet, b: Bytes, q: nat, k: nat)
    requires q > 0 && k < 4 && 4 * q + k < |Encode(a, b)|
    ensures |b| >= 3
    ensures 4 * (q - 1) + k < |Encode(a, b[3..])| && Encode(a, b)[4 * q + k] == Encode(a, b[3..])[4 * (q - 1) + k]
  {
    if |b| < 3 {
      ShortEncodedLength(a, b);
      assert false;
    } else {
      EncodedGrows(a, b);
      EncodedStep(a, b, 4 * (q - 1) + k);
    }
  }

  lemma {:induction false} LaterGroup(b: Bytes, q: nat)
    requires q > 0 && |b| >= 3
    ensures Group(b, q) == Group(b[3..], q - 1)
  {
    assert forall j: nat :: j >= 3 ==> ByteAt(b, j) == ByteAt(b[3..], j - 3);
    assert ByteAt(b, 3 * q) == ByteAt(b[3..], 3 * (q - 1));
    assert ByteAt(b, 3 * q + 1) == ByteAt(b[3..], 3 * (q - 1) + 1);
    assert ByteAt(b, 3 * q + 2) == ByteAt(b[3..], 3 * (q - 1) + 2);
  }

  // Stripped of line breaks, what decodes is any number of whole quads of
  // digits, the last of which may end in one or two signs of padding.
  predicate WellPadded(a: Alphabet, s: string, pad: nat) {
    && |s| % 4 == 0 && pad <= 2 && pad <= |s|
    && forall i :: 0 <= i < |s| ==> if i < |s| - pad then IsDigit(a, s[i]) else s[i] == '='
  }

  lemma {:induction false} DecodesIff(a: Alphabet, s: string)
    ensures Decode(a, s).Some? ==> exists pad: nat :: WellPadded(a, Strip(s), pad)
    ensures (exists pad: nat :: WellPadded(a, Strip(s), pad)) ==> Decode(a, s).Some?
  {
    var t := Strip(s);
    assert Decode(a, s) == DecodeQuads(a, t);
    if Decode(a, s).Some? {
      var pad := DecodedPadding(a, t);
      assert WellPadded(a, Strip(s), pad);
    }
    forall pad: nat | WellPadded(a, t, pad) {
      PaddedDecodes(a, t, pad);
    }
  }

  lemma {:induction false} DecodedPadding(a: Alphabet, s: string) returns (pad: nat)
    requires DecodeQuads(a, s).Some?
    ensures WellPadded(a, s, pad)
  {
    if s == "" {
      pad := 0;
    } else if IsDigit(a, s[0]) && IsDigit(a, s[1]) && IsDigit(a, s[2]) && IsDigit(a, s[3]) {
      pad := DecodedPadding(a, s[4..]);
      QuadBefore(a, s, pad);
    } else {
      LastQuad(a, s);
      pad := if IsDigit(a, s[2]) then 1 else 2;
    }
  }

  lemma {:induction false} QuadBefore(a: Alphabet, s: string, pad: nat)
    requires |s| >= 4 && IsDigit(a, s[0]) && IsDigit(a, s[1]) && IsDigit(a, s[2]) && IsDigit(a, s[3])
    requires WellPadded(a, s[4..], pad)
    ensures WellPadded(a, s, pad)
  {
    forall i | 0 <= i < |s|
      ensures if i < |s| - pad then IsDigit(a, s[i]) else s[i] == '='
    {
      assert i >= 4 ==> s[i] == s[4..][i - 4];
    }
  }

  lemma {:induction false} LastQuad(a: Alphabet, s: string)
    requires s != "" && DecodeQuads(a, s).Some?
    requires !(|s| >= 4 && IsDigit(a, s[0]) && IsDigit(a, s[1]) && IsDigit(a, s[2]) && IsDigit(a, s[3]))
    ensures |s| == 4 && WellPadded(a, s, if IsDigit(a, s[2]) then 1 else 2)
  {
    assert |s| >= 4 && IsDigit(a, s[0]) && IsDigit(a, s[1]);
    if IsDigit(a, s[2]) {
      assert s[3..] == "=";
      assert |s| == 4 && s[3] == s[3..][0];
    } else {
      assert s[2..] == "==";
      assert |s| == 4 && s[2] == s[2..][0] && s[3] == s[2..][1];
    }
  }

  lemma {:induction false} PaddedDecodes(a: Alphabet, s: string, pad: nat)
    requires WellPadded(a, s, pad)
    ensures DecodeQuads(a, s).Some?
  {
    if |s| > 4 {
      assert WellPadded(a, s[4..], pad);
      PaddedDecodes(a, s[4..], pad);
    } else if s != "" {
      assert pad == 1 ==> s[3..] == "=";
      assert pad == 2 ==> s[2..] == "==";
      assert s[4..] == "";
    }
  }
}
