// Refresh tokens and bearer lifetimes (pkg/auth/token_manager.go).
module Tokens {
  import opened Common
  import opened ByteStrings
  import opened Decimal
  import Base64
  import Lists
  import Text

  // ---- Reading the timestamp: fmt.Sscanf(text, "%d", ...) ----------------

  // Leading white space is skipped, but not a line break.
  function SkipSpace(s: string): Option<string> {
    if s == "" then Some(s)
    else if s[0] == '\n' then None
    else if Text.IsSpace(s[0]) then SkipSpace(s[1..])
    else Some(s)
  }

  function DigitPrefix(s: string): (d: string)
    ensures AllDigits(d) && d <= s
  {
    if s != "" && IsDigit(s[0]) then [s[0]] + DigitPrefix(s[1..]) else ""
  }

  // The longest run of digits counts; what follows it is ignored.
  function ScanNumber(t: string): Option<int> {
    Signed(HasSign(t) && t[0] == '-', DigitPrefix(if HasSign(t) then t[1..] else t))
  }

  function ScanInt(s: string): Option<int> {
    match SkipSpace(s)
    case None => None
    case Some(t) => ScanNumber(t)
  }

  lemma {:induction false} ScanNumberOf(sign: string, digits: string, rest: string)
    requires IsSign(sign) && digits != "" && AllDigits(digits) && (rest == "" || !IsDigit(rest[0]))
    ensures ScanNumber(sign + (digits + rest)) == Signed(sign == "-", digits)
  {
    SignOf(sign, digits + rest);
    DigitPrefixUpTo(digits, rest);
  }

  lemma {:induction false} ScanOfPrint(n: int)
    requires IsInt64(n)
    ensures ScanInt(Print(n)) == Some(n)
  {
    AtoiOfPrint(n);
    var s := Print(n);
    assert s == "" + (s + "");
    assert ReadsUpTo(s, "", s, "");
    ScanIntIff(s, n);
  }

  // Sscanf reads a number exactly when, after white space without a line
  // break, some of the text up to a character that is no digit parses to it.
  lemma {:induction false} ScanIntIff(s: string, n: int)
    ensures ScanInt(s) == Some(n) <==> exists lead, text, rest :: ReadsUpTo(s, lead, text, rest) && Atoi(text) == Some(n)
  {
    if ScanInt(s) == Some(n) {
      var lead, t := Unspaced(s);
      var text, rest := NumberText(t, n);
      assert ReadsUpTo(s, lead, text, rest);
    }
    forall lead, text, rest | ReadsUpTo(s, lead, text, rest) && Atoi(text) == Some(n)
      ensures ScanInt(s) == Some(n)
    {
      ScansUpTo(lead, text, rest, n);
    }
  }

  predicate ReadsUpTo(s: string, lead: string, text: string, rest: string) {
    && s == lead + (text + rest)
    && (forall i :: 0 <= i < |lead| ==> Text.IsSpace(lead[i]) && lead[i] != '\n')
    && (rest == "" || !IsDigit(rest[0]))
  }

  lemma {:induction false} Unspaced(s: string) returns (lead: string, t: string)
    requires SkipSpace(s).Some?
    ensures SkipSpace(s) == Some(t) && s == lead + t
    ensures forall i :: 0 <= i < |lead| ==> Text.IsSpace(lead[i]) && lead[i] != '\n'
  {
    if s == "" || !Text.IsSpace(s[0]) {
      lead, t := "", s;
    } else {
      lead, t := Unspaced(s[1..]);
      lead := [s[0]] + lead;
    }
  }

  lemma {:induction false} SkipsLead(lead: string, t: string)
    requires forall i :: 0 <= i < |lead| ==> Text.IsSpace(lead[i]) && lead[i] != '\n'
    requires t != "" && !Text.IsSpace(t[0])
    ensures SkipSpace(lead + t) == Some(t)
  {
    if lead == "" {
      assert lead + t == t;
    } else {
      assert (lead + t)[1..] == lead[1..] + t;
      SkipsLead(lead[1..], t);
    }
  }

  lemma {:induction false} DigitPrefixEnds(s: string)
    ensures |DigitPrefix(s)| < |s| ==> !IsDigit(s[|DigitPrefix(s)|])
  {
    if s != "" && IsDigit(s[0]) {
      DigitPrefixEnds(s[1..]);
    }
  }

  lemma {:induction false} DigitPrefixUpTo(digits: string, rest: string)
    requires AllDigits(digits) && (rest == "" || !IsDigit(rest[0]))
    ensures DigitPrefix(digits + rest) == digits
  {
    if digits == "" {
      assert digits + rest == rest;
    } else {
      assert (digits + rest)[1..] == digits[1..] + rest;
      DigitPrefixUpTo(digits[1..], rest);
    }
  }

  lemma {:induction false} CutSign(t: string) returns (sign: string, tail: string)
    ensures t == sign + tail && IsSign(sign)
    ensures HasSign(t) <==> sign != ""
    ensures HasSign(t) ==> tail == t[1..] && (t[0] == '-' <==> sign == "-")
    ensures !HasSign(t) ==> tail == t
  {
    if HasSign(t) {
      sign, tail := [t[0]], t[1..];
    } else {
      sign, tail := "", t;
    }
  }

  // The part of the text that is the number.
  lemma {:induction false} NumberText(t: string, n: int) returns (text: string, rest: string)
    requires ScanNumber(t) == Some(n)
    ensures t == text + rest && (rest == "" || !IsDigit(rest[0])) && Atoi(text) == Some(n)
  {
    var sign, tail := CutSign(t);
    var digits;
    digits, rest := CutDigits(tail);
    assert Signed(sign == "-", digits) == Some(n);
    text := sign + digits;
    Lists.Regroup(sign, digits, rest);
    AtoiOfDigits(sign, digits);
  }

  lemma {:induction false} CutDigits(s: string) returns (digits: string, rest: string)
    ensures digits == DigitPrefix(s) && s == digits + rest && (rest == "" || !IsDigit(rest[0]))
  {
    digits, rest := DigitPrefix(s), s[|DigitPrefix(s)|..];
    DigitPrefixEnds(s);
  }

  lemma {:induction false} ScansUpTo(lead: string, text: string, rest: string, n: int)
    requires ReadsUpTo(lead + (text + rest), lead, text, rest) && Atoi(text) == Some(n)
    ensures ScanInt(lead + (text + rest)) == Some(n)
  {
    var sign, digits := SignAndDigits(text);
    AtoiOfDigits(sign, digits);
    ScanNumberOf(sign, digits, rest);
    SignOf(sign, digits);
    Lists.Regroup(sign, digits, rest);
    assert (text + rest)[0] == text[0];
    SkipsLead(lead, text + rest);
  }

  // ---- Refresh tokens ---------------------------------------------------

  const REFRESH_LIFETIME: int := 30 * 24 * 60 * 60

  // The text inside a token: name, second of issue, random part.
  function TokenData(name: string, issued: int, random: Bytes): string {
    name + ":" + Print(issued) + ":" + Base64.Encode(Base64.Url, random)
  }

  lemma {:induction false} TokenDataIsBytes(name: string, issued: int, random: Bytes)
    requires IsByteString(name)
    ensures IsByteString(TokenData(name, issued, random))
  {
    var p, r := Print(issued), Base64.Encode(Base64.Url, random);
    Base64.EncodedCharacters(Base64.Url, random);
    forall i | 0 <= i < |p|
      ensures p[i] as int < 256
    {
      assert p[i] == '-' || IsDigit(p[i]) by {
        if issued < 0 && i > 0 {
          assert IsDigit(p[1..][i - 1]);
        }
      }
    }
    forall i | 0 <= i < |r|
      ensures r[i] as int < 256
    {
      assert Base64.IsDigit(Base64.Url, r[i]) || r[i] == '=';
    }
  }

  function GenerateRefreshToken(name: string, issued: int, random: Bytes): string
    requires IsByteString(name)
  {
    TokenDataIsBytes(name, issued, random);
    Base64.Encode(Base64.Url, ToBytes(TokenData(name, issued, random)))
  }

  function ValidateRefreshToken(token: string, now: int): Result<string> {
    match Base64.Decode(Base64.Url, token)
    case None => Err("invalid refresh token format")
    case Some(data) => JudgeParts(Text.Split(FromBytes(data), ':'), now)
  }

  // The checks on the parts of a decoded token.
  function JudgeParts(parts: seq<string>, now: int): Result<string> {
    if |parts| != 3 then Err("invalid refresh token structure")
    else
      match ScanInt(parts[1])
      case None => Err("invalid refresh token timestamp")
      case Some(timestamp) =>
        if now > Wrapped(timestamp + REFRESH_LIFETIME) then Err("refresh token has expired") else Ok(parts[0])
  }

  lemma {:induction false} PrintedIntsHaveNoColon(n: int)
    ensures ':' !in Print(n)
  {
    var s := Print(n);
    forall i | 0 <= i < |s|
      ensures s[i] != ':'
    {
      assert s[i] == '-' || IsDigit(s[i]) by {
        if n < 0 && i > 0 {
          assert IsDigit(s[1..][i - 1]);
        }
      }
    }
  }

  lemma {:induction false} EncodedHasNoColon(b: Bytes)
    ensures ':' !in Base64.Encode(Base64.Url, b)
  {
    Base64.EncodedCharacters(Base64.Url, b);
  }

  lemma {:induction false} TokenParts(name: string, issued: int, random: Bytes)
    ensures |Text.Split(TokenData(name, issued, random), ':')| == Text.Count(name, ':') + 3
    ensures ':' !in name ==>
              Text.Split(TokenData(name, issued, random), ':') == [name, Print(issued), Base64.Encode(Base64.Url, random)]
  {
    var p, r := Print(issued), Base64.Encode(Base64.Url, random);
    var tail := p + ":" + r;
    var data := TokenData(name, issued, random);
    PrintedIntsHaveNoColon(issued);
    EncodedHasNoColon(random);
    Text.SplitAtFirst(p, r, ':');
    Text.SplitWithout(r, ':');
    assert data == name + ":" + tail;
    Text.SplitLength(data, ':');
    Text.SplitLength(tail, ':');
    Text.CountConcat(name + ":", tail, ':');
    Text.CountConcat(name, ":", ':');
    if ':' !in name {
      Text.SplitAtFirst(name, tail, ':');
    }
  }

  // A token is the URL-safe base64 of the name, the second of issue in
  // decimal and the base64 of the random bytes, joined by colons.
  lemma {:induction false} RefreshTokenReads(name: string, issued: int, random: Bytes)
    requires IsByteString(name) && IsInt64(issued)
    ensures exists inside, t, r ::
              && Base64.Decode(Base64.Url, GenerateRefreshToken(name, issued, random)) == Some(inside)
              && FromBytes(inside) == name + ":" + t + ":" + r
              && Atoi(t) == Some(issued)
              && Base64.Decode(Base64.Url, r) == Some(random)
  {
    var data := TokenData(name, issued, random);
    TokenDataIsBytes(name, issued, random);
    Base64.RoundTrip(Base64.Url, ToBytes(data));
    ThereAndBack(data);
    AtoiOfPrint(issued);
    Base64.RoundTrip(Base64.Url, random);
  }

  // A text of three parts, the second of which begins with this second.
  predicate HoldsToken(data: string, name: string, t: string, r: string, issued: int) {
    data == name + ":" + t + ":" + r && ':' !in name && ':' !in t && ':' !in r && ScanInt(t) == Some(issued)
  }

  // Whatever text is presented, it is accepted for a name exactly when it
  // decodes to three parts without colons, the first the name and the second
  // read as a second of issue that is at most 30 days old, in 64 bits.
  lemma {:induction false} AcceptedIff(token: string, now: int, name: string)
    ensures ValidateRefreshToken(token, now) == Ok(name) <==>
            exists inside, t, r, issued ::
              && Base64.Decode(Base64.Url, token) == Some(inside)
              && HoldsToken(FromBytes(inside), name, t, r, issued)
              && now <= Wrapped(issued + 2_592_000)
  {
    if Base64.Decode(Base64.Url, token).Some? {
      JudgedIff(FromBytes(Base64.Decode(Base64.Url, token).value), now, name);
    }
  }

  lemma {:induction false} JudgedIff(data: string, now: int, name: string)
    ensures JudgeParts(Text.Split(data, ':'), now) == Ok(name) <==>
            exists t, r, issued :: HoldsToken(data, name, t, r, issued) && now <= Wrapped(issued + 2_592_000)
  {
    var parts := Text.Split(data, ':');
    if |parts| == 3 {
      Text.SplitInThree(data, ':');
      assert ScanInt(parts[1]).Some? ==> HoldsToken(data, parts[0], parts[1], parts[2], ScanInt(parts[1]).value);
    }
    forall t, r, issued | HoldsToken(data, name, t, r, issued)
      ensures parts == [name, t, r]
    {
      ThreeParts(name, t, r);
    }
  }

  lemma {:induction false} ThreeParts(a: string, b: string, c: string)
    requires ':' !in a && ':' !in b && ':' !in c
    ensures Text.Split(a + ":" + b + ":" + c, ':') == [a, b, c]
  {
    assert a + ":" + b + ":" + c == a + ":" + (b + ":" + c);
    Text.SplitAtFirst(a, b + ":" + c, ':');
    Text.SplitAtFirst(b, c, ':');
    Text.SplitWithout(c, ':');
  }

  // A token validates, and to the name it was made for, exactly when that
  // name holds no colon and 30 days have not passed since it was issued.
  lemma {:induction false} RefreshTokenValidIff(name: string, issued: int, random: Bytes, now: int)
    requires IsByteString(name) && IsInt64(issued) && IsInt64(issued + 2_592_000)
    ensures var r := ValidateRefreshToken(GenerateRefreshToken(name, issued, random), now);
            && (r.Ok? <==> ':' !in name && now <= issued + 2_592_000)
            && (r.Ok? ==> r.value == name)
  {
    GeneratedTokenDecodes(name, issued, random, now);
    TokenParts(name, issued, random);
    Text.CountAbsent(name, ':');
    if ':' !in name {
      JudgeOwnParts(name, issued, Base64.Encode(Base64.Url, random), now);
    }
  }

  lemma {:induction false} GeneratedTokenDecodes(name: string, issued: int, random: Bytes, now: int)
    requires IsByteString(name)
    ensures ValidateRefreshToken(GenerateRefreshToken(name, issued, random), now) ==
            JudgeParts(Text.Split(TokenData(name, issued, random), ':'), now)
  {
    var data := TokenData(name, issued, random);
    TokenDataIsBytes(name, issued, random);
    Base64.RoundTrip(Base64.Url, ToBytes(data));
    ThereAndBack(data);
  }

  lemma {:induction false} JudgeOwnParts(name: string, issued: int, random: string, now: int)
    requires IsInt64(issued) && IsInt64(issued + REFRESH_LIFETIME)
    ensures JudgeParts([name, Print(issued), random], now).Ok? <==> now <= issued + REFRESH_LIFETIME
    ensures now <= issued + REFRESH_LIFETIME ==> JudgeParts([name, Print(issued), random], now) == Ok(name)
  {
    ScanOfPrint(issued);
    WrappedIff(issued + REFRESH_LIFETIME);
  }

  // ---- Bearer tokens ----------------------------------------------------

  const HOUR: int := 3_600_000_000_000

  // time.Duration(expiresInHours) * time.Hour, in nanoseconds.
  function BearerLifetime(expiresInHours: int): int {
    Wrapped((if expiresInHours <= 0 then 24 else expiresInHours) * HOUR)
  }

  // Without a positive number it is a day, in nanoseconds. Otherwise the
  // lifetime asked for is the lifetime given exactly up to 2562047 hours;
  // the next hour already wraps into the past.
  lemma {:induction false} BearerLifetimeIff(hours: int)
    ensures hours > 0 ==> (BearerLifetime(hours) == hours * 3_600_000_000_000 <==> hours <= 2_562_047)
    ensures hours <= 0 ==> BearerLifetime(hours) == 86_400_000_000_000
    ensures BearerLifetime(2_562_048) < 0
  {
    WrappedIff(hours * HOUR);
  }
}
