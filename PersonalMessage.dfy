/** The personal-message payload of EIP-191 (version byte 0x45), as the
    ethers library builds it before hashing: the string is encoded to UTF-8
    bytes and prefixed with "\x19Ethereum Signed Message:\n" and the decimal
    byte length. */
module PersonalMessage {
  import opened JsText
  import opened Wrappers

  type Byte = b: int | 0 <= b < 0x100
  type Bytes = seq<Byte>

  // ---------------------------------------------------------------------
  // UTF-8 encoding of a JavaScript string (ethers' toUtf8Bytes)
  // ---------------------------------------------------------------------

  /** The UTF-8 bytes of one code unit that is not a high surrogate. A lone
      low surrogate is encoded like any other unit of three bytes. */
  function EncodeUnit(c: CodeUnit): (r: Bytes)
    requires !IsHighSurrogate(c)
    ensures |r| == (if c < 0x80 then 1 else if c < 0x800 then 2 else 3)
  {
    if c < 0x80 then [c]
    else if c < 0x800 then [0xC0 + c / 0x40, 0x80 + c % 0x40]
    else [0xE0 + c / 0x1000, 0x80 + (c / 0x40) % 0x40, 0x80 + c % 0x40]
  }

  /** The four UTF-8 bytes of a supplementary-plane code point. */
  function EncodePoint(cp: int): (r: Bytes)
    requires 0x1_0000 <= cp < 0x11_0000
    ensures |r| == 4
  {
    [0xF0 + cp / 0x4_0000, 0x80 + (cp / 0x1000) % 0x40,
     0x80 + (cp / 0x40) % 0x40, 0x80 + cp % 0x40]
  }

  lemma PairValueRange(hi: CodeUnit, lo: CodeUnit)
    requires IsHighSurrogate(hi) && IsLowSurrogate(lo)
    ensures 0x1_0000 <= PairValue(hi, lo) < 0x11_0000
  {
  }

  /** A high surrogate that is not immediately followed by a low one. */
  predicate HasUnpairedHighSurrogate(s: JsString) {
    exists i :: 0 <= i < |s| && IsHighSurrogate(s[i]) && (i + 1 == |s| || !IsLowSurrogate(s[i + 1]))
  }

  /** `toUtf8Bytes(s)`: `None` where the library throws INVALID_ARGUMENT
      ("invalid surrogate pair"). */
  function Utf8Encode(s: JsString): (r: Option<Bytes>)
    ensures r.Some? ==> |s| <= |r.value| <= 3 * |s|
    ensures (forall i :: 0 <= i < |s| ==> s[i] < 0x80)
            ==> r.Some? && |r.value| == |s| && forall i :: 0 <= i < |s| ==> r.value[i] == s[i]
    decreases |s|
  {
    if s == [] then Some([])
    else if !IsHighSurrogate(s[0]) then Prepend(EncodeUnit(s[0]), Utf8Encode(s[1..]))
    else if |s| >= 2 && IsLowSurrogate(s[1]) then
      PairValueRange(s[0], s[1]);
      Prepend(EncodePoint(PairValue(s[0], s[1])), Utf8Encode(s[2..]))
    else None
  }

  /** Encoding fails exactly on strings with an unpaired high surrogate. */
  lemma {:induction false} Utf8EncodeFailsExactly(s: JsString)
    ensures Utf8Encode(s).None? <==> HasUnpairedHighSurrogate(s)
    decreases |s|
  {
    if s == [] {
    } else if !IsHighSurrogate(s[0]) {
      Utf8EncodeFailsExactly(s[1..]);
      UnpairedShift(s, 1);
    } else if |s| >= 2 && IsLowSurrogate(s[1]) {
      Utf8EncodeFailsExactly(s[2..]);
      UnpairedShift(s, 2);
    } else {
      assert IsHighSurrogate(s[0]) && (0 + 1 == |s| || !IsLowSurrogate(s[0 + 1]));
    }
  }

  /** Dropping a prefix of `k` units that holds no unpaired high surrogate,
      and whose last unit is not a high surrogate, keeps the answer. */
  lemma UnpairedShift(s: JsString, k: nat)
    requires 1 <= k <= 2 && k <= |s|
    requires k == 1 ==> !IsHighSurrogate(s[0])
    requires k == 2 ==> IsHighSurrogate(s[0]) && IsLowSurrogate(s[1])
    ensures HasUnpairedHighSurrogate(s) <==> HasUnpairedHighSurrogate(s[k..])
  {
    if HasUnpairedHighSurrogate(s) {
      var i :| 0 <= i < |s| && IsHighSurrogate(s[i]) && (i + 1 == |s| || !IsLowSurrogate(s[i + 1]));
      assert i >= k;
      assert s[k..][i - k] == s[i];
      assert i + 1 < |s| ==> s[k..][i - k + 1] == s[i + 1];
    }
    if HasUnpairedHighSurrogate(s[k..]) {
      var j :| 0 <= j < |s[k..]| && IsHighSurrogate(s[k..][j]) && (j + 1 == |s[k..]| || !IsLowSurrogate(s[k..][j + 1]));
      assert s[j + k] == s[k..][j];
      assert j + 1 < |s[k..]| ==> s[j + k + 1] == s[k..][j + 1];
    }
  }

  // ---------------------------------------------------------------------
  // The inverse: decoding the bytes toUtf8Bytes produces
  // ---------------------------------------------------------------------

  predicate IsContinuation(b: Byte) { 0x80 <= b < 0xC0 }

  /** The code units of the first encoded token of `b` and the number of
      bytes it takes. Overlong forms, three-byte high surrogates and code
      points past U+10FFFF are refused, since the encoder never emits them. */
  function DecodeToken(b: Bytes): (r: Option<(JsString, nat)>)
    requires |b| > 0
    ensures r.Some? ==> 1 <= r.value.1 <= |b|
  {
    var b0: int := b[0];
    if b0 < 0x80 then Some(([b0], 1))
    else if 0xC0 <= b0 < 0xE0 && |b| >= 2 && IsContinuation(b[1]) then
      var c := (b0 - 0xC0) * 0x40 + (b[1] as int - 0x80);
      if c < 0x80 then None else Some(([c], 2))
    else if 0xE0 <= b0 < 0xF0 && |b| >= 3 && IsContinuation(b[1]) && IsContinuation(b[2]) then
      var c := (b0 - 0xE0) * 0x1000 + (b[1] as int - 0x80) * 0x40 + (b[2] as int - 0x80);
      if c < 0x800 || IsHighSurrogate(c) then None else Some(([c], 3))
    else if 0xF0 <= b0 < 0xF8 && |b| >= 4
            && IsContinuation(b[1]) && IsContinuation(b[2]) && IsContinuation(b[3]) then
      var cp := (b0 - 0xF0) * 0x4_0000 + (b[1] as int - 0x80) * 0x1000 + (b[2] as int - 0x80) * 0x40 + (b[3] as int - 0x80);
      if cp < 0x1_0000 || cp >= 0x11_0000 then None
      else
        var w := cp - 0x1_0000;
        Some(([0xD800 + w / 0x400, 0xDC00 + w % 0x400], 4))
    else None
  }

  /** Decodes a whole byte string token by token. */
  function Utf8Decode(b: Bytes): (r: Option<JsString>)
    decreases |b|
  {
    if b == [] then Some([])
    else
      match DecodeToken(b)
      case None => None
      case Some((units, k)) => Prepend(units, Utf8Decode(b[k..]))
  }

  lemma DecodeEncodedUnit(c: CodeUnit, rest: Bytes)
    requires !IsHighSurrogate(c)
    ensures DecodeToken(EncodeUnit(c) + rest) == Some(([c], |EncodeUnit(c)|))
  {
    var e := EncodeUnit(c);
    if c >= 0x800 {
      var q := c / 0x40;
      assert q == (c / 0x1000) * 0x40 + q % 0x40;
      assert c == q * 0x40 + c % 0x40;
      assert (e + rest)[0] == 0xE0 + c / 0x1000;
    }
  }

  lemma DecodeEncodedPair(hi: CodeUnit, lo: CodeUnit, rest: Bytes)
    requires IsHighSurrogate(hi) && IsLowSurrogate(lo)
    ensures 0x1_0000 <= PairValue(hi, lo) < 0x11_0000
    ensures DecodeToken(EncodePoint(PairValue(hi, lo)) + rest) == Some(([hi, lo], 4))
  {
    var cp := PairValue(hi, lo);
    var q1 := cp / 0x40;
    var q2 := q1 / 0x40;
    assert cp == q1 * 0x40 + cp % 0x40;
    assert q1 == q2 * 0x40 + q1 % 0x40;
    assert q2 == cp / 0x1000;
    assert q2 == (cp / 0x4_0000) * 0x40 + q2 % 0x40;
    var w := cp - 0x1_0000;
    assert w == (hi - 0xD800) * 0x400 + (lo - 0xDC00);
    assert w / 0x400 == hi - 0xD800;
    assert w % 0x400 == lo - 0xDC00;
  }

  /** Decoding undoes toUtf8Bytes on every string it accepts. */
  lemma {:induction false} Utf8RoundTrip(s: JsString)
    requires Utf8Encode(s).Some?
    ensures Utf8Decode(Utf8Encode(s).value) == Some(s)
    decreases |s|
  {
    if s == [] {
    } else if !IsHighSurrogate(s[0]) {
      var e, rest := EncodeUnit(s[0]), Utf8Encode(s[1..]).value;
      Utf8RoundTrip(s[1..]);
      DecodeEncodedUnit(s[0], rest);
      assert (e + rest)[|e|..] == rest;
      assert [s[0]] + s[1..] == s;
    } else {
      assert |s| >= 2 && IsLowSurrogate(s[1]);
      PairValueRange(s[0], s[1]);
      var e, rest := EncodePoint(PairValue(s[0], s[1])), Utf8Encode(s[2..]).value;
      Utf8RoundTrip(s[2..]);
      DecodeEncodedPair(s[0], s[1], rest);
      assert (e + rest)[|e|..] == rest;
      assert [s[0], s[1]] + s[2..] == s;
    }
  }

  /** Encoding a string that starts with one unit that is not a high
      surrogate. */
  lemma EncodeConsUnit(c: CodeUnit, t: JsString)
    requires !IsHighSurrogate(c)
    ensures Utf8Encode([c] + t) == Prepend(EncodeUnit(c), Utf8Encode(t))
  {
    assert ([c] + t)[1..] == t;
  }

  /** Encoding a string that starts with a surrogate pair. */
  lemma EncodeConsPair(hi: CodeUnit, lo: CodeUnit, t: JsString)
    requires IsHighSurrogate(hi) && IsLowSurrogate(lo)
    ensures 0x1_0000 <= PairValue(hi, lo) < 0x11_0000
    ensures Utf8Encode([hi, lo] + t) == Prepend(EncodePoint(PairValue(hi, lo)), Utf8Encode(t))
  {
    assert ([hi, lo] + t)[2..] == t;
  }

  /** The units of a decoded token encode back to the token's bytes. */
  lemma EncodeDecodedUnits(b: Bytes)
    requires |b| > 0 && DecodeToken(b).Some?
    ensures var (u, k) := DecodeToken(b).value;
      || (|u| == 1 && !IsHighSurrogate(u[0]) && EncodeUnit(u[0]) == b[..k])
      || (|u| == 2 && IsHighSurrogate(u[0]) && IsLowSurrogate(u[1])
          && 0x1_0000 <= PairValue(u[0], u[1]) < 0x11_0000
          && EncodePoint(PairValue(u[0], u[1])) == b[..k])
  {
    var (u, k) := DecodeToken(b).value;
    var b0: int := b[0];
    if k == 1 {
      assert u == [b0] && EncodeUnit(b0) == b[..1];
    } else if k == 2 {
      DecodedTwo(b);
    } else if k == 3 {
      DecodedThree(b);
    } else {
      DecodedFour(b);
    }
  }

  lemma DecodedTwo(b: Bytes)
    requires |b| > 0 && DecodeToken(b).Some? && DecodeToken(b).value.1 == 2
    ensures var u := DecodeToken(b).value.0;
      |u| == 1 && !IsHighSurrogate(u[0]) && EncodeUnit(u[0]) == b[..2]
  {
    var b0: int := b[0];
    var c := (b0 - 0xC0) * 0x40 + (b[1] as int - 0x80);
    assert DecodeToken(b).value.0 == [c];
    assert c / 0x40 == b0 - 0xC0 && c % 0x40 == b[1] as int - 0x80;
  }

  lemma DecodedThree(b: Bytes)
    requires |b| > 0 && DecodeToken(b).Some? && DecodeToken(b).value.1 == 3
    ensures var u := DecodeToken(b).value.0;
      |u| == 1 && !IsHighSurrogate(u[0]) && EncodeUnit(u[0]) == b[..3]
  {
    var b0: int := b[0];
    var x := b[1] as int - 0x80;
    var c := (b0 - 0xE0) * 0x1000 + x * 0x40 + (b[2] as int - 0x80);
    assert DecodeToken(b).value.0 == [c];
    assert c / 0x40 == (b0 - 0xE0) * 0x40 + x;
    assert c / 0x1000 == b0 - 0xE0;
  }

  lemma DecodedFour(b: Bytes)
    requires |b| > 0 && DecodeToken(b).Some? && DecodeToken(b).value.1 == 4
    ensures var u := DecodeToken(b).value.0;
      && |u| == 2 && IsHighSurrogate(u[0]) && IsLowSurrogate(u[1])
      && 0x1_0000 <= PairValue(u[0], u[1]) < 0x11_0000
      && EncodePoint(PairValue(u[0], u[1])) == b[..4]
  {
    var b0: int := b[0];
    var x1, x2, x3 := b[1] as int - 0x80, b[2] as int - 0x80, b[3] as int - 0x80;
    var cp := (b0 - 0xF0) * 0x4_0000 + x1 * 0x1000 + x2 * 0x40 + x3;
    var w := cp - 0x1_0000;
    var u := DecodeToken(b).value.0;
    assert u == [0xD800 + w / 0x400, 0xDC00 + w % 0x400];
    assert PairValue(u[0], u[1]) == cp;
    assert cp / 0x40 == (b0 - 0xF0) * 0x1000 + x1 * 0x40 + x2;
    assert cp / 0x1000 == (b0 - 0xF0) * 0x40 + x1;
    assert cp / 0x4_0000 == b0 - 0xF0;
  }

  /** Encoding undoes decoding: together with Utf8RoundTrip, toUtf8Bytes is
      a one-to-one correspondence between the strings it accepts and the
      byte strings Utf8Decode accepts. */
  lemma {:induction false} Utf8RoundTripBack(b: Bytes)
    requires Utf8Decode(b).Some?
    ensures Utf8Encode(Utf8Decode(b).value) == Some(b)
    decreases |b|
  {
    if b != [] {
      var (u, k) := DecodeToken(b).value;
      assert Utf8Decode(b) == Prepend(u, Utf8Decode(b[k..]));
      var rest := Utf8Decode(b[k..]).value;
      assert Utf8Decode(b).value == u + rest;
      Utf8RoundTripBack(b[k..]);
      EncodeDecodedUnits(b);
      if |u| == 1 {
        EncodeConsUnit(u[0], rest);
        assert [u[0]] == u;
      } else {
        EncodeConsPair(u[0], u[1], rest);
        assert [u[0], u[1]] == u;
      }
      assert b[..k] + b[k..] == b;
    }
  }

  /** Every string written with Unicode scalar values (no lone surrogates)
      encodes: for such a message the library never throws on encoding. */
  lemma {:induction false} TextAlwaysEncodes(t: string)
    ensures Utf8Encode(FromText(t)).Some?
  {
    if t != [] {
      var u, rest := CharUnits(t[0]), FromText(t[1..]);
      assert FromText(t) == u + rest;
      TextAlwaysEncodes(t[1..]);
      if |u| == 1 {
        EncodeConsUnit(u[0], rest);
        assert [u[0]] == u;
      } else {
        EncodeConsPair(u[0], u[1], rest);
        assert [u[0], u[1]] == u;
      }
    }
  }

  // ---------------------------------------------------------------------
  // Decimal length and the EIP-191 payload
  // ---------------------------------------------------------------------

  predicate IsDigit(b: Byte) { 0x30 <= b <= 0x39 }

  /** `String(n)` for a length `n`, as ASCII bytes. */
  function DecimalDigits(n: nat): (r: Bytes)
    ensures 1 <= |r|
    ensures forall i :: 0 <= i < |r| ==> IsDigit(r[i])
    ensures |r| > 1 ==> r[0] != 0x30
    decreases n
  {
    if n < 10 then [0x30 + n] else DecimalDigits(n / 10) + [0x30 + n % 10]
  }

  /** The number a string of ASCII digits denotes. */
  function ParseDecimal(d: Bytes): nat
    requires forall i :: 0 <= i < |d| ==> IsDigit(d[i])
  {
    if d == [] then 0
    else
      assert IsDigit(d[|d| - 1]);
      ParseDecimal(d[..|d| - 1]) * 10 + (d[|d| - 1] - 0x30)
  }

  lemma {:induction false} DecimalRoundTrip(n: nat)
    ensures ParseDecimal(DecimalDigits(n)) == n
    decreases n
  {
    if n >= 10 {
      var d := DecimalDigits(n);
      assert d[..|d| - 1] == DecimalDigits(n / 10);
      DecimalRoundTrip(n / 10);
    }
  }

  /** A larger number never has fewer digits. */
  lemma {:induction false} DecimalLengthMonotone(n: nat, m: nat)
    requires n <= m
    ensures |DecimalDigits(n)| <= |DecimalDigits(m)|
    decreases m
  {
    if n >= 10 {
      DecimalLengthMonotone(n / 10, m / 10);
    }
  }

  /** "\x19Ethereum Signed Message:\n": byte 0x19, the version byte 0x45
      ('E'), the rest of "Ethereum Signed Message:", and a line feed. */
  const MessagePrefix: Bytes :=
    [0x19,
     0x45, 0x74, 0x68, 0x65, 0x72, 0x65, 0x75, 0x6D, 0x20,   // "Ethereum "
     0x53, 0x69, 0x67, 0x6E, 0x65, 0x64, 0x20,               // "Signed "
     0x4D, 0x65, 0x73, 0x73, 0x61, 0x67, 0x65, 0x3A,         // "Message:"
     0x0A]

  /** The bytes that are hashed for a message of bytes `message`. */
  function Payload(message: Bytes): (r: Bytes)
    ensures |r| > |MessagePrefix| + |message|
    ensures r[..|MessagePrefix|] == MessagePrefix
    ensures r[0] == 0x19 && r[1] == 0x45
    ensures r[|r| - |message|..] == message
    ensures var d := r[|MessagePrefix|..|r| - |message|];
              && (forall i :: 0 <= i < |d| ==> IsDigit(d[i]))
              && (|d| > 1 ==> d[0] != 0x30)
              && ParseDecimal(d) == |message|
  {
    var digits := DecimalDigits(|message|);
    var r := MessagePrefix + digits + message;
    assert r[|MessagePrefix|..|r| - |message|] == digits;
    DecimalRoundTrip(|message|);
    r
  }

  /** The length prefix makes the payload unambiguous: different messages
      never share a hash input. */
  lemma {:induction false} PayloadInjective(a: Bytes, b: Bytes)
    requires Payload(a) == Payload(b)
    ensures a == b
  {
    if |a| < |b| {
      DecimalLengthMonotone(|a|, |b|);
    } else if |b| < |a| {
      DecimalLengthMonotone(|b|, |a|);
    }
  }

  /** The hash input ethers' hashMessage builds for a JavaScript string:
      `None` where encoding throws. */
  function PersonalPayload(message: JsString): (r: Option<Bytes>)
    ensures r.None? <==> HasUnpairedHighSurrogate(message)
  {
    Utf8EncodeFailsExactly(message);
    match Utf8Encode(message)
    case None => None
    case Some(bytes) => Some(Payload(bytes))
  }

  /** Byte sensitivity: two different messages that both encode are hashed
      from different payloads. */
  lemma DistinctMessagesDistinctPayloads(m1: JsString, m2: JsString)
    requires PersonalPayload(m1).Some? && PersonalPayload(m2).Some?
    requires m1 != m2
    ensures PersonalPayload(m1) != PersonalPayload(m2)
  {
    var b1, b2 := Utf8Encode(m1).value, Utf8Encode(m2).value;
    if Payload(b1) == Payload(b2) {
      PayloadInjective(b1, b2);
      Utf8RoundTrip(m1);
      Utf8RoundTrip(m2);
    }
  }
}
