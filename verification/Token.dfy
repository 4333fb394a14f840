/**
  Request-state tokens: `payload.issued.ttl.signature`, with the payload in
  URL-safe base64, two decimal 64-bit numbers of milliseconds, and either an
  HMAC of everything before the last dot or the word `unsigned`.
 */
module Token {
  import opened Bytes
  import opened Decimals
  import Base64Url
  import Sha256

  const UINT64: nat := Sha256.UINT64
  type uint64 = n: nat | n < UINT64

  // Decimal numbers.

  function Pow10(k: nat): nat {
    if k == 0 then 1 else 10 * Pow10(k - 1)
  }

  lemma {:induction false} PrintedLength(n: nat, k: nat)
    requires n < Pow10(k) && k > 0
    ensures |ToDecimal(n)| <= k
  {
    if n >= 10 {
      PrintedLength(n / 10, k - 1);
    }
  }

  lemma TwentyDigits()
    ensures UINT64 < Pow10(20)
  {
    assert Pow10(5) == 100000 by { assert Pow10(3) == 1000; }
    assert Pow10(10) == 10000000000 by { assert Pow10(8) == 100000000; }
    assert Pow10(15) == 1000000000000000 by { assert Pow10(13) == 10000000000000; }
    assert Pow10(20) == 100000000000000000000 by { assert Pow10(18) == 1000000000000000000; }
  }

  /** The number a field spells: 1 to 20 digits (leading zeros included) worth less than 2^64. */
  function Uint64(s: bytes): Option<uint64> {
    if 1 <= |s| <= 20 && Digits(s) && 0 <= Decimal(s) < UINT64 then Some(Decimal(s)) else None
  }

  lemma PrintedParses(n: uint64)
    ensures Uint64(ToDecimal(n)) == Some(n)
  {
    DecimalOfPrinted(n);
    TwentyDigits();
    PrintedLength(n, 20);
  }

  /** `parse_uint64`: the guard rejects exactly the digit strings that overflow. */
  method ParseUint64(s: bytes) returns (r: Option<uint64>)
    ensures r == Uint64(s)
  {
    if |s| == 0 || |s| > 20 { return None; }
    var val: uint64 := 0;
    for i := 0 to |s|
      invariant Digits(s[..i]) && val == Decimal(s[..i])
    {
      if s[i] < 0x30 || s[i] > 0x39 { return None; }
      var digit := DigitValue(s[i]);
      DecimalStep(s, i);
      if val > (UINT64 - 1 - digit) / 10 {
        if Digits(s) { DecimalGrows(s, i + 1); }
        return None;
      }
      val := val * 10 + digit;
    }
    assert s[..|s|] == s;
    return Some(val);
  }

  // Fields.

  datatype Fields = Fields(payload: bytes, issued: bytes, ttl: bytes, signature: bytes)

  function SignedPart(f: Fields): bytes {
    f.payload + [DOT] + f.issued + [DOT] + f.ttl
  }

  function Joined(f: Fields): bytes {
    SignedPart(f) + [DOT] + f.signature
  }

  predicate NoDots(f: Fields) {
    DOT !in f.payload && DOT !in f.issued && DOT !in f.ttl && DOT !in f.signature
  }

  /** The text before the first dot and the text after it. */
  function Cut(s: bytes): Option<(bytes, bytes)> {
    var k := Find(s, DOT);
    if k == |s| then None else Some((s[..k], s[k + 1..]))
  }

  function Split(s: bytes): Option<Fields> {
    match Cut(s)
    case None => None
    case Some(c1) =>
      match Cut(c1.1)
      case None => None
      case Some(c2) =>
        match Cut(c2.1)
        case None => None
        case Some(c3) => if Cut(c3.1).Some? then None else Some(Fields(c1.0, c2.0, c3.0, c3.1))
  }

  lemma CutMeans(s: bytes)
    ensures match Cut(s)
            case None => DOT !in s
            case Some(c) => DOT !in c.0 && s == c.0 + [DOT] + c.1
  {
  }

  lemma CutAt(a: bytes, b: bytes)
    requires DOT !in a
    ensures Cut(a + [DOT] + b) == Some((a, b))
  {
    var s := a + [DOT] + b;
    assert s[|a|] == DOT && forall i :: 0 <= i < |a| ==> s[i] == a[i];
    assert s[..|a|] == a && s[|a| + 1..] == b;
  }

  /** A text splits into four fields exactly when it is four dot-free texts joined by dots. */
  lemma SplitExact(s: bytes, f: Fields)
    ensures Split(s) == Some(f) <==> NoDots(f) && s == Joined(f)
  {
    hide Cut;
    CutMeans(s);
    match Cut(s) {
      case None =>
      case Some(c1) =>
        CutMeans(c1.1);
        match Cut(c1.1) {
          case None =>
          case Some(c2) =>
            CutMeans(c2.1);
            match Cut(c2.1) {
              case None =>
              case Some(c3) => CutMeans(c3.1);
            }
        }
    }
    if NoDots(f) && s == Joined(f) {
      var r2 := f.ttl + [DOT] + f.signature;
      var r1 := f.issued + [DOT] + r2;
      assert s == f.payload + [DOT] + r1;
      CutAt(f.payload, r1);
      CutAt(f.issued, r2);
      CutAt(f.ttl, f.signature);
      CutMeans(f.signature);
    }
    if Split(s) == Some(f) {
      assert s == Joined(f);
    }
  }

  // Signatures.

  const UNSIGNED: bytes := [0x75, 0x6E, 0x73, 0x69, 0x67, 0x6E, 0x65, 0x64]

  function Signature(key: bytes, part: bytes): bytes {
    if key == [] then UNSIGNED else Base64Url.Encode(Sha256.Hmac(key, part))
  }

  predicate SignedBy(key: bytes, part: bytes, sig: bytes) {
    if key == [] then sig == UNSIGNED else Base64Url.Decode(sig) == Some(Sha256.Hmac(key, part))
  }

  lemma {:induction false} EncodedLength(data: bytes)
    ensures |Base64Url.Encode(data)| == (4 * |data| + 2) / 3
  {
    SextetCount(data);
  }

  lemma {:induction false} SextetCount(data: bytes)
    ensures |Base64Url.Sextets(data)| == (4 * |data| + 2) / 3
  {
    hide Base64Url.Bits24;
    if |data| >= 3 {
      SextetCount(data[3..]);
    }
  }

  /** The word `unsigned` never decodes to an HMAC. */
  lemma UnsignedIsNoHmac()
    ensures forall d :: Base64Url.Decode(UNSIGNED) == Some(d) ==> |d| != 32
  {
    hide Base64Url.Decode, Base64Url.Encode;
    forall d | Base64Url.Decode(UNSIGNED) == Some(d)
      ensures |d| != 32
    {
      Base64Url.EncodeDecode(UNSIGNED);
      EncodedLength(d);
    }
  }

  function OrBits(a: nat, b: nat, n: nat): (r: nat)
    requires a < Pow2(n) && b < Pow2(n)
    ensures r < Pow2(n)
    ensures r == 0 <==> a == 0 && b == 0
  {
    if n == 0 then 0
    else (if a % 2 == 1 || b % 2 == 1 then 1 else 0) + 2 * OrBits(a / 2, b / 2, n - 1)
  }

  lemma {:induction false} XorZero(a: nat, b: nat, n: nat)
    requires a < Pow2(n) && b < Pow2(n)
    ensures XorBits(a, b, n) == 0 <==> a == b
  {
    if n > 0 {
      XorZero(a / 2, b / 2, n - 1);
    }
  }

  /** `mcp_crypto_subtle_equal`: differences are collected without stopping early. */
  method SubtleEqual(a: bytes, b: bytes) returns (equal: bool)
    requires |a| == |b|
    ensures equal <==> a == b
  {
    assert Pow2(8) == 256 by { assert Pow2(4) == 16; }
    var diff := 0;
    for i := 0 to |a|
      invariant 0 <= diff < Pow2(8)
      invariant diff == 0 <==> a[..i] == b[..i]
    {
      hide Pow2;
      XorZero(a[i], b[i], 8);
      diff := OrBits(diff, Xor(a[i], b[i]), 8);
      assert a[..i + 1] == a[..i] + [a[i]] && b[..i + 1] == b[..i] + [b[i]];
    }
    assert a[..|a|] == a && b[..|b|] == b;
    equal := diff == 0;
  }

  // Tokens.

  function FieldsOf(data: bytes, key: bytes, issued: uint64, ttl: uint64): Fields {
    var f := Fields(Base64Url.Encode(data), ToDecimal(issued), ToDecimal(ttl), []);
    f.(signature := Signature(key, SignedPart(f)))
  }

  function Pack(data: bytes, key: bytes, issued: uint64, ttl: uint64): bytes {
    Joined(FieldsOf(data, key, issued, ttl))
  }

  datatype Unpacked = Ok(data: bytes) | InvalidArgument | Permission | Timeout

  const MAX_SKEW: nat := 10000

  predicate TooFarAhead(issued: uint64, ttl: uint64, now: uint64) {
    ttl > 0 && issued > now + MAX_SKEW
  }

  /** The sum is taken in 64 bits. */
  predicate Expired(issued: uint64, ttl: uint64, now: uint64) {
    ttl > 0 && now > (issued + ttl) % UINT64
  }

  function Unpack(s: bytes, key: bytes, now: uint64): Unpacked {
    match Split(s)
    case None => InvalidArgument
    case Some(f) =>
      match (Uint64(f.issued), Uint64(f.ttl))
      case (Some(issued), Some(ttl)) =>
        if !SignedBy(key, SignedPart(f), f.signature) then Permission
        else if TooFarAhead(issued, ttl, now) then InvalidArgument
        else if Expired(issued, ttl, now) then Timeout
        else
          (match Base64Url.Decode(f.payload)
           case None => InvalidArgument
           case Some(data) => Ok(data))
      case _ => InvalidArgument
  }

  /** `mcp_mrtr_state_pack_raw_ex`; an absent key is an empty one. */
  method PackRaw(data: bytes, key: bytes, issued: uint64, ttl: uint64) returns (token: bytes)
    ensures token == Pack(data, key, issued, ttl)
  {
    hide Base64Url.Encode, Sha256.Hmac, ToDecimal;
    var payload := Base64Url.EncodeLoop(data);
    var meta := [DOT] + ToDecimal(issued) + [DOT] + ToDecimal(ttl);
    var part := payload + meta;
    ghost var f := FieldsOf(data, key, issued, ttl);
    assert part == SignedPart(f);
    var sig := UNSIGNED;
    if |key| > 0 {
      var mac := Sha256.HmacSha256(key, part);
      sig := Base64Url.EncodeLoop(mac);
    }
    token := part + [DOT] + sig;
  }

  /** `mcp_mrtr_state_unpack_raw_ex` on the text up to its first NUL. */
  method UnpackRaw(text: bytes, key: bytes, now: uint64) returns (r: Unpacked)
    ensures r == Unpack(CStr(text), key, now)
  {
    hide Base64Url.Decode, Sha256.Hmac, Uint64, Find, CStr;
    var s := CStr(text);
    var p1 := Find(s, DOT);
    if p1 == |s| { return InvalidArgument; }
    var s1 := s[p1 + 1..];
    var p2 := Find(s1, DOT);
    if p2 == |s1| { return InvalidArgument; }
    var s2 := s1[p2 + 1..];
    var p3 := Find(s2, DOT);
    if p3 == |s2| { return InvalidArgument; }
    var s3 := s2[p3 + 1..];
    if Find(s3, DOT) != |s3| { return InvalidArgument; }
    ghost var f := Fields(s[..p1], s1[..p2], s2[..p3], s3);
    assert Split(s) == Some(f);
    var part := s[..p1 + p2 + p3 + 2];
    assert part == SignedPart(f) by { SplitExact(s, f); assert s == Joined(f); }
    var issued := ParseUint64(s1[..p2]);
    if issued.None? { return InvalidArgument; }
    var ttl := ParseUint64(s2[..p3]);
    if ttl.None? { return InvalidArgument; }
    var signed := CheckSignature(key, part, s3);
    if !signed { return Permission; }
    if ttl.value > 0 {
      if now < issued.value && issued.value - now > MAX_SKEW { return InvalidArgument; }
      if now > (issued.value + ttl.value) % UINT64 { return Timeout; }
    }
    var data := Base64Url.DecodeLoop(s[..p1]);
    return if data.None? then InvalidArgument else Ok(data.value);
  }

  method CheckSignature(key: bytes, part: bytes, sig: bytes) returns (ok: bool)
    ensures ok <==> SignedBy(key, part, sig)
  {
    hide Base64Url.Decode, Sha256.Hmac;
    UnsignedIsNoHmac();
    if |key| == 0 { return sig == UNSIGNED; }
    if sig == UNSIGNED { return false; }
    var mac := Base64Url.DecodeLoop(sig);
    if mac.None? || |mac.value| != 32 { return false; }
    var expected := Sha256.HmacSha256(key, part);
    ok := SubtleEqual(expected, mac.value);
  }

  // Round trip.

  lemma EncodedHasNoDots(data: bytes)
    ensures DOT !in Base64Url.Encode(data)
  {
    hide Base64Url.Sextets, Base64Url.Alphabet;
    var vs := Base64Url.Sextets(data);
    forall i | 0 <= i < |vs|
      ensures Base64Url.Encode(data)[i] != DOT
    {
      Base64Url.CharOfValue(vs[i]);
    }
  }

  lemma PackedFields(data: bytes, key: bytes, issued: uint64, ttl: uint64)
    ensures Split(Pack(data, key, issued, ttl)) == Some(FieldsOf(data, key, issued, ttl))
  {
    hide Base64Url.Encode, Sha256.Hmac, ToDecimal, Split, Joined;
    var f := FieldsOf(data, key, issued, ttl);
    EncodedHasNoDots(data);
    EncodedHasNoDots(Sha256.Hmac(key, SignedPart(f)));
    SplitExact(Joined(f), f);
  }

  predicate SameSignature(key: bytes, key': bytes, part: bytes) {
    if key == [] || key' == [] then key == key' else Sha256.Hmac(key, part) == Sha256.Hmac(key', part)
  }

  lemma SignatureChecks(key: bytes, key': bytes, part: bytes)
    ensures SignedBy(key', part, Signature(key, part)) <==> SameSignature(key, key', part)
  {
    hide Base64Url.Decode, Base64Url.Encode, Sha256.Hmac;
    Base64Url.DecodeEncode(Sha256.Hmac(key, part));
    UnsignedIsNoHmac();
    EncodedLength(Sha256.Hmac(key, part));
  }

  /** What unpacking answers for every packed token, every key and every time. */
  lemma UnpackPacked(data: bytes, key: bytes, issued: uint64, ttl: uint64, key': bytes, now: uint64)
    ensures var part := SignedPart(FieldsOf(data, key, issued, ttl));
            Unpack(Pack(data, key, issued, ttl), key', now) ==
            if !SameSignature(key, key', part) then Permission
            else if ttl > 0 && issued > now + 10000 then InvalidArgument
            else if ttl > 0 && now > (issued + ttl) % 0x1_0000_0000_0000_0000 then Timeout
            else Ok(data)
  {
    hide Base64Url.Decode, Base64Url.Encode, Sha256.Hmac, ToDecimal, Uint64, Split, Pack, SignedBy, SameSignature,
         Signature;
    var f := FieldsOf(data, key, issued, ttl);
    PackedFields(data, key, issued, ttl);
    PrintedParses(issued);
    PrintedParses(ttl);
    SignatureChecks(key, key', SignedPart(f));
    Base64Url.DecodeEncode(data);
  }

  /** Without a key the token says so, in the fields' order. */
  lemma UnsignedText(data: bytes, issued: uint64, ttl: uint64)
    ensures Pack(data, [], issued, ttl)
         == Base64Url.Encode(data) + [0x2E] + ToDecimal(issued) + [0x2E] + ToDecimal(ttl)
            + [0x2E, 0x75, 0x6E, 0x73, 0x69, 0x67, 0x6E, 0x65, 0x64]
  {
    hide Base64Url.Encode, ToDecimal;
  }

  /** Different contents never share a signed part, so one signature vouches for one content. */
  lemma SignedPartInjective(d1: bytes, i1: uint64, t1: uint64, d2: bytes, i2: uint64, t2: uint64)
    requires SignedPart(FieldsOf(d1, [], i1, t1)) == SignedPart(FieldsOf(d2, [], i2, t2))
    ensures d1 == d2 && i1 == i2 && t1 == t2
  {
    hide Base64Url.Decode, Base64Url.Encode, ToDecimal, Uint64, Split;
    PackedFields(d1, [], i1, t1);
    PackedFields(d2, [], i2, t2);
    PrintedParses(i1);
    PrintedParses(i2);
    PrintedParses(t1);
    PrintedParses(t2);
    Base64Url.DecodeEncode(d1);
    Base64Url.DecodeEncode(d2);
  }

  // What an accepted token is.

  predicate NoLeadingZero(s: bytes) {
    |s| > 1 ==> s[0] != 0x30
  }

  /** Fields spelled the way packing spells them. */
  predicate CanonicalFields(f: Fields) {
    && NoLeadingZero(f.issued) && NoLeadingZero(f.ttl)
    && Base64Url.Spelled(f.payload) && Base64Url.Canonical(f.payload) == f.payload
    && (f.signature != UNSIGNED ==> Base64Url.Spelled(f.signature) && Base64Url.Canonical(f.signature) == f.signature)
  }

  /**
    Whatever text is accepted carries a decodable signature of its own signed
    part, and a text in canonical spelling is accepted only if it is what
    packing its content under the same key yields.
   */
  lemma AcceptedIsPacked(s: bytes, key: bytes, now: uint64)
    requires Unpack(s, key, now).Ok?
    ensures var f := Split(s).value;
            && Uint64(f.issued).Some? && Uint64(f.ttl).Some? && SignedBy(key, SignedPart(f), f.signature)
            && !TooFarAhead(Uint64(f.issued).value, Uint64(f.ttl).value, now)
            && !Expired(Uint64(f.issued).value, Uint64(f.ttl).value, now)
            && (CanonicalFields(f) ==>
                  s == Pack(Unpack(s, key, now).data, key, Uint64(f.issued).value, Uint64(f.ttl).value))
  {
    hide Base64Url.Decode, Base64Url.Encode, Base64Url.Canonical, Base64Url.Spelled, Sha256.Hmac, ToDecimal, Split;
    var f := Split(s).value;
    SplitExact(s, f);
    UnsignedIsNoHmac();
    if CanonicalFields(f) {
      Base64Url.EncodeDecode(f.payload);
      PrintedDecimal(f.issued);
      PrintedDecimal(f.ttl);
      if key != [] {
        Base64Url.EncodeDecode(f.signature);
      }
    }
  }

  // Expiry.

  /** Expiry as documented: past the issue time plus the time to live. */
  predicate PastDeadline(issued: uint64, ttl: uint64, now: uint64) {
    ttl > 0 && now > issued + ttl
  }

  /** The code's expiry test is the documented one at every time exactly when the deadline fits in 64 bits. */
  lemma ExpiryExact(issued: uint64, ttl: uint64)
    ensures (forall now: uint64 :: Expired(issued, ttl, now) == PastDeadline(issued, ttl, now))
            <==> issued + ttl < UINT64
  {
    if issued + ttl < UINT64 {
      DivMod(issued + ttl, 0, UINT64, issued + ttl);
    } else {
      DivMod(issued + ttl, 1, UINT64, issued + ttl - UINT64);
      var last: uint64 := UINT64 - 1;
      assert Expired(issued, ttl, last) && !PastDeadline(issued, ttl, last);
    }
  }

  /** A token meant to last until the end of time is already expired. */
  lemma EndlessTokenExpires(data: bytes, key: bytes)
    ensures !PastDeadline(5000, UINT64 - 1, 5000)
    ensures Unpack(Pack(data, key, 5000, UINT64 - 1), key, 5000) == Timeout
  {
    hide Unpack, Pack, Sha256.Hmac;
    UnpackPacked(data, key, 5000, UINT64 - 1, key, 5000);
    DivMod(5000 + UINT64 - 1, 1, UINT64, 4999);
  }
}
