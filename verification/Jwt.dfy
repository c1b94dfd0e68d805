/** JSON web tokens: building and signing them, and taking them apart again. */
module Jwt {
  import opened Base64
  import opened Base64Laws
  import opened Bytes
  import opened Json
  import opened JsonAccepted
  import JsonGrammar
  import JsonParser
  import JsonPrinter
  import JsonRoundTrip
  import opened Wrappers

  const ALG: bytes := [0x61, 0x6C, 0x67]
  const TYP: bytes := [0x74, 0x79, 0x70]
  const ISS: bytes := [0x69, 0x73, 0x73]
  const EXP: bytes := [0x65, 0x78, 0x70]
  const IAT: bytes := [0x69, 0x61, 0x74]
  const NBF: bytes := [0x6E, 0x62, 0x66]
  const AUD: bytes := [0x61, 0x75, 0x64]

  /** An algorithm with its key: the name it goes by, and the MAC it computes. */
  datatype Algorithm = Algorithm(name: bytes, mac: bytes -> bytes)

  datatype DecodeError = NoDots | BadBase64 | BadJson(failure: JsonGrammar.Failure) | NotAnObject

  /** decoded_jwt. */
  datatype Decoded = Decoded(
    header: bytes, headerText: bytes,
    payload: bytes, payloadText: bytes,
    signature: bytes,
    headerClaims: seq<Member>, payloadClaims: seq<Member>)

  // ----- signing -----

  /** base64url without fill, the encoding of every part. */
  function Armor(x: bytes): bytes {
    Trim(Encode(x, UrlSafe), UrlSafe)
  }

  method ArmorText(x: bytes) returns (r: bytes)
    ensures r == Armor(x)
  {
    var text := EncodeText(x, UrlSafe);
    r := Trim(text, UrlSafe);
  }

  /** The header as it is signed: "alg" is added when the caller has not set it. */
  function WithAlgorithm(header: seq<Member>, alg: Algorithm): seq<Member> {
    if Find(header, ALG).Some? then header else JsonGrammar.Store(header, ALG, Str(alg.name))
  }

  /** The two parts the MAC is computed over. */
  function SignedData(header: seq<Member>, payload: seq<Member>): bytes {
    Armor(Serialize(Obj(header), false)) + [PERIOD] + Armor(Serialize(Obj(payload), false))
  }

  function SignedToken(header: seq<Member>, payload: seq<Member>, alg: Algorithm): bytes {
    var data := SignedData(WithAlgorithm(header, alg), payload);
    data + [PERIOD] + Armor(alg.mac(data))
  }

  class Builder {
    var headerClaims: seq<Member>
    var payloadClaims: seq<Member>

    constructor ()
      ensures headerClaims == [] && payloadClaims == []
    {
      headerClaims, payloadClaims := [], [];
    }

    ghost predicate Valid()
      reads this
    {
      WellFormed(Obj(headerClaims)) && WellFormed(Obj(payloadClaims))
    }

    method SetHeaderClaim(id: bytes, v: Value)
      requires Valid() && WellFormed(v)
      modifies this`headerClaims
      ensures Valid() && headerClaims == JsonGrammar.Store(old(headerClaims), id, v)
    {
      StoreWellFormed(headerClaims, id, v);
      headerClaims := JsonGrammar.Store(headerClaims, id, v);
    }

    method SetPayloadClaim(id: bytes, v: Value)
      requires Valid() && WellFormed(v)
      modifies this`payloadClaims
      ensures Valid() && payloadClaims == JsonGrammar.Store(old(payloadClaims), id, v)
    {
      StoreWellFormed(payloadClaims, id, v);
      payloadClaims := JsonGrammar.Store(payloadClaims, id, v);
    }

    /** sign: works on a copy of the header, so the builder can be used again. */
    method Sign(alg: Algorithm) returns (token: bytes)
      requires Valid()
      ensures token == SignedToken(headerClaims, payloadClaims, alg)
    {
      var objHeader := headerClaims;
      if Find(headerClaims, ALG).None? {
        objHeader := JsonGrammar.Store(objHeader, ALG, Str(alg.name));
      }
      var headerJson := JsonPrinter.SerializeValue(Obj(objHeader), false);
      var header := ArmorText(headerJson);
      var payloadJson := JsonPrinter.SerializeValue(Obj(payloadClaims), false);
      var payload := ArmorText(payloadJson);
      var data := header + [PERIOD] + payload;
      var signature := ArmorText(alg.mac(data));
      token := data + [PERIOD] + signature;
    }
  }

  lemma StoreWellFormed(ms: seq<Member>, key: bytes, v: Value)
    requires WellFormed(Obj(ms)) && WellFormed(v)
    ensures WellFormed(Obj(JsonGrammar.Store(ms, key, v)))
  {
    StoreIsMapUpdate(ms, key, v, key);
    StoreKeepsValues(ms, key, v);
  }

  lemma {:induction false} StoreKeepsValues(ms: seq<Member>, key: bytes, v: Value)
    requires WellFormed(v) && forall i :: 0 <= i < |ms| ==> WellFormed(ms[i].value)
    ensures forall i :: 0 <= i < |JsonGrammar.Store(ms, key, v)| ==> WellFormed(JsonGrammar.Store(ms, key, v)[i].value)
  {
    if ms != [] && ms[0].key != key && !Less(key, ms[0].key) {
      StoreKeepsValues(ms[1..], key, v);
    }
  }

  // ----- decoding -----

  /** base64url with the fill put back first. */
  function Unarmor(t: bytes): Option<bytes> {
    Decode(Pad(t, UrlSafe), UrlSafe)
  }

  method UnarmorText(t: bytes) returns (r: Option<bytes>)
    ensures r == Unarmor(t)
  {
    var padded := PadText(t, UrlSafe);
    r := DecodeText(padded, UrlSafe);
  }

  /** parse_claims. */
  function ClaimsOf(json: bytes): Result<seq<Member>, DecodeError> {
    match JsonGrammar.Parse(json)
    case Err(f) => Err(BadJson(f))
    case Ok(v) => if v.Obj? then Ok(v.members) else Err(NotAnObject)
  }

  method ParseClaims(json: bytes) returns (r: Result<seq<Member>, DecodeError>)
    ensures r == ClaimsOf(json)
  {
    var v := JsonParser.ParseText(json);
    if v.Err? {
      return Err(BadJson(v.error));
    }
    if !v.value.Obj? {
      return Err(NotAnObject);
    }
    r := Ok(v.value.members);
  }

  /** The three parts of a token, cut at its first two dots. */
  datatype Parts = Parts(header: bytes, payload: bytes, signature: bytes)

  function Cut(token: bytes): Option<Parts> {
    var headerEnd := Span(token, [PERIOD]);
    if headerEnd == |token| then None
    else
      var rest := token[headerEnd + 1..];
      var payloadEnd := Span(rest, [PERIOD]);
      if payloadEnd == |rest| then None
      else Some(Parts(token[..headerEnd], rest[..payloadEnd], rest[payloadEnd + 1..]))
  }

  function DecodeToken(token: bytes): Result<Decoded, DecodeError> {
    match Cut(token)
    case None => Err(NoDots)
    case Some(p) => DecodeParts(p)
  }

  function DecodeParts(p: Parts): Result<Decoded, DecodeError> {
    match Unarmor(p.header) case None => Err(BadBase64) case Some(header) =>
    match Unarmor(p.payload) case None => Err(BadBase64) case Some(payload) =>
    match Unarmor(p.signature) case None => Err(BadBase64) case Some(signature) =>
    var headerClaims :- ClaimsOf(header);
    var payloadClaims :- ClaimsOf(payload);
    Ok(Decoded(header, p.header, payload, p.payload, signature, headerClaims, payloadClaims))
  }

  /** token.find('.', from): the position of the first dot at or behind `from`, or the end for npos. */
  method FindDot(token: bytes, from: nat) returns (p: nat)
    requires from <= |token|
    ensures p == from + Span(token[from..], [PERIOD])
  {
    p := from;
    while p < |token| && token[p] != PERIOD
      invariant from <= p <= |token|
      invariant Free(token[from..p], [PERIOD])
    {
      FreeSnoc(token, from, p, [PERIOD]);
      p := p + 1;
    }
    SuffixSlices(token, from, p);
    SpanUnique(token[from..], [PERIOD], p - from);
  }

  lemma CutNowhere(token: bytes, a: nat)
    requires a == Span(token, [PERIOD]) < |token| && Span(token[a + 1..], [PERIOD]) == |token| - (a + 1)
    ensures Cut(token) == None
  {
  }

  lemma CutAt(token: bytes, a: nat, rest: bytes, n: nat, payload: bytes, signature: bytes)
    requires a == Span(token, [PERIOD]) < |token| && rest == token[a + 1..] && n == Span(rest, [PERIOD]) < |rest|
    requires rest[..n] == payload && rest[n + 1..] == signature
    ensures Cut(token) == Some(Parts(token[..a], payload, signature))
  {
  }

  lemma RestSlices(token: bytes, c: nat, b: nat)
    requires c <= b < |token|
    ensures var rest := token[c..]; rest[..b - c] == token[c..b] && rest[b - c + 1..] == token[b + 1..]
  {
    SuffixSlicesAround(token, c, b);
  }

  /** decoded_jwt's constructor; Err stands for the exception it throws. */
  method ReadToken(token: bytes) returns (r: Result<Decoded, DecodeError>)
    ensures r == DecodeToken(token)
  {
    assert token[0..] == token;
    var headerEnd := FindDot(token, 0);
    if headerEnd == |token| {
      return Err(NoDots);
    }
    var payloadEnd := FindDot(token, headerEnd + 1);
    if payloadEnd == |token| {
      CutNowhere(token, headerEnd);
      return Err(NoDots);
    }
    RestSlices(token, headerEnd + 1, payloadEnd);
    CutAt(token, headerEnd, token[headerEnd + 1..], payloadEnd - (headerEnd + 1),
          token[headerEnd + 1..payloadEnd], token[payloadEnd + 1..]);
    r := ReadParts(Parts(token[..headerEnd], token[headerEnd + 1..payloadEnd], token[payloadEnd + 1..]));
  }

  method ReadParts(p: Parts) returns (r: Result<Decoded, DecodeError>)
    ensures r == DecodeParts(p)
  {
    var header := UnarmorText(p.header);
    if header == None {
      return Err(BadBase64);
    }
    var payload := UnarmorText(p.payload);
    if payload == None {
      return Err(BadBase64);
    }
    var signature := UnarmorText(p.signature);
    if signature == None {
      return Err(BadBase64);
    }
    var headerClaims := ParseClaims(header.value);
    if headerClaims.Err? {
      return Err(headerClaims.error);
    }
    var payloadClaims := ParseClaims(payload.value);
    if payloadClaims.Err? {
      return Err(payloadClaims.error);
    }
    r := Ok(Decoded(header.value, p.header, payload.value, p.payload, signature.value,
                    headerClaims.value, payloadClaims.value));
  }

  // ----- what was signed is what is decoded -----

  lemma ArmorRoundTrip(x: bytes)
    ensures Unarmor(Armor(x)) == Some(x)
  {
    PadTrim(x, UrlSafe);
    DecodeEncode(x, UrlSafe);
  }

  /** No part of a token contains a dot. */
  lemma ArmorIsDotFree(x: bytes)
    ensures Free(Armor(x), [PERIOD])
  {
    PadTrim(x, UrlSafe);
    UndigitsDigits(x, UrlSafe);
    DigitsAreDotFree(Digits(x, UrlSafe));
  }

  lemma DigitsAreDotFree(t: bytes)
    requires AllDigits(t, UrlSafe)
    ensures Free(t, [PERIOD])
  {
    assert Sextet(UrlSafe, PERIOD) == -1;
  }

  /** The first two dots split a token whose first two parts have none. */
  lemma CutJoined(h: bytes, p: bytes, s: bytes)
    requires Free(h, [PERIOD]) && Free(p, [PERIOD])
    ensures Cut(h + [PERIOD] + p + [PERIOD] + s) == Some(Parts(h, p, s))
  {
    var token := h + [PERIOD] + p + [PERIOD] + s;
    var rest := p + ([PERIOD] + s);
    assert token == h + ([PERIOD] + rest);
    SpanAppend(h, [PERIOD] + rest, [PERIOD]);
    SpanAppend(p, [PERIOD] + s, [PERIOD]);
    assert token[|h| + 1..] == rest;
    assert token[..|h|] == h && rest[..|p|] == p && rest[|p| + 1..] == s;
  }

  lemma ClaimsRoundTrip(ms: seq<Member>)
    requires WellFormed(Obj(ms))
    ensures ClaimsOf(Serialize(Obj(ms), false))
         == if Fits(Obj(ms), JsonGrammar.MAX_DEPTH) then Ok(ms) else Err(BadJson(JsonGrammar.Syntax))
  {
    JsonRoundTrip.ParseSerialize(Obj(ms), false);
  }

  function Assembled(h: bytes, p: bytes, s: bytes,
                     hc: Result<seq<Member>, DecodeError>, pc: Result<seq<Member>, DecodeError>):
    Result<Decoded, DecodeError>
  {
    var headerClaims :- hc;
    var payloadClaims :- pc;
    Ok(Decoded(h, Armor(h), p, Armor(p), s, headerClaims, payloadClaims))
  }

  lemma DecodePartsArmored(h: bytes, p: bytes, s: bytes)
    ensures DecodeParts(Parts(Armor(h), Armor(p), Armor(s))) == Assembled(h, p, s, ClaimsOf(h), ClaimsOf(p))
  {
    ArmorRoundTrip(h);
    ArmorRoundTrip(p);
    ArmorRoundTrip(s);
  }

  lemma DecodeArmored(h: bytes, p: bytes, s: bytes)
    ensures DecodeToken(Armor(h) + [PERIOD] + Armor(p) + [PERIOD] + Armor(s))
         == Assembled(h, p, s, ClaimsOf(h), ClaimsOf(p))
  {
    ArmorIsDotFree(h);
    ArmorIsDotFree(p);
    CutJoined(Armor(h), Armor(p), Armor(s));
    DecodePartsArmored(h, p, s);
  }

  /** Decoding a signed token recovers header, claims and MAC exactly when the claims fit the parser's depth. */
  lemma DecodeSigned(header: seq<Member>, payload: seq<Member>, alg: Algorithm)
    requires WellFormed(Obj(header)) && WellFormed(Obj(payload))
    ensures var full := WithAlgorithm(header, alg);
      var data := SignedData(full, payload);
      var r := DecodeToken(SignedToken(header, payload, alg));
      if Fits(Obj(full), JsonGrammar.MAX_DEPTH) && Fits(Obj(payload), JsonGrammar.MAX_DEPTH) then
        r == Ok(Decoded(Serialize(Obj(full), false), Armor(Serialize(Obj(full), false)),
                        Serialize(Obj(payload), false), Armor(Serialize(Obj(payload), false)),
                        alg.mac(data), full, payload))
      else r == Err(BadJson(JsonGrammar.Syntax))
  {
    var full := WithAlgorithm(header, alg);
    var data := SignedData(full, payload);
    var h, p, s := Serialize(Obj(full), false), Serialize(Obj(payload), false), alg.mac(data);
    StoreWellFormed(header, ALG, Str(alg.name));
    DecodeArmored(h, p, s);
    ClaimsRoundTrip(full);
    ClaimsRoundTrip(payload);
  }

  /** The same for claims that fit, told from the token's side. */
  lemma DecodeFitting(header: seq<Member>, payload: seq<Member>, alg: Algorithm, full: seq<Member>)
    requires WellFormed(Obj(header)) && WellFormed(Obj(payload)) && full == WithAlgorithm(header, alg)
    requires Fits(Obj(full), JsonGrammar.MAX_DEPTH) && Fits(Obj(payload), JsonGrammar.MAX_DEPTH)
    ensures DecodeToken(SignedToken(header, payload, alg)).Ok?
    ensures var d := DecodeToken(SignedToken(header, payload, alg)).value;
      && d.headerClaims == full && d.payloadClaims == payload
      && d.signature == alg.mac(d.headerText + [PERIOD] + d.payloadText)
  {
    DecodeSigned(header, payload, alg);
  }

  /** What comes out of the parser has sorted keys and 64-bit integers. */
  lemma DecodedWellFormed(token: bytes)
    requires DecodeToken(token).Ok?
    ensures WellFormed(Obj(DecodeToken(token).value.headerClaims))
    ensures WellFormed(Obj(DecodeToken(token).value.payloadClaims))
  {
    var d := DecodeToken(token).value;
    AcceptedIsGood(d.header, JsonGrammar.MAX_DEPTH);
    AcceptedIsGood(d.payload, JsonGrammar.MAX_DEPTH);
  }
}
