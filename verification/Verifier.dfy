/** hmacsha::verify and verifier::verify: what a token must satisfy, and the loops that check it. */
module Verifier {
  import opened Bytes
  import opened Json
  import opened JsonAccepted
  import JsonPrinter
  import JsonRoundTrip
  import opened Jwt
  import opened Wrappers

  datatype Reason =
    | WrongAlgorithm | InvalidSignature | TokenExpired
    | MissingClaim | ClaimTypeMismatch | ClaimValueMismatch | AudienceMismatch

  /** Accepted, an error code, or an exception. */
  datatype Verdict = Accepted | Rejected(reason: Reason) | Thrown

  // ----- comparing MACs -----

  /** The comparison in hmacsha::verify, which always looks at every byte both texts have. */
  method SameBytes(res: bytes, signature: bytes) returns (matched: bool)
    ensures matched <==> res == signature
  {
    matched := true;
    var n := if |res| < |signature| then |res| else |signature|;
    for i := 0 to n
      invariant matched <==> res[..i] == signature[..i]
    {
      assert res[..i + 1] == res[..i] + [res[i]] && signature[..i + 1] == signature[..i] + [signature[i]];
      if res[i] != signature[i] {
        matched := false;
      }
    }
    if |res| != |signature| {
      matched := false;
    }
    assert res[..|res|] == res && signature[..|signature|] == signature;
  }

  // ----- sets of strings, as std::set keeps them -----

  predicate Sorted(s: seq<bytes>) {
    forall i, j :: 0 <= i < j < |s| ==> Less(s[i], s[j])
  }

  /** std::set::insert. */
  function Insert(s: seq<bytes>, x: bytes): seq<bytes> {
    if s == [] then [x]
    else if s[0] == x then s
    else if Less(x, s[0]) then [x] + s
    else [s[0]] + Insert(s[1..], x)
  }

  lemma {:induction false} InsertIsUnion(s: seq<bytes>, x: bytes)
    requires Sorted(s)
    ensures Sorted(Insert(s, x))
    ensures forall y :: y in Insert(s, x) <==> y in s || y == x
  {
    if s == [] || s[0] == x {
    } else if Less(x, s[0]) {
      forall j | 0 <= j < |s| ensures Less(x, s[j]) {
        if j > 0 {
          LessTransitive(x, s[0], s[j]);
        }
      }
    } else {
      LessTotal(x, s[0]);
      InsertIsUnion(s[1..], x);
      var r := Insert(s[1..], x);
      forall j | 0 <= j < |r| ensures Less(s[0], r[j]) {
        assert r[j] in r;
      }
      forall y ensures y in Insert(s, x) <==> y in s || y == x {
        assert s == [s[0]] + s[1..];
      }
    }
  }

  /** A sorted list is determined by its elements. */
  lemma {:induction false} SortedIsDetermined(s: seq<bytes>, t: seq<bytes>)
    requires Sorted(s) && Sorted(t) && forall x :: x in s <==> x in t
    ensures s == t
  {
    assert |t| > 0 ==> t[0] in s;
    if s == [] {
    } else {
      assert s[0] in s && s[0] in t;
      assert t[0] in t && t[0] in s;
      HeadIsLeast(s, t[0]);
      HeadIsLeast(t, s[0]);
      HeadsAgree(s[0], t[0]);
      TailElements(s);
      TailElements(t);
      SortedIsDetermined(s[1..], t[1..]);
    }
  }

  lemma HeadIsLeast(s: seq<bytes>, x: bytes)
    requires Sorted(s) && x in s
    ensures s[0] == x || Less(s[0], x)
  {
  }

  lemma HeadsAgree(a: bytes, b: bytes)
    requires (a == b || Less(a, b)) && (b == a || Less(b, a))
    ensures a == b
  {
    if Less(a, b) {
      JsonRoundTrip.LessOneWay(a, b);
    }
  }

  lemma TailElements(s: seq<bytes>)
    requires Sorted(s) && s != []
    ensures forall x :: x in s[1..] <==> x in s && x != s[0]
  {
    forall x | x in s[1..] ensures x in s && x != s[0] {
      LessIrreflexive(x);
    }
    assert s == [s[0]] + s[1..];
  }

  predicate AllStrings(items: seq<Value>) {
    forall i :: 0 <= i < |items| ==> items[i].Str?
  }

  /** The strings of an array, as a set. */
  function StringSet(items: seq<Value>): set<bytes>
    requires AllStrings(items)
  {
    set i | 0 <= i < |items| :: items[i].s
  }

  /** as_set on an array: None stands for bad_cast at an element that is not a string. */
  method AsSet(items: seq<Value>) returns (r: Option<seq<bytes>>)
    ensures r.Some? <==> AllStrings(items)
    ensures r.Some? ==> Sorted(r.value) && forall x :: x in r.value <==> x in StringSet(items)
  {
    var res: seq<bytes> := [];
    for k := 0 to |items|
      invariant AllStrings(items[..k]) && Sorted(res)
      invariant forall x :: x in res <==> x in StringSet(items[..k])
    {
      if !items[k].Str? {
        return None;
      }
      InsertIsUnion(res, items[k].s);
      StringSetSnoc(items, k);
      res := Insert(res, items[k].s);
    }
    assert items[..|items|] == items;
    r := Some(res);
  }

  lemma StringSetSnoc(items: seq<Value>, k: nat)
    requires k < |items| && AllStrings(items[..k]) && items[k].Str?
    ensures AllStrings(items[..k + 1])
    ensures forall x :: x in StringSet(items[..k + 1]) <==> x in StringSet(items[..k]) || x == items[k].s
  {
    forall x ensures x in StringSet(items[..k + 1]) <==> x in StringSet(items[..k]) || x == items[k].s {
      if x == items[k].s {
        assert items[..k + 1][k].s == x;
      }
      if x in StringSet(items[..k]) {
        var i :| 0 <= i < k && items[..k][i].s == x;
        assert items[..k + 1][i].s == x;
      }
    }
  }

  /** The loop over both sets in assert_claim_eq. */
  method SameSets(s1: seq<bytes>, s2: seq<bytes>) returns (same: bool)
    ensures same <==> s1 == s2
  {
    if |s1| != |s2| {
      return false;
    }
    var i := 0;
    while i < |s1| && i < |s2|
      invariant i <= |s1| && forall j :: 0 <= j < i ==> s1[j] == s2[j]
    {
      if s1[i] != s2[i] {
        return false;
      }
      i := i + 1;
    }
    same := true;
  }

  // ----- what a required claim asks of the payload -----

  /** get_type, with doubles left out. */
  datatype Kind = Boolean | Integer | String | Array | Object

  /** None stands for the logic_error that null raises. */
  function KindOf(v: Value): Option<Kind> {
    match v
    case Null => None
    case Bool(_) => Some(Boolean)
    case Int(_) => Some(Integer)
    case Str(_) => Some(String)
    case Arr(_) => Some(Array)
    case Obj(_) => Some(Object)
  }

  function Compared(same: bool): Verdict {
    if same then Accepted else Rejected(ClaimValueMismatch)
  }

  /** Whether a payload value satisfies a required one: equal, except that arrays are compared as sets of strings. */
  function ClaimVerdict(c: Value, payload: seq<Member>, key: bytes): Verdict {
    match Find(payload, key)
    case None => Rejected(MissingClaim)
    case Some(jc) => if KindOf(jc) == None || KindOf(c) == None then Thrown
      else if KindOf(jc) != KindOf(c) then Rejected(ClaimTypeMismatch)
      else if c.Bool? then Thrown
      else if c.Arr? then
        if !AllStrings(c.items) || !AllStrings(jc.items) then Thrown
        else Compared(StringSet(c.items) == StringSet(jc.items))
      else Compared(c == jc)
  }

  lemma SetsAgree(s1: seq<bytes>, s2: seq<bytes>, a: set<bytes>, b: set<bytes>)
    requires Sorted(s1) && Sorted(s2)
    requires (forall x :: x in s1 <==> x in a) && (forall x :: x in s2 <==> x in b)
    ensures s1 == s2 <==> a == b
  {
    if a == b {
      SortedIsDetermined(s1, s2);
    }
    if s1 == s2 {
      assert forall x :: x in a <==> x in b;
    }
  }

  /** assert_claim_eq. */
  method CheckClaim(c: Value, payload: seq<Member>, key: bytes) returns (v: Verdict)
    requires WellFormed(c) && WellFormed(Obj(payload))
    ensures v == ClaimVerdict(c, payload, key)
  {
    var found := Find(payload, key);
    if found == None {
      return Rejected(MissingClaim);
    }
    var jc := found.value;
    if KindOf(jc) == None || KindOf(c) == None {
      return Thrown;
    }
    if KindOf(jc) != KindOf(c) {
      return Rejected(ClaimTypeMismatch);
    }
    if c.Int? {
      v := Compared(c.n == jc.n);
    } else if c.Arr? {
      v := CheckArrays(c.items, jc.items);
    } else if c.Obj? {
      FoundWellFormed(payload, key);
      v := CheckObjects(c, jc);
    } else if c.Str? {
      v := Compared(c.s == jc.s);
    } else {
      v := Thrown;
    }
  }

  lemma {:induction false} FoundWellFormed(ms: seq<Member>, key: bytes)
    requires Find(ms, key).Some? && forall i :: 0 <= i < |ms| ==> WellFormed(ms[i].value)
    ensures WellFormed(Find(ms, key).value)
  {
    if ms[0].key != key {
      FoundWellFormed(ms[1..], key);
    }
  }

  method CheckArrays(a: seq<Value>, b: seq<Value>) returns (v: Verdict)
    ensures v == if AllStrings(a) && AllStrings(b) then Compared(StringSet(a) == StringSet(b)) else Thrown
  {
    var s1 := AsSet(a);
    if s1 == None {
      return Thrown;
    }
    var s2 := AsSet(b);
    if s2 == None {
      return Thrown;
    }
    var same := SameSets(s1.value, s2.value);
    SetsAgree(s1.value, s2.value, StringSet(a), StringSet(b));
    v := Compared(same);
  }

  method CheckObjects(c: Value, jc: Value) returns (v: Verdict)
    requires WellFormed(c) && WellFormed(jc)
    ensures v == Compared(c == jc)
  {
    var text := JsonPrinter.SerializeValue(c, false);
    var jcText := JsonPrinter.SerializeValue(jc, false);
    if text == jcText {
      JsonRoundTrip.TextIsInjective(c, jc);
    }
    v := Compared(text == jcText);
  }

  // ----- audiences -----

  /** A string as one audience, or the strings of an array; None stands for an exception. */
  function Audiences(v: Value): Option<set<bytes>> {
    if v.Str? then Some({v.s}) else if v.Arr? && AllStrings(v.items) then Some(StringSet(v.items)) else None
  }

  function AudienceVerdict(c: Value, payload: seq<Member>): Verdict {
    match Find(payload, AUD)
    case None => Rejected(AudienceMismatch)
    case Some(jc) => if Audiences(jc) == None || Audiences(c) == None then Thrown
      else if Audiences(c).value <= Audiences(jc).value then Accepted
      else Rejected(AudienceMismatch)
  }

  method ReadAudiences(v: Value) returns (r: Option<seq<bytes>>)
    ensures r.Some? <==> Audiences(v).Some?
    ensures r.Some? ==> forall x :: x in r.value <==> x in Audiences(v).value
  {
    if v.Str? {
      return Some([v.s]);
    }
    if !v.Arr? {
      return None;
    }
    r := AsSet(v.items);
  }

  /** The branch of the claim loop for "aud". */
  method CheckAudience(c: Value, payload: seq<Member>) returns (v: Verdict)
    ensures v == AudienceVerdict(c, payload)
  {
    var found := Find(payload, AUD);
    if found == None {
      return Rejected(AudienceMismatch);
    }
    var aud := ReadAudiences(found.value);
    if aud == None {
      return Thrown;
    }
    var expected := ReadAudiences(c);
    if expected == None {
      return Thrown;
    }
    for k := 0 to |expected.value|
      invariant forall j :: 0 <= j < k ==> expected.value[j] in Audiences(found.value).value
    {
      if expected.value[k] !in aud.value {
        assert expected.value[k] in Audiences(c).value;
        return Rejected(AudienceMismatch);
      }
    }
    v := Accepted;
  }

  // ----- time -----

  const NANOS: nat := 1_000_000_000

  /** The leeway of a time claim: the verifier's own claim of that name if it has one, else the default. */
  function LeewayOf(claims: map<bytes, Value>, name: bytes, fallback: nat): Option<int> {
    if name !in claims then Some(fallback) else if claims[name].Int? then Some(claims[name].n) else None
  }

  /** A time claim against the clock, in nanoseconds; an expiry is an upper bound, the others lower ones. */
  function TimeVerdict(claims: map<bytes, Value>, fallback: nat, payload: seq<Member>, name: bytes, now: int): Verdict {
    match Find(payload, name)
    case None => Accepted
    case Some(v) => if LeewayOf(claims, name, fallback) == None || !v.Int? then Thrown
      else if name == EXP then
        if now > (v.n + LeewayOf(claims, name, fallback).value) * NANOS then Rejected(TokenExpired) else Accepted
      else if now < (v.n - LeewayOf(claims, name, fallback).value) * NANOS then Rejected(TokenExpired) else Accepted
  }

  // ----- the whole check -----

  function CheckOf(key: bytes, c: Value, payload: seq<Member>): Verdict {
    if key in [EXP, IAT, NBF] then Accepted
    else if key == AUD then AudienceVerdict(c, payload)
    else ClaimVerdict(c, payload, key)
  }

  function Then(a: Verdict, b: Verdict): Verdict {
    if a == Accepted then b else a
  }

  /** The algorithm must be allowed and the MAC of the first two parts must be the signature. */
  function SignatureVerdict(algs: map<bytes, bytes -> bytes>, d: Decoded): Verdict {
    match Find(d.headerClaims, ALG)
    case Some(Str(name)) => if name !in algs then Rejected(WrongAlgorithm)
      else if algs[name](d.headerText + [PERIOD] + d.payloadText) == d.signature then Accepted
      else Rejected(InvalidSignature)
    case _ => Thrown
  }

  class TokenVerifier {
    var claims: map<bytes, Value>
    var defaultLeeway: nat
    var algs: map<bytes, bytes -> bytes>

    constructor ()
      ensures Valid() && claims == map[] && defaultLeeway == 0 && algs == map[]
    {
      claims, defaultLeeway, algs := map[], 0, map[];
    }

    ghost predicate Valid()
      reads this
    {
      forall k :: k in claims ==> WellFormed(claims[k])
    }

    method WithClaim(name: bytes, c: Value)
      requires Valid() && WellFormed(c)
      modifies this`claims
      ensures Valid() && claims == old(claims)[name := c]
    {
      claims := claims[name := c];
    }

    method AllowAlgorithm(alg: Algorithm)
      requires Valid()
      modifies this`algs
      ensures Valid() && algs == old(algs)[alg.name := alg.mac]
    {
      algs := algs[alg.name := alg.mac];
    }

    method Leeway(leeway: nat)
      requires Valid()
      modifies this`defaultLeeway
      ensures Valid() && defaultLeeway == leeway
    {
      defaultLeeway := leeway;
    }

    /** Everything that is checked in a fixed order, before the loop over the required claims. */
    function FixedPart(d: Decoded, now: int): Verdict
      reads this
    {
      Then(SignatureVerdict(algs, d),
           Then(TimeVerdict(claims, defaultLeeway, d.payloadClaims, EXP, now),
                Then(TimeVerdict(claims, defaultLeeway, d.payloadClaims, IAT, now),
                     TimeVerdict(claims, defaultLeeway, d.payloadClaims, NBF, now))))
    }

    /** What an accepted token satisfies, without any order. */
    ghost predicate Satisfied(d: Decoded, now: int)
      reads this
    {
      && SignatureVerdict(algs, d) == Accepted
      && (forall name :: name in [EXP, IAT, NBF] ==>
            TimeVerdict(claims, defaultLeeway, d.payloadClaims, name, now) == Accepted)
      && forall k :: k in claims ==> CheckOf(k, claims[k], d.payloadClaims) == Accepted
    }

    method CheckSignature(d: Decoded) returns (v: Verdict)
      ensures v == SignatureVerdict(algs, d)
    {
      var data := d.headerText + [PERIOD] + d.payloadText;
      var algo := Find(d.headerClaims, ALG);
      if algo == None || !algo.value.Str? {
        return Thrown;
      }
      if algo.value.s !in algs {
        return Rejected(WrongAlgorithm);
      }
      var matched := SameBytes(algs[algo.value.s](data), d.signature);
      v := if matched then Accepted else Rejected(InvalidSignature);
    }

    method CheckTime(payload: seq<Member>, name: bytes, now: int) returns (v: Verdict)
      ensures v == TimeVerdict(claims, defaultLeeway, payload, name, now)
    {
      var found := Find(payload, name);
      if found == None {
        return Accepted;
      }
      var leeway := LeewayOf(claims, name, defaultLeeway);
      if leeway == None || !found.value.Int? {
        return Thrown;
      }
      var date := found.value.n;
      if (if name == EXP then now > (date + leeway.value) * NANOS else now < (date - leeway.value) * NANOS) {
        return Rejected(TokenExpired);
      }
      v := Accepted;
    }

    /**
     * verify. The claims are visited in whatever order the unordered map has, so which of several failing claims
     * is reported is not determined; whether the token is accepted is.
     */
    method Verify(d: Decoded, now: int) returns (v: Verdict)
      requires Valid() && WellFormed(Obj(d.payloadClaims))
      ensures v == Accepted <==> Satisfied(d, now)
      ensures FixedPart(d, now) != Accepted ==> v == FixedPart(d, now)
      ensures FixedPart(d, now) == Accepted && v != Accepted ==>
        exists k :: k in claims && v == CheckOf(k, claims[k], d.payloadClaims)
    {
      v := CheckSignature(d);
      if v != Accepted {
        return;
      }
      v := CheckTime(d.payloadClaims, EXP, now);
      if v != Accepted {
        return;
      }
      v := CheckTime(d.payloadClaims, IAT, now);
      if v != Accepted {
        return;
      }
      v := CheckTime(d.payloadClaims, NBF, now);
      if v != Accepted {
        return;
      }
      v := CheckClaims(d);
    }

    method CheckClaims(d: Decoded) returns (v: Verdict)
      requires Valid() && WellFormed(Obj(d.payloadClaims))
      ensures v == Accepted <==> forall k :: k in claims ==> CheckOf(k, claims[k], d.payloadClaims) == Accepted
      ensures v != Accepted ==> exists k :: k in claims && v == CheckOf(k, claims[k], d.payloadClaims)
    {
      var rest := claims.Keys;
      while rest != {}
        invariant rest <= claims.Keys
        invariant forall k :: k in claims.Keys - rest ==> CheckOf(k, claims[k], d.payloadClaims) == Accepted
        decreases |rest|
      {
        var k :| k in rest;
        if k == EXP || k == IAT || k == NBF {
          v := Accepted;
        } else if k == AUD {
          v := CheckAudience(claims[k], d.payloadClaims);
        } else {
          v := CheckClaim(claims[k], d.payloadClaims, k);
        }
        assert v == CheckOf(k, claims[k], d.payloadClaims);
        if v != Accepted {
          return;
        }
        rest := rest - {k};
      }
      v := Accepted;
    }
  }

  // ----- the acceptance condition spelled out -----

  lemma InStringSet(items: seq<Value>)
    requires AllStrings(items)
    ensures forall x :: x in StringSet(items) <==> Str(x) in items
  {
    forall x | Str(x) in items ensures x in StringSet(items) {
      var i :| 0 <= i < |items| && items[i] == Str(x);
      assert items[i].s == x;
    }
  }

  /**
   * A required claim is met by an equal payload value. Arrays of strings are met by arrays of the same strings in any
   * order and number; booleans, nulls and arrays that hold anything else never meet a claim.
   */
  lemma ClaimAccepted(c: Value, payload: seq<Member>, key: bytes)
    ensures ClaimVerdict(c, payload, key) == Accepted <==>
      && Find(payload, key).Some? && !c.Null? && !c.Bool?
      && var jc := Find(payload, key).value;
        if c.Arr? then
          && jc.Arr? && AllStrings(c.items) && AllStrings(jc.items)
          && forall x :: Str(x) in c.items <==> Str(x) in jc.items
        else jc == c
  {
    if c.Arr? && AllStrings(c.items) && Find(payload, key).Some? {
      var jc := Find(payload, key).value;
      InStringSet(c.items);
      if jc.Arr? && AllStrings(jc.items) {
        InStringSet(jc.items);
        var a, b := StringSet(c.items), StringSet(jc.items);
        assert (forall x :: x in a <==> x in b) ==> a == b;
      }
    }
  }

  /** A string, or an array of strings. */
  predicate NamesAudiences(v: Value) {
    v.Str? || (v.Arr? && AllStrings(v.items))
  }

  /** The strings that a string or an array of strings names. */
  predicate NamesAudience(v: Value, x: bytes) {
    v == Str(x) || (v.Arr? && Str(x) in v.items)
  }

  /**
   * A required audience is met when the token's claim names every expected one; a missing claim mismatches, and a claim
   * that names none raises an exception.
   */
  lemma AudienceAccepted(c: Value, payload: seq<Member>)
    ensures var found := Find(payload, Ascii("aud"));
      AudienceVerdict(c, payload)
      == if found.None? then Rejected(AudienceMismatch)
         else if !NamesAudiences(c) || !NamesAudiences(found.value) then Thrown
         else if forall x :: NamesAudience(c, x) ==> NamesAudience(found.value, x) then Accepted
         else Rejected(AudienceMismatch)
  {
    assert AUD == Ascii("aud");
    if Find(payload, AUD).Some? && NamesAudiences(c) && NamesAudiences(Find(payload, AUD).value) {
      AudiencesAreNamed(c);
      AudiencesAreNamed(Find(payload, AUD).value);
    }
  }

  lemma AudiencesAreNamed(v: Value)
    requires NamesAudiences(v)
    ensures Audiences(v).Some? && forall x :: x in Audiences(v).value <==> NamesAudience(v, x)
  {
    if v.Arr? {
      InStringSet(v.items);
    }
  }

  /** The verifier's own claim of that name, where it has one that is a number. */
  function Allowance(claims: map<bytes, Value>, name: bytes, fallback: nat): int {
    if name in claims && claims[name].Int? then claims[name].n else fallback
  }

  /** All the time claims there are, on either side, are numbers. */
  predicate WellDated(claims: map<bytes, Value>, payload: seq<Member>) {
    forall name :: name in [EXP, IAT, NBF] ==>
      (name in claims ==> claims[name].Int?) && (Find(payload, name).Some? ==> Find(payload, name).value.Int?)
  }

  /** The three time windows, for well-typed claims. */
  lemma WindowsAccepted(claims: map<bytes, Value>, fallback: nat, payload: seq<Member>, now: int)
    requires WellDated(claims, payload)
    ensures (forall name :: name in [EXP, IAT, NBF] ==>
               TimeVerdict(claims, fallback, payload, name, now) == Accepted) <==>
      && (Find(payload, EXP).Some? ==>
            now <= (Find(payload, EXP).value.n + Allowance(claims, EXP, fallback)) * 1_000_000_000)
      && (Find(payload, IAT).Some? ==>
            now >= (Find(payload, IAT).value.n - Allowance(claims, IAT, fallback)) * 1_000_000_000)
      && (Find(payload, NBF).Some? ==>
            now >= (Find(payload, NBF).value.n - Allowance(claims, NBF, fallback)) * 1_000_000_000)
  {
    assert EXP in [EXP, IAT, NBF] && IAT in [EXP, IAT, NBF] && NBF in [EXP, IAT, NBF];
    assert EXP[0] != IAT[0] && EXP[0] != NBF[0];
  }

  /** A time claim that is there throws exactly when it, or the verifier's own claim of that name, is no number. */
  lemma IllDatedThrows(claims: map<bytes, Value>, fallback: nat, payload: seq<Member>, name: bytes, now: int)
    ensures TimeVerdict(claims, fallback, payload, name, now) == Thrown
      <==> Find(payload, name).Some? && (!Find(payload, name).value.Int? || (name in claims && !claims[name].Int?))
    ensures TimeVerdict(claims, fallback, payload, name, now) in [Accepted, Thrown, Rejected(TokenExpired)]
  {
  }
}
