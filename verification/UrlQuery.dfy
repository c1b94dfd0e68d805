/** The query part of a URL: the key/value loop of the parser and the text the builder writes. */
module UrlQuery {
  import opened Bytes
  import opened UrlChars
  import opened PercentCoding
  import opened Wrappers

  datatype KeyVal = KeyVal(key: bytes, val: bytes)

  datatype QueryError = BadKey | BadVal | BadEscape

  type QueryResult = Result<seq<KeyVal>, QueryError>

  const KEY_STOPS: bytes := [EQUALS, SEMICOLON, AMPERSAND]
  const VAL_STOPS: bytes := [SEMICOLON, AMPERSAND]

  /** One key or value: checked against the raw query mask, then decoded. */
  function Token(t: bytes, bad: QueryError): Result<bytes, QueryError> {
    if !AllChars(t, RAW_QUERY_CHARS) then Err(bad)
    else match Decode(t, true) case None => Err(BadEscape) case Some(d) => Ok(d)
  }

  /** The value behind an '=', and what follows its separator. */
  function Value(q: bytes): (r: Result<(bytes, Option<bytes>), QueryError>)
    ensures r.Ok? && r.value.1.Some? ==> |r.value.1.value| < |q|
  {
    var v := Span(q, VAL_STOPS);
    var val :- Token(q[..v], BadVal);
    Ok((val, if v == |q| then None else Some(q[v + 1..])))
  }

  /** The entry at the front of q, and what follows its separator (None at the end of the text). */
  function Entry(q: bytes): (r: Result<(KeyVal, Option<bytes>), QueryError>)
    ensures r.Ok? && r.value.1.Some? ==> |r.value.1.value| < |q|
  {
    var k := Span(q, KEY_STOPS);
    var key :- Token(q[..k], BadKey);
    if k == |q| then Ok((KeyVal(key, []), None))
    else if q[k] == EQUALS then
      var (val, tail) :- Value(q[k + 1..]);
      Ok((KeyVal(key, val), tail))
    else Ok((KeyVal(key, []), Some(q[k + 1..])))
  }

  function Entries(q: bytes): QueryResult
    decreases |q|
  {
    var (e, rest) :- Entry(q);
    match rest
    case None => Ok([e])
    case Some(t) => var es :- Entries(t); Ok([e] + es)
  }

  /** The key/value list a query text denotes. */
  function ParseQuery(q: bytes): QueryResult {
    if q == [] then Ok([]) else Entries(q)
  }

  function Prefixed(es: seq<KeyVal>, r: QueryResult): QueryResult {
    match r
    case Err(_) => r
    case Ok(t) => Ok(es + t)
  }

  lemma PrefixedNil(r: QueryResult)
    ensures Prefixed([], r) == r
  {
    if r.Ok? {
      assert [] + r.value == r.value;
    }
  }

  lemma PrefixedStep(es: seq<KeyVal>, e: KeyVal, r: QueryResult)
    ensures Prefixed(es + [e], r) == Prefixed(es, Prefixed([e], r))
  {
    if r.Ok? {
      assert (es + [e]) + r.value == es + ([e] + r.value);
    }
  }

  lemma EntriesTurn(list: seq<KeyVal>, q: bytes, e: KeyVal, tail: Option<bytes>)
    requires Entry(q) == Ok((e, tail))
    ensures Prefixed(list, Entries(q))
         == match tail case None => Ok(list + [e]) case Some(t) => Prefixed(list + [e], Entries(t))
  {
    if tail.Some? {
      PrefixedStep(list, e, Entries(tail.value));
    }
  }

  /** The checked and decoded text of one key or value in [b, p). */
  method ReadToken(s: bytes, b: nat, p: nat, bad: QueryError) returns (r: Result<bytes, QueryError>)
    requires b <= p <= |s|
    ensures r == Token(s[b..p], bad)
  {
    var ok := IsChars(s, b, p, RAW_QUERY_CHARS);
    if !ok {
      return Err(bad);
    }
    var d := DecodePlus(s[b..p]);
    r := match d case None => Err(BadEscape) case Some(t) => Ok(t);
  }

  /** The tail of a scan that stopped at p: nothing at the end of the range, else what follows the separator. */
  function After(s: bytes, p: nat, qe: nat): Option<bytes>
    requires p <= qe <= |s|
  {
    if p == qe then None else Some(s[p + 1..qe])
  }

  /** The value starting at b and the stop p it ends at. */
  method ReadValue(s: bytes, b: nat, qe: nat) returns (r: Result<(bytes, nat), QueryError>)
    requires b <= qe <= |s|
    ensures r.Ok? ==> b <= r.value.1 <= qe
    ensures Value(s[b..qe]) == match r case Err(x) => Err(x) case Ok((val, p)) => Ok((val, After(s, p, qe)))
  {
    ghost var q := s[b..qe];
    var p := FindFirstOf(s, b, qe, VAL_STOPS);
    assert q[..p - b] == s[b..p];
    var val :- ReadToken(s, b, p, BadVal);
    assert p != qe ==> q[p - b + 1..] == s[p + 1..qe];
    return Ok((val, p));
  }

  /** One turn of the query loop: the entry starting at b and the stop p it ends at. */
  method ReadEntry(s: bytes, b: nat, qe: nat) returns (r: Result<(KeyVal, nat), QueryError>)
    requires b <= qe <= |s|
    ensures r.Ok? ==> b <= r.value.1 <= qe
    ensures Entry(s[b..qe]) == match r case Err(x) => Err(x) case Ok((e, p)) => Ok((e, After(s, p, qe)))
  {
    ghost var q := s[b..qe];
    var p := FindFirstOf(s, b, qe, KEY_STOPS);
    assert q[..p - b] == s[b..p];
    var key :- ReadToken(s, b, p, BadKey);
    if p == qe {
      return Ok((KeyVal(key, []), p));
    }
    assert q[p - b + 1..] == s[p + 1..qe];
    if s[p] != EQUALS {
      return Ok((KeyVal(key, []), p));
    }
    var value :- ReadValue(s, p + 1, qe);
    return Ok((KeyVal(key, value.0), value.1));
  }

  /** What the query loop still has to find: the entries of q behind those read so far give the goal. */
  ghost predicate Pending(goal: QueryResult, list: seq<KeyVal>, q: bytes) {
    goal == Prefixed(list, Entries(q))
  }

  /** One turn of the query loop on the list read so far; p is the stop it reaches. */
  method ReadTurn(s: bytes, b: nat, qe: nat, list: seq<KeyVal>, ghost goal: QueryResult)
    returns (r: QueryResult, p: nat)
    requires b <= qe <= |s| && Pending(goal, list, s[b..qe])
    ensures r.Err? ==> goal == r
    ensures r.Ok? ==> b <= p <= qe && if p == qe then goal == r else Pending(goal, r.value, s[p + 1..qe])
  {
    var turn := ReadEntry(s, b, qe);
    if turn.Err? {
      return Err(turn.error), b;
    }
    EntriesTurn(list, s[b..qe], turn.value.0, After(s, turn.value.1, qe));
    return Ok(list + [turn.value.0]), turn.value.1;
  }

  /** The query loop of parse_url over the range [qb, qe) of the URL text. */
  method ReadQuery(s: bytes, qb: nat, qe: nat) returns (r: QueryResult)
    requires qb <= qe <= |s|
    ensures r == ParseQuery(s[qb..qe])
  {
    if qb == qe {
      return Ok([]);
    }
    ghost var goal := ParseQuery(s[qb..qe]);
    PrefixedNil(goal);
    r := ReadEntries(s, qb, qe, goal);
  }

  method ReadEntries(s: bytes, qb: nat, qe: nat, ghost goal: QueryResult) returns (r: QueryResult)
    requires qb < qe <= |s| && Pending(goal, [], s[qb..qe])
    ensures r == goal
  {
    var b, p := qb, qb;
    r := Ok([]);
    while p != qe
      invariant qb <= b <= qe && p <= qe && r.Ok?
      invariant if p == qe then goal == r else Pending(goal, r.value, s[b..qe])
      decreases p != qe, qe - b
    {
      r, p := ReadTurn(s, b, qe, r.value, goal);
      if r.Err? {
        return;
      }
      if p != qe {
        b := p + 1;
      }
    }
  }

  // ----- building -----

  function BuildEntry(e: KeyVal): bytes {
    Encode(e.key, QUERY_CHARS, Key)
    + if e.val == [] then [] else [EQUALS] + Encode(e.val, QUERY_CHARS, Val)
  }

  /** The query text for a list of entries, or None when an entry has no key. */
  function BuildQuery(list: seq<KeyVal>): Option<bytes> {
    if list == [] then Some([])
    else if list[0].key == [] then None
    else if |list| == 1 then Some(BuildEntry(list[0]))
    else
      var t :- BuildQuery(list[1..]);
      Some(BuildEntry(list[0]) + [AMPERSAND] + t)
  }

  /** The builder's loop: the first entry, then every other one behind an '&'. */
  method WriteQuery(list: seq<KeyVal>) returns (r: Option<bytes>)
    requires list != []
    ensures r == BuildQuery(list)
  {
    if list[0].key == [] {
      return None;
    }
    var o := WriteEntry(list[0]);
    var i := 1;
    while i != |list|
      invariant 1 <= i <= |list|
      invariant BuildQuery(list) == Continued(o, list[i..])
    {
      if list[i].key == [] {
        return None;
      }
      var u := WriteEntry(list[i]);
      assert list[i..][1..] == list[i + 1..];
      ContinuedStep(o, list[i..]);
      o := o + [AMPERSAND] + u;
      i := i + 1;
    }
    r := Some(o);
  }

  method WriteEntry(e: KeyVal) returns (o: bytes)
    ensures o == BuildEntry(e)
  {
    o := WriteEncoded(e.key, QUERY_CHARS, Key);
    if e.val != [] {
      var v := WriteEncoded(e.val, QUERY_CHARS, Val);
      o := o + [EQUALS] + v;
      assert o == Encode(e.key, QUERY_CHARS, Key) + ([EQUALS] + v);
    }
  }

  /** The text o followed by the entries still to be written. */
  function Continued(o: bytes, rest: seq<KeyVal>): Option<bytes> {
    if rest == [] then Some(o)
    else
      var t :- BuildQuery(rest);
      Some(o + [AMPERSAND] + t)
  }

  lemma ContinuedStep(o: bytes, rest: seq<KeyVal>)
    requires rest != [] && rest[0].key != []
    ensures Continued(o, rest) == Continued(o + [AMPERSAND] + BuildEntry(rest[0]), rest[1..])
  {
    if |rest| > 1 && BuildQuery(rest[1..]).Some? {
      var u, t := BuildEntry(rest[0]), BuildQuery(rest[1..]).value;
      assert o + [AMPERSAND] + (u + [AMPERSAND] + t) == (o + [AMPERSAND] + u) + [AMPERSAND] + t;
    }
  }

  // ----- the round trip -----

  /** The builder fails exactly on an empty key. */
  predicate Keyed(list: seq<KeyVal>) {
    forall e :: e in list ==> e.key != []
  }

  lemma {:induction false} BuildQueryDefined(list: seq<KeyVal>)
    ensures BuildQuery(list).Some? <==> Keyed(list)
  {
    if |list| > 1 {
      BuildQueryDefined(list[1..]);
      assert list == [list[0]] + list[1..];
    }
  }

  lemma TokenOfEncoded(s: bytes, f: Flavour, bad: QueryError)
    requires f != Plain
    ensures Token(Encode(s, QUERY_CHARS, f), bad) == Ok(s)
  {
    EncodedChars(s, QUERY_CHARS, f);
    DecodeEncode(s, QUERY_CHARS, f);
  }

  lemma EntryKeyOnly(kt: bytes, key: bytes, tail: Option<bytes>)
    requires Free(kt, KEY_STOPS) && Token(kt, BadKey) == Ok(key)
    ensures Entry(kt + Following(tail)) == Ok((KeyVal(key, []), tail))
  {
    var q := kt + Following(tail);
    SpanAppend(kt, Following(tail), KEY_STOPS);
    assert q[..|kt|] == kt;
    assert tail.Some? ==> q[|kt| + 1..] == tail.value;
  }

  lemma ValueOfText(vt: bytes, val: bytes, tail: Option<bytes>)
    requires Free(vt, VAL_STOPS) && Token(vt, BadVal) == Ok(val)
    ensures Value(vt + Following(tail)) == Ok((val, tail))
  {
    var q := vt + Following(tail);
    SpanAppend(vt, Following(tail), VAL_STOPS);
    assert q[..|vt|] == vt;
    assert tail.Some? ==> q[|vt| + 1..] == tail.value;
  }

  lemma EntryKeyVal(kt: bytes, key: bytes, rest: bytes, val: bytes, tail: Option<bytes>)
    requires Free(kt, KEY_STOPS) && Token(kt, BadKey) == Ok(key)
    requires Value(rest) == Ok((val, tail))
    ensures Entry(kt + ([EQUALS] + rest)) == Ok((KeyVal(key, val), tail))
  {
    var q := kt + ([EQUALS] + rest);
    SpanAppend(kt, [EQUALS] + rest, KEY_STOPS);
    assert q[..|kt|] == kt && q[|kt| + 1..] == rest;
  }

  /** What the builder puts after an entry: nothing, or '&' and the rest. */
  function Following(tail: Option<bytes>): bytes {
    match tail case None => [] case Some(t) => [AMPERSAND] + t
  }

  /** A written entry, alone or before '&' and more text, reads back as itself. */
  lemma EntryOfBuilt(e: KeyVal, tail: Option<bytes>)
    ensures Entry(BuildEntry(e) + Following(tail)) == Ok((e, tail))
  {
    var kt, vt := Encode(e.key, QUERY_CHARS, Key), Encode(e.val, QUERY_CHARS, Val);
    EncodedChars(e.key, QUERY_CHARS, Key);
    TokenOfEncoded(e.key, Key, BadKey);
    if e.val == [] {
      EntryKeyOnly(kt, e.key, tail);
      assert BuildEntry(e) == kt;
    } else {
      EncodedChars(e.val, QUERY_CHARS, Val);
      TokenOfEncoded(e.val, Val, BadVal);
      ValueOfText(vt, e.val, tail);
      EntryKeyVal(kt, e.key, vt + Following(tail), e.val, tail);
      assert BuildEntry(e) + Following(tail) == kt + ([EQUALS] + (vt + Following(tail)));
    }
  }

  lemma BuiltEntryChars(e: KeyVal)
    ensures AllChars(BuildEntry(e), RAW_QUERY_CHARS)
  {
    var kt, vt := Encode(e.key, QUERY_CHARS, Key), Encode(e.val, QUERY_CHARS, Val);
    EncodedChars(e.key, QUERY_CHARS, Key);
    EncodedChars(e.val, QUERY_CHARS, Val);
    AllCharsConcat([EQUALS], vt, RAW_QUERY_CHARS);
    AllCharsConcat(kt, [EQUALS] + vt, RAW_QUERY_CHARS);
    assert e.val == [] ==> BuildEntry(e) == kt;
  }

  lemma {:induction false} BuiltQueryChars(list: seq<KeyVal>)
    ensures BuildQuery(list).Some? ==> AllChars(BuildQuery(list).value, RAW_QUERY_CHARS)
  {
    if list != [] {
      BuiltEntryChars(list[0]);
      BuiltQueryChars(list[1..]);
      if |list| > 1 && BuildQuery(list).Some? {
        var t := BuildQuery(list[1..]).value;
        AllCharsConcat(BuildEntry(list[0]), [AMPERSAND], RAW_QUERY_CHARS);
        AllCharsConcat(BuildEntry(list[0]) + [AMPERSAND], t, RAW_QUERY_CHARS);
      }
    }
  }

  lemma BuiltEntries(e: KeyVal, tail: Option<bytes>)
    ensures Entries(BuildEntry(e) + Following(tail))
         == match tail case None => Ok([e]) case Some(t) => Prefixed([e], Entries(t))
  {
    EntryOfBuilt(e, tail);
  }

  lemma EntriesCons(e: KeyVal, t: bytes, es: seq<KeyVal>)
    requires Entries(t) == Ok(es)
    ensures Entries(BuildEntry(e) + [AMPERSAND] + t) == Ok([e] + es)
  {
    BuiltEntries(e, Some(t));
    assert BuildEntry(e) + [AMPERSAND] + t == BuildEntry(e) + Following(Some(t));
  }

  lemma {:induction false} EntriesRoundTrip(list: seq<KeyVal>)
    requires list != [] && BuildQuery(list).Some?
    ensures BuildQuery(list).value != [] && Entries(BuildQuery(list).value) == Ok(list)
  {
    var e := list[0];
    if |list| == 1 {
      BuiltEntries(e, None);
      assert BuildEntry(e) + Following(None) == BuildEntry(e);
      assert list == [e];
    } else {
      EntriesRoundTrip(list[1..]);
      EntriesCons(e, BuildQuery(list[1..]).value, list[1..]);
      assert [e] + list[1..] == list;
    }
  }

  /** For every list whose keys are non-empty, whatever bytes it holds, the loop reads back the built text. */
  lemma QueryRoundTrip(list: seq<KeyVal>)
    requires Keyed(list)
    ensures BuildQuery(list).Some? && ParseQuery(BuildQuery(list).value) == Ok(list)
    ensures list != [] ==> BuildQuery(list).value != []
  {
    BuildQueryDefined(list);
    if list != [] {
      EntriesRoundTrip(list);
    }
  }
}
