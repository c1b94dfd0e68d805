/** Every value the parser accepts is one the printers can carry: its text parses back to it. */
module JsonAccepted {
  import opened Bytes
  import opened Json
  import opened JsonGrammar
  import opened JsonRoundTrip
  import opened Wrappers

  // ----- keys stay sorted -----

  lemma {:induction false} LessTransitive(a: bytes, b: bytes, c: bytes)
    requires Less(a, b) && Less(b, c)
    ensures Less(a, c)
  {
    if a != [] && a[0] == b[0] && b[0] == c[0] {
      LessTransitive(a[1..], b[1..], c[1..]);
    }
  }

  lemma {:induction false} LessTotal(a: bytes, b: bytes)
    ensures a == b || Less(a, b) || Less(b, a)
  {
    if a != [] && b != [] && a[0] == b[0] {
      LessTotal(a[1..], b[1..]);
      assert a == [a[0]] + a[1..] && b == [b[0]] + b[1..];
    }
  }

  /** The value under a key, as std::map finds it. */
  function Find(ms: seq<Member>, key: bytes): Option<Value> {
    if ms == [] then None else if ms[0].key == key then Some(ms[0].value) else Find(ms[1..], key)
  }

  lemma {:induction false} FindAt(ms: seq<Member>, key: bytes, k: nat)
    requires k < |ms| && ms[k].key == key && forall i :: 0 <= i < k ==> ms[i].key != key
    ensures Find(ms, key) == Some(ms[k].value)
  {
    if k > 0 {
      FindAt(ms[1..], key, k - 1);
    }
  }

  lemma {:induction false} FindNowhere(ms: seq<Member>, key: bytes)
    requires forall i :: 0 <= i < |ms| ==> ms[i].key != key
    ensures Find(ms, key) == None
  {
    if ms != [] {
      FindNowhere(ms[1..], key);
    }
  }

  lemma SortedCons(m: Member, ms: seq<Member>)
    requires SortedKeys(ms) && (ms != [] ==> Less(m.key, ms[0].key))
    ensures SortedKeys([m] + ms)
  {
    forall j | 0 <= j < |ms| ensures Less(m.key, ms[j].key) {
      if j > 0 {
        LessTransitive(m.key, ms[0].key, ms[j].key);
      }
    }
  }

  /** Storing keeps the keys strictly sorted, sets the key and leaves every other key as it was. */
  lemma {:induction false} StoreIsMapUpdate(ms: seq<Member>, key: bytes, v: Value, other: bytes)
    requires SortedKeys(ms)
    ensures SortedKeys(Store(ms, key, v))
    ensures Store(ms, key, v)[0].key == if ms == [] || Less(key, ms[0].key) then key else ms[0].key
    ensures Find(Store(ms, key, v), other) == if other == key then Some(v) else Find(ms, other)
  {
    if ms == [] {
    } else if ms[0].key == key {
      LessIrreflexive(key);
      SortedCons(Member(key, v), ms[1..]);
    } else if Less(key, ms[0].key) {
      SortedCons(Member(key, v), ms);
      NotBefore(ms, key);
    } else {
      LessTotal(key, ms[0].key);
      StoreIsMapUpdate(ms[1..], key, v, other);
      SortedCons(ms[0], Store(ms[1..], key, v));
    }
  }

  lemma {:induction false} LessIrreflexive(a: bytes)
    ensures !Less(a, a)
  {
    if a != [] {
      LessIrreflexive(a[1..]);
    }
  }

  /** A key before the first one is not in the list. */
  lemma {:induction false} NotBefore(ms: seq<Member>, key: bytes)
    requires SortedKeys(ms) && (ms != [] ==> Less(key, ms[0].key))
    ensures Find(ms, key) == None
  {
    if ms != [] {
      LessIrreflexive(key);
      if |ms| > 1 {
        LessTransitive(key, ms[0].key, ms[1].key);
      }
      NotBefore(ms[1..], key);
    }
  }

  // ----- what is accepted -----

  predicate AllGood(items: seq<Value>, d: nat) {
    forall i :: 0 <= i < |items| ==> WellFormed(items[i]) && Fits(items[i], d)
  }

  predicate MembersGood(ms: seq<Member>, d: nat) {
    SortedKeys(ms) && forall i :: 0 <= i < |ms| ==> WellFormed(ms[i].value) && Fits(ms[i].value, d)
  }

  lemma {:induction false} StoreGood(ms: seq<Member>, key: bytes, v: Value, d: nat)
    requires MembersGood(ms, d) && WellFormed(v) && Fits(v, d)
    ensures MembersGood(Store(ms, key, v), d)
  {
    StoreIsMapUpdate(ms, key, v, key);
    StoreValues(ms, key, v, d);
  }

  lemma {:induction false} StoreValues(ms: seq<Member>, key: bytes, v: Value, d: nat)
    requires WellFormed(v) && Fits(v, d)
    requires forall i :: 0 <= i < |ms| ==> WellFormed(ms[i].value) && Fits(ms[i].value, d)
    ensures forall i :: 0 <= i < |Store(ms, key, v)| ==>
      WellFormed(Store(ms, key, v)[i].value) && Fits(Store(ms, key, v)[i].value, d)
  {
    if ms != [] && ms[0].key != key && !Less(key, ms[0].key) {
      StoreValues(ms[1..], key, v, d);
    }
  }

  /** An accepted value has sorted keys and 64-bit integers, and fits the depth it was parsed with. */
  lemma {:induction false} AcceptedIsGood(s: bytes, d: nat)
    requires ParseValue(s, d).Ok?
    ensures WellFormed(ParseValue(s, d).value.0) && Fits(ParseValue(s, d).value.0, d)
    decreases |s|, 0
  {
    var t := SkipWs(s);
    if t[0] == OPEN_BRACKET && Expect(t[1..], CLOSE_BRACKET).None? {
      AcceptedItems(t[1..], d - 1, []);
    } else if t[0] == OPEN_BRACE && Expect(t[1..], CLOSE_BRACE).None? {
      AcceptedMembers(t[1..], d, []);
    }
  }

  lemma {:induction false} AcceptedItems(s: bytes, d: nat, done: seq<Value>)
    requires AllGood(done, d) && ParseItems(s, d, done).Ok?
    ensures AllGood(ParseItems(s, d, done).value.0, d)
    decreases |s|, 1
  {
    AcceptedIsGood(s, d);
    var v, t := ParseValue(s, d).value.0, ParseValue(s, d).value.1;
    if Expect(t, COMMA).Some? {
      AcceptedItems(Expect(t, COMMA).value, d, done + [v]);
    }
  }

  lemma {:induction false} AcceptedMembers(s: bytes, d: nat, done: seq<Member>)
    requires MembersGood(done, d) && ParseMembers(s, d, done).Ok?
    ensures MembersGood(ParseMembers(s, d, done).value.0, d)
    decreases |s|, 1
  {
    var key, w := ParseKey(s).value.0, ParseKey(s).value.1;
    AcceptedIsGood(w, d);
    var v, t := ParseValue(w, d).value.0, ParseValue(w, d).value.1;
    StoreGood(done, key, v, d);
    if Expect(t, COMMA).Some? {
      AcceptedMembers(Expect(t, COMMA).value, d, Store(done, key, v));
    }
  }

  /** Whatever text a value came from, printing and parsing it again gives the same value. */
  lemma AcceptedRoundTrip(s: bytes, pretty: bool)
    requires Parse(s).Ok?
    ensures Parse(Serialize(Parse(s).value, pretty)) == Parse(s)
  {
    AcceptedIsGood(s, MAX_DEPTH);
    ParseSerialize(Parse(s).value, pretty);
  }
}
