/** The printers as picojson runs them: loops that push bytes behind an output iterator. */
module JsonPrinter {
  import opened Bytes
  import opened Json

  const INDENT_WIDTH: nat := 2

  /** serialize_str_char. */
  method WriteChar(out: bytes, c: byte) returns (r: bytes)
    ensures r == out + CharText(c)
  {
    if c == QUOTE {
      r := out + [BACKSLASH, QUOTE];
    } else if c == BACKSLASH {
      r := out + [BACKSLASH, BACKSLASH];
    } else if c == 0x2F {
      r := out + [BACKSLASH, 0x2F];
    } else if c == 0x08 {
      r := out + [BACKSLASH, 0x62];
    } else if c == 0x0C {
      r := out + [BACKSLASH, 0x66];
    } else if c == 0x0A {
      r := out + [BACKSLASH, 0x6E];
    } else if c == 0x0D {
      r := out + [BACKSLASH, 0x72];
    } else if c == 0x09 {
      r := out + [BACKSLASH, 0x74];
    } else if c < 0x20 || c == 0x7F {
      r := out + [BACKSLASH, LETTER_U, 0x30, 0x30, HexLower(c / 16), HexLower(c % 16)];
    } else {
      r := out + [c];
    }
  }

  lemma {:induction false} CharsTextSnoc(s: bytes, c: byte)
    ensures CharsText(s + [c]) == CharsText(s) + CharText(c)
  {
    if s == [] {
      assert s + [c] == [c] && CharText(c) + [] == CharText(c);
    } else {
      assert (s + [c])[1..] == s[1..] + [c];
      CharsTextSnoc(s[1..], c);
    }
  }

  lemma CharTurn(out: bytes, s: bytes, k: nat, start: bytes)
    requires k < |s| && out == start + CharsText(s[..k])
    ensures out + CharText(s[k]) == start + CharsText(s[..k + 1])
  {
    CharsTextSnoc(s[..k], s[k]);
    assert s[..k + 1] == s[..k] + [s[k]];
    Assoc(start, CharsText(s[..k]), CharText(s[k]));
  }

  /** serialize_str. */
  method WriteString(out: bytes, s: bytes) returns (r: bytes)
    ensures r == out + StringText(s)
  {
    r := out + [QUOTE];
    ghost var start := r;
    for k := 0 to |s|
      invariant r == start + CharsText(s[..k])
    {
      CharTurn(r, s, k, start);
      r := WriteChar(r, s[k]);
    }
    assert s[..|s|] == s;
    r := r + [QUOTE];
  }

  lemma {:induction false} SpacesSnoc(n: nat)
    ensures Spaces(n + 1) == Spaces(n) + [SPACE]
  {
    if n > 0 {
      SpacesSnoc(n - 1);
    }
  }

  /** _indent, called only when the indentation is not -1. */
  method WriteIndent(out: bytes, indent: Indent) returns (r: bytes)
    requires indent != -1
    ensures r == out + Break(indent)
  {
    r := out + [NEWLINE];
    ghost var start := r;
    for k := 0 to indent * INDENT_WIDTH
      invariant r == start + Spaces(k)
    {
      SpacesSnoc(k);
      Assoc(start, Spaces(k), [SPACE]);
      r := r + [SPACE];
    }
    Assoc(out, [NEWLINE], Spaces(indent * INDENT_WIDTH));
  }

  lemma WrittenAlone(t: bytes)
    ensures [] + t == t && t + [] == t
  {
  }

  /** The line end that only the outermost pretty-printed value gets. */
  function LineEnd(indent: Indent): bytes {
    if indent == 0 then [NEWLINE] else []
  }

  /** What stands before the k-th item or member. */
  function Lead(k: nat, i: Indent): bytes {
    (if k > 0 then [COMMA] else []) + Break(i)
  }

  /** The top of a loop turn. */
  method WriteLead(out: bytes, k: nat, inner: Indent) returns (r: bytes)
    ensures r == out + Lead(k, inner)
  {
    r := out;
    if k > 0 {
      r := r + [COMMA];
    }
    ghost var comma: bytes := if k > 0 then [COMMA] else [];
    WrittenAlone(out);
    assert r == out + comma;
    WrittenAlone(r);
    if inner != -1 {
      r := WriteIndent(r, inner);
    }
    Assoc(out, comma, Break(inner));
  }

  // ----- what the loops still have to write -----

  function ItemsFrom(items: seq<Value>, k: nat, i: Indent): bytes
    requires k <= |items|
  {
    if k == |items| then [] else (if k > 0 then [COMMA] else []) + ItemsText(items[k..], i)
  }

  lemma ItemsFromStep(items: seq<Value>, k: nat, i: Indent)
    requires k < |items|
    ensures ItemsFrom(items, k, i) == Lead(k, i) + (Text(items[k], i) + ItemsFrom(items, k + 1, i))
  {
    assert items[k..][1..] == items[k + 1..];
    RegroupItem(if k > 0 then [COMMA] else [], Break(i), Text(items[k], i), ItemsFrom(items, k + 1, i));
  }

  lemma RegroupItem(comma: bytes, b: bytes, t: bytes, more: bytes)
    ensures comma + (b + t + more) == (comma + b) + (t + more)
  {
  }

  function MembersFrom(ms: seq<Member>, k: nat, i: Indent): bytes
    requires k <= |ms|
  {
    if k == |ms| then [] else (if k > 0 then [COMMA] else []) + MembersText(ms[k..], i)
  }

  function KeyText(key: bytes, i: Indent): bytes {
    StringText(key) + [COLON] + if i == -1 then [] else [SPACE]
  }

  method WriteKey(out: bytes, key: bytes, inner: Indent) returns (r: bytes)
    ensures r == out + KeyText(key, inner)
  {
    r := WriteString(out, key);
    r := r + [COLON];
    if inner != -1 {
      r := r + [SPACE];
    }
  }

  lemma MembersFromStep(ms: seq<Member>, k: nat, i: Indent)
    requires k < |ms|
    ensures MembersFrom(ms, k, i)
         == Lead(k, i) + (KeyText(ms[k].key, i) + (Text(ms[k].value, i) + MembersFrom(ms, k + 1, i)))
  {
    assert ms[k..][1..] == ms[k + 1..];
    RegroupMember(if k > 0 then [COMMA] else [], Break(i), StringText(ms[k].key), if i == -1 then [] else [SPACE],
                  Text(ms[k].value, i), MembersFrom(ms, k + 1, i));
  }

  lemma RegroupMember(comma: bytes, b: bytes, key: bytes, gap: bytes, t: bytes, more: bytes)
    ensures comma + (b + key + [COLON] + gap + t + more) == (comma + b) + ((key + [COLON] + gap) + (t + more))
  {
  }

  // ----- the values -----

  /** One turn of the loop over an array. */
  lemma ItemTurn(out: bytes, items: seq<Value>, k: nat, i: Indent)
    requires k < |items|
    ensures ((out + Lead(k, i)) + Text(items[k], i)) + ItemsFrom(items, k + 1, i) == out + ItemsFrom(items, k, i)
  {
    ItemsFromStep(items, k, i);
    Regroup(out, Lead(k, i), Text(items[k], i), ItemsFrom(items, k + 1, i));
  }

  lemma Regroup(out: bytes, a: bytes, b: bytes, c: bytes)
    ensures ((out + a) + b) + c == out + (a + (b + c))
  {
  }

  /** One turn of the loop over an object. */
  lemma MemberTurn(out: bytes, ms: seq<Member>, k: nat, i: Indent)
    requires k < |ms|
    ensures (((out + Lead(k, i)) + KeyText(ms[k].key, i)) + Text(ms[k].value, i)) + MembersFrom(ms, k + 1, i)
         == out + MembersFrom(ms, k, i)
  {
    MembersFromStep(ms, k, i);
    Regroup(out + Lead(k, i), KeyText(ms[k].key, i), Text(ms[k].value, i), MembersFrom(ms, k + 1, i));
    Regroup([], out, Lead(k, i), KeyText(ms[k].key, i) + (Text(ms[k].value, i) + MembersFrom(ms, k + 1, i)));
  }

  /** _serialize. */
  method WriteValue(out: bytes, v: Value, indent: Indent) returns (r: bytes)
    ensures r == (out + Text(v, indent)) + LineEnd(indent)
    decreases v, 1
  {
    match v {
      case Null => r := out + NULL_TEXT;
      case Bool(b) => r := out + if b then TRUE_TEXT else FALSE_TEXT;
      case Int(n) => r := out + IntText(n);
      case Str(s) => r := WriteString(out, s);
      case Arr(items) => r := WriteArray(out, v, indent);
      case Obj(ms) => r := WriteObject(out, v, indent);
    }
    assert r == out + Text(v, indent);
    if indent == 0 {
      r := r + [NEWLINE];
    }
  }

  method WriteClose(out: bytes, indent: Indent, empty: bool, close: byte) returns (r: bytes)
    ensures r == out + ((if empty then [] else Break(indent)) + [close])
  {
    r := out;
    if indent != -1 && !empty {
      r := WriteIndent(r, indent);
    }
    r := r + [close];
  }

  lemma Frame(out: bytes, open: bytes, t: bytes, w: bytes, close: bytes)
    ensures (out + open + t) + (w + close) == out + (open + t + w + close)
  {
  }

  method WriteArray(out: bytes, v: Value, indent: Indent) returns (r: bytes)
    requires v.Arr?
    ensures r == out + Text(v, indent)
    decreases v, 0
  {
    var inner := if indent != -1 then indent + 1 else indent;
    r := out + [OPEN_BRACKET];
    r := WriteItems(r, v, inner);
    r := WriteClose(r, indent, v.items == [], CLOSE_BRACKET);
    Frame(out, [OPEN_BRACKET], ItemsText(v.items, inner), if v.items == [] then [] else Break(indent), [CLOSE_BRACKET]);
  }

  method WriteItems(out: bytes, v: Value, inner: Indent) returns (r: bytes)
    requires v.Arr? && inner != 0
    ensures r == out + ItemsText(v.items, inner)
    decreases v, 0, 1
  {
    r := out;
    assert v.items[0..] == v.items;
    ghost var goal := out + ItemsText(v.items, inner);
    assert r + ItemsFrom(v.items, 0, inner) == goal;
    for k := 0 to |v.items|
      invariant r + ItemsFrom(v.items, k, inner) == goal
    {
      ItemTurn(r, v.items, k, inner);
      r := WriteItem(r, v, k, inner);
    }
    WrittenAlone(r);
  }

  method WriteItem(out: bytes, v: Value, k: nat, inner: Indent) returns (r: bytes)
    requires v.Arr? && k < |v.items| && inner != 0
    ensures r == (out + Lead(k, inner)) + Text(v.items[k], inner)
    decreases v, 0, 0
  {
    r := WriteLead(out, k, inner);
    r := WriteValue(r, v.items[k], inner);
  }

  method WriteObject(out: bytes, v: Value, indent: Indent) returns (r: bytes)
    requires v.Obj?
    ensures r == out + Text(v, indent)
    decreases v, 0
  {
    var inner := if indent != -1 then indent + 1 else indent;
    r := out + [OPEN_BRACE];
    r := WriteMembers(r, v, inner);
    r := WriteClose(r, indent, v.members == [], CLOSE_BRACE);
    var close := if v.members == [] then [] else Break(indent);
    Frame(out, [OPEN_BRACE], MembersText(v.members, inner), close, [CLOSE_BRACE]);
  }

  /** Writing the members from k on behind out gives the goal, one member at a time. */
  ghost predicate Reaches(out: bytes, ms: seq<Member>, k: nat, i: Indent, goal: bytes)
    requires k <= |ms|
    decreases |ms| - k
  {
    if k == |ms| then out == goal
    else Reaches(((out + Lead(k, i)) + KeyText(ms[k].key, i)) + Text(ms[k].value, i), ms, k + 1, i, goal)
  }

  lemma {:induction false} ReachesIs(out: bytes, ms: seq<Member>, k: nat, i: Indent)
    requires k <= |ms|
    ensures Reaches(out, ms, k, i, out + MembersFrom(ms, k, i))
    decreases |ms| - k
  {
    if k == |ms| {
      WrittenAlone(out);
    } else {
      MemberTurn(out, ms, k, i);
      ReachesIs(((out + Lead(k, i)) + KeyText(ms[k].key, i)) + Text(ms[k].value, i), ms, k + 1, i);
    }
  }

  lemma MembersReached(out: bytes, ms: seq<Member>, i: Indent)
    ensures Reaches(out, ms, 0, i, out + MembersText(ms, i))
  {
    assert ms[0..] == ms;
    WrittenAlone(MembersText(ms, i));
    ReachesIs(out, ms, 0, i);
  }

  method WriteMembers(out: bytes, v: Value, inner: Indent) returns (r: bytes)
    requires v.Obj? && inner != 0
    ensures r == out + MembersText(v.members, inner)
    decreases v, 0, 1
  {
    r := out;
    ghost var goal := out + MembersText(v.members, inner);
    MembersReached(out, v.members, inner);
    for k := 0 to |v.members|
      invariant Reaches(r, v.members, k, inner, goal)
    {
      r := WriteMember(r, v, k, inner);
    }
  }

  method WriteMember(out: bytes, v: Value, k: nat, inner: Indent) returns (r: bytes)
    requires v.Obj? && k < |v.members| && inner != 0
    ensures r == ((out + Lead(k, inner)) + KeyText(v.members[k].key, inner)) + Text(v.members[k].value, inner)
    decreases v, 0, 0
  {
    var m := v.members[k];
    r := WriteLead(out, k, inner);
    r := WriteKey(r, m.key, inner);
    r := WriteValue(r, m.value, inner);
  }

  /** value::serialize. */
  method SerializeValue(v: Value, pretty: bool) returns (r: bytes)
    ensures r == Serialize(v, pretty)
  {
    r := WriteValue([], v, if pretty then 0 else -1);
    WrittenAlone(Text(v, if pretty then 0 else -1));
  }
}
