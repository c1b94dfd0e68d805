/** picojson's input: a reader with one byte of pushback and a lazy line count. */
module JsonReader {
  import opened Bytes
  import opened Json
  import opened JsonGrammar
  import opened Wrappers

  /** The logical state of a reader: the bytes read, and whether the last of them can still be given back. */
  datatype Cursor = Cursor(pos: nat, undoable: bool)

  /** One byte, or -1 at the end of the text. */
  function Fetched(text: bytes, c: Cursor): int
    requires c.pos <= |text|
  {
    if c.pos == |text| then -1 else text[c.pos]
  }

  function AfterGet(text: bytes, c: Cursor): Cursor
    requires c.pos <= |text|
  {
    if c.pos == |text| then Cursor(c.pos, false) else Cursor(c.pos + 1, true)
  }

  function AfterUnget(c: Cursor): Cursor {
    Cursor(if c.undoable && c.pos > 0 then c.pos - 1 else c.pos, false)
  }

  /** Giving back a byte makes it the next one again; a second time, or after the end was reported, nothing happens. */
  lemma UngetLaws(text: bytes, c: Cursor)
    requires c.pos <= |text|
    ensures AfterUnget(AfterGet(text, c)).pos == c.pos
    ensures AfterUnget(AfterUnget(c)) == AfterUnget(c)
    ensures AfterUnget(c).pos + 1 >= c.pos
    ensures Fetched(text, AfterUnget(AfterGet(text, c))) == Fetched(text, c)
  {
  }

  datatype ReadCall = Get | Unget

  function Moved(text: bytes, c: Cursor, call: ReadCall): (next: Cursor)
    requires c.pos <= |text|
    ensures next.pos <= |text|
  {
    match call case Get => AfterGet(text, c) case Unget => AfterUnget(c)
  }

  function MovedAll(text: bytes, c: Cursor, calls: seq<ReadCall>): (next: Cursor)
    requires c.pos <= |text|
    ensures next.pos <= |text|
    decreases |calls|
  {
    if calls == [] then c else MovedAll(text, Moved(text, c, calls[0]), calls[1..])
  }

  /** What getc returns over a run of calls. */
  function Answers(text: bytes, c: Cursor, calls: seq<ReadCall>): seq<int>
    requires c.pos <= |text|
    decreases |calls|
  {
    if calls == [] then []
    else (if calls[0] == Get then [Fetched(text, c)] else []) + Answers(text, Moved(text, c, calls[0]), calls[1..])
  }

  lemma {:induction false} AnswersConcat(text: bytes, c: Cursor, a: seq<ReadCall>, b: seq<ReadCall>)
    requires c.pos <= |text|
    ensures Answers(text, c, a + b) == Answers(text, c, a) + Answers(text, MovedAll(text, c, a), b)
    decreases |a|
  {
    if a == [] {
      assert a + b == b;
    } else {
      assert (a + b)[1..] == a[1..] + b;
      AnswersConcat(text, Moved(text, c, a[0]), a[1..], b);
    }
  }

  lemma AnswersCons(text: bytes, c: Cursor, call: ReadCall, rest: seq<ReadCall>)
    requires c.pos <= |text|
    ensures Answers(text, c, [call] + rest)
         == (if call == Get then [Fetched(text, c)] else []) + Answers(text, Moved(text, c, call), rest)
  {
    assert ([call] + rest)[1..] == rest;
  }

  lemma SameBeforeGet(text: bytes, c: Cursor, calls: seq<ReadCall>)
    requires c.pos <= |text| && calls != [] && calls[0] == Get
    ensures Answers(text, Cursor(c.pos, false), calls) == Answers(text, c, calls)
  {
  }

  /** After a look ahead only an ungetc could tell the difference, and only where a byte could still be given back. */
  lemma SameFromHere(text: bytes, c: Cursor, calls: seq<ReadCall>)
    requires c.pos <= |text| && (calls == [] || calls[0] == Get || !c.undoable)
    ensures Answers(text, Cursor(c.pos, false), calls) == Answers(text, c, calls)
  {
    if calls == [] {
    } else if calls[0] == Get {
      SameBeforeGet(text, c, calls);
    } else {
      assert c == Cursor(c.pos, false);
    }
  }

  lemma PeekFirst(text: bytes, c: Cursor, after: seq<ReadCall>)
    requires c.pos <= |text| && (after == [] || after[0] == Get || !c.undoable)
    ensures Answers(text, c, [Get, Unget] + after) == [Fetched(text, c)] + Answers(text, c, after)
  {
    assert [Get, Unget] + after == [Get] + ([Unget] + after);
    AnswersCons(text, c, Get, [Unget] + after);
    AnswersCons(text, AfterGet(text, c), Unget, after);
    UngetLaws(text, c);
    SameFromHere(text, c, after);
  }

  /**
   * Looking one byte ahead is invisible: in any run of calls, a getc with its ungetc changes nothing of what all the
   * other calls return, unless the next call is an ungetc for an earlier byte.
   */
  lemma PeekIsInvisible(text: bytes, c: Cursor, before: seq<ReadCall>, after: seq<ReadCall>)
    requires c.pos <= |text| && (after == [] || after[0] == Get || !MovedAll(text, c, before).undoable)
    ensures var at := MovedAll(text, c, before);
      var earlier, later := Answers(text, c, before), Answers(text, at, after);
      && Answers(text, c, before + after) == earlier + later
      && Answers(text, c, before + ([Get, Unget] + after)) == earlier + ([Fetched(text, at)] + later)
  {
    AnswersConcat(text, c, before, after);
    AnswersConcat(text, c, before, [Get, Unget] + after);
    PeekFirst(text, MovedAll(text, c, before), after);
  }

  function Newlines(s: bytes): nat {
    if s == [] then 0 else Newlines(s[..|s| - 1]) + if s[|s| - 1] == NEWLINE then 1 else 0
  }

  lemma NewlinesUpTo(text: bytes, n: nat)
    requires n < |text|
    ensures Newlines(text[..n + 1]) == Newlines(text[..n]) + if text[n] == NEWLINE then 1 else 0
  {
    assert text[..n + 1][..n] == text[..n];
  }

  class Input {
    const text: bytes
    var pos: nat
    var consumed: bool
    var lineCount: int

    constructor (t: bytes)
      ensures text == t && Valid()
      ensures State() == Cursor(0, false) && Rest() == t
    {
      text, pos, consumed, lineCount := t, 0, false, 1;
    }

    ghost predicate InRange()
      reads this
    {
      pos <= |text| && (consumed ==> pos < |text|)
    }

    /** The line number is one more than the newlines before cur_. */
    ghost predicate Valid()
      reads this
    {
      InRange() && lineCount == 1 + Newlines(text[..pos])
    }

    /** The logical state: a consumed byte has been read although cur_ still points at it. */
    ghost function State(): (c: Cursor)
      requires InRange()
      reads this
      ensures c.pos <= |text| && (c.undoable ==> c.pos > 0)
    {
      Cursor(pos + if consumed then 1 else 0, consumed)
    }

    ghost function Rest(): bytes
      requires InRange()
      reads this
    {
      text[State().pos..]
    }

    /** getc. */
    method Getc() returns (c: int)
      requires Valid()
      modifies this
      ensures Valid()
      ensures c == Fetched(text, old(State())) && State() == AfterGet(text, old(State()))
      ensures c == -1 ==> Rest() == old(Rest()) == []
      ensures c != -1 ==> 0 <= c < 256 && old(Rest()) == [c] + Rest()
    {
      if consumed {
        NewlinesUpTo(text, pos);
        if text[pos] == NEWLINE {
          lineCount := lineCount + 1;
        }
        pos := pos + 1;
      }
      if pos == |text| {
        consumed := false;
        return -1;
      }
      consumed := true;
      c := text[pos];
    }

    /** ungetc. */
    method Ungetc()
      requires Valid()
      modifies this
      ensures Valid()
      ensures State() == AfterUnget(old(State()))
    {
      consumed := false;
    }

    /** cur: settles the position without looking at the byte it steps over, so a newline there is never counted. */
    method Settle() returns (p: nat)
      requires Valid()
      modifies this
      ensures InRange() && p == pos == old(State()).pos && State() == Cursor(p, false)
      ensures Valid() <==> !(old(consumed) && text[old(pos)] == NEWLINE)
    {
      if consumed {
        NewlinesUpTo(text, pos);
        consumed := false;
        pos := pos + 1;
      }
      p := pos;
    }

    /** line. */
    method Line() returns (n: int)
      requires Valid()
      ensures n == 1 + Newlines(text[..State().pos]) - if consumed && text[pos] == NEWLINE then 1 else 0
    {
      if consumed {
        NewlinesUpTo(text, pos);
      }
      n := lineCount;
    }

    /** skip_ws. */
    method SkipSpace()
      requires Valid()
      modifies this
      ensures Valid()
      ensures Rest() == SkipWs(old(Rest())) && !State().undoable
    {
      ghost var start := Rest();
      var skipping := true;
      while skipping
        invariant Valid()
        invariant SkipWs(Rest()) == SkipWs(start)
        invariant !skipping ==> Rest() == SkipWs(start) && !State().undoable
        decreases |Rest()|, skipping
      {
        ghost var before := Rest();
        var ch := Getc();
        if ch == 0x20 || ch == 0x09 || ch == 0x0A || ch == 0x0D {
          assert before[1..] == Rest();
        } else {
          Ungetc();
          assert Rest() == before;
          skipping := false;
        }
      }
    }

    /** expect. */
    method ExpectByte(expected: byte) returns (ok: bool)
      requires Valid()
      modifies this
      ensures Valid()
      ensures match Expect(old(Rest()), expected)
        case Some(r) => ok && Rest() == r
        case None => !ok && Rest() == SkipWs(old(Rest()))
    {
      SkipSpace();
      ghost var before := Rest();
      var ch := Getc();
      if ch != expected {
        Ungetc();
        assert Rest() == before;
        return false;
      }
      assert before[1..] == Rest();
      ok := true;
    }

    /** match. */
    method MatchText(pattern: bytes) returns (ok: bool)
      requires Valid()
      modifies this
      ensures Valid()
      ensures ok <==> pattern <= old(Rest())
      ensures ok ==> old(Rest()) == pattern + Rest()
    {
      ghost var start := Rest();
      for k := 0 to |pattern|
        invariant Valid()
        invariant start == pattern[..k] + Rest()
      {
        var ch := Getc();
        if ch != pattern[k] {
          assert ch != -1 ==> start[k] == ch;
          Ungetc();
          return false;
        }
        assert start == pattern[..k] + ([pattern[k]] + Rest());
      }
      assert pattern[..|pattern|] == pattern;
      ok := true;
    }
  }
}
