/** Runs of calls on a pool of live Urls: nothing a Url caches, or leaves stale, is ever seen. */
module UrlRuns {
  import opened Bytes
  import opened UrlModel
  import opened UrlObject
  import opened UrlQuery
  import opened Wrappers

  /** One call on a Url. */
  datatype Call = Getters | QueryAt(i: nat) | AsText | NewText(s: bytes) | ClearAll | Make(c: Change)

  /** What the caller sees of a call. */
  datatype Answer =
    | Record(fields: Result<Fields, Exception>) | Entry(entry: Result<KeyVal, Exception>)
    | Text(text: Result<bytes, Exception>) | Status(status: Result<(), Exception>)

  /** The same call on a plain record of fields. */
  ghost function RecordStep(v: View, c: Call): (View, Answer) {
    match c
    case Getters => (v, Record(Shown(v)))
    case QueryAt(i) =>
      (v, Entry(match Shown(v)
                case Err(e) => Err(e)
                case Ok(f) => if i < |f.query| then Ok(f.query[i]) else Err(OutOfRange)))
    case AsText => (v, Text(TextOf(v)))
    case NewText(s) => (ParseUrl(s), Status(Ok(())))
    case ClearAll => (Ok(EMPTY), Status(Ok(())))
    case Make(ch) =>
      match Apply(v, ch)
      case Err(e) => (v, Status(Err(e)))
      case Ok(f) => (Ok(f), Status(Ok(())))
  }

  method Perform(u: Url, c: Call) returns (a: Answer)
    requires u.Valid()
    modifies u
    ensures u.Valid() && (u.Show(), a) == RecordStep(old(u.Show()), c)
  {
    match c {
      case Getters =>
        var r := u.Get();
        a := Record(r);
      case QueryAt(i) =>
        var r := u.GetQueryAt(i);
        a := Entry(r);
      case AsText =>
        var r := u.Str();
        a := Text(r);
      case NewText(s) =>
        u.SetStr(s);
        a := Status(Ok(()));
      case ClearAll =>
        u.Clear();
        a := Status(Ok(()));
      case Make(ch) =>
        var r := u.Set(ch);
        a := Status(r);
    }
  }

  // ----- several live objects -----

  /** A call on one Url of a pool, an assignment between two of them, or a fresh copy of one in the place of another. */
  datatype PoolCall = On(i: nat, c: Call) | AssignTo(i: nat, j: nat) | CopyTo(i: nat, j: nat)

  predicate AllIn(calls: seq<PoolCall>, n: nat) {
    forall c :: c in calls ==> c.i < n && (c.On? || c.j < n)
  }

  /** The same on a list of plain records. */
  ghost function PoolStep(vs: seq<View>, c: PoolCall): (seq<View>, Answer)
    requires AllIn([c], |vs|)
  {
    assert c in [c];
    match c
    case On(i, call) => var (v, a) := RecordStep(vs[i], call); (vs[i := v], a)
    case AssignTo(i, j) => (vs[i := vs[j]], Status(Ok(())))
    case CopyTo(i, j) => (vs[i := vs[j]], Status(Ok(())))
  }

  ghost function PoolRun(vs: seq<View>, calls: seq<PoolCall>): seq<Answer>
    requires AllIn(calls, |vs|)
    decreases |calls|
  {
    if calls == [] then []
    else
      assert calls[0] in calls && forall c :: c in calls[1..] ==> c in calls;
      var (ws, a) := PoolStep(vs, calls[0]);
      [a] + PoolRun(ws, calls[1..])
  }

  ghost predicate IsPool(us: seq<Url>)
    reads us
  {
    (forall i, j :: 0 <= i < j < |us| ==> us[i] != us[j]) && forall i :: 0 <= i < |us| ==> us[i].Valid()
  }

  ghost function Views(us: seq<Url>): (vs: seq<View>)
    reads us
    ensures |vs| == |us| && forall i :: 0 <= i < |us| ==> vs[i] == us[i].Show()
  {
    seq(|us|, i requires 0 <= i < |us| reads us => us[i].Show())
  }

  method Duplicate(u: Url) returns (w: Url)
    requires u.Valid()
    ensures fresh(w) && w.Valid() && w.Show() == u.Show()
  {
    w := new Url.Copy(u);
  }

  method PerformIn(us: seq<Url>, c: PoolCall) returns (a: Answer, ws: seq<Url>)
    requires IsPool(us) && AllIn([c], |us|)
    modifies us
    ensures IsPool(ws) && |ws| == |us| && forall i :: 0 <= i < |ws| ==> ws[i] in us || fresh(ws[i])
    ensures (Views(ws), a) == PoolStep(old(Views(us)), c)
  {
    assert c in [c];
    ghost var vs := Views(us);
    ws := us;
    match c {
      case On(i, call) =>
        a := Perform(us[i], call);
      case AssignTo(i, j) =>
        us[i].Assign(us[j]);
        a := Status(Ok(()));
      case CopyTo(i, j) =>
        var w := Duplicate(us[j]);
        ws := us[i := w];
        a := Status(Ok(()));
    }
    assert Views(ws) == vs[c.i := ws[c.i].Show()];
  }

  lemma PoolRunStep(vs: seq<View>, calls: seq<PoolCall>, k: nat)
    requires k < |calls| && AllIn(calls, |vs|)
    ensures AllIn(calls[k..], |vs|) && AllIn([calls[k]], |vs|) && AllIn(calls[k + 1..], |vs|)
    ensures var (ws, a) := PoolStep(vs, calls[k]); PoolRun(vs, calls[k..]) == [a] + PoolRun(ws, calls[k + 1..])
  {
    assert forall c :: c in calls[k..] ==> c in calls;
    assert forall c :: c in calls[k + 1..] ==> c in calls;
    assert calls[k] in calls && calls[k..][1..] == calls[k + 1..];
  }

  /**
   * Over every run of getters, setters, text requests, resets, copies and assignments on a pool of live Urls, each
   * answers like the plain record it shows: when it parses, what it has cached and what an assignment left stale
   * cannot be observed, and no Url is changed through another.
   */
  method Replay(us: seq<Url>, calls: seq<PoolCall>) returns (answers: seq<Answer>)
    requires IsPool(us) && AllIn(calls, |us|)
    modifies us
    ensures answers == PoolRun(old(Views(us)), calls)
  {
    answers := [];
    var ws := us;
    ghost var goal := PoolRun(Views(us), calls);
    assert calls[0..] == calls;
    for k := 0 to |calls|
      invariant IsPool(ws) && |ws| == |us| && forall i :: 0 <= i < |ws| ==> ws[i] in us || fresh(ws[i])
      invariant AllIn(calls[k..], |ws|) && goal == answers + PoolRun(Views(ws), calls[k..])
    {
      PoolRunStep(Views(ws), calls, k);
      var a;
      a, ws := PerformIn(ws, calls[k]);
      answers := answers + [a];
    }
  }
}
