/** Runs of hash, list and key commands, against maps and sequences. */
module RedisRuns {
  import opened Versions
  import opened RedisText
  import opened Redis

  datatype Command =
    | HSET(key: string, pairs: seq<(string, string)>)
    | HGET(key: string, field: string)
    | HKEYS(key: string)
    | HDEL(key: string, field: string)
    | LPUSH(key: string, elem: string)
    | RPUSH(key: string, elem: string)
    | LPOP(key: string)
    | RPOP(key: string)
    | LLEN(key: string)
    | LRANGE(key: string, start: int, stop: int)
    | DEL(keys: seq<string>)
    | EXPIRE(key: string, seconds: int)

  /** A command and the time it comes in. */
  datatype Timed = Timed(cmd: Command, now: int)

  datatype Reply = Count(n: nat) | Text(text: Option<string>) | Texts(texts: seq<string>) | Done

  /** What a client sees: a hash or a list per key, and the times set. */
  datatype State = State(values: map<string, Val>, expires: map<string, int>)

  // ------------------------------------------------------------ one command

  /** The command is about hashes, or about lists. */
  predicate OnHash(c: Command) {
    c.HSET? || c.HGET? || c.HKEYS? || c.HDEL?
  }

  predicate OnList(c: Command) {
    c.LPUSH? || c.RPUSH? || c.LPOP? || c.RPOP? || c.LLEN? || c.LRANGE?
  }

  /** Keys without underscore, used with one type; fields and elements free of separators, not empty. */
  predicate Legal(s: State, c: Command) {
    && (OnHash(c) ==> Plain(c.key) && (c.key in s.values ==> s.values[c.key].Hash?))
    && (OnList(c) ==> Plain(c.key) && (c.key in s.values ==> s.values[c.key].List?))
    && (c.HSET? ==> c.pairs != [] && forall i :: 0 <= i < |c.pairs| ==> Good(c.pairs[i].0, '$') && c.pairs[i].1 != "")
    && (c.LPUSH? || c.RPUSH? ==> Good(c.elem, '#'))
    && (c.DEL? ==> forall i :: 0 <= i < |c.keys| ==> Plain(c.keys[i]))
  }

  /** The state once the key of a command, if its time has come, is gone. */
  function Cleaned(s: State, k: string, now: int): State {
    State(Alive(s.values, s.expires, k, now), ExpiresAfter(s.expires, k, now))
  }

  function PutHash(s: State, k: string, h: map<string, string>): State {
    s.(values := if h == map[] then s.values - {k} else s.values[k := Hash(h)])
  }

  function PutList(s: State, k: string, es: seq<string>): State {
    s.(values := if es == [] then s.values - {k} else s.values[k := List(es)])
  }

  /** The hash and the list a command at some time finds. */
  function HashAt(s: State, k: string, now: int): map<string, string> {
    HashOf(Cleaned(s, k, now).values, k)
  }

  function ListAt(s: State, k: string, now: int): seq<string> {
    ListOf(Cleaned(s, k, now).values, k)
  }

  /** What a command does to the maps and sequences. */
  function Step(s: State, t: Timed): State {
    match t.cmd
    case HSET(k, pairs) => PutHash(Cleaned(s, k, t.now), k, Update(HashAt(s, k, t.now), pairs))
    case HGET(k, _) => Cleaned(s, k, t.now)
    case HKEYS(k) => Cleaned(s, k, t.now)
    case HDEL(k, field) => PutHash(Cleaned(s, k, t.now), k, HashAt(s, k, t.now) - {field})
    case LPUSH(k, elem) => PutList(Cleaned(s, k, t.now), k, [elem] + ListAt(s, k, t.now))
    case RPUSH(k, elem) => PutList(Cleaned(s, k, t.now), k, ListAt(s, k, t.now) + [elem])
    case LPOP(k) =>
      var c, es := Cleaned(s, k, t.now), ListAt(s, k, t.now);
      if es == [] then c else PutList(c, k, es[1..])
    case RPOP(k) =>
      var c, es := Cleaned(s, k, t.now), ListAt(s, k, t.now);
      if es == [] then c else PutList(c, k, es[..|es| - 1])
    case LLEN(k) => Cleaned(s, k, t.now)
    case LRANGE(k, _, _) => Cleaned(s, k, t.now)
    case DEL(keys) => State(s.values - Members(keys), s.expires - Members(keys))
    case EXPIRE(k, seconds) => s.(expires := s.expires[k := t.now + seconds])
  }

  /** What the command answers. */
  ghost predicate Answer(s: State, t: Timed, r: Reply) {
    match t.cmd
    case HSET(k, pairs) => r.Count? && r.n + |HashAt(s, k, t.now)| == |Update(HashAt(s, k, t.now), pairs)|
    case HGET(k, field) =>
      var h := HashAt(s, k, t.now);
      r == Text(if field in h then Some(h[field]) else None)
    case HKEYS(k) => r.Texts? && Distinct(r.texts) && forall f :: f in r.texts <==> f in HashAt(s, k, t.now)
    case HDEL(k, field) => r == Count(if field in HashAt(s, k, t.now) then 1 else 0)
    case LPUSH(k, _) => r == Count(|ListAt(s, k, t.now)| + 1)
    case RPUSH(k, _) => r == Count(|ListAt(s, k, t.now)| + 1)
    case LPOP(k) =>
      var es := ListAt(s, k, t.now);
      r == Text(if es == [] then None else Some(es[0]))
    case RPOP(k) =>
      var es := ListAt(s, k, t.now);
      r == Text(if es == [] then None else Some(es[|es| - 1]))
    case LLEN(k) => r == Count(|ListAt(s, k, t.now)|)
    case LRANGE(k, start, stop) => r == Texts(RangeOf(ListAt(s, k, t.now), start, stop))
    case DEL(keys) => r == Count(|s.values.Keys * Members(keys)|)
    case EXPIRE(_, _) => r == Done
  }

  /** The slice of Redis, but to the end when stop lies before the list. */
  function RangeOf(es: seq<string>, start: int, stop: int): seq<string> {
    if es == [] then [] else Slice(es, start, if stop < -|es| then -1 else stop)
  }

  // ------------------------------------------------------------ runs

  function Fold(s: State, ts: seq<Timed>): State {
    if ts == [] then s else Step(Fold(s, ts[..|ts| - 1]), ts[|ts| - 1])
  }

  /** Every command is legal when its turn comes. */
  predicate AllLegal(s: State, ts: seq<Timed>) {
    forall i :: 0 <= i < |ts| ==> LegalAt(s, ts, i)
  }

  predicate LegalAt(s: State, ts: seq<Timed>, i: nat)
    requires i < |ts|
  {
    Legal(Fold(s, ts[..i]), ts[i].cmd)
  }

  lemma FoldNext(s: State, ts: seq<Timed>, i: nat)
    requires i < |ts|
    ensures Fold(s, ts[..i + 1]) == Step(Fold(s, ts[..i]), ts[i])
  {
    assert ts[..i + 1][..i] == ts[..i];
  }

  ghost function Seen(w: RedisWrapper): State
    reads w
  {
    State(w.values, w.expires)
  }

  method HashCommand(w: RedisWrapper, t: Timed) returns (r: Reply)
    requires w.Valid() && OnHash(t.cmd) && Legal(Seen(w), t.cmd)
    modifies w
    ensures w.Valid() && Seen(w) == Step(old(Seen(w)), t) && Answer(old(Seen(w)), t, r)
  {
    hide RedisWrapper.Valid, Good, Update, Distinct;
    match t.cmd {
      case HSET(k, pairs) =>
        UpdateHas(HashOf(Cleaned(Seen(w), k, t.now).values, k), pairs);
        var n := w.Hset(k, pairs, t.now);
        r := Count(n);
      case HGET(k, field) =>
        var x := w.Hget(k, field, t.now);
        r := Text(x);
      case HKEYS(k) =>
        var fs := w.Hkeys(k, t.now);
        r := Texts(fs);
      case HDEL(k, field) =>
        var n := w.Hdel(k, field, t.now);
        r := Count(n);
    }
  }

  method ListCommand(w: RedisWrapper, t: Timed) returns (r: Reply)
    requires w.Valid() && OnList(t.cmd) && Legal(Seen(w), t.cmd)
    modifies w
    ensures w.Valid() && Seen(w) == Step(old(Seen(w)), t) && Answer(old(Seen(w)), t, r)
  {
    hide RedisWrapper.Valid, Good, Slice;
    match t.cmd {
      case LPUSH(k, elem) =>
        var n := w.Lpush(k, elem, t.now);
        r := Count(n);
      case RPUSH(k, elem) =>
        var n := w.Rpush(k, elem, t.now);
        r := Count(n);
      case LPOP(k) =>
        var x := w.Lpop(k, t.now);
        r := Text(x);
      case RPOP(k) =>
        var x := w.Rpop(k, t.now);
        r := Text(x);
      case LLEN(k) =>
        var n := w.Llen(k, t.now);
        r := Count(n);
      case LRANGE(k, start, stop) =>
        var es := w.Lrange(k, start, stop, t.now);
        r := Texts(es);
    }
  }

  /** One command does to the state, and answers, what the maps and sequences say. */
  method Execute(w: RedisWrapper, t: Timed) returns (r: Reply)
    requires w.Valid() && Legal(Seen(w), t.cmd)
    modifies w
    ensures w.Valid() && Seen(w) == Step(old(Seen(w)), t) && Answer(old(Seen(w)), t, r)
  {
    hide Inv;
    if OnHash(t.cmd) {
      r := HashCommand(w, t);
    } else if OnList(t.cmd) {
      r := ListCommand(w, t);
    } else if t.cmd.DEL? {
      var n := w.Del(t.cmd.keys);
      r := Count(n);
    } else {
      w.Expire(t.cmd.key, t.cmd.seconds, t.now);
      r := Done;
    }
  }

  /** Every run of legal commands, whatever expires meanwhile: the stored strings stand for the fold
      of the commands over maps and sequences, and every answer is the one of its turn. */
  method Run(w: RedisWrapper, ts: seq<Timed>) returns (rs: seq<Reply>)
    requires w.Valid() && AllLegal(Seen(w), ts)
    modifies w
    ensures w.Valid() && Seen(w) == Fold(old(Seen(w)), ts) && |rs| == |ts|
    ensures forall i :: 0 <= i < |ts| ==> Answer(Fold(old(Seen(w)), ts[..i]), ts[i], rs[i])
  {
    hide RedisWrapper.Valid, Legal, Step, Answer, Fold;
    ghost var s := Seen(w);
    rs := [];
    assert Fold(s, []) == s by { FoldNone(s); }
    for i := 0 to |ts|
      invariant w.Valid() && Seen(w) == Fold(s, ts[..i]) && |rs| == i
      invariant forall j :: 0 <= j < i ==> Answer(Fold(s, ts[..j]), ts[j], rs[j])
    {
      assert LegalAt(s, ts, i);
      FoldNext(s, ts, i);
      var r := Execute(w, ts[i]);
      rs := rs + [r];
    }
    assert ts[..|ts|] == ts;
  }

  lemma FoldNone(s: State)
    ensures Fold(s, []) == s
  {
  }

  // ------------------------------------------------------------ what runs keep and return

  /** The command is about k. */
  predicate Touches(c: Command, k: string) {
    if c.DEL? then k in c.keys else c.key == k
  }

  /** Commands about other keys change neither the value of a key nor its time. */
  lemma {:induction false} OthersKept(s: State, ts: seq<Timed>, k: string)
    requires forall i :: 0 <= i < |ts| ==> !Touches(ts[i].cmd, k)
    ensures var f := Fold(s, ts);
      && Look(f.values, k) == Look(s.values, k)
      && (k in f.expires <==> k in s.expires) && (k in s.expires ==> f.expires[k] == s.expires[k])
  {
    hide Step;
    if ts != [] {
      var front := ts[..|ts| - 1];
      OthersKept(s, front, k);
      OtherStep(Fold(s, front), ts[|ts| - 1], k);
    }
  }

  lemma OtherStep(s: State, t: Timed, k: string)
    requires !Touches(t.cmd, k)
    ensures var f := Step(s, t);
      && Look(f.values, k) == Look(s.values, k)
      && (k in f.expires <==> k in s.expires) && (k in s.expires ==> f.expires[k] == s.expires[k])
  {
    hide HashAt, ListAt, Update;
  }

  /** A value of the key, unless its time has come. */
  function FieldAt(s: State, k: string, v: string, now: int): Option<string> {
    if Expired(s.expires, k, now) then None else Some(v)
  }

  /** A field set, by the last of its pairs, is still there after any commands about other keys, until the
      key's time comes. */
  lemma {:induction false} FieldStays(s: State, k: string, ps: seq<(string, string)>, n: int, earlier: int,
      ts: seq<Timed>, now: int)
    requires 0 <= n < |ps| && LastPair(ps, ps[n].0, n)
    requires forall i :: 0 <= i < |ts| ==> !Touches(ts[i].cmd, k)
    ensures var s1 := Step(s, Timed(HSET(k, ps), earlier));
      var s2 := Fold(s1, ts);
      && (Expired(s2.expires, k, now) <==> Expired(s1.expires, k, now))
      && (forall r :: Answer(s2, Timed(HGET(k, ps[n].0), now), r) <==> r == Text(FieldAt(s1, k, ps[n].1, now)))
  {
    var h, s1 := HashAt(s, k, earlier), Step(s, Timed(HSET(k, ps), earlier));
    UpdateLast(h, ps, ps[n].0, n);
    OthersKept(s1, ts, k);
  }

  // ------------------------------------------------------------ expiry

  /** EXPIRE at one time, then any commands about other keys, then a command about the key. */
  function AfterExpire(s: State, k: string, seconds: int, at: int, ts: seq<Timed>): State {
    Fold(Step(s, Timed(EXPIRE(k, seconds), at)), ts)
  }

  /** A hash answers up to and at its time, and is gone after it; a value set then has no time. */
  lemma {:induction false} HashExpires(s: State, k: string, seconds: int, at: int, ts: seq<Timed>, f: string, now: int,
      r: Reply)
    requires k in s.values && s.values[k].Hash? && f in s.values[k].fields
    requires forall i :: 0 <= i < |ts| ==> !Touches(ts[i].cmd, k)
    ensures var e := AfterExpire(s, k, seconds, at, ts);
      && (Answer(e, Timed(HGET(k, f), now), r) <==>
        r == Text(if now <= at + seconds then Some(s.values[k].fields[f]) else None))
      && (now > at + seconds ==> k !in Step(e, Timed(HGET(k, f), now)).values)
      && (now > at + seconds ==> k !in Step(e, Timed(HGET(k, f), now)).expires)
  {
    OthersKept(Step(s, Timed(EXPIRE(k, seconds), at)), ts, k);
  }

  /** The same for a list. */
  lemma {:induction false} ListExpires(s: State, k: string, seconds: int, at: int, ts: seq<Timed>, now: int, r: Reply)
    requires k in s.values && s.values[k].List?
    requires forall i :: 0 <= i < |ts| ==> !Touches(ts[i].cmd, k)
    ensures var e := AfterExpire(s, k, seconds, at, ts);
      && (Answer(e, Timed(LRANGE(k, 0, -1), now), r) <==>
        r == Texts(if now <= at + seconds then s.values[k].elems else []))
      && (now > at + seconds ==> k !in Step(e, Timed(LRANGE(k, 0, -1), now)).values)
      && (now > at + seconds ==> k !in Step(e, Timed(LRANGE(k, 0, -1), now)).expires)
  {
    hide Slice, RangeOf;
    OthersKept(Step(s, Timed(EXPIRE(k, seconds), at)), ts, k);
    AllOfList(s.values[k].elems);
    AllOfList([]);
  }

  lemma AllOfList(es: seq<string>)
    ensures RangeOf(es, 0, -1) == es
  {
    if es != [] {
      SliceMeaning(es, 0, -1);
      SliceMeaning(es, 0, |es| - 1);
    }
  }

  /** A key once deleted has neither value nor time, whatever is done to other keys. */
  lemma {:induction false} DeletedGone(s: State, keys: seq<string>, at: int, ts: seq<Timed>, k: string)
    requires k in keys && forall i :: 0 <= i < |ts| ==> !Touches(ts[i].cmd, k)
    ensures var d := Fold(Step(s, Timed(DEL(keys), at)), ts);
      k !in d.values && k !in d.expires
  {
    OthersKept(Step(s, Timed(DEL(keys), at)), ts, k);
  }

  // ------------------------------------------------------------ lists

  /** Commands that append the elements of a list in turn. */
  function Pushes(k: string, es: seq<string>, now: int): (ts: seq<Timed>)
    ensures |ts| == |es| && forall i :: 0 <= i < |es| ==> ts[i] == Timed(RPUSH(k, es[i]), now)
  {
    seq(|es|, i requires 0 <= i < |es| => Timed(RPUSH(k, es[i]), now))
  }

  /** As many commands that take the first element. */
  function Pops(k: string, n: nat, now: int): (ts: seq<Timed>)
    ensures |ts| == n && forall i :: 0 <= i < n ==> ts[i] == Timed(LPOP(k), now)
  {
    seq(n, i => Timed(LPOP(k), now))
  }

  lemma PushStep(s: State, k: string, es: seq<string>, e: string, now: int)
    requires k !in s.values && k !in s.expires
    ensures Step(PutList(s, k, es), Timed(RPUSH(k, e), now)) == PutList(s, k, es + [e])
  {
  }

  lemma {:induction false} Pushed(s: State, k: string, es: seq<string>, now: int)
    requires k !in s.values && k !in s.expires
    ensures Fold(s, Pushes(k, es, now)) == PutList(s, k, es)
  {
    hide Step, Pushes;
    if es == [] {
      assert s.values - {k} == s.values;
    } else {
      hide PutList;
      var n := |es| - 1;
      Pushed(s, k, es[..n], now);
      assert Pushes(k, es, now)[..n] == Pushes(k, es[..n], now);
      PushStep(s, k, es[..n], es[n], now);
      assert es[..n] + [es[n]] == es;
    }
  }

  lemma {:induction false} Popped(s: State, k: string, es: seq<string>, n: nat, now: int)
    requires s == PutList(s, k, es) && k !in s.expires && n <= |es|
    ensures Fold(s, Pops(k, n, now)) == PutList(s, k, es[n..])
  {
    if n > 0 {
      Popped(s, k, es, n - 1, now);
      assert Pops(k, n, now)[..n - 1] == Pops(k, n - 1, now);
      assert es[n - 1..][1..] == es[n..];
    }
  }

  /** A list is a queue: what is pushed at the end comes out at the front in the same order. */
  method Queue(w: RedisWrapper, k: string, es: seq<string>, now: int) returns (out: seq<Reply>)
    requires w.Valid() && Plain(k) && AllGood(es, '#') && k !in w.values && k !in w.expires
    modifies w
    ensures w.Valid() && Seen(w) == old(Seen(w))
    ensures |out| == |es| && forall i :: 0 <= i < |es| ==> out[i] == Text(Some(es[i]))
  {
    hide RedisWrapper.Valid, Good, Fold;
    ghost var s := Seen(w);
    PushesLegal(s, k, es, now);
    var _ := Run(w, Pushes(k, es, now));
    Pushed(s, k, es, now);
    ghost var s1 := Seen(w);
    PopsLegal(s1, k, es, now);
    out := Run(w, Pops(k, |es|, now));
    Popped(s1, k, es, |es|, now);
    forall i | 0 <= i < |es|
      ensures out[i] == Text(Some(es[i]))
    {
      PopAnswer(s1, k, es, i, now, out[i]);
    }
    assert es[|es|..] == [];
    assert s1.values - {k} == s.values;
  }

  lemma PushesLegal(s: State, k: string, es: seq<string>, now: int)
    requires Plain(k) && AllGood(es, '#') && k !in s.values && k !in s.expires
    ensures AllLegal(s, Pushes(k, es, now))
  {
    hide Good, Fold;
    var ts := Pushes(k, es, now);
    forall i | 0 <= i < |ts|
      ensures LegalAt(s, ts, i)
    {
      Pushed(s, k, es[..i], now);
      assert ts[..i] == Pushes(k, es[..i], now);
    }
  }

  lemma PopsLegal(s: State, k: string, es: seq<string>, now: int)
    requires Plain(k) && s == PutList(s, k, es) && k !in s.expires
    ensures AllLegal(s, Pops(k, |es|, now))
  {
    hide Fold;
    var ts := Pops(k, |es|, now);
    forall i | 0 <= i < |ts|
      ensures LegalAt(s, ts, i)
    {
      Popped(s, k, es, i, now);
      assert ts[..i] == Pops(k, i, now);
    }
  }

  lemma PopAnswer(s: State, k: string, es: seq<string>, i: nat, now: int, r: Reply)
    requires s == PutList(s, k, es) && k !in s.expires && i < |es|
    requires Answer(Fold(s, Pops(k, |es|, now)[..i]), Pops(k, |es|, now)[i], r)
    ensures r == Text(Some(es[i]))
  {
    hide Fold, Step, Answer, PutList, Pops;
    Popped(s, k, es, i, now);
    assert Pops(k, |es|, now)[..i] == Pops(k, i, now);
    PopFirst(s, k, es[i..], now, r);
  }

  lemma PopFirst(s: State, k: string, es: seq<string>, now: int, r: Reply)
    requires k !in s.expires && es != [] && Answer(PutList(s, k, es), Timed(LPOP(k), now), r)
    ensures r == Text(Some(es[0]))
  {
    hide Members, Update, Slice, Distinct, RangeOf, HashAt;
    assert ListAt(PutList(s, k, es), k, now) == es;
  }
}
