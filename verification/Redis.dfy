/** Hash and list commands over a plain key-value store. */
module Redis {
  import opened Versions
  import opened RedisText

  type Db = map<string, string>

  /** What a command sees under a key. */
  datatype Val = Hash(fields: map<string, string>) | List(elems: seq<string>)

  /** The store: an empty value is a deletion. */
  function DbPut(db: Db, k: string, v: string): Db {
    if v == "" then db - {k} else db[k := v]
  }

  function DbGet(db: Db, k: string): string {
    if k in db then db[k] else ""
  }

  /** The field list of a hash, and back. */
  function FieldsOf(value: string): seq<string> {
    if |value| < |HASH_PREFIX| then [] else Split(value[|HASH_PREFIX|..], '$')
  }

  function HashValue(fs: seq<string>): string {
    HASH_PREFIX + Join(fs, '$')
  }

  lemma FieldsRoundTrip(fs: seq<string>)
    requires AllGood(fs, '$')
    ensures FieldsOf(HashValue(fs)) == fs && HashValue(fs) != ""
  {
    SplitJoin(fs, '$');
    assert HashValue(fs)[|HASH_PREFIX|..] == Join(fs, '$');
  }

  predicate Distinct(fs: seq<string>) {
    forall i, j :: 0 <= i < j < |fs| ==> fs[i] != fs[j]
  }

  // ------------------------------------------------------------ representation

  ghost predicate NoFields(db: Db, k: string) {
    forall f :: FieldKey(k, f) !in db
  }

  /** The stored fields of k are h, and fs lists them. */
  ghost predicate FieldsIn(db: Db, k: string, h: map<string, string>, fs: seq<string>) {
    Distinct(fs) && AllGood(fs, '$') && (forall f :: f in h <==> f in fs) && Stored(db, k, h)
  }

  ghost predicate Stored(db: Db, k: string, h: map<string, string>) {
    && (forall f :: FieldKey(k, f) in db <==> f in h)
    && (forall f :: f in h ==> FieldKey(k, f) in db && db[FieldKey(k, f)] == h[f] && h[f] != "")
  }

  ghost predicate HashRep(db: Db, k: string, h: map<string, string>) {
    && h != map[] && k in db && db[k] == HashValue(FieldsOf(db[k])) && FieldsIn(db, k, h, FieldsOf(db[k]))
  }

  ghost predicate ListRep(db: Db, k: string, es: seq<string>) {
    es != [] && AllGood(es, '#') && k in db && db[k] == Join(es, '#') && NoFields(db, k)
  }

  ghost predicate Rep(db: Db, k: string, v: Option<Val>) {
    match v
    case None => k !in db && NoFields(db, k)
    case Some(Hash(h)) => HashRep(db, k, h)
    case Some(List(es)) => ListRep(db, k, es)
  }

  function Look(values: map<string, Val>, k: string): Option<Val> {
    if k in values then Some(values[k]) else None
  }

  /** Every plain key is stored as what it stands for. */
  ghost predicate Inv(db: Db, values: map<string, Val>) {
    (forall k :: k in values ==> Plain(k)) && (forall k :: Plain(k) ==> Rep(db, k, Look(values, k)))
  }

  /** Only entries of k differ. */
  ghost predicate Only(db: Db, db': Db, k: string) {
    forall x :: x != k && !IsField(k, x) ==> (x in db <==> x in db') && (x in db && x in db' ==> db[x] == db'[x])
  }

  lemma OtherKeys(db: Db, db': Db, k: string, q: string, v: Option<Val>)
    requires Only(db, db', k) && Plain(k) && Plain(q) && k != q && Rep(db, q, v)
    ensures Rep(db', q, v)
  {
    forall f
      ensures FieldKey(q, f) in db <==> FieldKey(q, f) in db'
      ensures FieldKey(q, f) in db && FieldKey(q, f) in db' ==> db[FieldKey(q, f)] == db'[FieldKey(q, f)]
    {
      FieldsApart(k, q, f);
    }
    FieldsApart(k, q, "");
    assert q in db <==> q in db';
    assert q in db && q in db' ==> db[q] == db'[q];
  }

  /** Changing one key keeps all others. */
  lemma KeyChange(db: Db, db': Db, k: string, values: map<string, Val>, values': map<string, Val>)
    requires Inv(db, values) && Only(db, db', k) && Plain(k) && Rep(db', k, Look(values', k))
    requires forall q :: q != k ==> Look(values', q) == Look(values, q)
    ensures Inv(db', values')
  {
    forall q | Plain(q)
      ensures Rep(db', q, Look(values', q))
    {
      if q != k {
        OtherKeys(db, db', k, q, Look(values, q));
      }
    }
    forall q | q in values'
      ensures Plain(q)
    {
      assert q != k ==> Look(values', q) == Look(values, q);
    }
  }

  lemma OnlyPut(db0: Db, db: Db, k: string, x: string, v: string)
    requires Only(db0, db, k) && (x == k || IsField(k, x))
    ensures Only(db0, DbPut(db, x, v), k)
  {
  }

  // ------------------------------------------------------------ fields

  lemma PlainIsNoField(k: string, f: string)
    requires Plain(k)
    ensures FieldKey(k, f) != k
  {
    assert |FieldKey(k, f)| > |k|;
  }

  lemma ListField(fs: seq<string>, f: string)
    requires Distinct(fs) && AllGood(fs, '$') && Good(f, '$')
    ensures var r := if f in fs then fs else fs + [f];
      (forall x :: x in r <==> x in fs || x == f) && AllGood(r, '$') && Distinct(r)
  {
  }

  /** Writing a field, and listing it if it is new. */
  lemma PutField(db: Db, k: string, h: map<string, string>, fs: seq<string>, f: string, v: string)
    requires FieldsIn(db, k, h, fs) && Good(f, '$') && v != ""
    ensures FieldsIn(db[FieldKey(k, f) := v], k, h[f := v], if f in fs then fs else fs + [f])
  {
    hide Stored, Distinct, AllGood, Good;
    ListField(fs, f);
    PutStored(db, k, h, f, v);
  }

  lemma PutStored(db: Db, k: string, h: map<string, string>, f: string, v: string)
    requires Stored(db, k, h) && v != ""
    ensures Stored(db[FieldKey(k, f) := v], k, h[f := v])
  {
    hide FieldKey;
    var db', h' := db[FieldKey(k, f) := v], h[f := v];
    forall g
      ensures FieldKey(k, g) in db' <==> g in h'
      ensures g in h' ==> FieldKey(k, g) in db' && db'[FieldKey(k, g)] == h'[g] && h'[g] != ""
    {
      assert StoredAt(db, k, h, g);
      PutStoredAt(db, k, h, f, v, g);
    }
  }

  predicate StoredAt(db: Db, k: string, h: map<string, string>, g: string) {
    if g in h then FieldKey(k, g) in db && db[FieldKey(k, g)] == h[g] && h[g] != "" else FieldKey(k, g) !in db
  }

  lemma PutStoredAt(db: Db, k: string, h: map<string, string>, f: string, v: string, g: string)
    requires StoredAt(db, k, h, g) && v != ""
    ensures StoredAt(db[FieldKey(k, f) := v], k, h[f := v], g)
  {
    hide FieldKey;
    if FieldKey(k, g) == FieldKey(k, f) {
      FieldKeyInjective(k, g, f);
    }
  }

  lemma FieldsSame(db: Db, db': Db, k: string, h: map<string, string>, fs: seq<string>)
    requires
      && FieldsIn(db, k, h, fs) && Plain(k)
      && forall x :: x != k ==> (x in db <==> x in db') && (x in db && x in db' ==> db[x] == db'[x])
    ensures FieldsIn(db', k, h, fs)
  {
    forall f
      ensures FieldKey(k, f) != k
    {
      PlainIsNoField(k, f);
    }
  }

  function Without(fs: seq<string>, f: string): seq<string> {
    if fs == [] then [] else if fs[0] == f then Without(fs[1..], f) else [fs[0]] + Without(fs[1..], f)
  }

  lemma {:induction false} WithoutIn(fs: seq<string>, f: string)
    ensures forall x :: x in Without(fs, f) <==> x in fs && x != f
  {
    if fs != [] {
      WithoutIn(fs[1..], f);
      assert fs == [fs[0]] + fs[1..];
    }
  }

  lemma {:induction false} WithoutDistinct(fs: seq<string>, f: string)
    requires Distinct(fs)
    ensures Distinct(Without(fs, f))
  {
    if fs != [] {
      assert forall i :: 0 <= i < |fs[1..]| ==> fs[1..][i] == fs[i + 1];
      WithoutDistinct(fs[1..], f);
      WithoutIn(fs[1..], f);
      if fs[0] != f {
        FrontDistinct(fs[0], Without(fs[1..], f));
      }
    }
  }

  lemma FrontDistinct(x: string, fs: seq<string>)
    requires Distinct(fs) && x !in fs
    ensures Distinct([x] + fs)
  {
  }

  lemma {:induction false} WithoutFacts(fs: seq<string>, f: string)
    requires Distinct(fs) && AllGood(fs, '$')
    ensures var r := Without(fs, f);
      (forall x :: x in r <==> x in fs && x != f) && Distinct(r) && AllGood(r, '$')
  {
    hide Without, Good, Distinct;
    WithoutIn(fs, f);
    WithoutDistinct(fs, f);
    var r := Without(fs, f);
    forall i | 0 <= i < |r|
      ensures Good(r[i], '$')
    {
      assert r[i] in r;
    }
  }

  lemma DropField(db: Db, k: string, h: map<string, string>, fs: seq<string>, f: string)
    requires FieldsIn(db, k, h, fs)
    ensures FieldsIn(db - {FieldKey(k, f)}, k, h - {f}, Without(fs, f))
  {
    hide Stored, Without, Distinct, AllGood, Good;
    WithoutFacts(fs, f);
    DropStored(db, k, h, f);
  }

  lemma DropStored(db: Db, k: string, h: map<string, string>, f: string)
    requires Stored(db, k, h)
    ensures Stored(db - {FieldKey(k, f)}, k, h - {f})
  {
    hide FieldKey;
    forall g | FieldKey(k, g) == FieldKey(k, f)
      ensures g == f
    {
      FieldKeyInjective(k, g, f);
    }
  }

  // ------------------------------------------------------------ commands

  /** The fields a hash command works on. */
  function HashOf(values: map<string, Val>, k: string): map<string, string> {
    if k in values && values[k].Hash? then values[k].fields else map[]
  }

  function ListOf(values: map<string, Val>, k: string): seq<string> {
    if k in values && values[k].List? then values[k].elems else []
  }

  predicate Expired(expires: map<string, int>, k: string, now: int) {
    k in expires && expires[k] < now
  }

  /** The values once an expired key is gone. */
  function Alive(values: map<string, Val>, expires: map<string, int>, k: string, now: int): map<string, Val> {
    if Expired(expires, k, now) then values - {k} else values
  }

  /** The times once an expired key is gone. */
  function ExpiresAfter(expires: map<string, int>, k: string, now: int): map<string, int> {
    if Expired(expires, k, now) then expires - {k} else expires
  }

  /** Later pairs win. */
  function Update(h: map<string, string>, ps: seq<(string, string)>): map<string, string> {
    if ps == [] then h else Update(h, ps[..|ps| - 1])[ps[|ps| - 1].0 := ps[|ps| - 1].1]
  }

  /** The pair at i is the last one for its field. */
  predicate LastPair(ps: seq<(string, string)>, f: string, i: int) {
    0 <= i < |ps| && ps[i].0 == f && forall j :: i < j < |ps| ==> ps[j].0 != f
  }

  /** A field has the value of its last pair. */
  lemma {:induction false} UpdateLast(h: map<string, string>, ps: seq<(string, string)>, f: string, i: int)
    requires LastPair(ps, f, i)
    ensures f in Update(h, ps) && Update(h, ps)[f] == ps[i].1
  {
    var n := |ps| - 1;
    if i < n {
      assert ps[n].0 != f;
      UpdateLast(h, ps[..n], f, i);
    }
  }

  /** A field in no pair is as it was. */
  lemma {:induction false} UpdateOther(h: map<string, string>, ps: seq<(string, string)>, f: string)
    requires forall i :: 0 <= i < |ps| ==> ps[i].0 != f
    ensures (f in Update(h, ps) <==> f in h) && (f in h ==> Update(h, ps)[f] == h[f])
  {
    if ps != [] {
      UpdateOther(h, ps[..|ps| - 1], f);
    }
  }

  /** What a key stands for after its fields and itself are gone. */
  lemma Cleared(db: Db, db': Db, k: string, v: Option<Val>)
    requires Rep(db, k, v) && Plain(k) && k !in db'
    requires forall x :: x in db' ==> x in db
    requires v.Some? && v.value.Hash? ==> forall f :: f in FieldsOf(db[k]) ==> FieldKey(k, f) !in db'
    ensures Rep(db', k, None)
  {
  }

  class RedisWrapper {
    var db: Db
    var expires: map<string, int>
    ghost var values: map<string, Val>

    ghost predicate Valid()
      reads this
    {
      Inv(db, values)
    }

    constructor ()
      ensures Valid() && values == map[] && expires == map[]
    {
      db, expires, values := map[], map[], map[];
    }

    /** Sets the time at which a key expires. */
    method Expire(key: string, seconds: int, now: int)
      modifies `expires
      ensures expires == old(expires)[key := now + seconds]
    {
      expires := expires[key := now + seconds];
    }

    /** Removes the stored fields of a key, as its field list names them. */
    method RemoveFields(key: string, fs: seq<string>)
      modifies `db
      ensures Only(old(db), db, key) && (forall x :: x in db ==> x in old(db) && db[x] == old(db)[x])
      ensures (forall f :: f in fs ==> FieldKey(key, f) !in db) && (Plain(key) && key in old(db) ==> key in db)
    {
      hide FieldKey, IsField;
      for i := 0 to |fs|
        invariant Only(old(db), db, key) && (forall x :: x in db ==> x in old(db) && db[x] == old(db)[x])
        invariant
          && (forall j :: 0 <= j < i ==> FieldKey(key, fs[j]) !in db) && (Plain(key) && key in old(db) ==> key in db)
      {
        FieldKeyIs(key, fs[i]);
        if Plain(key) {
          PlainIsNoField(key, fs[i]);
        }
        db := db - {FieldKey(key, fs[i])};
      }
    }

    /** Drops a hash whose time has come. */
    method CleanHash(key: string, now: int) returns (expired: bool)
      requires Valid() && Plain(key) && (key in values ==> values[key].Hash?)
      modifies this
      ensures
        && Valid() && expired == Expired(old(expires), key, now) && values == Alive(old(values), old(expires), key, now)
      ensures expires == ExpiresAfter(old(expires), key, now)
    {
      hide FieldKey, IsField;
      expired := key in expires && expires[key] < now;
      if expired {
        ghost var db0 := db;
        RemoveFields(key, FieldsOf(DbGet(db, key)));
        db := db - {key};
        Cleared(db0, db, key, Look(values, key));
        KeyChange(db0, db, key, values, values - {key});
        expires, values := expires - {key}, values - {key};
      }
    }

    /** Drops a list whose time has come. */
    method CleanList(key: string, now: int) returns (expired: bool)
      requires Valid() && Plain(key) && (key in values ==> values[key].List?)
      modifies this
      ensures
        && Valid() && expired == Expired(old(expires), key, now) && values == Alive(old(values), old(expires), key, now)
      ensures expires == ExpiresAfter(old(expires), key, now)
    {
      hide FieldKey, IsField;
      expired := key in expires && expires[key] < now;
      if expired {
        ghost var db0 := db;
        db := db - {key};
        Cleared(db0, db, key, Look(values, key));
        KeyChange(db0, db, key, values, values - {key});
        expires, values := expires - {key}, values - {key};
      }
    }

    /** HSET: writes the fields; the answer counts the fields that are new. */
    method Hset(key: string, ps: seq<(string, string)>, now: int) returns (added: nat)
      requires Valid() && Plain(key) && (key in values ==> values[key].Hash?) && ps != []
      requires forall i :: 0 <= i < |ps| ==> Good(ps[i].0, '$') && ps[i].1 != ""
      modifies this
      ensures expires == ExpiresAfter(old(expires), key, now)
      ensures Valid()
      ensures var v := Alive(old(values), old(expires), key, now);
        var h := HashOf(v, key);
        values == v[key := Hash(Update(h, ps))] && added == |Update(h, ps)| - |h|
    {
      hide FieldKey, IsField, Good, Distinct, Update, Inv, FieldsIn, Only, HashRep;
      var _ := CleanHash(key, now);
      ghost var h, db0 := HashOf(values, key), db;
      FieldsNow(db, key, values);
      var fs := FieldsOf(DbGet(db, key));
      FieldCount(h, fs, db, key);
      fs, added := PutFields(key, ps, fs, h);
      ghost var h1 := Update(h, ps);
      UpdateHas(h, ps);
      FieldCount(h1, fs, db, key);
      StoreList(db, key, h1, fs);
      OnlyPut(db0, db, key, key, HashValue(fs));
      db := DbPut(db, key, HashValue(fs));
      KeyChange(db0, db, key, values, values[key := Hash(h1)]);
      values := values[key := Hash(h1)];
    }

    /** The loop of HSET over the pairs. */
    method PutFields(key: string, ps: seq<(string, string)>, fs0: seq<string>, ghost h: map<string, string>)
      returns (fs: seq<string>, added: nat)
      requires
        && Plain(key) && FieldsIn(db, key, h, fs0)
        && forall i :: 0 <= i < |ps| ==> Good(ps[i].0, '$') && ps[i].1 != ""
      modifies `db
      ensures Only(old(db), db, key) && FieldsIn(db, key, Update(h, ps), fs) && added == |fs| - |fs0|
    {
      hide FieldKey, IsField, Good, Distinct, FieldsIn, Only;
      fs, added := fs0, 0;
      OnlySelf(db, key);
      for i := 0 to |ps|
        invariant Only(old(db), db, key) && FieldsIn(db, key, Update(h, ps[..i]), fs) && added == |fs| - |fs0|
      {
        var (f, v) := ps[i];
        assert ps[..i + 1][..i] == ps[..i];
        PutField(db, key, Update(h, ps[..i]), fs, f, v);
        FieldKeyIs(key, f);
        OnlyPut(old(db), db, key, FieldKey(key, f), v);
        db := DbPut(db, FieldKey(key, f), v);
        if f !in fs {
          fs := fs + [f];
          added := added + 1;
        }
      }
      assert ps[..|ps|] == ps;
    }

    /** HGET. */
    method Hget(key: string, field: string, now: int) returns (r: Option<string>)
      requires Valid() && Plain(key) && (key in values ==> values[key].Hash?)
      modifies this
      ensures expires == ExpiresAfter(old(expires), key, now)
      ensures Valid() && values == Alive(old(values), old(expires), key, now)
      ensures var h := HashOf(values, key); r == (if field in h then Some(h[field]) else None)
    {
      hide FieldKey, IsField;
      var expired := CleanHash(key, now);
      if expired {
        return None;
      }
      FieldsNow(db, key, values);
      var x := FieldKey(key, field);
      return if x in db then Some(db[x]) else None;
    }

    /** HKEYS: every field once. */
    method Hkeys(key: string, now: int) returns (r: seq<string>)
      requires Valid() && Plain(key) && (key in values ==> values[key].Hash?)
      modifies this
      ensures expires == ExpiresAfter(old(expires), key, now)
      ensures Valid() && values == Alive(old(values), old(expires), key, now)
      ensures Distinct(r) && forall f :: f in r <==> f in HashOf(values, key)
    {
      hide FieldKey, IsField;
      var expired := CleanHash(key, now);
      if expired {
        return [];
      }
      FieldsNow(db, key, values);
      r := FieldsOf(DbGet(db, key));
    }

    /** HDEL: removes a field, and the key with its last one; the answer is 1 if the field was there. */
    method Hdel(key: string, field: string, now: int) returns (count: nat)
      requires Valid() && Plain(key) && (key in values ==> values[key].Hash?)
      modifies this
      ensures expires == ExpiresAfter(old(expires), key, now)
      ensures Valid()
      ensures var v := Alive(old(values), old(expires), key, now);
        var h := HashOf(v, key);
        && count == (if field in h then 1 else 0)
        && values == (if h - {field} == map[] then v - {key} else v[key := Hash(h - {field})])
    {
      hide FieldKey, IsField, Inv, FieldsOf;
      var expired := CleanHash(key, now);
      if expired {
        return 0;
      }
      FieldsNow(db, key, values);
      ghost var h, db0 := HashOf(values, key), db;
      count := 0;
      var x := FieldKey(key, field);
      if x in db {
        count := 1;
      }
      var fs := FieldsOf(DbGet(db, key));
      if field in fs {
        Erase(key, field, fs, h);
      } else {
        assert h - {field} == h;
        if key in values {
          NonEmptyHash(db, values, key);
        }
        SameValues(values, key, h);
      }
    }

    /** The part of HDEL for a field that is there. */
    method Erase(key: string, field: string, fs: seq<string>, ghost h: map<string, string>)
      requires
        && Valid() && Plain(key) && key in values && values[key] == Hash(h) && field in fs
        && FieldsOf(DbGet(db, key)) == fs
      modifies this
      ensures Valid() && expires == old(expires)
      ensures values == (if h - {field} == map[] then old(values) - {key} else old(values)[key := Hash(h - {field})])
    {
      hide FieldKey, IsField, Inv, HashRep, NoFields, FieldsIn, FieldsOf, Only, Without;
      ghost var db0, h1 := db, h - {field};
      FieldsNow(db, key, values);
      OnlySelf(db, key);
      FieldKeyIs(key, field);
      OnlyPut(db0, db, key, FieldKey(key, field), "");
      DropField(db, key, h, fs, field);
      db := DbPut(db, FieldKey(key, field), "");
      var left := Without(fs, field);
      EmptyFields(db, key, h1, left);
      if left == [] {
        OnlyPut(db0, db, key, key, "");
        db := DbPut(db, key, "");
        KeyChange(db0, db, key, values, values - {key});
        values := values - {key};
      } else {
        StoreList(db, key, h1, left);
        OnlyPut(db0, db, key, key, HashValue(left));
        db := DbPut(db, key, HashValue(left));
        KeyChange(db0, db, key, values, values[key := Hash(h1)]);
        values := values[key := Hash(h1)];
      }
    }

    /** One key of DEL: a hash goes with its fields; the expiry goes as well. */
    method DelOne(key: string) returns (found: bool)
      requires Valid() && Plain(key)
      modifies this
      ensures
        && Valid() && found == (key in old(values)) && values == old(values) - {key} && expires == old(expires) - {key}
    {
      hide FieldKey, IsField, FieldsIn, FieldsOf, NoFields;
      ghost var db0 := db;
      assert Rep(db, key, Look(values, key));
      found := key in db;
      OnlySelf(db, key);
      if found {
        if HASH_PREFIX <= db[key] {
          RemoveFields(key, FieldsOf(db[key]));
        }
        if values[key].Hash? {
          HashMarked(db0, key, values);
        }
        OnlyPut(db0, db, key, key, "");
        db := DbPut(db, key, "");
        Cleared(db0, db, key, Look(values, key));
      }
      KeyChange(db0, db, key, values, values - {key});
      expires, values := expires - {key}, values - {key};
    }

    /** DEL: the answer counts the keys that were there. */
    method Del(keys: seq<string>) returns (count: nat)
      requires Valid() && forall i :: 0 <= i < |keys| ==> Plain(keys[i])
      modifies this
      ensures Valid() && values == old(values) - Members(keys) && count == |old(values).Keys * Members(keys)|
      ensures expires == old(expires) - Members(keys)
    {
      hide Inv, Members, Plain;
      ghost var all, times := values, expires;
      count := 0;
      DelNext(keys, 0, all);
      TimesNext(keys, 0, times);
      for i := 0 to |keys|
        invariant Valid() && values == all - Members(keys[..i]) && count == |all.Keys * Members(keys[..i])|
        invariant expires == times - Members(keys[..i])
      {
        DelNext(keys, i, all);
        TimesNext(keys, i, times);
        var found := DelOne(keys[i]);
        if found {
          count := count + 1;
        }
      }
      assert keys[..|keys|] == keys;
    }

    /** LPUSH: the answer is the new length. */
    method Lpush(key: string, value: string, now: int) returns (n: nat)
      requires Valid() && Plain(key) && (key in values ==> values[key].List?) && Good(value, '#')
      modifies this
      ensures expires == ExpiresAfter(old(expires), key, now)
      ensures Valid()
      ensures var v := Alive(old(values), old(expires), key, now);
        var es := ListOf(v, key);
        values == v[key := List([value] + es)] && n == |es| + 1
    {
      hide FieldKey, IsField, Inv;
      var _ := CleanList(key, now);
      ghost var es := ListOf(values, key);
      ListNow(db, key, values);
      var s := DbGet(db, key);
      if s != "" {
        JoinCons(es, value, '#');
        s := value + "#" + s;
      } else {
        s := value;
      }
      n := StoreElems(key, s, [value] + es);
    }

    /** RPUSH. */
    method Rpush(key: string, value: string, now: int) returns (n: nat)
      requires Valid() && Plain(key) && (key in values ==> values[key].List?) && Good(value, '#')
      modifies this
      ensures expires == ExpiresAfter(old(expires), key, now)
      ensures Valid()
      ensures var v := Alive(old(values), old(expires), key, now);
        var es := ListOf(v, key);
        values == v[key := List(es + [value])] && n == |es| + 1
    {
      hide FieldKey, IsField, Inv;
      var _ := CleanList(key, now);
      ghost var es := ListOf(values, key);
      ListNow(db, key, values);
      var s := DbGet(db, key);
      if s != "" {
        JoinSnoc(es, value, '#');
        s := s + "#" + value;
      } else {
        s := value;
      }
      n := StoreElems(key, s, es + [value]);
    }

    /** Writes the string of a list that is not empty. */
    method StoreElems(key: string, s: string, ghost es: seq<string>) returns (n: nat)
      requires
        && Valid() && Plain(key) && (key in values ==> values[key].List?) && es != [] && AllGood(es, '#')
        && s == Join(es, '#')
      modifies this
      ensures Valid() && values == old(values)[key := List(es)] && n == |es| && expires == old(expires)
    {
      hide FieldKey, IsField;
      ghost var db0 := db;
      assert Rep(db, key, Look(values, key));
      SplitJoin(es, '#');
      OnlySelf(db, key);
      OnlyPut(db, db, key, key, s);
      db := DbPut(db, key, s);
      StillNoFields(db0, key, s);
      KeyChange(db0, db, key, values, values[key := List(es)]);
      values := values[key := List(es)];
      n := |Split(s, '#')|;
    }

    /** Writes what is left of a list, or removes its key. */
    method StoreRest(key: string, rest: seq<string>)
      requires Valid() && Plain(key) && key in values && values[key].List? && AllGood(rest, '#')
      modifies this
      ensures Valid() && values == (if rest == [] then old(values) - {key} else old(values)[key := List(rest)])
      ensures expires == old(expires)
    {
      hide FieldKey, IsField;
      if rest == [] {
        ghost var db0 := db;
        assert Rep(db, key, Look(values, key));
        OnlySelf(db, key);
        OnlyPut(db, db, key, key, "");
        db := DbPut(db, key, "");
        StillNoFields(db0, key, "");
        KeyChange(db0, db, key, values, values - {key});
        values := values - {key};
      } else {
        var _ := StoreElems(key, Join(rest, '#'), rest);
      }
    }

    /** LPOP. */
    method Lpop(key: string, now: int) returns (r: Option<string>)
      requires Valid() && Plain(key) && (key in values ==> values[key].List?)
      modifies this
      ensures expires == ExpiresAfter(old(expires), key, now)
      ensures Valid()
      ensures var v := Alive(old(values), old(expires), key, now);
        var es := ListOf(v, key);
        if es == [] then r == None && values == v
        else r == Some(es[0]) && values == (if |es| == 1 then v - {key} else v[key := List(es[1..])])
    {
      hide FieldKey, IsField, Inv;
      var expired := CleanList(key, now);
      ListNow(db, key, values);
      if expired || key !in db {
        return None;
      }
      var es := Split(db[key], '#');
      if es == [] {
        return None;
      }
      r := Some(es[0]);
      StoreRest(key, es[1..]);
    }

    /** RPOP. */
    method Rpop(key: string, now: int) returns (r: Option<string>)
      requires Valid() && Plain(key) && (key in values ==> values[key].List?)
      modifies this
      ensures expires == ExpiresAfter(old(expires), key, now)
      ensures Valid()
      ensures var v := Alive(old(values), old(expires), key, now);
        var es := ListOf(v, key);
        if es == [] then r == None && values == v
        else r == Some(es[|es| - 1]) && values == (if |es| == 1 then v - {key} else v[key := List(es[..|es| - 1])])
    {
      hide FieldKey, IsField, Inv;
      var expired := CleanList(key, now);
      ListNow(db, key, values);
      if expired || key !in db {
        return None;
      }
      var es := Split(db[key], '#');
      if es == [] {
        return None;
      }
      r := Some(es[|es| - 1]);
      StoreRest(key, es[..|es| - 1]);
    }

    /** LLEN. */
    method Llen(key: string, now: int) returns (n: nat)
      requires Valid() && Plain(key) && (key in values ==> values[key].List?)
      modifies this
      ensures expires == ExpiresAfter(old(expires), key, now)
      ensures Valid() && values == Alive(old(values), old(expires), key, now) && n == |ListOf(values, key)|
    {
      hide FieldKey, IsField, Inv;
      var expired := CleanList(key, now);
      ListNow(db, key, values);
      if expired || key !in db {
        return 0;
      }
      n := |Split(db[key], '#')|;
    }

    /** LRANGE: the slice of Redis exactly when stop is not below minus the length, or start lies
        beyond the list; otherwise the unsigned comparison turns stop into the last position. */
    method Lrange(key: string, start: int, stop: int, now: int) returns (r: seq<string>)
      requires Valid() && Plain(key) && (key in values ==> values[key].List?)
      modifies this
      ensures expires == ExpiresAfter(old(expires), key, now)
      ensures Valid() && values == Alive(old(values), old(expires), key, now)
      ensures var es := ListOf(values, key);
        es != [] ==>
          && (r == Slice(es, start, stop) <==> stop >= -|es| || start >= |es|)
          && (stop < -|es| ==> r == Slice(es, start, -1))
      ensures ListOf(values, key) == [] ==> r == []
    {
      hide FieldKey, IsField, Inv;
      var expired := CleanList(key, now);
      ListNow(db, key, values);
      if expired || key !in db {
        return [];
      }
      var es := Split(db[key], '#');
      if es == [] {
        return [];
      }
      r := CutRange(es, start, stop);
    }
  }

  /** The elements from start to stop, both inclusive, negative positions counting from the end. */
  function Slice(es: seq<string>, start: int, stop: int): seq<string> {
    var from := if start < 0 then (if start + |es| < 0 then 0 else start + |es|) else start;
    var to := if stop < 0 then stop + |es| else if stop >= |es| then |es| - 1 else stop;
    if from > to || from >= |es| then [] else es[from..to + 1]
  }

  /** What the positions mean: a negative one counts from the end, a start before the list is its first
      element, a stop behind the list its last, and an empty range gives nothing. */
  lemma SliceMeaning(es: seq<string>, start: int, stop: int)
    ensures 0 <= start <= stop < |es| ==> Slice(es, start, stop) == es[start..stop + 1]
    ensures -|es| <= start < 0 ==> Slice(es, start, stop) == Slice(es, |es| + start, stop)
    ensures -|es| <= stop < 0 ==> Slice(es, start, stop) == Slice(es, start, |es| + stop)
    ensures start < -|es| ==> Slice(es, start, stop) == Slice(es, 0, stop)
    ensures stop >= |es| ==> Slice(es, start, stop) == Slice(es, start, -1)
    ensures start >= |es| || stop < -|es| || 0 <= stop < start || stop < start < 0 ==> Slice(es, start, stop) == []
  {
  }

  /** The positions of LRANGE on the elements of a list. */
  method CutRange(es: seq<string>, start: int, stop: int) returns (r: seq<string>)
    requires es != []
    ensures r == Slice(es, start, stop) <==> stop >= -|es| || start >= |es|
    ensures stop < -|es| ==> r == Slice(es, start, -1)
  {
    var from, to := start, stop;
    if from < 0 {
      from := from + |es|;
    }
    if to < 0 {
      to := to + |es|;
    }
    if from < 0 {
      from := 0;
    }
    if to < 0 || to >= |es| {
      to := |es| - 1;
    }
    if from > to {
      return [];
    }
    r := es[from..to + 1];
    assert stop < -|es| && start < |es| ==> from <= to && |r| > 0;
  }

  /** A stop two places before a list of one element: Redis answers nothing, the code everything. */
  method RangeExample() returns (r: seq<string>)
    ensures r == ["a"] && Slice(["a"], 0, -2) == []
  {
    r := CutRange(["a"], 0, -2);
  }

  function Members(keys: seq<string>): set<string> {
    set k | k in keys
  }

  /** One key more. */
  lemma DelNext(keys: seq<string>, i: nat, m: map<string, Val>)
    requires i <= |keys|
    ensures m - Members([]) == m && |m.Keys * Members([])| == 0
    ensures i < |keys| ==> (m - Members(keys[..i])) - {keys[i]} == m - Members(keys[..i + 1])
    ensures i < |keys| ==>
      |m.Keys * Members(keys[..i + 1])|
      == |m.Keys * Members(keys[..i])| + (if keys[i] in m - Members(keys[..i]) then 1 else 0)
  {
    hide Members;
    MembersSnoc(keys, i);
    assert m.Keys * {} == {};
    if i < |keys| {
      OneMore(m, Members(keys[..i]), keys[i]);
    }
  }

  lemma TimesNext(keys: seq<string>, i: nat, times: map<string, int>)
    requires i <= |keys|
    ensures times - Members([]) == times
    ensures i < |keys| ==> (times - Members(keys[..i])) - {keys[i]} == times - Members(keys[..i + 1])
  {
    hide Members;
    MembersSnoc(keys, i);
  }

  lemma MembersSnoc(keys: seq<string>, i: nat)
    requires i <= |keys|
    ensures Members([]) == {}
    ensures i < |keys| ==> Members(keys[..i + 1]) == Members(keys[..i]) + {keys[i]}
  {
    assert i < |keys| ==> keys[..i + 1] == keys[..i] + [keys[i]];
  }

  lemma OneMore(m: map<string, Val>, a: set<string>, k: string)
    ensures (m - a) - {k} == m - (a + {k})
    ensures |m.Keys * (a + {k})| == |m.Keys * a| + (if k in m - a then 1 else 0)
  {
    var b := m.Keys * a;
    if k in m - a {
      assert m.Keys * (a + {k}) == b + {k};
    } else {
      assert m.Keys * (a + {k}) == b;
    }
  }

  /** Hashes are recognised by their marker. */
  lemma HashMarked(db: Db, k: string, values: map<string, Val>)
    requires Inv(db, values) && Plain(k) && k in values && values[k].Hash?
    ensures k in db && HASH_PREFIX <= db[k]
  {
    assert Rep(db, k, Look(values, k));
  }

  lemma ListNow(db: Db, k: string, values: map<string, Val>)
    requires Inv(db, values) && Plain(k) && (k in values ==> values[k].List?)
    ensures var es := ListOf(values, k);
      && AllGood(es, '#') && (k in db <==> es != []) && (k in values <==> es != []) && DbGet(db, k) == Join(es, '#')
      && Split(DbGet(db, k), '#') == es
      && (DbGet(db, k) == "" <==> es == [])
  {
    assert Rep(db, k, Look(values, k));
    SplitJoin(ListOf(values, k), '#');
  }

  lemma StillNoFields(db: Db, k: string, s: string)
    requires NoFields(db, k) && Plain(k)
    ensures NoFields(DbPut(db, k, s), k)
  {
    forall f
      ensures FieldKey(k, f) !in DbPut(db, k, s)
    {
      PlainIsNoField(k, f);
    }
  }

  lemma OnlySelf(db: Db, k: string)
    ensures Only(db, db, k)
  {
  }

  /** The field list a command reads belongs to the fields it works on. */
  lemma FieldsNow(db: Db, k: string, values: map<string, Val>)
    requires Inv(db, values) && Plain(k) && (k in values ==> values[k].Hash?)
    ensures FieldsIn(db, k, HashOf(values, k), FieldsOf(DbGet(db, k)))
  {
    assert Rep(db, k, Look(values, k));
  }

  lemma {:induction false} DistinctCount(fs: seq<string>)
    requires Distinct(fs)
    ensures |(set f | f in fs)| == |fs|
  {
    if fs != [] {
      var tl := fs[1..];
      DistinctCount(tl);
      assert fs == [fs[0]] + tl;
      assert fs[0] !in tl;
      assert (set f | f in fs) == {fs[0]} + (set f | f in tl);
    }
  }

  lemma FieldCount(h: map<string, string>, fs: seq<string>, db: Db, k: string)
    requires FieldsIn(db, k, h, fs)
    ensures |h| == |fs|
  {
    DistinctCount(fs);
    assert h.Keys == (set f | f in fs);
  }

  lemma UpdateHas(h: map<string, string>, ps: seq<(string, string)>)
    requires ps != []
    ensures Update(h, ps) != map[]
  {
    assert ps[|ps| - 1].0 in Update(h, ps);
  }

  /** Writing the field list completes the hash. */
  lemma StoreList(db: Db, k: string, h: map<string, string>, fs: seq<string>)
    requires FieldsIn(db, k, h, fs) && h != map[] && Plain(k)
    ensures HashRep(DbPut(db, k, HashValue(fs)), k, h)
  {
    FieldsRoundTrip(fs);
    FieldsSame(db, DbPut(db, k, HashValue(fs)), k, h, fs);
  }

  lemma SameValues(values: map<string, Val>, k: string, h: map<string, string>)
    requires h == HashOf(values, k) && (k in values ==> values[k].Hash?) && (k in values ==> h != map[])
    ensures values == (if h == map[] then values - {k} else values[k := Hash(h)])
  {
  }

  lemma NonEmptyHash(db: Db, values: map<string, Val>, k: string)
    requires Inv(db, values) && Plain(k) && k in values && values[k].Hash?
    ensures values[k].fields != map[]
  {
    assert Rep(db, k, Look(values, k));
  }

  lemma EmptyFields(db: Db, k: string, h: map<string, string>, fs: seq<string>)
    requires FieldsIn(db, k, h, fs)
    ensures h == map[] <==> fs == []
    ensures fs == [] ==> NoFields(db - {k}, k)
  {
    assert fs != [] ==> fs[0] in h;
  }
}
