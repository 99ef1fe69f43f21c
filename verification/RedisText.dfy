/** Strings joined with a separator, and the keys under which hash fields are stored. */
module RedisText {
  const HASH_PREFIX := "REDIS_HASH_VALUE_"
  const FIELD_PREFIX := "REDIS_FIELD_"

  /** No separator inside and not empty. */
  predicate Good(s: string, sep: char) {
    s != "" && sep !in s
  }

  predicate AllGood(es: seq<string>, sep: char) {
    forall i :: 0 <= i < |es| ==> Good(es[i], sep)
  }

  function Join(es: seq<string>, sep: char): string {
    if es == [] then "" else if |es| == 1 then es[0] else es[0] + [sep] + Join(es[1..], sep)
  }

  /** The first position of sep, or the length. */
  function IndexOf(s: string, sep: char): (i: nat)
    ensures i <= |s| && sep !in s[..i] && (i < |s| ==> s[i] == sep)
  {
    if s == "" || s[0] == sep then 0 else 1 + IndexOf(s[1..], sep)
  }

  /** Tokens as getline yields them: nothing after a final separator. */
  function Split(s: string, sep: char): seq<string>
    decreases |s|
  {
    if s == "" then []
    else
      var i := IndexOf(s, sep);
      if i == |s| then [s] else [s[..i]] + Split(s[i + 1..], sep)
  }

  lemma {:induction false} IndexOfConcat(a: string, b: string, sep: char)
    requires sep !in a && (b == "" || b[0] == sep)
    ensures IndexOf(a + b, sep) == |a|
  {
    if a == "" {
      assert a + b == b;
    } else {
      IndexOfConcat(a[1..], b, sep);
      assert (a + b)[1..] == a[1..] + b;
    }
  }

  /** Splitting a joined string gives back its parts. */
  lemma {:induction false} SplitJoin(es: seq<string>, sep: char)
    requires AllGood(es, sep)
    ensures Split(Join(es, sep), sep) == es
    ensures Join(es, sep) == "" <==> es == []
  {
    if |es| == 1 {
      IndexOfConcat(es[0], "", sep);
      assert es[0] + "" == es[0];
    } else if es != [] {
      var e, tl := es[0], es[1..];
      SplitJoin(tl, sep);
      var s := Join(es, sep);
      assert s == e + ([sep] + Join(tl, sep));
      IndexOfConcat(e, [sep] + Join(tl, sep), sep);
      assert s[..|e|] == e && s[|e| + 1..] == Join(tl, sep);
      assert es == [e] + tl;
    }
  }

  lemma {:induction false} JoinSnoc(es: seq<string>, e: string, sep: char)
    requires es != []
    ensures Join(es + [e], sep) == Join(es, sep) + [sep] + e
  {
    if |es| == 1 {
      assert (es + [e])[1..] == [e];
    } else {
      JoinSnoc(es[1..], e, sep);
      assert (es + [e])[1..] == es[1..] + [e];
      assert es[0] + [sep] + (Join(es[1..], sep) + [sep] + e) == es[0] + [sep] + Join(es[1..], sep) + [sep] + e;
    }
  }

  lemma JoinCons(es: seq<string>, e: string, sep: char)
    requires es != []
    ensures Join([e] + es, sep) == e + [sep] + Join(es, sep)
  {
    assert ([e] + es)[1..] == es;
  }

  // ------------------------------------------------------------ keys

  /** Keys the commands are used with: no underscore, which separates key and field. */
  predicate Plain(k: string) {
    k != "" && '_' !in k
  }

  function FieldsPrefix(k: string): string {
    FIELD_PREFIX + k + "_"
  }

  /** Where a field of a hash is stored. */
  function FieldKey(k: string, f: string): string {
    FieldsPrefix(k) + f
  }

  /** x is where some field of k is stored. */
  predicate IsField(k: string, x: string) {
    FieldsPrefix(k) <= x
  }

  lemma FieldKeyIs(k: string, f: string)
    ensures IsField(k, FieldKey(k, f))
  {
  }

  lemma FieldKeyInjective(k: string, f: string, g: string)
    requires FieldKey(k, f) == FieldKey(k, g)
    ensures f == g
  {
    var n := |FieldsPrefix(k)|;
    assert FieldKey(k, f)[n..] == f && FieldKey(k, g)[n..] == g;
  }

  /** Fields of different plain keys are stored apart, and apart from plain keys. */
  lemma FieldsApart(k: string, q: string, f: string)
    requires Plain(k) && Plain(q) && k != q
    ensures !IsField(k, FieldKey(q, f)) && FieldKey(q, f) != k && !IsField(k, q)
  {
    assert FIELD_PREFIX[5] == '_' && |FIELD_PREFIX| == 12;
    assert FieldKey(q, f)[5] == '_' && FieldsPrefix(k)[5] == '_';
    assert |k| > 5 ==> k[5] in k;
    assert |q| > 5 ==> q[5] in q;
    var x, n := FieldKey(q, f), |FieldsPrefix(k)|;
    var g := if n <= |x| then x[n..] else "";
    assert IsField(k, x) ==> FieldKey(k, g) == x;
    SamePrefixes(k, g, q, f);
    PlainApart(k, q);
    PlainApart(q, k);
  }

  /** Stored fields of two keys meet exactly when one key, with its separator, begins the other. */
  lemma FieldsClash(k: string, q: string)
    requires k != q
    ensures (exists f, g :: FieldKey(k, g) == FieldKey(q, f)) <==> k + "_" <= q + "_" || q + "_" <= k + "_"
  {
    if k + "_" <= q + "_" {
      var g := (q + "_")[|k| + 1..];
      assert q + "_" == k + "_" + g;
      KeyParts(k, g);
      KeyParts(q, "");
      assert FieldKey(k, g) == FieldKey(q, "");
    } else if q + "_" <= k + "_" {
      var f := (k + "_")[|q| + 1..];
      assert k + "_" == q + "_" + f;
      KeyParts(k, "");
      KeyParts(q, f);
      assert FieldKey(k, "") == FieldKey(q, f);
    }
    forall f, g | FieldKey(k, g) == FieldKey(q, f)
      ensures k + "_" <= q + "_" || q + "_" <= k + "_"
    {
      SamePrefixes(k, g, q, f);
    }
  }

  lemma KeyParts(k: string, f: string)
    ensures FieldKey(k, f) == FIELD_PREFIX + (k + "_" + f) && k + "_" + "" == k + "_"
  {
  }

  lemma SamePrefixes(k: string, g: string, q: string, f: string)
    ensures FieldKey(k, g) == FieldKey(q, f) ==> k + "_" <= q + "_" || q + "_" <= k + "_"
  {
    var n, x, y := |FIELD_PREFIX|, FieldKey(k, g), FieldKey(q, f);
    assert x[n..] == k + "_" + g;
    assert y[n..] == q + "_" + f;
    assert k + "_" == x[n..][..|k| + 1];
    assert q + "_" == y[n..][..|q| + 1];
  }

  /** Two keys and fields stored under one name. */
  lemma ClashExample()
    ensures FieldKey("a", "b_c") == FieldKey("a_b", "c")
  {
    assert "a" + "_" + "b_c" == "a_b" + "_" + "c";
  }

  /** Keys without underscore never begin one another in this way. */
  lemma PlainApart(k: string, q: string)
    requires Plain(k) && Plain(q) && k != q
    ensures !(k + "_" <= q + "_")
  {
    assert (k + "_")[|k|] == '_';
    if |k| < |q| {
      assert (q + "_")[|k|] == q[|k|] && q[|k|] in q;
    } else if |k| == |q| {
      var i :| 0 <= i < |k| && k[i] != q[i];
      assert (k + "_")[i] != (q + "_")[i];
    }
  }
}
