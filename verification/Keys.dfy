/** Byte strings in lexicographic order, as std::string compares them. */
module Keys {
  type byte = b: int | 0 <= b < 256
  type Key = seq<byte>

  /** a comes before b. */
  predicate Less(a: Key, b: Key) {
    b != [] && (a == [] || a[0] < b[0] || (a[0] == b[0] && Less(a[1..], b[1..])))
  }

  /** The first i bytes agree; then a ends, or has the smaller byte. */
  predicate FirstDiffers(a: Key, b: Key, i: nat) {
    i <= |a| && i < |b| && a[..i] == b[..i] && (i == |a| || a[i] < b[i])
  }

  /** a comes before b in the order of their bytes: at the first place where they differ. */
  ghost predicate InByteOrder(a: Key, b: Key) {
    exists i: nat :: FirstDiffers(a, b, i)
  }

  lemma {:induction false} LessMeaning(a: Key, b: Key)
    ensures Less(a, b) <==> InByteOrder(a, b)
  {
    if a != [] && b != [] && a[0] == b[0] {
      LessMeaning(a[1..], b[1..]);
      forall i: nat | FirstDiffers(a[1..], b[1..], i)
        ensures FirstDiffers(a, b, i + 1)
      {
        assert a[..i + 1] == [a[0]] + a[1..][..i] && b[..i + 1] == [b[0]] + b[1..][..i];
      }
      forall i: nat | FirstDiffers(a, b, i)
        ensures i > 0 && FirstDiffers(a[1..], b[1..], i - 1)
      {
        assert a[1..][..i - 1] == a[..i][1..] && b[1..][..i - 1] == b[..i][1..];
      }
    } else if Less(a, b) {
      assert FirstDiffers(a, b, 0);
    } else {
      forall i: nat | 0 < i <= |a| && i < |b|
        ensures a[..i] != b[..i]
      {
        assert a[..i][0] != b[..i][0];
      }
    }
  }

  lemma {:induction false} LessIrreflexive(a: Key)
    ensures !Less(a, a)
  {
    if a != [] {
      LessIrreflexive(a[1..]);
    }
  }

  lemma {:induction false} LessTransitive(a: Key, b: Key, c: Key)
    requires Less(a, b) && Less(b, c)
    ensures Less(a, c)
  {
    if a != [] && a[0] == b[0] && b[0] == c[0] {
      LessTransitive(a[1..], b[1..], c[1..]);
    }
  }

  lemma {:induction false} LessTotal(a: Key, b: Key)
    ensures a == b || Less(a, b) || Less(b, a)
  {
    if a != [] && b != [] && a[0] == b[0] {
      LessTotal(a[1..], b[1..]);
      assert a == [a[0]] + a[1..] && b == [b[0]] + b[1..];
    }
  }

  lemma LessAsymmetric(a: Key, b: Key)
    requires Less(a, b)
    ensures !Less(b, a) && a != b
  {
    LessIrreflexive(a);
    if Less(b, a) {
      LessTransitive(a, b, a);
    }
  }

  /** Not before means equal or after. */
  lemma NotLess(a: Key, b: Key, c: Key)
    requires !Less(b, a) && Less(b, c)
    ensures Less(a, c)
  {
    LessTotal(a, b);
    if a != b {
      LessTransitive(a, b, c);
    }
  }

  /** k begins with the bytes of p. */
  predicate StartsWith(k: Key, p: Key) {
    p <= k
  }

  /** Keys that start with p lie at or after p. */
  lemma {:induction false} PrefixNotBelow(k: Key, p: Key)
    requires StartsWith(k, p)
    ensures !Less(k, p)
  {
    if p != [] {
      assert k[0] == p[0] && StartsWith(k[1..], p[1..]);
      PrefixNotBelow(k[1..], p[1..]);
    }
  }

  /** A key at or after p that does not start with p is after every key that does. */
  lemma {:induction false} BeyondPrefix(k: Key, p: Key, q: Key)
    requires !Less(k, p) && !StartsWith(k, p) && StartsWith(q, p)
    ensures Less(q, k)
  {
    assert p != [];
    assert q[0] == p[0] && StartsWith(q[1..], p[1..]);
    if k[0] == p[0] {
      assert !StartsWith(k[1..], p[1..]);
      BeyondPrefix(k[1..], p[1..], q[1..]);
    }
  }

  /** The direction used for prefix matches: the prefix compared with as many bytes of k. */
  function PrefixDirection(p: Key, k: Key): int {
    var h := if |k| <= |p| then k else k[..|p|];
    if h == p then 0 else if Less(h, p) then 1 else -1
  }

  /** Only the first |p| bytes matter. */
  lemma {:induction false} LessHead(k: Key, p: Key)
    requires |k| > |p|
    ensures Less(k[..|p|], p) <==> Less(k, p)
  {
    if p != [] {
      assert k[..|p|][1..] == k[1..][..|p[1..]|];
      LessHead(k[1..], p[1..]);
    }
  }

  lemma PrefixDirectionMeaning(p: Key, k: Key)
    ensures PrefixDirection(p, k) == 0 <==> StartsWith(k, p)
    ensures PrefixDirection(p, k) > 0 <==> Less(k, p)
  {
    if |k| > |p| {
      LessHead(k, p);
    }
    LessIrreflexive(p);
  }

  /** From one key to the next, directions go from positive to zero to negative, never back. */
  predicate Downhill(dir: Key -> int, a: Key, b: Key) {
    (dir(b) > 0 ==> dir(a) > 0) && (dir(b) == 0 ==> dir(a) >= 0)
  }

  /** Along ascending keys the direction goes from positive through zero to negative. */
  lemma PrefixSteps(p: Key, a: Key, b: Key)
    requires Less(a, b)
    ensures PrefixDirection(p, b) > 0 ==> PrefixDirection(p, a) > 0
    ensures PrefixDirection(p, b) == 0 ==> PrefixDirection(p, a) >= 0
  {
    PrefixDirectionMeaning(p, a);
    PrefixDirectionMeaning(p, b);
    if Less(b, p) {
      LessTransitive(a, b, p);
    }
    if StartsWith(b, p) && !Less(a, p) && !StartsWith(a, p) {
      BeyondPrefix(a, p, b);
      LessAsymmetric(a, b);
    }
  }
}
