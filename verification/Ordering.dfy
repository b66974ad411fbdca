/** The order of byte strings, and sorting by it (src/DSSE.cpp, compare_token_pair and std::sort). */
module Ordering {
  import opened Octets

  /** Lexicographic order of unsigned bytes; a proper prefix comes first. */
  predicate LexLess(a: Bytes, b: Bytes) {
    if a == [] || b == [] then |a| < |b|
    else a[0] < b[0] || (a[0] == b[0] && LexLess(a[1..], b[1..]))
  }

  // The first difference decides.
  lemma {:induction false} FirstDifference(a: Bytes, b: Bytes, i: nat)
    requires i < |a| && i < |b| && a[..i] == b[..i] && a[i] != b[i]
    ensures LexLess(a, b) <==> a[i] < b[i]
  {
    if i > 0 {
      assert a[0] == a[..i][0] && b[0] == b[..i][0];
      assert a[1..][..i - 1] == a[..i][1..] && b[1..][..i - 1] == b[..i][1..];
      FirstDifference(a[1..], b[1..], i - 1);
    }
  }

  /** A proper prefix comes first. */
  lemma {:induction false} PrefixFirst(a: Bytes, b: Bytes)
    requires b != []
    ensures LexLess(a, a + b) && !LexLess(a + b, a)
  {
    if a != [] {
      assert (a + b)[0] == a[0] && (a + b)[1..] == a[1..] + b;
      PrefixFirst(a[1..], b);
    }
  }

  lemma {:induction false} Irreflexive(a: Bytes)
    ensures !LexLess(a, a)
  {
    if a != [] {
      Irreflexive(a[1..]);
    }
  }

  lemma {:induction false} Transitive(a: Bytes, b: Bytes, c: Bytes)
    requires LexLess(a, b) && LexLess(b, c)
    ensures LexLess(a, c)
  {
    if a != [] && b != [] && c != [] && a[0] == b[0] == c[0] {
      Transitive(a[1..], b[1..], c[1..]);
    }
  }

  lemma {:induction false} Total(a: Bytes, b: Bytes)
    ensures LexLess(a, b) || a == b || LexLess(b, a)
  {
    if a != [] && b != [] && a[0] == b[0] {
      Total(a[1..], b[1..]);
      assert a == [a[0]] + a[1..] && b == [b[0]] + b[1..];
    }
  }

  ghost predicate Sorted<T>(xs: seq<T>, key: T -> Bytes) {
    forall i, j | 0 <= i < j < |xs| :: !LexLess(key(xs[j]), key(xs[i]))
  }

  function Insert<T>(x: T, xs: seq<T>, key: T -> Bytes): (r: seq<T>)
    ensures multiset(r) == multiset(xs) + multiset{x}
  {
    if xs == [] then [x]
    else if LexLess(key(xs[0]), key(x)) then
      var r := [xs[0]] + Insert(x, xs[1..], key);
      assert xs == [xs[0]] + xs[1..];
      r
    else [x] + xs
  }

  /** Stands for std::sort: a sorted rearrangement. */
  function Sort<T>(xs: seq<T>, key: T -> Bytes): (r: seq<T>)
    ensures multiset(r) == multiset(xs)
  {
    if xs == [] then []
    else
      assert xs == [xs[0]] + xs[1..];
      Insert(xs[0], Sort(xs[1..], key), key)
  }

  lemma {:induction false} InsertSorted<T>(x: T, xs: seq<T>, key: T -> Bytes)
    requires Sorted(xs, key)
    ensures Sorted(Insert(x, xs, key), key)
  {
    if xs == [] {
    } else if LexLess(key(xs[0]), key(x)) {
      var rest := Insert(x, xs[1..], key);
      InsertSorted(x, xs[1..], key);
      forall j | 0 <= j < |rest|
        ensures !LexLess(key(rest[j]), key(xs[0]))
      {
        assert rest[j] in multiset(rest);
        assert rest[j] == x || rest[j] in xs[1..];
        if rest[j] == x && LexLess(key(x), key(xs[0])) {
          Transitive(key(xs[0]), key(x), key(xs[0]));
          Irreflexive(key(xs[0]));
        }
      }
    } else {
      forall j | 0 <= j < |xs|
        ensures !LexLess(key(xs[j]), key(x))
      {
        if LexLess(key(xs[j]), key(x)) {
          Total(key(xs[0]), key(xs[j]));
          if LexLess(key(xs[0]), key(xs[j])) {
            Transitive(key(xs[0]), key(xs[j]), key(x));
          }
        }
      }
    }
  }

  lemma {:induction false} SortSorts<T>(xs: seq<T>, key: T -> Bytes)
    ensures Sorted(Sort(xs, key), key)
  {
    if xs != [] {
      SortSorts(xs[1..], key);
      InsertSorted(xs[0], Sort(xs[1..], key), key);
    }
  }

  /** One line of an index: word, label, ciphertext, revocation id. */
  datatype TokenPair = TokenPair(w: Word, l: Bytes, d: Bytes, r: Bytes)

  function PairKey(p: TokenPair): Bytes {
    p.l + p.d + p.r
  }

  // A difference inside one field decides, whatever follows it.
  lemma FieldDecides(before: Bytes, x: Bytes, y: Bytes, after: Bytes, after': Bytes, i: nat)
    requires i < |x| && i < |y| && x[..i] == y[..i] && x[i] != y[i]
    ensures LexLess(before + x + after, before + y + after') <==> x[i] < y[i]
  {
    var s, t, k := before + x + after, before + y + after', |before| + i;
    assert s[..k] == before + x[..i] && t[..k] == before + y[..i];
    assert s[k] == x[i] && t[k] == y[i];
    FirstDifference(s, t, k);
  }

  lemma KeyFields(p: TokenPair)
    ensures PairKey(p) == [] + p.l + (p.d + p.r)
    ensures PairKey(p) == p.l + p.d + p.r + []
  {
  }

  /** compare_token_pair is the lexicographic order of label, ciphertext and revocation id. */
  method CompareTokenPair(a: TokenPair, b: TokenPair) returns (less: bool)
    requires |a.l| == |b.l| && |a.d| == |b.d| && |a.r| == |b.r|
    ensures less == LexLess(PairKey(a), PairKey(b))
  {
    KeyFields(a);
    KeyFields(b);
    var i := 0;
    while i < |a.l|
      invariant i <= |a.l|
      invariant a.l[..i] == b.l[..i]
    {
      if a.l[i] != b.l[i] {
        FieldDecides([], a.l, b.l, a.d + a.r, b.d + b.r, i);
      }
      if a.l[i] < b.l[i] {
        return true;
      }
      if a.l[i] > b.l[i] {
        return false;
      }
      i := i + 1;
    }
    i := 0;
    while i < |a.d|
      invariant i <= |a.d|
      invariant a.l == b.l && a.d[..i] == b.d[..i]
    {
      if a.d[i] != b.d[i] {
        FieldDecides(a.l, a.d, b.d, a.r, b.r, i);
      }
      if a.d[i] < b.d[i] {
        return true;
      }
      if a.d[i] > b.d[i] {
        return false;
      }
      i := i + 1;
    }
    i := 0;
    while i < |a.r|
      invariant i <= |a.r|
      invariant a.l == b.l && a.d == b.d && a.r[..i] == b.r[..i]
    {
      if a.r[i] != b.r[i] {
        FieldDecides(a.l + a.d, a.r, b.r, [], [], i);
      }
      if a.r[i] < b.r[i] {
        return true;
      }
      if a.r[i] > b.r[i] {
        return false;
      }
      i := i + 1;
    }
    assert a.r == a.r[..i] && b.r == b.r[..i];
    Irreflexive(PairKey(a));
    return false;
  }
}
