/** Sorting by a strict order, and why the result does not depend on the algorithm or the input order. */
module Ordering {
  /** Bytewise lexicographic order of strings. */
  predicate TextLess(a: string, b: string) {
    b != [] && (a == [] || a[0] < b[0] || (a[0] == b[0] && TextLess(a[1..], b[1..])))
  }

  lemma {:induction false} TextAsymmetric(a: string, b: string)
    requires TextLess(a, b)
    ensures !TextLess(b, a) && a != b
  {
    if a != [] && a[0] == b[0] {
      TextAsymmetric(a[1..], b[1..]);
    }
  }

  lemma {:induction false} TextTotal(a: string, b: string)
    ensures TextLess(a, b) || TextLess(b, a) || a == b
  {
    if a != [] && b != [] && a[0] == b[0] {
      TextTotal(a[1..], b[1..]);
      if a[1..] == b[1..] {
        assert a == [a[0]] + a[1..] && b == [b[0]] + b[1..];
      }
    }
  }

  lemma {:induction false} TextTransitive(a: string, b: string, c: string)
    requires TextLess(a, b) && TextLess(b, c)
    ensures TextLess(a, c)
  {
    if a != [] && a[0] == b[0] == c[0] {
      TextTransitive(a[1..], b[1..], c[1..]);
    }
  }

  /** The place where two strings first differ decides; a proper prefix comes first. */
  ghost predicate Lexicographic(a: string, b: string) {
    exists n :: 0 <= n <= |a| && n < |b| && a[..n] == b[..n] && (n == |a| || a[n] < b[n])
  }

  lemma {:induction false} TextLessIs(a: string, b: string)
    ensures TextLess(a, b) <==> Lexicographic(a, b)
  {
    if a != [] && b != [] && a[0] == b[0] {
      TextLessIs(a[1..], b[1..]);
      var s, t := a[1..], b[1..];
      if n :| 0 <= n <= |s| && n < |t| && s[..n] == t[..n] && (n == |s| || s[n] < t[n]) {
        assert a[..n + 1] == [a[0]] + a[1..][..n] && b[..n + 1] == [b[0]] + b[1..][..n];
      }
      if n :| 0 <= n <= |a| && n < |b| && a[..n] == b[..n] && (n == |a| || a[n] < b[n]) {
        assert n > 0 && a[1..][..n - 1] == a[..n][1..] && b[1..][..n - 1] == b[..n][1..];
      }
    } else if b != [] && (a == [] || a[0] < b[0]) {
      assert a[..0] == b[..0];
    }
  }

  // ---------------------------------------------------------------------------
  // Sorting
  // ---------------------------------------------------------------------------

  type Less<!T> = (T, T) -> bool

  ghost predicate AsymmetricAt<T>(less: Less<T>, x: T, y: T) {
    less(x, y) ==> !less(y, x)
  }

  ghost predicate TransitiveAt<T>(less: Less<T>, x: T, y: T, z: T) {
    less(x, y) && less(y, z) ==> less(x, z)
  }

  ghost predicate StrictOrder<T(!new)>(less: Less<T>) {
    && (forall x, y :: AsymmetricAt(less, x, y))
    && (forall x, y, z :: TransitiveAt(less, x, y, z))
  }

  ghost predicate TieAt<T>(less: Less<T>, x: T, y: T) {
    !less(x, y) && !less(y, x) ==> x == y
  }

  /** Elements that the order cannot tell apart are the same element. */
  ghost predicate TiesEqual<T>(less: Less<T>, s: seq<T>) {
    forall i, j :: 0 <= i < |s| && 0 <= j < |s| ==> TieAt(less, s[i], s[j])
  }

  ghost predicate Sorted<T>(less: Less<T>, s: seq<T>) {
    forall i, j :: 0 <= i < j < |s| ==> !less(s[j], s[i])
  }

  function Insert<T>(less: Less<T>, x: T, s: seq<T>): (r: seq<T>)
    ensures |r| == |s| + 1
  {
    if s == [] then [x]
    else if less(s[0], x) then [s[0]] + Insert(less, x, s[1..])
    else [x] + s
  }

  function Sort<T>(less: Less<T>, s: seq<T>): (r: seq<T>)
    ensures |r| == |s|
  {
    if s == [] then [] else Insert(less, s[0], Sort(less, s[1..]))
  }

  lemma {:induction false} InsertPermutes<T>(less: Less<T>, x: T, s: seq<T>)
    ensures multiset(Insert(less, x, s)) == multiset{x} + multiset(s)
  {
    if s != [] {
      assert s == [s[0]] + s[1..];
      if less(s[0], x) {
        InsertPermutes(less, x, s[1..]);
      }
    }
  }

  lemma {:induction false} SortPermutes<T>(less: Less<T>, s: seq<T>)
    ensures multiset(Sort(less, s)) == multiset(s)
  {
    if s != [] {
      assert s == [s[0]] + s[1..];
      SortPermutes(less, s[1..]);
      InsertPermutes(less, s[0], Sort(less, s[1..]));
    }
  }

  /** Permuting keeps the property that ties are equal elements. */
  lemma TiesPermute<T>(less: Less<T>, s: seq<T>, t: seq<T>)
    requires TiesEqual(less, s) && forall x :: x in t ==> x in s
    ensures TiesEqual(less, t)
  {
    forall i, j | 0 <= i < |t| && 0 <= j < |t|
      ensures TieAt(less, t[i], t[j])
    {
      assert t[i] in s && t[j] in s;
      var k :| 0 <= k < |s| && s[k] == t[i];
      var l :| 0 <= l < |s| && s[l] == t[j];
      assert TieAt(less, s[k], s[l]);
    }
  }

  lemma SamePermutation<T>(s: seq<T>, t: seq<T>)
    requires multiset(s) == multiset(t)
    ensures |s| == |t| && forall x :: x in s <==> x in t
  {
    assert |multiset(s)| == |s| && |multiset(t)| == |t|;
    forall x
      ensures x in s <==> x in t
    {
      assert x in s <==> x in multiset(s);
      assert x in t <==> x in multiset(t);
    }
  }

  lemma {:induction false} InsertSorts<T(!new)>(less: Less<T>, x: T, s: seq<T>)
    requires StrictOrder(less) && Sorted(less, s) && TiesEqual(less, [x] + s)
    ensures Sorted(less, Insert(less, x, s))
  {
    if s == [] {
    } else if less(s[0], x) {
      var rest := Insert(less, x, s[1..]);
      TiesPermute(less, [x] + s, [x] + s[1..]);
      InsertSorts(less, x, s[1..]);
      InsertPermutes(less, x, s[1..]);
      forall j | 0 <= j < |rest|
        ensures !less(rest[j], s[0])
      {
        assert rest[j] in multiset(rest);
        if rest[j] == x {
          assert AsymmetricAt(less, s[0], x);
        } else {
          assert rest[j] in s[1..];
        }
      }
    } else {
      forall j | 0 <= j < |s|
        ensures !less(s[j], x)
      {
        var t := [x] + s;
        assert TieAt(less, t[1], t[1 + j]);
        assert TransitiveAt(less, s[0], s[j], x);
      }
    }
  }

  lemma {:induction false} SortSorts<T(!new)>(less: Less<T>, s: seq<T>)
    requires StrictOrder(less) && TiesEqual(less, s)
    ensures Sorted(less, Sort(less, s))
  {
    if s != [] {
      var rest := Sort(less, s[1..]);
      TiesPermute(less, s, s[1..]);
      SortSorts(less, s[1..]);
      SortPermutes(less, s[1..]);
      SamePermutation(rest, s[1..]);
      TiesPermute(less, s, [s[0]] + rest);
      InsertSorts(less, s[0], rest);
    }
  }

  lemma SameFirst<T(!new)>(less: Less<T>, s: seq<T>, t: seq<T>)
    requires StrictOrder(less) && TiesEqual(less, s) && s != [] && t != []
    requires Sorted(less, s) && Sorted(less, t) && s[0] in t && t[0] in s
    ensures s[0] == t[0]
  {
    var k :| 0 <= k < |t| && t[k] == s[0];
    var l :| 0 <= l < |s| && s[l] == t[0];
    assert TieAt(less, s[0], s[l]);
    assert AsymmetricAt(less, s[0], s[0]) && AsymmetricAt(less, t[0], t[0]);
  }

  lemma DropFirst<T>(s: seq<T>, t: seq<T>)
    requires s != [] && t != [] && s[0] == t[0] && multiset(s) == multiset(t)
    ensures multiset(s[1..]) == multiset(t[1..])
    ensures s[1..] == t[1..] ==> s == t
  {
    assert s == [s[0]] + s[1..] && t == [t[0]] + t[1..];
    assert multiset(s[1..]) == multiset(s) - multiset{s[0]};
    assert multiset(t[1..]) == multiset(t) - multiset{t[0]};
  }

  lemma SortedRest<T>(less: Less<T>, s: seq<T>)
    requires s != [] && Sorted(less, s)
    ensures Sorted(less, s[1..])
  {
  }

  /** Two sorted arrangements of the same elements are the same sequence, whatever algorithm produced them. */
  lemma {:induction false} SortedUnique<T(!new)>(less: Less<T>, s: seq<T>, t: seq<T>)
    requires StrictOrder(less) && TiesEqual(less, s)
    requires Sorted(less, s) && Sorted(less, t) && multiset(s) == multiset(t)
    ensures s == t
  {
    SamePermutation(s, t);
    if s != [] {
      hide *;
      assert s[0] in t && t[0] in s;
      SameFirst(less, s, t);
      DropFirst(s, t);
      TiesPermute(less, s, s[1..]);
      SortedRest(less, s);
      SortedRest(less, t);
      SortedUnique(less, s[1..], t[1..]);
    }
  }

  /** Sorting gives one result for every order of the input. */
  lemma SortCanonical<T(!new)>(less: Less<T>, s: seq<T>, t: seq<T>)
    requires StrictOrder(less) && TiesEqual(less, s) && multiset(s) == multiset(t)
    ensures Sort(less, s) == Sort(less, t)
  {
    SamePermutation(s, t);
    TiesPermute(less, s, t);
    SortPermutes(less, s);
    SortPermutes(less, t);
    SortSorts(less, s);
    SortSorts(less, t);
    SamePermutation(s, Sort(less, s));
    TiesPermute(less, s, Sort(less, s));
    SortedUnique(less, Sort(less, s), Sort(less, t));
  }
}
