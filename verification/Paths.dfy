/**
 Relative paths as '/'-separated strings, the order of sort.Strings on them, and the
 "is an ancestor of" relation that a directory tree is built on.
 */
module Paths {
  import opened Sorting

  /** The strict order of sort.Strings. */
  predicate Less(a: string, b: string) {
    if a == [] then b != []
    else if b == [] then false
    else if a[0] != b[0] then a[0] < b[0]
    else Less(a[1..], b[1..])
  }

  /** q names a directory that p lies strictly below. */
  predicate Above(q: string, p: string) {
    |q| < |p| && p[..|q|] == q && p[|q|] == '/'
  }

  /** Below a directory is what has its path and a slash in front. */
  lemma AboveIff(q: string, p: string)
    ensures Above(q, p) <==> exists name :: p == q + "/" + name
  {
    if Above(q, p) { assert p == q + "/" + p[|q| + 1..]; }
  }

  /** p is q or lies below q. */
  predicate Within(q: string, p: string) {
    q == p || Above(q, p)
  }

  predicate StrictlySorted(paths: seq<string>) {
    forall i, j :: 0 <= i < j < |paths| ==> Less(paths[i], paths[j])
  }

  lemma {:induction false} LessIrreflexive(a: string)
    ensures !Less(a, a)
  {
    if a == [] {
    } else {
      LessIrreflexive(a[1..]);
    }
  }

  lemma {:induction false} LessTransitive(a: string, b: string, c: string)
    requires Less(a, b) && Less(b, c)
    ensures Less(a, c)
  {
    if a == [] || a[0] != b[0] || b[0] != c[0] {
    } else {
      LessTransitive(a[1..], b[1..], c[1..]);
    }
  }

  lemma {:induction false} LessTotal(a: string, b: string)
    ensures a == b || Less(a, b) || Less(b, a)
  {
    if a == [] || b == [] || a[0] != b[0] {
    } else {
      LessTotal(a[1..], b[1..]);
      assert a == [a[0]] + a[1..] && b == [b[0]] + b[1..];
    }
  }

  lemma LessAsymmetric(a: string, b: string)
    requires Less(a, b)
    ensures !Less(b, a)
  {
    if Less(b, a) {
      LessTransitive(a, b, a);
      LessIrreflexive(a);
    }
  }

  /** Before comes a proper prefix, or what has the smaller character where the two first differ. */
  lemma {:induction false} LessIff(a: string, b: string)
    ensures Less(a, b) <==> (exists rest :: rest != [] && b == a + rest) || exists n :: DiffersAt(a, b, n)
  {
    if a == [] {
      assert b == a + b;
    } else if b != [] && a[0] == b[0] {
      LessIff(a[1..], b[1..]);
      assert a == [a[0]] + a[1..] && b == [b[0]] + b[1..];
      forall n: nat ensures DiffersAt(a[1..], b[1..], n) <==> DiffersAt(a, b, n + 1) {
        if n + 1 < |a| && n + 1 < |b| { SamePrefix(a, b, n); }
      }
      if rest :| rest != [] && b[1..] == a[1..] + rest { assert b == a + rest; }
      if rest :| rest != [] && b == a + rest { assert b[1..] == a[1..] + rest; }
      if n :| DiffersAt(a, b, n) { assert DiffersAt(a[1..], b[1..], n - 1); }
    } else if b != [] {
      assert a[0] < b[0] ==> DiffersAt(a, b, 0);
    }
  }

  predicate DiffersAt(a: string, b: string, n: int) {
    0 <= n < |a| && n < |b| && a[..n] == b[..n] && a[n] < b[n]
  }

  lemma SamePrefix(a: string, b: string, n: nat)
    requires n < |a| && n < |b| && a[0] == b[0]
    ensures a[1..][..n] == b[1..][..n] <==> a[..n + 1] == b[..n + 1]
  {
    assert a[..n + 1] == [a[0]] + a[1..][..n] && b[..n + 1] == [b[0]] + b[1..][..n];
    if a[..n + 1] == b[..n + 1] { assert a[1..][..n] == a[..n + 1][1..] && b[1..][..n] == b[..n + 1][1..]; }
  }

  predicate NotAfter(a: string, b: string) { !Less(b, a) }

  lemma NotAfterIsOrder()
    ensures IsOrder(NotAfter)
  {
    forall a, b ensures NotAfter(a, b) || NotAfter(b, a) {
      if Less(a, b) { LessAsymmetric(a, b); }
    }
    forall a, b, c | NotAfter(a, b) && NotAfter(b, c) ensures NotAfter(a, c) {
      LessTotal(a, b);
      LessTotal(b, c);
      if Less(c, a) {
        if a == b || b == c {
        } else {
          LessTransitive(a, b, c);
          LessAsymmetric(a, c);
        }
      }
    }
  }

  /** A proper prefix comes first. */
  lemma {:induction false} PrefixLess(a: string, b: string)
    requires |a| < |b| && b[..|a|] == a
    ensures Less(a, b)
  {
    if a == [] {
    } else {
      assert b[0] == b[..|a|][0];
      assert b[1..][..|a| - 1] == b[..|a|][1..];
      PrefixLess(a[1..], b[1..]);
    }
  }

  /** Sorted order lists a directory before everything below it. */
  lemma AboveLess(q: string, p: string)
    requires Above(q, p)
    ensures Less(q, p) && !Less(p, q)
  {
  }

  lemma AboveTransitive(r: string, q: string, p: string)
    requires Above(r, q) && Above(q, p)
    ensures Above(r, p)
  {
  }

  lemma WithinTransitive(r: string, q: string, p: string)
    requires Within(r, q) && Within(q, p)
    ensures Within(r, p)
  {
  }

  /** The directories above one path form a chain. */
  lemma AncestorsComparable(r: string, q: string, p: string)
    requires Within(r, p) && Within(q, p)
    ensures Within(r, q) || Above(q, r)
  {
  }

  /** Two strictly sorted lists of the same paths are the same list. */
  lemma {:induction false} SortedUnique(a: seq<string>, b: seq<string>)
    requires StrictlySorted(a) && StrictlySorted(b)
    requires forall p :: p in a <==> p in b
    ensures a == b
  {
    assert (a == [] || a[0] in a) && (b == [] || b[0] in b);
    if a == [] {
    } else {
      var i :| 0 <= i < |b| && b[i] == a[0];
      var j :| 0 <= j < |a| && a[j] == b[0];
      if i != 0 && j != 0 {
        assert Less(a[0], a[j]) && Less(b[0], b[i]);
        LessTransitive(a[0], b[0], a[0]);
        LessIrreflexive(a[0]);
      }
      assert a[0] == b[0];
      forall p ensures p in a[1..] <==> p in b[1..] {
        TailMembers(a, p);
        TailMembers(b, p);
      }
      SortedUnique(a[1..], b[1..]);
      assert a == [a[0]] + a[1..] && b == [b[0]] + b[1..];
    }
  }

  lemma TailMembers(a: seq<string>, p: string)
    requires StrictlySorted(a) && a != []
    ensures p in a[1..] <==> p in a && p != a[0]
  {
    if p in a[1..] {
      var i :| 0 <= i < |a| - 1 && a[1..][i] == p;
      assert Less(a[0], a[i + 1]);
      LessIrreflexive(p);
    }
  }
}
