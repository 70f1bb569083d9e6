/** Values shared by every module: bytes, optional values and results. */
module Common {

  newtype Byte = b: int | 0 <= b < 256

  /** File contents. */
  type Bytes = seq<Byte>

  datatype Option<+T> = None | Some(value: T)

  datatype Result<+T> = Success(value: T) | Failure(error: string)

  /** The SHA-256 digest of a file's contents, as an injective constructor: collision free. */
  datatype Digest<+T> = Sha256(preimage: T)

  lemma {:induction false} SubsetSize<T>(a: set<T>, b: set<T>)
    requires a <= b
    ensures |a| <= |b|
  {
    if a == {} {
    } else {
      var x :| x in a;
      SubsetSize(a - {x}, b - {x});
    }
  }

  lemma SameSizeSubset<T>(a: set<T>, b: set<T>)
    requires a <= b && |a| == |b|
    ensures a == b
  {
    forall x | x in b ensures x in a {
      if x !in a { SubsetSize(a + {x}, b); }
    }
  }

  /** What one element passes on to the next holds from there on. */
  lemma {:induction false} Throughout<T>(xs: seq<T>, p: T -> bool, i: nat, j: nat)
    requires i <= j < |xs| && p(xs[i])
    requires forall k: nat :: i <= k < j && p(xs[k]) ==> p(xs[k + 1])
    ensures p(xs[j])
  {
    if i == j {
    } else {
      Throughout(xs, p, i, j - 1);
      assert p(xs[j - 1 + 1]);
    }
  }
}
