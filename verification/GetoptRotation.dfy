/** Two neighbouring ranges of a list changing places, one element at a time. */
module GetoptRotation {
  ghost function Moved(s: seq<string>, i: int, last: int): seq<string>
    requires 0 <= i <= last < |s|
  {
    s[..i] + s[i + 1..last + 1] + [s[i]] + s[last + 1..]
  }

  lemma Shifted(s: seq<string>, t: seq<string>, i: int, last: int)
    requires 0 <= i <= last < |s| == |t| && t[last] == s[i]
    requires forall m :: i < m <= last ==> t[m - 1] == s[m]
    requires forall m :: 0 <= m < i || last < m < |s| ==> t[m] == s[m]
    ensures t == Moved(s, i, last)
  {
    var u := Moved(s, i, last);
    forall m | 0 <= m < |t|
      ensures t[m] == u[m]
    {
      if i <= m < last {
        assert u[m] == s[m + 1] && t[m + 1 - 1] == s[m + 1];
      }
    }
  }

  /** The elements from `a` to `b` and those from `b` to `c` have changed places. */
  ghost function Swapped(s: seq<string>, a: int, b: int, c: int): seq<string>
    requires 0 <= a <= b <= c <= |s|
  {
    s[..a] + s[b..c] + s[a..b] + s[c..]
  }

  lemma SwappedPieces(A: seq<string>, X: seq<string>, Y: seq<string>, Z: seq<string>)
    ensures Swapped(A + X + Y + Z, |A|, |A| + |X|, |A| + |X| + |Y|) == A + Y + X + Z
  {
    var s := A + X + Y + Z;
    assert s[..|A|] == A && s[|A|..|A| + |X|] == X;
    assert s[|A| + |X|..|A| + |X| + |Y|] == Y && s[|A| + |X| + |Y|..] == Z;
  }

  /** All but the first `k` elements of `X` have moved behind `Y`. */
  ghost function Rotation(A: seq<string>, X: seq<string>, Y: seq<string>, Z: seq<string>, k: int): seq<string>
    requires 0 <= k <= |X|
  {
    A + X[..k] + Y + X[k..] + Z
  }

  lemma RotationStarts(s: seq<string>, a: int, b: int, c: int)
    requires 0 <= a <= b <= c <= |s|
    ensures Rotation(s[..a], s[a..b], s[b..c], s[c..], b - a) == s
  {
  }

  lemma RotationEnds(A: seq<string>, X: seq<string>, Y: seq<string>, Z: seq<string>)
    ensures Rotation(A, X, Y, Z, 0) == A + Y + X + Z
  {
    assert X[..0] == [] && X[0..] == X;
    assert A + [] == A;
  }

  /** One more element of `X` moves behind `Y`. */
  lemma RotationStep(A: seq<string>, X: seq<string>, Y: seq<string>, Z: seq<string>, k: int)
    requires 0 <= k < |X|
    ensures |Rotation(A, X, Y, Z, k + 1)| == |A| + |X| + |Y| + |Z|
    ensures Moved(Rotation(A, X, Y, Z, k + 1), |A| + k, |A| + k + |Y|) == Rotation(A, X, Y, Z, k)
  {
    var s, i := Rotation(A, X, Y, Z, k + 1), |A| + k;
    assert X[..k + 1] == X[..k] + [X[k]];
    assert X[k..] == [X[k]] + X[k + 1..];
    assert s[..i] + s[i + 1..i + 1 + |Y|] + [s[i]] + s[i + 1 + |Y|..] == A + X[..k] + Y + X[k..] + Z;
  }
}
