/** Pixel coordinates and the sequence operations the path solver is built
    from: the 8-neighbourhood test, squared Euclidean distance, and Python's
    `list.pop(i)`. */
module Points {

  /** A pixel of the 1000 x 1000 skeleton image: `x` is the column and `y`
      the row, in the order the scan stores them (`[x, y]`). */
  datatype Point = Point(x: int, y: int)

  function Abs(v: int): (r: nat)
    ensures r == v || r == -v
  {
    if v < 0 then -v else v
  }

  /** Chebyshev distance at most 1: the same pixel or one of its eight
      neighbours. */
  predicate Adjacent(p: Point, q: Point) {
    Abs(p.x - q.x) <= 1 && Abs(p.y - q.y) <= 1
  }

  /** The square of the Euclidean distance between two pixels. python/old.py
      compares `sqrt` of this quantity; since `sqrt` is strictly increasing
      on non-negative numbers, comparing the squares orders pixels the same
      way. */
  function SquaredDistance(p: Point, q: Point): (d: nat)
    ensures d == 0 <==> p == q
  {
    (p.x - q.x) * (p.x - q.x) + (p.y - q.y) * (p.y - q.y)
  }

  /** Python's `s.pop(i)` for an index inside the list: the list without its
      i-th element, everything else in its original order. */
  function Pop<T>(s: seq<T>, i: nat): (r: seq<T>)
    requires i < |s|
    ensures |r| == |s| - 1
    ensures forall j :: 0 <= j < i ==> r[j] == s[j]
    ensures forall j :: i <= j < |r| ==> r[j] == s[j + 1]
    ensures multiset(r) + multiset{s[i]} == multiset(s)
  {
    assert s == s[..i] + [s[i]] + s[i + 1..];
    s[..i] + s[i + 1..]
  }

  /** No element occurs twice. */
  predicate Distinct<T(==)>(s: seq<T>) {
    forall i, j :: 0 <= i < j < |s| ==> s[i] != s[j]
  }

  /** A sequence is free of duplicates exactly when its multiset counts every
      element at most once. */
  lemma {:induction false} DistinctIffMultiplicityOne<T>(s: seq<T>)
    ensures Distinct(s) <==> forall x :: multiset(s)[x] <= 1
  {
    if |s| == 0 {
    } else {
      var h, t := s[0], s[1..];
      assert s == [h] + t;
      DistinctIffMultiplicityOne(t);
      if Distinct(s) {
        assert h !in t;
        assert Distinct(t) by {
          forall i, j | 0 <= i < j < |t| ensures t[i] != t[j] {
            assert s[i + 1] != s[j + 1];
          }
        }
        forall x ensures multiset(s)[x] <= 1 {
          assert multiset(s)[x] == multiset{h}[x] + multiset(t)[x];
        }
      }
      if forall x :: multiset(s)[x] <= 1 {
        assert h !in t by {
          assert multiset(s)[h] == 1 + multiset(t)[h];
        }
        forall x ensures multiset(t)[x] <= 1 {
          assert multiset(s)[x] == multiset{h}[x] + multiset(t)[x];
        }
        forall i, j | 0 <= i < j < |s| ensures s[i] != s[j] {
          if i == 0 {
            assert s[j] == t[j - 1];
          } else {
            assert s[i] == t[i - 1] && s[j] == t[j - 1];
          }
        }
      }
    }
  }

  /** Two sequences with the same multiset of elements agree on having no
      duplicates. */
  lemma PermutationPreservesDistinct<T>(a: seq<T>, b: seq<T>)
    requires multiset(a) == multiset(b)
    ensures Distinct(a) <==> Distinct(b)
  {
    DistinctIffMultiplicityOne(a);
    DistinctIffMultiplicityOne(b);
  }
}
