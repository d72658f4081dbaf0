/** Small facts about sequences and sets shared by the rest of the model. */
module Collections {

  /** No two positions of `s` agree on `f` (for ids: no id occurs twice). */
  ghost predicate DistinctBy<T, U>(s: seq<T>, f: T -> U) {
    forall i, j :: 0 <= i < |s| && 0 <= j < |s| && i != j ==> f(s[i]) != f(s[j])
  }

  /** The set of values `f` takes on the elements of `s`. */
  ghost function Image<T, U>(s: seq<T>, f: T -> U): set<U> {
    set x | x in s :: f(x)
  }

  lemma ImageCons<T, U>(s: seq<T>, f: T -> U)
    requires |s| > 0
    ensures Image(s, f) == {f(s[0])} + Image(s[1..], f)
  {
    var a := Image(s, f);
    var b := {f(s[0])} + Image(s[1..], f);
    forall y | y in a ensures y in b {
      var x :| x in s && f(x) == y;
      if x != s[0] {
        var i :| 0 <= i < |s| && s[i] == x;
        assert s[1..][i - 1] == x;
      }
    }
    forall y | y in b ensures y in a {
      if y != f(s[0]) {
        var x :| x in s[1..] && f(x) == y;
        assert x in s;
      }
    }
  }

  lemma {:induction false} ImageCardBound<T, U>(s: seq<T>, f: T -> U)
    ensures |Image(s, f)| <= |s|
    decreases |s|
  {
    if s != [] {
      ImageCons(s, f);
      ImageCardBound(s[1..], f);
    }
  }

  lemma {:induction false} DistinctImageCard<T, U>(s: seq<T>, f: T -> U)
    requires DistinctBy(s, f)
    ensures |Image(s, f)| == |s|
    decreases |s|
  {
    if s != [] {
      ImageCons(s, f);
      var t := s[1..];
      assert DistinctBy(t, f) by {
        forall i, j | 0 <= i < |t| && 0 <= j < |t| && i != j ensures f(t[i]) != f(t[j]) {
          assert t[i] == s[i + 1] && t[j] == s[j + 1];
        }
      }
      DistinctImageCard(t, f);
      forall x | x in t ensures f(x) != f(s[0]) {
        var i :| 0 <= i < |t| && t[i] == x;
        assert s[i + 1] == x;
      }
    }
  }

  /** A subset is never larger than its superset. */
  lemma {:induction false} SubsetCard<T>(a: set<T>, b: set<T>)
    requires a <= b
    ensures |a| <= |b|
    decreases a
  {
    if a != {} {
      var x :| x in a;
      SubsetCard(a - {x}, b - {x});
    }
  }

  /** Adding at least one element of `u` to `v` shrinks what is left of `u`. */
  lemma StrictGrowthShrinksRest<T>(u: set<T>, v: set<T>, w: set<T>, x: T)
    requires v <= w && x in w && x !in v && x in u
    ensures |u - w| < |u - v|
  {
    assert u - w <= (u - v) - {x};
    SubsetCard(u - w, (u - v) - {x});
    assert (u - v) == ((u - v) - {x}) + {x};
  }
}
