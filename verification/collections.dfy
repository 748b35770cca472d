/** Small facts about sequences and finite sets used across the model. */
module Collections {

  /** No element of the list occurs twice. */
  predicate Distinct<T(==)>(s: seq<T>)
  {
    forall i, j :: 0 <= i < j < |s| ==> s[i] != s[j]
  }

  /** The elements of a list. */
  function Elements<T>(s: seq<T>): set<T>
  {
    set x | x in s
  }

  /** The elements of a non-empty list are its head and those of its tail. */
  lemma ElementsCons<T>(s: seq<T>)
    requires |s| > 0
    ensures Elements(s) == {s[0]} + Elements(s[1..])
  {
    assert forall x :: x in s <==> x == s[0] || x in s[1..];
  }

  /** Adding elements drawn from a finite universe shrinks what is left of it. */
  lemma ObservedGrows<T>(universe: set<T>, a: set<T>, b: set<T>)
    requires a <= b && b - a <= universe && a != b
    ensures |universe - b| < |universe - a|
  {
    var x :| x in b && x !in a;
    SubsetCard(universe - b, (universe - a) - {x});
  }

  lemma {:induction false} SubsetCard<T>(a: set<T>, b: set<T>)
    requires a <= b
    ensures |a| <= |b|
    decreases |b|
  {
    if a != {} {
      var x :| x in a;
      SubsetCard(a - {x}, b - {x});
    }
  }

  /** A list has at least as many entries as elements, and exactly as many
      when no element repeats. */
  lemma {:induction false} ElementsCard<T>(s: seq<T>)
    ensures |Elements(s)| <= |s|
    ensures |Elements(s)| == |s| <==> Distinct(s)
  {
    if s != [] {
      var t := s[1..];
      ElementsCard(t);
      assert Elements(s) == {s[0]} + Elements(t) by {
        forall x ensures x in Elements(s) <==> x in {s[0]} + Elements(t) {
          if x in s && x != s[0] {
            var i :| 0 <= i < |s| && s[i] == x;
            assert t[i - 1] == x;
          }
        }
      }
      if Distinct(s) {
        assert Distinct(t) by {
          forall i, j | 0 <= i < j < |t| ensures t[i] != t[j] {
            assert t[i] == s[i + 1] && t[j] == s[j + 1];
          }
        }
      }
      if |Elements(s)| == |s| {
        assert s[0] !in Elements(t);
        forall i, j | 0 <= i < j < |s| ensures s[i] != s[j] {
          if i > 0 {
            assert s[i] == t[i - 1] && s[j] == t[j - 1];
          } else {
            assert s[j] == t[j - 1];
          }
        }
      }
    }
  }

  /** Two lists without repeats and with no element in common make one. */
  lemma DistinctConcat<T>(s: seq<T>, t: seq<T>)
    requires Distinct(s) && Distinct(t)
    requires forall x :: x in s ==> x !in t
    ensures Distinct(s + t)
  {
    forall i, j | 0 <= i < j < |s + t| ensures (s + t)[i] != (s + t)[j] {
      if j >= |s| && i < |s| {
        assert (s + t)[i] in s && (s + t)[j] in t;
      }
    }
  }
}
