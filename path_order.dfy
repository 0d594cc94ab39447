/** Mount paths and the order Arrays.sort puts them in: java.io.File compares its path
    strings with String.compareTo, character by character, a proper prefix first. */
module PathOrder {

  /** A mount point, as java.io.File's absolute path. */
  type Path = string

  /** a.compareTo(b) <= 0. */
  predicate Le(a: string, b: string)
    decreases |a|
  {
    if a == [] then true
    else if b == [] then false
    else if a[0] != b[0] then a[0] < b[0]
    else Le(a[1..], b[1..])
  }

  lemma {:induction false} LeReflexive(a: string)
    ensures Le(a, a)
    decreases |a|
  {
    if a != [] { LeReflexive(a[1..]); }
  }

  lemma {:induction false} LeTotal(a: string, b: string)
    ensures Le(a, b) || Le(b, a)
    decreases |a|
  {
    if a != [] && b != [] && a[0] == b[0] { LeTotal(a[1..], b[1..]); }
  }

  lemma {:induction false} LeAntisymmetric(a: string, b: string)
    requires Le(a, b) && Le(b, a)
    ensures a == b
    decreases |a|
  {
    if a != [] && b != [] {
      LeAntisymmetric(a[1..], b[1..]);
      assert a == [a[0]] + a[1..] && b == [b[0]] + b[1..];
    }
  }

  lemma {:induction false} LeTransitive(a: string, b: string, c: string)
    requires Le(a, b) && Le(b, c)
    ensures Le(a, c)
    decreases |a|
  {
    if a != [] && b != [] && c != [] && a[0] == b[0] == c[0] {
      LeTransitive(a[1..], b[1..], c[1..]);
    }
  }

  predicate Sorted(s: seq<Path>)
  {
    forall i, j :: 0 <= i < j < |s| ==> Le(s[i], s[j])
  }

  /** Every element of `s` is at least `x`. */
  predicate AllAtLeast(x: Path, s: seq<Path>)
  {
    forall i :: 0 <= i < |s| ==> Le(x, s[i])
  }

  /** Insert `x` before the first element it does not exceed. */
  function Insert(x: Path, s: seq<Path>): (r: seq<Path>)
    ensures multiset(r) == multiset(s) + multiset{x}
    ensures |r| == |s| + 1
  {
    if s == [] then [x]
    else if Le(x, s[0]) then [x] + s
    else
      assert s == [s[0]] + s[1..];
      [s[0]] + Insert(x, s[1..])
  }

  lemma {:induction false} InsertSorted(x: Path, s: seq<Path>)
    requires Sorted(s)
    ensures Sorted(Insert(x, s))
    ensures forall y :: AllAtLeast(y, s) && Le(y, x) ==> AllAtLeast(y, Insert(x, s))
  {
    var r := Insert(x, s);
    if s == [] {
    } else if Le(x, s[0]) {
      forall i | 0 < i < |r| ensures Le(x, r[i]) {
        if i > 1 { LeTransitive(x, s[0], s[i - 1]); }
      }
    } else {
      var t := Insert(x, s[1..]);
      assert r == [s[0]] + t;
      InsertSorted(x, s[1..]);
      LeTotal(x, s[0]);
      assert AllAtLeast(s[0], s[1..]);
      assert AllAtLeast(s[0], t);
      forall y | AllAtLeast(y, s) && Le(y, x) ensures AllAtLeast(y, r) {
        assert AllAtLeast(y, s[1..]);
      }
    }
  }

  /** Arrays.sort: the ascending arrangement of the same elements. */
  function Sort(s: seq<Path>): (r: seq<Path>)
    ensures Sorted(r)
    ensures multiset(r) == multiset(s)
    ensures |r| == |s|
  {
    if s == [] then [] else
      assert s == [s[0]] + s[1..];
      InsertSorted(s[0], Sort(s[1..]));
      Insert(s[0], Sort(s[1..]))
  }

  /** Two sorted arrangements of one multiset start with the same element. */
  lemma SameHead(a: seq<Path>, b: seq<Path>)
    requires Sorted(a) && Sorted(b) && multiset(a) == multiset(b) && a != []
    ensures b != [] && a[0] == b[0]
  {
    assert |b| == |a| by { assert |multiset(a)| == |multiset(b)|; }
    assert a[0] in multiset(b) && b[0] in multiset(a) by {
      assert a[0] in multiset(a) && b[0] in multiset(b);
    }
    var i :| 0 <= i < |b| && b[i] == a[0];
    var j :| 0 <= j < |a| && a[j] == b[0];
    assert Le(b[0], a[0]) by { if i > 0 { assert Le(b[0], b[i]); } else { LeReflexive(a[0]); } }
    assert Le(a[0], b[0]) by { if j > 0 { assert Le(a[0], a[j]); } else { LeReflexive(a[0]); } }
    LeAntisymmetric(a[0], b[0]);
  }

  lemma TailMultiset(a: seq<Path>)
    requires a != []
    ensures multiset(a[1..]) == multiset(a) - multiset{a[0]}
  {
    assert a == [a[0]] + a[1..];
    assert multiset(a) == multiset{a[0]} + multiset(a[1..]);
  }

  /** A sorted arrangement of a multiset is unique. */
  lemma {:induction false} SortedUnique(a: seq<Path>, b: seq<Path>)
    requires Sorted(a) && Sorted(b)
    requires multiset(a) == multiset(b)
    ensures a == b
    decreases |a|
  {
    if a != [] {
      SameHead(a, b);
      TailMultiset(a);
      TailMultiset(b);
      SortedUnique(a[1..], b[1..]);
      assert a == [a[0]] + a[1..] && b == [b[0]] + b[1..];
    } else {
      assert |multiset(b)| == 0;
    }
  }

  /** Sorting canonicalises: two listings of the same mounts sort to the same array,
      so the comparison with the baseline does not depend on enumeration order. */
  lemma SortCanonical(a: seq<Path>, b: seq<Path>)
    requires multiset(a) == multiset(b)
    ensures Sort(a) == Sort(b)
  {
    SortedUnique(Sort(a), Sort(b));
  }

  /** A sorted listing is left as it is. */
  lemma SortOfSorted(a: seq<Path>)
    requires Sorted(a)
    ensures Sort(a) == a
  {
    SortedUnique(Sort(a), a);
  }
}
