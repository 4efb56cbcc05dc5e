/** Lists: distinct elements, mapping, and taking one element out. */
module Lists {
  import opened Bytes

  ghost predicate Distinct<K>(keys: seq<K>) {
    forall i, j | 0 <= i < j < |keys| :: keys[i] != keys[j]
  }

  /** A list without element i. */
  function Without<T>(s: seq<T>, i: nat): (r: seq<T>)
    requires i < |s|
    ensures |r| == |s| - 1
    ensures forall j | 0 <= j < |r| :: r[j] == s[if j < i then j else j + 1]
  {
    s[..i] + s[i + 1..]
  }

  lemma DistinctWithout<T>(s: seq<T>, i: nat)
    requires Distinct(s) && i < |s|
    ensures Distinct(Without(s, i))
  {
  }

  lemma DistinctUpdate<T>(s: seq<T>, i: nat, x: T)
    requires Distinct(s) && i < |s|
    requires forall j | 0 <= j < |s| && j != i :: s[j] != x
    ensures Distinct(s[i := x])
  {
  }

  lemma DistinctAppend<T>(s: seq<T>, x: T)
    requires Distinct(s) && x !in s
    ensures Distinct(s + [x])
  {
  }

  function Map<A, B>(f: A -> B, s: seq<A>): (r: seq<B>)
    ensures |r| == |s|
    ensures forall i {:trigger r[i]} | 0 <= i < |s| :: r[i] == f(s[i])
  {
    if s == [] then [] else Map(f, s[..|s| - 1]) + [f(s[|s| - 1])]
  }

  lemma MapAppend<A, B>(f: A -> B, s: seq<A>, a: A)
    ensures Map(f, s + [a]) == Map(f, s) + [f(a)]
  {
    assert (s + [a])[..|s|] == s;
  }

  lemma MapUpdate<A, B>(f: A -> B, s: seq<A>, k: nat, a: A)
    requires k < |s|
    ensures Map(f, s[k := a]) == Map(f, s)[k := f(a)]
  {
  }

  lemma MapWithout<A, B>(f: A -> B, s: seq<A>, k: nat)
    requires k < |s|
    ensures Map(f, Without(s, k)) == Without(Map(f, s), k)
  {
    hide Map, Without;
    assert forall j | 0 <= j < |s| - 1 :: Map(f, Without(s, k))[j] == Without(Map(f, s), k)[j];
  }

  /** Where x is in s. */
  function IndexOf<T(==)>(s: seq<T>, x: T): (r: Option<nat>)
    ensures r.Some? ==> r.value < |s| && s[r.value] == x
    ensures r.None? <==> x !in s
  {
    if s == [] then None
    else if s[|s| - 1] == x then Some(|s| - 1)
    else IndexOf(s[..|s| - 1], x)
  }

  lemma IndexOfDistinct<T>(s: seq<T>, i: nat)
    requires Distinct(s) && i < |s|
    ensures IndexOf(s, s[i]) == Some(i)
  {
    var j := IndexOf(s, s[i]).value;
    assert i < j || i == j || j < i;
  }
}
