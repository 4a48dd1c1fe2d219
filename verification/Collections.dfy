/** Optional values and the facts about vectors and finite sets that the rest of the project
    shares. */
module Collections {

  datatype Option<+T> = None | Some(value: T)

  ghost predicate NoDup<T>(s: seq<T>) {
    forall i, j | 0 <= i < j < |s| :: s[i] != s[j]
  }

  /** `Vec::swap_remove`: the last element takes the place of the removed one. */
  function SwapRemove<T>(s: seq<T>, pos: nat): (r: seq<T>)
    requires pos < |s|
    ensures |r| == |s| - 1
    ensures multiset(r) == multiset(s) - multiset{s[pos]}
  {
    assert s == s[..pos] + [s[pos]] + s[pos + 1..];
    var last := s[|s| - 1];
    if pos == |s| - 1 then
      s[..pos]
    else
      assert s == s[..pos] + [s[pos]] + s[pos + 1..|s| - 1] + [last];
      assert s[pos := last][..|s| - 1] == s[..pos] + [last] + s[pos + 1..|s| - 1];
      s[pos := last][..|s| - 1]
  }

  lemma OverwriteThenRemove<K, V>(m: map<K, V>, k: K, v: V)
    ensures m[k := v] - {k} == m - {k}
  {
  }

  lemma NoDupMultiset<T>(s: seq<T>)
    requires NoDup(s)
    ensures forall x :: multiset(s)[x] == if x in s then 1 else 0
  {
    if s != [] {
      var n := |s| - 1;
      assert s == s[..n] + [s[n]];
      NoDupMultiset(s[..n]);
    }
  }

  /** Removing by swap keeps a duplicate-free vector duplicate-free and drops exactly one value. */
  lemma SwapRemoveNoDup<T>(s: seq<T>, pos: nat)
    requires pos < |s| && NoDup(s)
    ensures NoDup(SwapRemove(s, pos))
    ensures forall x :: x in SwapRemove(s, pos) <==> x in s && x != s[pos]
  {
  }

  lemma NoDupConcat<T>(a: seq<T>, b: seq<T>)
    requires NoDup(a) && NoDup(b) && forall x | x in a :: x !in b
    ensures NoDup(a + b)
  {
    var s := a + b;
    forall i, j | 0 <= i < j < |s| ensures s[i] != s[j] {
      if i < |a| <= j {
        assert s[i] in a && s[j] == b[j - |a|];
      }
    }
  }

  /** A duplicate-free sequence inside a finite set is no longer than the set is large. */
  lemma NoDupWithin<T>(s: seq<T>, u: set<T>)
    requires NoDup(s) && forall x | x in s :: x in u
    ensures |s| <= |u|
  {
    if s != [] {
      var n := |s| - 1;
      assert s == s[..n] + [s[n]];
      NoDupWithin(s[..n], u - {s[n]});
    }
  }

  /** A duplicate-free sequence lists a set of its own length. */
  lemma NoDupCard<T>(s: seq<T>, u: set<T>)
    requires NoDup(s) && forall x :: x in s <==> x in u
    ensures |s| == |u|
  {
    if s != [] {
      var n := |s| - 1;
      assert s == s[..n] + [s[n]];
      assert forall x :: x in s[..n] <==> x in u - {s[n]};
      NoDupCard(s[..n], u - {s[n]});
    } else {
      assert forall x :: x in u ==> x in s;
    }
  }

  /** The first position holding `x`, or the length when there is none (`iter().position`). */
  function Position<T(==)>(s: seq<T>, x: T): (p: nat)
    ensures p <= |s|
    ensures p < |s| ==> s[p] == x
    ensures p == |s| <==> x !in s
  {
    if s == [] then 0
    else if s[0] == x then 0
    else
      assert s == [s[0]] + s[1..];
      1 + Position(s[1..], x)
  }
}
