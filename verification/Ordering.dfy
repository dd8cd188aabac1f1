/** Lists compared up to order, and what a library sort promises about them.
    `sort.Slice` is not stable, so the model never fixes an algorithm: a sort is any function
    that returns an ordered permutation of its argument. */
module Ordering {
  import opened Text

  /** The sort keys of the canonical map payload are pairs of strings, compared first by first. */
  type SortKey = (string, string)

  /** A string as its own sort key. */
  function TextKey(s: string): SortKey { (s, "") }

  predicate KeyLeq(a: SortKey, b: SortKey) {
    if a.0 == b.0 then Leq(a.1, b.1) else Leq(a.0, b.0)
  }

  lemma KeyLeqAntisymmetric(a: SortKey, b: SortKey)
    requires KeyLeq(a, b) && KeyLeq(b, a)
    ensures a == b
  {
    if a.0 == b.0 {
      LeqAntisymmetric(a.1, b.1);
    } else {
      LeqAntisymmetric(a.0, b.0);
    }
  }

  ghost predicate SortedBy<T>(s: seq<T>, key: T -> SortKey) {
    forall i, j | 0 <= i < j < |s| :: KeyLeq(key(s[i]), key(s[j]))
  }

  ghost predicate SamePermutation<T>(a: seq<T>, b: seq<T>) {
    multiset(a) == multiset(b)
  }

  /** `f` sorts by `key`. */
  ghost predicate Sorts<T(!new)>(f: seq<T> -> seq<T>, key: T -> SortKey) {
    forall s :: SamePermutation(f(s), s) && SortedBy(f(s), key)
  }

  /** The key determines the element, among the elements of `s`. */
  ghost predicate Faithful<T>(s: seq<T>, key: T -> SortKey) {
    forall x, y | x in s && y in s && key(x) == key(y) :: x == y
  }

  ghost predicate DistinctBy<T>(s: seq<T>, id: T -> string) {
    forall i, j | 0 <= i < j < |s| :: id(s[i]) != id(s[j])
  }

  function Map<T, U>(s: seq<T>, f: T -> U): (r: seq<U>)
    ensures |r| == |s|
    ensures forall i | 0 <= i < |s| :: r[i] == f(s[i])
  {
    seq(|s|, i requires 0 <= i < |s| => f(s[i]))
  }

  lemma MapMember<T(!new)>(s: seq<T>, f: T -> string, k: string)
    ensures k in Map(s, f) <==> exists x | x in s :: f(x) == k
  {
    if k in Map(s, f) {
      var i :| 0 <= i < |s| && Map(s, f)[i] == k;
      assert s[i] in s;
    }
  }

  /** A string as its own identifier. */
  function Itself(s: string): string { s }

  /** Multisets with the same multiplicities are equal. */
  lemma SameCounts<T(!new)>(a: multiset<T>, b: multiset<T>)
    requires forall x :: a[x] == b[x]
    ensures a == b
  {
  }

  lemma MembersOfPermutation<T(!new)>(a: seq<T>, b: seq<T>)
    requires SamePermutation(a, b)
    ensures |a| == |b|
    ensures forall x :: x in a <==> x in b
  {
    assert |multiset(a)| == |multiset(b)|;
    forall x
      ensures x in a <==> x in b
    {
      assert x in a <==> x in multiset(a);
      assert x in b <==> x in multiset(b);
    }
  }

  lemma TailsOfPermutation<T(!new)>(a: seq<T>, b: seq<T>)
    requires SamePermutation(a, b) && a != [] && b != [] && a[0] == b[0]
    ensures SamePermutation(a[1..], b[1..])
  {
    assert a == [a[0]] + a[1..] && b == [b[0]] + b[1..];
    assert multiset(a[1..]) == multiset(a) - multiset{a[0]};
    assert multiset(b[1..]) == multiset(b) - multiset{b[0]};
  }

  /** An ordered permutation is unique as soon as the key tells the elements apart:
      any two sorting algorithms then agree, on any two orderings of the input. */
  lemma {:induction false} SortedUnique<T(!new)>(a: seq<T>, b: seq<T>, key: T -> SortKey)
    requires SamePermutation(a, b)
    requires SortedBy(a, key) && SortedBy(b, key) && Faithful(a, key)
    ensures a == b
  {
    MembersOfPermutation(a, b);
    if a != [] {
      assert a[0] in b && b[0] in a;
      var i :| 0 <= i < |b| && b[i] == a[0];
      var j :| 0 <= j < |a| && a[j] == b[0];
      if i != 0 && j != 0 {
        assert KeyLeq(key(b[0]), key(b[i])) && KeyLeq(key(a[0]), key(a[j]));
        KeyLeqAntisymmetric(key(a[0]), key(b[0]));
      }
      assert a[0] == b[0];
      TailsOfPermutation(a, b);
      SortedUnique(a[1..], b[1..], key);
      assert a == [a[0]] + a[1..] && b == [b[0]] + b[1..];
    }
  }

  /** Sorting forgets the order and nothing else. */
  lemma SortForgetsOrder<T(!new)>(f: seq<T> -> seq<T>, key: T -> SortKey, a: seq<T>, b: seq<T>)
    requires Sorts(f, key)
    ensures f(a) == f(b) ==> SamePermutation(a, b)
    ensures SamePermutation(a, b) && Faithful(a, key) ==> f(a) == f(b)
  {
    assert SamePermutation(f(a), a) && SamePermutation(f(b), b);
    if SamePermutation(a, b) && Faithful(a, key) {
      MembersOfPermutation(f(a), a);
      SortedUnique(f(a), f(b), key);
    }
  }

  lemma SameId<T(!new)>(s: seq<T>, id: T -> string, x: T, y: T)
    requires DistinctBy(s, id) && x in s && y in s && id(x) == id(y)
    ensures x == y
  {
  }

  lemma DistinctSnoc<T(!new)>(s: seq<T>, y: T, id: T -> string)
    requires DistinctBy(s, id)
    requires forall x | x in s :: id(x) != id(y)
    ensures DistinctBy(s + [y], id)
  {
  }

  lemma DistinctInit<T(!new)>(s: seq<T>, id: T -> string)
    requires DistinctBy(s, id) && s != []
    ensures DistinctBy(s[..|s| - 1], id)
    ensures forall x | x in s[..|s| - 1] :: id(x) != id(s[|s| - 1])
  {
    var n := |s| - 1;
    forall x | x in s[..n]
      ensures id(x) != id(s[n])
    {
      var i :| 0 <= i < n && s[..n][i] == x;
      assert s[i] == x;
    }
  }

  // ----- first occurrences -----

  /** The non-blank normal forms of the values, each at its first occurrence. */
  function FirstForms(values: seq<string>, norm: string -> string): seq<string> {
    if values == [] then []
    else
      var before, value := FirstForms(values[..|values| - 1], norm), norm(values[|values| - 1]);
      if value == "" || value in before then before else before + [value]
  }

  /** The loop over the values with the set of forms already seen. */
  method CollectForms(values: seq<string>, norm: string -> string) returns (out: seq<string>)
    ensures out == FirstForms(values, norm)
  {
    var seen: set<string> := {};
    out := [];
    for i := 0 to |values|
      invariant out == FirstForms(values[..i], norm)
      invariant forall s :: s in seen <==> s in out
    {
      assert values[..i + 1][..i] == values[..i];
      var value := norm(values[i]);
      if value != "" && value !in seen {
        seen := seen + {value};
        out := out + [value];
      }
    }
    assert values[..|values|] == values;
  }

  /** Exactly the non-blank normal forms are kept, and none is repeated. */
  lemma {:induction false} FormsMembers(values: seq<string>, norm: string -> string)
    ensures forall u :: u in FirstForms(values, norm) <==> u != "" && exists raw | raw in values :: norm(raw) == u
    ensures DistinctBy(FirstForms(values, norm), Itself)
  {
    if values != [] {
      var n := |values| - 1;
      FormsMembers(values[..n], norm);
      assert values == values[..n] + [values[n]];
    }
  }

  /** Two equal entries of a list show as multiplicity two. */
  lemma RepeatedMultiplicity<T(!new)>(s: seq<T>, i: nat, j: nat)
    requires i < j < |s| && s[i] == s[j]
    ensures multiset(s)[s[i]] >= 2
  {
    assert s == s[..j] + ([s[j]] + s[j + 1..]);
    assert s[i] in s[..j];
    assert multiset(s) == multiset(s[..j]) + multiset{s[j]} + multiset(s[j + 1..]);
  }

  /** A list with distinct identifiers holds every element at most once. */
  lemma {:induction false} DistinctMultiplicity<T(!new)>(s: seq<T>, id: T -> string, x: T)
    requires DistinctBy(s, id)
    ensures multiset(s)[x] <= 1
  {
    if s != [] {
      assert s == [s[0]] + s[1..];
      assert DistinctBy(s[1..], id);
      DistinctMultiplicity(s[1..], id, x);
      assert s[0] !in s[1..];
      assert multiset(s) == multiset{s[0]} + multiset(s[1..]);
    }
  }

  lemma DistinctPermutation<T(!new)>(a: seq<T>, b: seq<T>, id: T -> string)
    requires SamePermutation(a, b) && DistinctBy(a, id)
    ensures DistinctBy(b, id)
  {
    forall i, j | 0 <= i < j < |b|
      ensures id(b[i]) != id(b[j])
    {
      MembersOfPermutation(a, b);
      DistinctMultiplicity(a, id, b[i]);
      if b[i] == b[j] {
        RepeatedMultiplicity(b, i, j);
      }
      assert b[i] in a && b[j] in a;
    }
  }

  /** Two lists without repetition that hold the same elements are permutations of each other. */
  lemma SameMembersPermute<T(!new)>(a: seq<T>, b: seq<T>, id: T -> string)
    requires DistinctBy(a, id) && DistinctBy(b, id)
    requires forall x :: x in a <==> x in b
    ensures SamePermutation(a, b)
  {
    forall x
      ensures multiset(a)[x] == multiset(b)[x]
    {
      DistinctMultiplicity(a, id, x);
      DistinctMultiplicity(b, id, x);
      assert x in a <==> multiset(a)[x] > 0;
      assert x in b <==> multiset(b)[x] > 0;
    }
    SameCounts(multiset(a), multiset(b));
  }

  lemma {:induction false} DistinctSize(s: seq<string>)
    requires DistinctBy(s, Itself)
    ensures |set x | x in s| == |s|
  {
    if s != [] {
      var n := |s| - 1;
      DistinctInit(s, Itself);
      DistinctSize(s[..n]);
      assert s == s[..n] + [s[n]];
      assert (set x | x in s) == (set x | x in s[..n]) + {s[n]};
      assert s[n] !in s[..n] by { assert Itself(s[n]) == s[n]; }
    }
  }

  lemma SubsetSameSize(a: set<string>, b: set<string>)
    requires a <= b && |a| == |b|
    ensures a == b
  {
    assert b == a + (b - a);
    assert |b - a| == 0;
  }

  /** Counting: a list without repetition whose elements all occur in an equally long list without
      repetition is a permutation of it. */
  lemma SubsetSameLengthPermutes(a: seq<string>, b: seq<string>)
    requires DistinctBy(a, Itself) && DistinctBy(b, Itself)
    requires |a| == |b| && forall x | x in a :: x in b
    ensures SamePermutation(a, b)
  {
    hide DistinctBy, SamePermutation;
    DistinctSize(a);
    DistinctSize(b);
    var sa, sb := set x | x in a, set x | x in b;
    SubsetSameSize(sa, sb);
    forall x
      ensures x in a <==> x in b
    {
      assert x in sa <==> x in sb;
    }
    SameMembersPermute(a, b, Itself);
  }

  lemma DistinctMap<T(!new)>(s: seq<T>, id: T -> string)
    ensures DistinctBy(Map(s, id), Itself) <==> DistinctBy(s, id)
  {
    if DistinctBy(Map(s, id), Itself) {
      forall i, j | 0 <= i < j < |s|
        ensures id(s[i]) != id(s[j])
      {
        assert Itself(Map(s, id)[i]) != Itself(Map(s, id)[j]);
      }
    }
  }

  /** Distinct identifiers make any key that starts with the identifier faithful. */
  lemma DistinctIsFaithful<T(!new)>(s: seq<T>, id: T -> string, key: T -> SortKey)
    requires DistinctBy(s, id)
    requires forall x, y | x in s && y in s && key(x) == key(y) :: id(x) == id(y)
    ensures Faithful(s, key)
  {
  }
}
