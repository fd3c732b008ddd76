/** Tags as raw text key=value, ordered by their raw keys. */
module TagOrder {
  import opened Bytes
  import opened Scan

  /** The raw key of a tag text: everything before the first bare '='. */
  function KeyOf(tag: bytes): bytes {
    tag[..NextBare(tag, 0, {EQUALS})]
  }

  ghost predicate Sorted(tags: seq<bytes>) {
    forall i, j :: 0 <= i < j < |tags| ==> !Less(KeyOf(tags[j]), KeyOf(tags[i]))
  }

  ghost predicate StrictlySorted(tags: seq<bytes>) {
    forall i, j :: 0 <= i < j < |tags| ==> Less(KeyOf(tags[i]), KeyOf(tags[j]))
  }

  ghost predicate DistinctKeys(tags: seq<bytes>) {
    forall i, j :: 0 <= i < j < |tags| ==> KeyOf(tags[i]) != KeyOf(tags[j])
  }

  /** Insertion from the right, after the tags whose keys are not greater. */
  function Insert(tags: seq<bytes>, x: bytes): seq<bytes> {
    if tags == [] || !Less(KeyOf(x), KeyOf(tags[|tags| - 1])) then tags + [x]
    else Insert(tags[..|tags| - 1], x) + [tags[|tags| - 1]]
  }

  function SortTags(tags: seq<bytes>): seq<bytes> {
    if tags == [] then [] else Insert(SortTags(tags[..|tags| - 1]), tags[|tags| - 1])
  }

  lemma {:induction false} InsertPermutes(tags: seq<bytes>, x: bytes)
    ensures multiset(Insert(tags, x)) == multiset(tags) + multiset{x}
  {
    if tags != [] && Less(KeyOf(x), KeyOf(tags[|tags| - 1])) {
      InsertPermutes(tags[..|tags| - 1], x);
      assert tags == tags[..|tags| - 1] + [tags[|tags| - 1]];
    }
  }

  lemma NotLessTransitive(a: bytes, b: bytes, c: bytes)
    requires !Less(b, a) && !Less(c, b)
    ensures !Less(c, a)
  {
    LessTotal(a, b);
    LessTotal(b, c);
    if Less(a, b) && Less(b, c) {
      LessTransitive(a, b, c);
      LessAsymmetric(a, c);
    }
    LessIrreflexive(a);
  }

  lemma {:induction false} InsertSorts(tags: seq<bytes>, x: bytes)
    requires Sorted(tags)
    ensures Sorted(Insert(tags, x))
  {
    if tags != [] {
      var n := |tags| - 1;
      var last := tags[n];
      if Less(KeyOf(x), KeyOf(last)) {
        InsertSorts(tags[..n], x);
        InsertPermutes(tags[..n], x);
        LessAsymmetric(KeyOf(x), KeyOf(last));
        var front := Insert(tags[..n], x);
        forall i | 0 <= i < |front| ensures !Less(KeyOf(last), KeyOf(front[i])) {
          assert front[i] in multiset(front);
          assert front[i] == x || front[i] in tags[..n];
        }
      } else {
        forall i | 0 <= i <= n ensures !Less(KeyOf(x), KeyOf(tags[i])) {
          if i < n {
            NotLessTransitive(KeyOf(tags[i]), KeyOf(last), KeyOf(x));
          }
        }
      }
    }
  }

  /** SortTags sorts, and loses or invents no tag. */
  lemma {:induction false} SortTagsSorts(tags: seq<bytes>)
    ensures Sorted(SortTags(tags))
    ensures multiset(SortTags(tags)) == multiset(tags)
  {
    if tags != [] {
      var n := |tags| - 1;
      SortTagsSorts(tags[..n]);
      InsertSorts(SortTags(tags[..n]), tags[n]);
      InsertPermutes(SortTags(tags[..n]), tags[n]);
      assert tags == tags[..n] + [tags[n]];
    }
  }

  lemma StrictFromDistinct(tags: seq<bytes>)
    requires Sorted(tags)
    ensures DistinctKeys(tags) <==> StrictlySorted(tags)
  {
    forall i, j | 0 <= i < j < |tags|
      ensures KeyOf(tags[i]) != KeyOf(tags[j]) <==> Less(KeyOf(tags[i]), KeyOf(tags[j]))
    {
      LessTotal(KeyOf(tags[i]), KeyOf(tags[j]));
      LessIrreflexive(KeyOf(tags[i]));
    }
  }

  predicate Rising(tags: seq<bytes>, n: nat)
    requires n + 1 < |tags|
  {
    Less(KeyOf(tags[n]), KeyOf(tags[n + 1]))
  }

  predicate Apart(tags: seq<bytes>, n: nat)
    requires n + 1 < |tags|
  {
    KeyOf(tags[n]) != KeyOf(tags[n + 1])
  }

  /** In a sorted list equal keys stand side by side, so comparing neighbours finds all of them. */
  lemma {:induction false} NeighboursDecide(tags: seq<bytes>, i: nat, j: nat)
    requires Sorted(tags) && i < j < |tags|
    requires forall n :: 0 <= n < |tags| - 1 ==> Apart(tags, n)
    ensures Less(KeyOf(tags[i]), KeyOf(tags[j]))
    decreases j - i
  {
    LessTotal(KeyOf(tags[j - 1]), KeyOf(tags[j]));
    assert Apart(tags, j - 1);
    if i < j - 1 {
      NeighboursDecide(tags, i, j - 1);
      LessTransitive(KeyOf(tags[i]), KeyOf(tags[j - 1]), KeyOf(tags[j]));
    }
  }

  lemma {:induction false} AscendingNeighbours(tags: seq<bytes>, i: nat, j: nat)
    requires i < j < |tags|
    requires forall n :: 0 <= n < |tags| - 1 ==> Rising(tags, n)
    ensures Less(KeyOf(tags[i]), KeyOf(tags[j]))
    decreases j - i
  {
    assert Rising(tags, j - 1);
    if i < j - 1 {
      AscendingNeighbours(tags, i, j - 1);
      LessTransitive(KeyOf(tags[i]), KeyOf(tags[j - 1]), KeyOf(tags[j]));
    }
  }

  /** There is only one way to put tags with distinct keys in order. */
  lemma {:induction false} StrictOrderUnique(a: seq<bytes>, b: seq<bytes>)
    requires StrictlySorted(a) && StrictlySorted(b)
    requires multiset(a) == multiset(b)
    ensures a == b
  {
    if a == [] {
      assert |multiset(b)| == |b|;
    } else {
      assert |multiset(a)| == |a| && |multiset(b)| == |b|;
      var n := |a| - 1;
      LastIsGreatest(a, b);
      ButLast(a);
      ButLast(b);
      StrictOrderUnique(a[..n], b[..n]);
    }
  }

  lemma ButLast(a: seq<bytes>)
    requires a != []
    ensures a == a[..|a| - 1] + [a[|a| - 1]]
    ensures multiset(a[..|a| - 1]) == multiset(a) - multiset{a[|a| - 1]}
  {
    assert a == a[..|a| - 1] + [a[|a| - 1]];
  }

  lemma LastIsGreatest(a: seq<bytes>, b: seq<bytes>)
    requires StrictlySorted(a) && StrictlySorted(b)
    requires multiset(a) == multiset(b) && |a| == |b| > 0
    ensures a[|a| - 1] == b[|b| - 1]
  {
    var n := |a| - 1;
    assert a[n] in multiset(b) && b[n] in multiset(a);
    var i :| 0 <= i < |b| && b[i] == a[n];
    var j :| 0 <= j < |a| && a[j] == b[n];
    if i < n && j < n {
      LessAsymmetric(KeyOf(b[i]), KeyOf(b[n]));
    }
  }

  lemma {:induction false} TwoPlaces(s: seq<bytes>, x: bytes) returns (i: nat, j: nat)
    requires multiset(s)[x] >= 2
    ensures i < j < |s| && s[i] == x && s[j] == x
  {
    var n := |s| - 1;
    assert s == s[..n] + [s[n]];
    if s[n] == x {
      assert x in multiset(s[..n]);
      i :| 0 <= i < n && s[..n][i] == x;
      j := n;
    } else {
      i, j := TwoPlaces(s[..n], x);
    }
  }

  lemma {:induction false} PlacesCount(s: seq<bytes>, i: nat, j: nat)
    requires i < j < |s| && s[i] == s[j]
    ensures multiset(s)[s[i]] >= 2
  {
    assert s == s[..j] + [s[j]] + s[j + 1..];
    assert s[..j][i] == s[i];
    assert s[i] in multiset(s[..j]);
  }

  /** Whether two keys are equal does not depend on the order of the tags. */
  lemma DistinctKeysPermute(a: seq<bytes>, b: seq<bytes>)
    requires multiset(a) == multiset(b)
    requires DistinctKeys(a)
    ensures DistinctKeys(b)
  {
    forall i, j | 0 <= i < j < |b| ensures KeyOf(b[i]) != KeyOf(b[j]) {
      if b[i] == b[j] {
        PlacesCount(b, i, j);
        var p, q := TwoPlaces(a, b[i]);
      } else {
        assert b[i] in multiset(a) && b[j] in multiset(a);
        var p :| 0 <= p < |a| && a[p] == b[i];
        var q :| 0 <= q < |a| && a[q] == b[j];
        if p < q {
          assert KeyOf(a[p]) != KeyOf(a[q]);
        } else {
          assert KeyOf(a[q]) != KeyOf(a[p]);
        }
      }
    }
  }

  /**
   A canonical form: lists that are permutations of each other sort to the same list as soon as their
   keys are distinct, and then the sorted list is strictly increasing.
   */
  lemma CanonicalOrder(a: seq<bytes>, b: seq<bytes>)
    requires multiset(a) == multiset(b)
    requires DistinctKeys(a)
    ensures SortTags(a) == SortTags(b)
    ensures StrictlySorted(SortTags(a))
  {
    SortTagsSorts(a);
    SortTagsSorts(b);
    DistinctKeysPermute(a, SortTags(a));
    DistinctKeysPermute(a, SortTags(b));
    StrictFromDistinct(SortTags(a));
    StrictFromDistinct(SortTags(b));
    StrictOrderUnique(SortTags(a), SortTags(b));
  }

  lemma SortedAlready(tags: seq<bytes>)
    requires StrictlySorted(tags)
    ensures SortTags(tags) == tags
    ensures DistinctKeys(tags)
  {
    forall i, j | 0 <= i < j < |tags| ensures KeyOf(tags[i]) != KeyOf(tags[j]) {
      LessAsymmetric(KeyOf(tags[i]), KeyOf(tags[j]));
    }
    CanonicalOrder(tags, tags);
    SortTagsSorts(tags);
    StrictOrderUnique(SortTags(tags), tags);
  }
}
