/** Sequences without repeated elements. The pairwise condition is stated through `Apart`, so
    that a proof instantiates it only at the pairs it names. */
module Distinctness {

  ghost predicate Apart<T>(s: seq<T>, i: nat, j: nat)
    requires i < |s| && j < |s|
  {
    s[i] != s[j]
  }

  ghost predicate Distinct<T>(s: seq<T>) {
    forall i: nat, j: nat {:trigger Apart(s, i, j)} :: i < j < |s| ==> Apart(s, i, j)
  }

  lemma OthersDiffer<T>(s: seq<T>, k: nat)
    requires Distinct(s) && k < |s|
    ensures forall i :: 0 <= i < |s| && i != k ==> s[i] != s[k]
  {
    forall i | 0 <= i < |s| && i != k ensures s[i] != s[k] {
      if i < k { assert Apart(s, i, k); } else { assert Apart(s, k, i); }
    }
  }

  lemma TakeDrop<T>(s: seq<T>, k: nat)
    requires k <= |s|
    ensures s == s[..k] + s[k..]
  {
  }

  /** How the operations of a list edit act on a sequence s made of a and b, at position |a|. */
  lemma SeamUpdate<T>(s: seq<T>, a: seq<T>, b: seq<T>, k: nat, x: T)
    requires |b| > 0 && s == a + b && k == |a|
    ensures s[k] == b[0] && s[k := x] == a + ([x] + b[1..])
  {
  }

  lemma SeamDrop<T>(s: seq<T>, a: seq<T>, b: seq<T>, k: nat)
    requires |b| > 0 && s == a + b && k == |a|
    ensures s[k] == b[0] && s[..k] + s[k + 1..] == a + b[1..]
  {
  }

  lemma SeamInsert<T>(s: seq<T>, a: seq<T>, b: seq<T>, k: nat, x: T)
    requires |b| > 0 && s == a + b && k == |a|
    ensures s[k] == b[0] && s[..k + 1] + [x] + s[k + 1..] == a + ([b[0], x] + b[1..])
  {
    assert s[..k + 1] == a + [b[0]];
  }

  /** Removing a run of elements. */
  lemma DistinctRemove<T>(s: seq<T>, k: nat, n: nat)
    requires Distinct(s) && k <= n <= |s|
    ensures Distinct(s[..k] + s[n..])
    ensures forall i :: k <= i < n ==> s[i] !in s[..k] + s[n..]
  {
    var r := s[..k] + s[n..];
    forall i: nat, j: nat | i < j < |r| ensures Apart(r, i, j) {
      assert Apart(s, if i < k then i else i + n - k, if j < k then j else j + n - k);
    }
    forall i | k <= i < n ensures s[i] !in r { OthersDiffer(s, i); }
  }

  lemma DistinctInsert<T>(s: seq<T>, k: nat, x: T)
    requires Distinct(s) && k <= |s| && x !in s
    ensures Distinct(s[..k] + [x] + s[k..])
  {
    var r := s[..k] + [x] + s[k..];
    forall i: nat, j: nat | i < j < |r| ensures Apart(r, i, j) {
      if i != k && j != k {
        assert Apart(s, if i < k then i else i - 1, if j < k then j else j - 1);
      }
    }
  }

  lemma DistinctUpdate<T>(s: seq<T>, k: nat, x: T)
    requires Distinct(s) && k < |s| && x !in s
    ensures Distinct(s[k := x]) && s[k] !in s[k := x]
  {
    OthersDiffer(s, k);
    var r := s[k := x];
    forall i: nat, j: nat | i < j < |r| ensures Apart(r, i, j) {
      assert Apart(s, i, j);
    }
  }
}
