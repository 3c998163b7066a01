/** Order-preserving de-duplication of sequences, the `if x not in xs:
    xs.append(x)` idiom. */
module Seqs {

  predicate NoDups<T(==)>(s: seq<T>) {
    forall i, j :: 0 <= i < j < |s| ==> s[i] != s[j]
  }

  lemma NoDupsCons<T>(x: T, s: seq<T>)
    ensures NoDups([x] + s) <==> x !in s && NoDups(s)
  {
    var t := [x] + s;
    assert forall i :: 0 <= i < |s| ==> t[i + 1] == s[i];
    if x !in s && NoDups(s) {
      forall i, j | 0 <= i < j < |t| ensures t[i] != t[j] {
        if i > 0 {
          assert t[i] == s[i - 1] && t[j] == s[j - 1];
        } else {
          assert t[j] == s[j - 1];
        }
      }
    }
    if NoDups(t) {
      forall i | 0 <= i < |s| ensures s[i] != x {
        assert t[0] != t[i + 1];
      }
    }
  }

  /** Index of the first occurrence of `x` in `s`. */
  function FirstIndex<T(==)>(s: seq<T>, x: T): (k: nat)
    requires x in s
    ensures k < |s| && s[k] == x
    ensures forall j :: 0 <= j < k ==> s[j] != x
  {
    if s[0] == x then 0 else 1 + FirstIndex(s[1..], x)
  }

  /** Keeps the first occurrence of every element, in order. */
  function Dedup<T(==,!new)>(s: seq<T>): (r: seq<T>)
    ensures NoDups(r)
    ensures forall x :: x in r <==> x in s
    ensures |r| <= |s|
    decreases |s|
  {
    if s == [] then []
    else
      var d := Dedup(s[..|s| - 1]);
      var x := s[|s| - 1];
      assert s == s[..|s| - 1] + [x];
      if x in d then d else d + [x]
  }

  lemma DedupSnoc<T(!new)>(s: seq<T>, x: T)
    ensures Dedup(s + [x]) == if x in Dedup(s) then Dedup(s) else Dedup(s) + [x]
  {
    assert (s + [x])[..|s|] == s;
  }

  lemma FirstIndexSnoc<T>(s: seq<T>, x: T, y: T)
    requires y in s
    ensures FirstIndex(s + [x], y) == FirstIndex(s, y)
  {
    var k := FirstIndex(s, y);
    assert (s + [x])[k] == y;
    assert forall j :: 0 <= j < k ==> (s + [x])[j] == s[j];
  }

  /** The elements of `Dedup(s)` stand in the order of their first
      occurrences in `s`. */
  lemma {:induction false} DedupFirstAppearanceOrder<T(!new)>(s: seq<T>, i: nat, j: nat)
    requires i < j < |Dedup(s)|
    ensures FirstIndex(s, Dedup(s)[i]) < FirstIndex(s, Dedup(s)[j])
    decreases |s|
  {
    var p := s[..|s| - 1];
    var x := s[|s| - 1];
    assert s == p + [x];
    DedupSnoc(p, x);
    var d := Dedup(p);
    if x in d || j < |d| {
      DedupFirstAppearanceOrder(p, i, j);
      FirstIndexSnoc(p, x, d[i]);
      FirstIndexSnoc(p, x, d[j]);
    } else {
      assert Dedup(s)[j] == x;
      assert x !in p;
      assert FirstIndex(s, x) == |p|;
      assert d[i] in p;
      FirstIndexSnoc(p, x, d[i]);
    }
  }
}
