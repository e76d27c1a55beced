/** Sequence operations the components build their list edits from. */
module Seqs {

  /** `a` is `b` with some elements left out: the elements of `a` occur in
      `b` in the same order. */
  predicate IsSubseq<T(==)>(a: seq<T>, b: seq<T>) {
    if |a| == 0 then true
    else if |b| == 0 then false
    else (a[0] == b[0] && IsSubseq(a[1..], b[1..])) || IsSubseq(a, b[1..])
  }

  /** `s.filter(keep)`: the elements satisfying `keep`, in their original
      order; `FilterCounts` and `FilterSubseq` pin the result exactly. */
  function Filter<T>(s: seq<T>, keep: T -> bool): (r: seq<T>)
    ensures |r| <= |s|
    ensures forall i :: 0 <= i < |r| ==> keep(r[i]) && r[i] in s
    ensures forall i :: 0 <= i < |s| && keep(s[i]) ==> s[i] in r
    ensures multiset(r) <= multiset(s)
  {
    if |s| == 0 then []
    else
      assert s == [s[0]] + s[1..];
      (if keep(s[0]) then [s[0]] else []) + Filter(s[1..], keep)
  }

  /** Every element satisfying `keep` is kept as often as it occurs, and
      every other element is dropped. */
  lemma {:induction false} FilterCounts<T(!new)>(s: seq<T>, keep: T -> bool)
    ensures forall x :: multiset(Filter(s, keep))[x] == (if keep(x) then multiset(s)[x] else 0)
  {
    if |s| > 0 {
      FilterCounts(s[1..], keep);
      assert s == [s[0]] + s[1..];
    }
  }

  /** The kept elements appear in their original order. */
  lemma {:induction false} FilterSubseq<T>(s: seq<T>, keep: T -> bool)
    ensures IsSubseq(Filter(s, keep), s)
  {
    if |s| > 0 {
      var rest := Filter(s[1..], keep);
      FilterSubseq(s[1..], keep);
      if keep(s[0]) {
        assert ([s[0]] + rest)[1..] == rest;
      } else {
        assert [] + rest == rest;
      }
    }
  }

  /** Filtering distributes over concatenation, so the kept elements keep their order. */
  lemma {:induction false} FilterConcat<T>(a: seq<T>, b: seq<T>, keep: T -> bool)
    ensures Filter(a + b, keep) == Filter(a, keep) + Filter(b, keep)
  {
    if |a| > 0 {
      var x, t := a[0], a[1..];
      var head, ft, fb := Filter([x], keep), Filter(t, keep), Filter(b, keep);
      FilterConcat(t, b, keep);
      assert a + b == [x] + (t + b);
      assert a == [x] + t;
      FilterCons(x, t + b, keep);
      FilterCons(x, t, keep);
      assert head + (ft + fb) == (head + ft) + fb;
    } else {
      assert a + b == b;
    }
  }

  lemma FilterCons<T>(x: T, t: seq<T>, keep: T -> bool)
    ensures Filter([x] + t, keep) == Filter([x], keep) + Filter(t, keep)
  {
    var s := [x] + t;
    assert s[0] == x && s[1..] == t;
    assert [x][1..] == [];
    var none := Filter([], keep);
    assert none == [];
    if keep(x) {
      assert Filter([x], keep) == [x] + none;
    } else {
      assert Filter([x], keep) == none;
    }
  }

  /** Filtering with a predicate every element satisfies changes nothing. */
  lemma {:induction false} FilterKeepsAll<T>(s: seq<T>, keep: T -> bool)
    requires forall i :: 0 <= i < |s| ==> keep(s[i])
    ensures Filter(s, keep) == s
  {
    if |s| > 0 {
      FilterKeepsAll(s[1..], keep);
      assert s == [s[0]] + s[1..];
    }
  }

  /** `s.filter((_, j) => j !== i)`: the element at `i` removed, or `s` itself
      when `i` is not an index of `s`. */
  function RemoveAt<T>(s: seq<T>, i: int): (r: seq<T>)
    ensures !(0 <= i < |s|) ==> r == s
    ensures 0 <= i < |s| ==> |r| == |s| - 1
    ensures 0 <= i < |s| ==> forall j :: 0 <= j < i ==> r[j] == s[j]
    ensures 0 <= i < |s| ==> forall j :: i <= j < |r| ==> r[j] == s[j + 1]
  {
    if 0 <= i < |s| then s[..i] + s[i + 1..] else s
  }

  /** `splice(i, 0, x)`: `x` placed at index `i`, the rest shifted right. */
  function InsertAt<T>(s: seq<T>, i: nat, x: T): (r: seq<T>)
    requires i <= |s|
    ensures |r| == |s| + 1 && r[i] == x
    ensures forall j :: 0 <= j < i ==> r[j] == s[j]
    ensures forall j :: i < j < |r| ==> r[j] == s[j - 1]
  {
    s[..i] + [x] + s[i..]
  }

  /** Putting a removed element back where it was restores the sequence. */
  lemma InsertRemoved<T>(s: seq<T>, i: nat)
    requires i < |s|
    ensures InsertAt(RemoveAt(s, i), i, s[i]) == s
  {
  }

  /** Removing an inserted element restores the sequence. */
  lemma RemoveInserted<T>(s: seq<T>, i: nat, x: T)
    requires i <= |s|
    ensures RemoveAt(InsertAt(s, i, x), i) == s
  {
  }

  /** Removal keeps every other element: the multiset loses exactly `s[i]`. */
  lemma RemoveAtMultiset<T>(s: seq<T>, i: nat)
    requires i < |s|
    ensures multiset(RemoveAt(s, i)) == multiset(s) - multiset{s[i]}
  {
    assert s == s[..i] + [s[i]] + s[i + 1..];
  }

  /** Insertion adds exactly `x` to the multiset. */
  lemma InsertAtMultiset<T>(s: seq<T>, i: nat, x: T)
    requires i <= |s|
    ensures multiset(InsertAt(s, i, x)) == multiset(s) + multiset{x}
  {
    assert s == s[..i] + s[i..];
  }
}
