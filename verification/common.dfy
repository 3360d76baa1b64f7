/** The optional value that Python expresses with `None`. */
module Options {
  datatype Option<+T> = None | Some(value: T)
}

/** Searches over sequences shared by the scripts. */
module Seqs {
  import opened Options

  /** Index of the first element satisfying `p`: Python's `for x in xs: if p(x): return x`
      and `next((x for x in xs if p(x)), default)` both pick this element. */
  function FirstWhere<T>(xs: seq<T>, p: T -> bool): (r: Option<nat>)
    ensures r.Some? ==> r.value < |xs| && p(xs[r.value])
    ensures r.Some? ==> forall j :: 0 <= j < r.value ==> !p(xs[j])
    ensures r.None? <==> forall j :: 0 <= j < |xs| ==> !p(xs[j])
  {
    if xs == [] then None
    else if p(xs[0]) then Some(0)
    else
      match FirstWhere(xs[1..], p)
      case None => None
      case Some(k) => Some(k + 1)
  }

  /** Two elements, neither satisfying `p`: nothing is found. */
  lemma NoneOfTwo<T>(xs: seq<T>, p: T -> bool)
    requires |xs| == 2 && !p(xs[0]) && !p(xs[1])
    ensures FirstWhere(xs, p).None?
  {
    forall j | 0 <= j < |xs| ensures !p(xs[j]) {
      assert j == 0 || j == 1;
    }
  }

  /** The search stops at the first position that satisfies `p`, and finds nothing when
      no position does. */
  lemma FirstWhereAt<T>(xs: seq<T>, p: T -> bool, n: nat)
    requires n <= |xs|
    requires forall j :: 0 <= j < n ==> !p(xs[j])
    requires n == |xs| || p(xs[n])
    ensures FirstWhere(xs, p) == if n < |xs| then Some(n) else None
  {
    var r := FirstWhere(xs, p);
    if n < |xs| {
      assert r.Some?;
      assert !(r.value < n);
      assert !(r.value > n);
    }
  }

  /** Two searches that agree position by position find the same position. */
  lemma {:induction false} FirstWhereAgree<T, U>(xs: seq<T>, p: T -> bool, ys: seq<U>, q: U -> bool)
    requires |xs| == |ys|
    requires forall i :: 0 <= i < |xs| ==> p(xs[i]) == q(ys[i])
    ensures FirstWhere(xs, p) == FirstWhere(ys, q)
    decreases |xs|
  {
    if xs != [] {
      FirstWhereAgree(xs[1..], p, ys[1..], q);
    }
  }

  /** Concatenation regroups freely. */
  /** Splitting off the head of a non-empty sequence, alone and in front of another one. */
  lemma HeadTail<T>(a: seq<T>, b: seq<T>)
    requires a != []
    ensures a == [a[0]] + a[1..]
    ensures (a + b)[0] == a[0] && (a + b)[1..] == a[1..] + b && a + b == [a[0]] + (a[1..] + b)
  {
  }

  lemma AppendAssoc<T>(a: seq<T>, b: seq<T>, c: seq<T>)
    ensures a + (b + c) == (a + b) + c
  {
  }
}
