/** Following a finite successor map: a walk from a key leaves the map, or it comes back to a
    key it has visited. Jump targets and type references are both such maps. */
module Orbits {
  function Walk<T>(next: map<T, T>, x: T, n: nat): T {
    if n == 0 || x !in next then x else Walk(next, next[x], n - 1)
  }

  ghost predicate Leaves<T>(next: map<T, T>, x: T) {
    exists n: nat :: Walk(next, x, n) !in next
  }

  ghost predicate Revisits<T>(next: map<T, T>, x: T) {
    exists m: nat, n: nat :: m < n && Walk(next, x, m) == Walk(next, x, n) && Walk(next, x, n) in next
  }

  lemma {:induction false} WalkSplit<T>(next: map<T, T>, x: T, m: nat, n: nat)
    ensures Walk(next, x, m + n) == Walk(next, Walk(next, x, m), n)
  {
    if m > 0 && x in next {
      WalkSplit(next, next[x], m - 1, n);
    }
  }

  lemma WalkStep<T>(next: map<T, T>, x: T, n: nat)
    ensures var y := Walk(next, x, n); Walk(next, x, n + 1) == if y in next then next[y] else y
  {
    WalkSplit(next, x, n, 1);
    assert Walk(next, Walk(next, x, n), 1) ==
           (var y := Walk(next, x, n); if y in next then Walk(next, next[y], 0) else y);
  }

  lemma WalkStaysOut<T>(next: map<T, T>, x: T, m: nat, n: nat)
    requires m <= n && Walk(next, x, m) !in next
    ensures Walk(next, x, n) == Walk(next, x, m)
  {
    WalkSplit(next, x, m, n - m);
  }

  /** A walk that comes back to a key never leaves. */
  lemma {:induction false} CycleStays<T>(next: map<T, T>, x: T, m: nat, n: nat, k: nat)
    requires m < n && Walk(next, x, m) == Walk(next, x, n) && Walk(next, x, n) in next
    ensures Walk(next, x, k) in next
    decreases k
  {
    if k <= n {
      if Walk(next, x, k) !in next { WalkStaysOut(next, x, k, n); }
    } else {
      WalkSplit(next, x, m, k - n);
      WalkSplit(next, x, n, k - n);
      CycleStays(next, x, m, n, m + (k - n));
    }
  }

  lemma {:induction false} Pigeonhole<T>(s: seq<T>, keys: set<T>)
    requires forall i :: 0 <= i < |s| ==> s[i] in keys
    requires |s| > |keys|
    ensures exists i, j :: 0 <= i < j < |s| && s[i] == s[j]
    decreases |s|
  {
    var last := |s| - 1;
    if i :| 0 <= i < last && s[i] == s[last] {
    } else {
      Pigeonhole(s[..last], keys - {s[last]});
      var i, j :| 0 <= i < j < last && s[..last][i] == s[..last][j];
      assert s[i] == s[j];
    }
  }

  /** A walk that is still inside after as many hops as there are keys has come back. */
  lemma StillInsideRevisits<T>(next: map<T, T>, x: T)
    requires Walk(next, x, |next|) in next
    ensures Revisits(next, x)
  {
    var trace := seq(|next| + 1, (k: nat) => Walk(next, x, k));
    forall k | 0 <= k < |trace| ensures trace[k] in next.Keys {
      if Walk(next, x, k) !in next { WalkStaysOut(next, x, k, |next|); }
    }
    assert |next.Keys| == |next|;
    Pigeonhole(trace, next.Keys);
    var i, j :| 0 <= i < j < |trace| && trace[i] == trace[j];
    assert Walk(next, x, i) == Walk(next, x, j) && Walk(next, x, j) in next;
  }

  /** A walk leaves exactly when it never comes back, and then within one hop per key. */
  lemma LeavesExactly<T>(next: map<T, T>, x: T)
    ensures Leaves(next, x) <==> !Revisits(next, x)
    ensures Leaves(next, x) <==> Walk(next, x, |next|) !in next
  {
    if Walk(next, x, |next|) in next {
      StillInsideRevisits(next, x);
    }
    if Revisits(next, x) {
      var m: nat, n: nat :| m < n && Walk(next, x, m) == Walk(next, x, n) && Walk(next, x, n) in next;
      forall k: nat ensures Walk(next, x, k) in next {
        CycleStays(next, x, m, n, k);
      }
    }
  }
}
