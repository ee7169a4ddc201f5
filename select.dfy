/** Walking the indices below `n` in order and keeping some of them: the shape
    of every `for ($j = 0; …) { if (…) continue; … }` loop that collects
    per-column output. */
module Select {
  /** The kept indices below `n`, ascending. */
  function Indices(n: nat, keep: nat -> bool): seq<nat>
  {
    if n == 0 then [] else Indices(n - 1, keep) + (if keep(n - 1) then [n - 1] else [])
  }

  /** What the loop collects: `f(j)` for each kept `j`, in order. */
  function Gather<T>(n: nat, keep: nat -> bool, f: nat -> T): seq<T>
  {
    if n == 0 then [] else Gather(n - 1, keep, f) + (if keep(n - 1) then [f(n - 1)] else [])
  }

  /** Exactly the kept indices below `n` are listed, each once, in increasing order. */
  lemma {:induction false} IndicesExact(n: nat, keep: nat -> bool)
    ensures forall j: nat :: j in Indices(n, keep) <==> j < n && keep(j)
    ensures forall a, b :: 0 <= a < b < |Indices(n, keep)| ==> Indices(n, keep)[a] < Indices(n, keep)[b]
  {
    if n > 0 {
      IndicesExact(n - 1, keep);
      var p := Indices(n - 1, keep);
      assert forall a :: 0 <= a < |p| ==> p[a] in p;
    }
  }

  /** The collected items line up with the kept indices. */
  lemma {:induction false} GatherAligned<T>(n: nat, keep: nat -> bool, f: nat -> T)
    ensures |Gather(n, keep, f)| == |Indices(n, keep)|
    ensures forall k :: 0 <= k < |Indices(n, keep)| ==> Gather(n, keep, f)[k] == f(Indices(n, keep)[k])
  {
    if n > 0 {
      GatherAligned(n - 1, keep, f);
    }
  }

  /** Both together: the collected items are `f` of the kept indices, in
      increasing order. */
  lemma Collected<T>(n: nat, keep: nat -> bool, f: nat -> T)
    ensures forall j: nat :: j in Indices(n, keep) <==> j < n && keep(j)
    ensures forall a, b :: 0 <= a < b < |Indices(n, keep)| ==> Indices(n, keep)[a] < Indices(n, keep)[b]
    ensures |Gather(n, keep, f)| == |Indices(n, keep)|
    ensures forall k :: 0 <= k < |Indices(n, keep)| ==>
              Indices(n, keep)[k] < n && keep(Indices(n, keep)[k]) && Gather(n, keep, f)[k] == f(Indices(n, keep)[k])
  {
    IndicesExact(n, keep);
    GatherAligned(n, keep, f);
    assert forall k :: 0 <= k < |Indices(n, keep)| ==> Indices(n, keep)[k] in Indices(n, keep);
  }

  /** At most `n` indices are kept, and all `n` exactly when each is. */
  lemma {:induction false} IndicesAll(n: nat, keep: nat -> bool)
    ensures |Indices(n, keep)| <= n
    ensures |Indices(n, keep)| == n <==> forall j: nat :: j < n ==> keep(j)
  {
    if n > 0 {
      IndicesAll(n - 1, keep);
    }
  }

  /** Only the choices below `n` matter. */
  lemma {:induction false} GatherAgree<T>(n: nat, keep1: nat -> bool, f1: nat -> T, keep2: nat -> bool, f2: nat -> T)
    requires forall j: nat :: j < n ==> keep1(j) == keep2(j) && f1(j) == f2(j)
    ensures Indices(n, keep1) == Indices(n, keep2)
    ensures Gather(n, keep1, f1) == Gather(n, keep2, f2)
  {
    if n > 0 {
      GatherAgree(n - 1, keep1, f1, keep2, f2);
    }
  }

  /** One more index that is not kept changes nothing. */
  lemma GatherSkip<T>(n: nat, keep: nat -> bool, f: nat -> T)
    requires !keep(n)
    ensures Gather(n + 1, keep, f) == Gather(n, keep, f)
  {
  }

  /** One more kept index adds its item at the end. */
  lemma GatherTake<T>(n: nat, keep: nat -> bool, f: nat -> T)
    requires keep(n)
    ensures Gather(n + 1, keep, f) == Gather(n, keep, f) + [f(n)]
  {
  }

  /** One more index: the item of `n` is collected when `n` is kept. */
  lemma GatherStep<T>(n: nat, keep: nat -> bool, f: nat -> T)
    ensures Gather(n + 1, keep, f) == Gather(n, keep, f) + (if keep(n) then [f(n)] else [])
  {
  }
}
