/**
 * Heap's permutation generator of dollarN.py (heap_permute).
 *
 * heap_permute(k, order, orders) permutes the first k cells of the shared
 * array `order` in place by swaps and, at each leaf (k == 1), appends a copy
 * of the whole array to `orders`. This variant swaps after EVERY recursive
 * call, the last one included, so a call on k cells leaves them unchanged
 * when k is odd and rotated one place to the right when k is even.
 *
 * Heap and HeapLoop give, as values, what a call appends and what it leaves
 * in the array; HeapPermute is the in-place method proved against them.
 */
module Permutations {

  function Fact(n: nat): (r: nat)
    ensures r >= 1
  {
    if n == 0 then 1 else n * Fact(n - 1)
  }

  /** numpy's arange(n): the list 0, 1, ..., n-1 */
  function Range(n: nat): seq<int>
  {
    seq(n, i => i)
  }

  predicate Distinct(s: seq<int>)
  {
    forall p, q :: 0 <= p < q < |s| ==> s[p] != s[q]
  }

  /** e is a permutation of 0, 1, ..., n-1 */
  predicate IsPermutationOf(e: seq<int>, n: nat)
  {
    |e| == n && multiset(e) == multiset(Range(n))
  }

  function Swap(s: seq<int>, i: nat, j: nat): (r: seq<int>)
    requires i < |s| && j < |s|
    ensures |r| == |s| && r[i] == s[j] && r[j] == s[i]
    ensures forall m :: 0 <= m < |s| && m != i && m != j ==> r[m] == s[m]
    ensures multiset(r) == multiset(s)
  {
    s[i := s[j]][j := s[i]]
  }

  /** The swap done after the i-th recursive call of heap_permute(k, ...) */
  function HeapSwap(k: nat, i: nat, s: seq<int>): seq<int>
    requires 1 <= k <= |s| && i < k
  {
    if k % 2 == 1 then Swap(s, 0, k - 1) else Swap(s, i, k - 1)
  }

  /** What one call of heap_permute appends to `orders`, and what it leaves in `order` */
  datatype Run = Run(orders: seq<seq<int>>, final: seq<int>)

  /** heap_permute(k, a, ...) as a value */
  function Heap(k: nat, a: seq<int>): (r: Run)
    requires k <= |a|
    ensures |r.final| == |a|
    decreases k, 1
  {
    if k == 1 then Run([a], a) else HeapLoop(k, 0, a)
  }

  /** Iterations i, ..., k-1 of the loop of heap_permute(k, ...), started on contents a */
  function HeapLoop(k: nat, i: nat, a: seq<int>): (r: Run)
    requires k != 1 && k <= |a| && i <= k
    ensures |r.final| == |a|
    decreases k, 0, k - i
  {
    if i == k then Run([], a)
    else
      var first := Heap(k - 1, a);
      var rest := HeapLoop(k, i + 1, HeapSwap(k, i, first.final));
      Run(first.orders + rest.orders, rest.final)
  }

  /** tmp = order[i]; order[i] = order[j]; order[j] = tmp */
  method SwapCells(order: array<int>, i: nat, j: nat)
    requires i < order.Length && j < order.Length
    modifies order
    ensures order[..] == Swap(old(order[..]), i, j)
  {
    var tmp := order[i];
    order[i] := order[j];
    order[j] := tmp;
  }

  /**
   * The in-place generator. `orders` is threaded through and returned, as in
   * the source, where the caller rebinds it to the returned list.
   */
  method HeapPermute(n: nat, order: array<int>, orders: seq<seq<int>>) returns (result: seq<seq<int>>)
    requires n <= order.Length
    modifies order
    ensures result == orders + Heap(n, old(order[..])).orders
    ensures order[..] == Heap(n, old(order[..])).final
    decreases n, 1
  {
    if n == 1 {
      result := orders + [order[..]];
      return;
    }
    result := orders;
    ghost var a := order[..];
    for i := 0 to n
      invariant result + HeapLoop(n, i, order[..]).orders == orders + HeapLoop(n, 0, a).orders
      invariant HeapLoop(n, i, order[..]).final == HeapLoop(n, 0, a).final
    {
      ghost var before, done := order[..], result;
      result := HeapIteration(n, i, order, result);
      HeapLoopStep(n, i, before, done, order[..]);
    }
    assert HeapLoop(n, n, order[..]) == Run([], order[..]);
    assert result == result + [];
  }

  /** One pass of the loop of heap_permute(n, ...): the recursive call, then the swap */
  method HeapIteration(n: nat, i: nat, order: array<int>, orders: seq<seq<int>>) returns (result: seq<seq<int>>)
    requires 2 <= n <= order.Length && i < n
    modifies order
    ensures result == orders + Heap(n - 1, old(order[..])).orders
    ensures order[..] == HeapSwap(n, i, Heap(n - 1, old(order[..])).final)
    decreases n, 0
  {
    result := HeapPermute(n - 1, order, orders);
    if n % 2 == 1 {
      SwapCells(order, 0, n - 1);
    } else {
      SwapCells(order, i, n - 1);
    }
  }

  lemma AppendAssoc<T>(x: seq<T>, y: seq<T>, z: seq<T>)
    ensures (x + y) + z == x + (y + z)
  {
    assert |(x + y) + z| == |x + (y + z)|;
    forall j | 0 <= j < |x| + |y| + |z| ensures ((x + y) + z)[j] == (x + (y + z))[j] {
    }
  }

  /** What the loop of HeapPermute keeps: the orders still to come, and the final contents */
  lemma HeapLoopStep(k: nat, i: nat, a: seq<int>, done: seq<seq<int>>, next: seq<int>)
    requires 2 <= k <= |a| && i < k
    requires next == HeapSwap(k, i, Heap(k - 1, a).final)
    ensures (done + Heap(k - 1, a).orders) + HeapLoop(k, i + 1, next).orders == done + HeapLoop(k, i, a).orders
    ensures HeapLoop(k, i + 1, next).final == HeapLoop(k, i, a).final
  {
    AppendAssoc(done, Heap(k - 1, a).orders, HeapLoop(k, i + 1, next).orders);
  }

  // ---------------------------------------------------------------------------
  // How many orders a call appends

  lemma {:induction false} HeapCount(k: nat, a: seq<int>)
    requires k <= |a|
    ensures |Heap(k, a).orders| == if k == 0 then 0 else Fact(k)
    decreases k, 1
  {
    if k >= 2 {
      HeapLoopCount(k, 0, a);
    }
  }

  lemma {:induction false} HeapLoopCount(k: nat, i: nat, a: seq<int>)
    requires 2 <= k <= |a| && i <= k
    ensures |HeapLoop(k, i, a).orders| == (k - i) * Fact(k - 1)
    decreases k, 0, k - i
  {
    if i < k {
      HeapCount(k - 1, a);
      HeapLoopCount(k, i + 1, HeapSwap(k, i, Heap(k - 1, a).final));
      assert (k - i) * Fact(k - 1) == Fact(k - 1) + (k - (i + 1)) * Fact(k - 1);
    }
  }

  // ---------------------------------------------------------------------------
  // Every order is a rearrangement of the first k cells, the rest untouched

  /** e holds the same values as a, and the same values as a from cell k on */
  ghost predicate Rearranges(e: seq<int>, a: seq<int>, k: nat)
  {
    |e| == |a| && multiset(e) == multiset(a) && forall j :: k <= j < |a| ==> e[j] == a[j]
  }

  lemma HeapShape(k: nat, a: seq<int>)
    requires k <= |a|
    ensures forall e :: e in Heap(k, a).orders ==> Rearranges(e, a, k)
    ensures Rearranges(Heap(k, a).final, a, k)
    decreases k, 1
  {
    if k != 1 {
      HeapLoopShape(k, 0, a);
    }
  }

  lemma HeapLoopShape(k: nat, i: nat, a: seq<int>)
    requires k != 1 && k <= |a| && i <= k
    ensures forall e :: e in HeapLoop(k, i, a).orders ==> Rearranges(e, a, k)
    ensures Rearranges(HeapLoop(k, i, a).final, a, k)
    decreases k, 0, k - i
  {
    if i < k {
      var first := Heap(k - 1, a);
      var c := HeapSwap(k, i, first.final);
      HeapShape(k - 1, a);
      HeapLoopShape(k, i + 1, c);
    }
  }

  // ---------------------------------------------------------------------------
  // The net effect of a call: identity for odd k, a rotation for even k

  /** Which cell of a sits in cell j after heap_permute(k, a, ...) */
  function NetIndex(k: nat, j: nat): (r: nat)
    ensures j < k ==> r < k
    ensures j >= k ==> r == j
  {
    if k % 2 == 1 || j >= k then j else if j == 0 then k - 1 else j - 1
  }

  /**
   * Contents left by heap_permute(k, a, ...): unchanged for odd k, the first
   * k cells rotated one place to the right for even k
   */
  function Net(a: seq<int>, k: nat): (r: seq<int>)
    requires k <= |a|
    ensures |r| == |a|
  {
    seq(|a|, j requires 0 <= j < |a| => a[NetIndex(k, j)])
  }

  /**
   * Which cell of the original contents sits in cell j at the start of
   * iteration i of the loop of heap_permute(k, ...), for k >= 2.
   */
  function StateIndex(k: nat, i: nat, j: nat): (r: nat)
    requires 2 <= k && i <= k
    ensures j < k ==> r < k
    ensures j >= k ==> r == j
  {
    if j >= k then j
    else if k % 2 == 1 then
      (if j < i then k - i + j else j - i)
    else if i == 0 then j
    else if j == 0 then k - 1
    else if j < i then j - 1
    else if j < k - 1 then j
    else i - 1
  }

  function State(a: seq<int>, k: nat, i: nat): (r: seq<int>)
    requires 2 <= k <= |a| && i <= k
    ensures |r| == |a|
  {
    seq(|a|, j requires 0 <= j < |a| => a[StateIndex(k, i, j)])
  }

  lemma StateIndexInjective(k: nat, i: nat, p: nat, q: nat)
    requires 2 <= k && i <= k && p != q
    ensures StateIndex(k, i, p) != StateIndex(k, i, q)
  {
  }

  lemma StateDistinct(a: seq<int>, k: nat, i: nat)
    requires 2 <= k <= |a| && i <= k && Distinct(a)
    ensures Distinct(State(a, k, i))
  {
    var s := State(a, k, i);
    forall p, q | 0 <= p < q < |s| ensures s[p] != s[q] {
      StateIndexInjective(k, i, p, q);
      var x, y := StateIndex(k, i, p), StateIndex(k, i, q);
      if x < y { assert a[x] != a[y]; } else { assert a[y] != a[x]; }
    }
  }

  lemma StateEnds(a: seq<int>, k: nat)
    requires 2 <= k <= |a|
    ensures State(a, k, 0) == a
    ensures State(a, k, k) == Net(a, k)
  {
    assert State(a, k, 0) == a;
    assert State(a, k, k) == Net(a, k);
  }

  function SwapIndex(p: nat, q: nat, j: nat): nat
  {
    if j == p then q else if j == q then p else j
  }

  /** The index arithmetic behind one iteration of the loop */
  lemma StepIndex(k: nat, i: nat, j: nat)
    requires 2 <= k && i < k
    ensures var p := if k % 2 == 1 then 0 else i;
            StateIndex(k, i, NetIndex(k - 1, SwapIndex(p, k - 1, j))) == StateIndex(k, i + 1, j)
  {
  }

  /** One iteration of the loop takes the state of iteration i to that of i+1 */
  lemma {:induction false} HeapStep(a: seq<int>, k: nat, i: nat)
    requires 2 <= k <= |a| && i < k
    ensures HeapSwap(k, i, Heap(k - 1, State(a, k, i)).final) == State(a, k, i + 1)
    decreases k, 0, 0
  {
    HeapFinal(State(a, k, i), k - 1);
    NetStep(a, k, i);
  }

  /** The same, with the recursive call replaced by its net effect */
  lemma NetStep(a: seq<int>, k: nat, i: nat)
    requires 2 <= k <= |a| && i < k
    ensures HeapSwap(k, i, Net(State(a, k, i), k - 1)) == State(a, k, i + 1)
  {
    var s := State(a, k, i);
    var t := Net(s, k - 1);
    var u, v := HeapSwap(k, i, t), State(a, k, i + 1);
    var p := if k % 2 == 1 then 0 else i;
    assert u == Swap(t, p, k - 1);
    forall j | 0 <= j < |a| ensures u[j] == v[j] {
      StepIndex(k, i, j);
      assert u[j] == t[SwapIndex(p, k - 1, j)];
    }
  }

  lemma {:induction false} HeapLoopFinal(a: seq<int>, k: nat, i: nat)
    requires 2 <= k <= |a| && i <= k
    ensures HeapLoop(k, i, State(a, k, i)).final == State(a, k, k)
    decreases k, 0, k - i
  {
    if i < k {
      HeapStep(a, k, i);
      HeapLoopFinal(a, k, i + 1);
    }
  }

  lemma {:induction false} HeapFinal(a: seq<int>, k: nat)
    requires 1 <= k <= |a|
    ensures Heap(k, a).final == Net(a, k)
    decreases k, 1
  {
    if k >= 2 {
      StateEnds(a, k);
      HeapLoopFinal(a, k, 0);
    }
  }

  // ---------------------------------------------------------------------------
  // No order is produced twice

  predicate PairwiseDistinct(orders: seq<seq<int>>)
  {
    forall p, q :: 0 <= p < q < |orders| ==> orders[p] != orders[q]
  }

  lemma {:induction false} HeapDistinct(k: nat, a: seq<int>)
    requires 1 <= k <= |a| && Distinct(a)
    ensures PairwiseDistinct(Heap(k, a).orders)
    decreases k, 1
  {
    if k >= 2 {
      StateEnds(a, k);
      HeapLoopDistinct(a, k, 0);
    }
  }

  /** The value in cell k-1 during iteration i */
  function Last(a: seq<int>, k: nat, i: nat): int
    requires 2 <= k <= |a| && i <= k
  {
    State(a, k, i)[k - 1]
  }

  /**
   * Iterations i, ..., k-1 produce distinct orders, none of which holds in
   * cell k-1 the value held there during an earlier iteration.
   */
  lemma {:induction false} HeapLoopDistinct(a: seq<int>, k: nat, i: nat)
    requires 2 <= k <= |a| && i <= k && Distinct(a)
    ensures PairwiseDistinct(HeapLoop(k, i, State(a, k, i)).orders)
    ensures NoneHolds(HeapLoop(k, i, State(a, k, i)).orders, k - 1, |a|, Earlier(a, k, i))
    decreases k, 0, k - i
  {
    if i < k {
      var xs := Heap(k - 1, State(a, k, i)).orders;
      var ys := HeapLoop(k, i + 1, State(a, k, i + 1)).orders;
      var x, earlier := Last(a, k, i), Earlier(a, k, i);
      HeapLoopDistinct(a, k, i + 1);
      IterationOrders(a, k, i);
      LastNotEarlier(a, k, i);
      assert x !in earlier;
      assert Earlier(a, k, i + 1) == earlier + [x];
      JoinIterations(xs, ys, k - 1, |a|, x, earlier, Earlier(a, k, i + 1));
      HeapLoopSplit(a, k, i);
    }
  }

  lemma HeapLoopSplit(a: seq<int>, k: nat, i: nat)
    requires 2 <= k <= |a| && i < k
    ensures HeapLoop(k, i, State(a, k, i)).orders
         == Heap(k - 1, State(a, k, i)).orders + HeapLoop(k, i + 1, State(a, k, i + 1)).orders
  {
    HeapStep(a, k, i);
  }

  /** The orders of iteration i are distinct and all hold Last(a, k, i) in cell k-1 */
  lemma IterationOrders(a: seq<int>, k: nat, i: nat)
    requires 2 <= k <= |a| && i < k && Distinct(a)
    ensures PairwiseDistinct(Heap(k - 1, State(a, k, i)).orders)
    ensures AllHold(Heap(k - 1, State(a, k, i)).orders, k - 1, |a|, Last(a, k, i))
    decreases k, 0, 0
  {
    var s := State(a, k, i);
    StateDistinct(a, k, i);
    HeapDistinct(k - 1, s);
    HeapShape(k - 1, s);
    var os := Heap(k - 1, s).orders;
    forall p | 0 <= p < |os| ensures |os[p]| == |a| && os[p][k - 1] == Last(a, k, i) {
      assert os[p] in os;
      assert Rearranges(os[p], s, k - 1);
    }
  }

  /** Every order has n cells and holds x in cell c */
  predicate AllHold(os: seq<seq<int>>, c: nat, n: nat, x: int)
  {
    forall p :: 0 <= p < |os| ==> |os[p]| == n && c < n && os[p][c] == x
  }

  /** Every order has n cells and holds none of vals in cell c */
  predicate NoneHolds(os: seq<seq<int>>, c: nat, n: nat, vals: seq<int>)
  {
    forall p :: 0 <= p < |os| ==> |os[p]| == n && c < n && os[p][c] !in vals
  }

  /**
   * Joining the orders of one iteration, which all hold x in cell c, to the
   * distinct orders of the later ones, which never do
   */
  lemma JoinIterations(xs: seq<seq<int>>, ys: seq<seq<int>>, c: nat, n: nat, x: int, earlier: seq<int>, later: seq<int>)
    requires c < n && x !in earlier && later == earlier + [x]
    requires PairwiseDistinct(xs) && PairwiseDistinct(ys)
    requires AllHold(xs, c, n, x) && NoneHolds(ys, c, n, later)
    ensures PairwiseDistinct(xs + ys)
    ensures NoneHolds(xs + ys, c, n, earlier)
  {
    var all := xs + ys;
    forall p, q | 0 <= p < q < |all| ensures all[p] != all[q] {
      if p < |xs| && q >= |xs| {
        assert all[q] == ys[q - |xs|];
      }
    }
    forall p | 0 <= p < |all| ensures |all[p]| == n && all[p][c] !in earlier {
      if p >= |xs| {
        assert all[p] == ys[p - |xs|];
      }
    }
  }

  /** The values held in cell k-1 during iterations 0, ..., i-1 */
  function Earlier(a: seq<int>, k: nat, i: nat): seq<int>
    requires 2 <= k <= |a| && i <= k
  {
    if i == 0 then [] else Earlier(a, k, i - 1) + [Last(a, k, i - 1)]
  }

  lemma {:induction false} LastNotEarlier(a: seq<int>, k: nat, i: nat)
    requires 2 <= k <= |a| && i < k && Distinct(a)
    ensures forall j :: i <= j < k ==> Last(a, k, j) !in Earlier(a, k, i)
  {
    if i > 0 {
      LastNotEarlier(a, k, i - 1);
      forall j | i <= j < k ensures Last(a, k, j) != Last(a, k, i - 1) {
        LastDistinct(a, k, i - 1, j);
      }
    }
  }

  lemma LastDistinct(a: seq<int>, k: nat, i: nat, j: nat)
    requires 2 <= k <= |a| && i < j < k && Distinct(a)
    ensures Last(a, k, i) != Last(a, k, j)
  {
    var x, y := StateIndex(k, i, k - 1), StateIndex(k, j, k - 1);
    assert x != y;
    if x < y { assert a[x] != a[y]; } else { assert a[y] != a[x]; }
  }

  // ---------------------------------------------------------------------------
  // What the multistroke constructor gets from heap_permute(n, arange(n), [])

  lemma HeapFirst(k: nat, a: seq<int>)
    requires 1 <= k <= |a|
    ensures |Heap(k, a).orders| >= 1 && Heap(k, a).orders[0] == a
    decreases k
  {
    if k >= 2 {
      HeapFirst(k - 1, a);
    }
  }

  /**
   * heap_permute(n, arange(n), []) lists n! orders (none for n == 0), each a
   * permutation of 0..n-1, no two alike, the first being the identity.
   */
  lemma HeapPermutations(n: nat)
    ensures |Heap(n, Range(n)).orders| == if n == 0 then 0 else Fact(n)
    ensures forall e :: e in Heap(n, Range(n)).orders ==> IsPermutationOf(e, n)
    ensures PairwiseDistinct(Heap(n, Range(n)).orders)
    ensures n >= 1 ==> Heap(n, Range(n)).orders[0] == Range(n)
  {
    HeapCount(n, Range(n));
    HeapShape(n, Range(n));
    if n >= 1 {
      HeapDistinct(n, Range(n));
      HeapFirst(n, Range(n));
    }
  }
}
