/**
 * combine_strokes and make_unistrokes of dollarN.py.
 *
 * combine_strokes joins the strokes of a drawing, in the order drawn, into
 * one path. make_unistrokes builds, for every stroke order and every
 * direction pattern b, the path that visits the strokes in that order and
 * draws stroke i backwards when bit i of b is on. It tries the patterns
 * b = 0 .. n*n - 1 for n strokes (not all 2^n of them), which the lemmas at
 * the end of this module spell out.
 */
module Strokes {
  import opened Geometry
  import opened Permutations

  type Stroke = seq<Point>

  // ---------------------------------------------------------------------------
  // combine_strokes

  /** The points of all strokes, stroke after stroke */
  function Flatten(strokes: seq<Stroke>): seq<Point>
  {
    if strokes == [] then [] else Flatten(strokes[..|strokes| - 1]) + strokes[|strokes| - 1]
  }

  /** The number of points over all strokes */
  function TotalPoints(strokes: seq<Stroke>): nat
  {
    if strokes == [] then 0 else TotalPoints(strokes[..|strokes| - 1]) + |strokes[|strokes| - 1]|
  }

  /** combine_strokes(strokes) */
  method CombineStrokes(strokes: seq<Stroke>) returns (points: seq<Point>)
    ensures points == Flatten(strokes)
  {
    points := [];
    for s := 0 to |strokes|
      invariant points == Flatten(strokes[..s])
    {
      for j := 0 to |strokes[s]|
        invariant points == Flatten(strokes[..s]) + strokes[s][..j]
      {
        points := points + [strokes[s][j]];
        assert strokes[s][..j + 1] == strokes[s][..j] + [strokes[s][j]];
      }
      assert strokes[..s + 1][..s] == strokes[..s];
      assert strokes[s][..|strokes[s]|] == strokes[s];
    }
    assert strokes[..|strokes|] == strokes;
  }

  lemma {:induction false} FlattenLength(strokes: seq<Stroke>)
    ensures |Flatten(strokes)| == TotalPoints(strokes)
  {
    if strokes != [] {
      FlattenLength(strokes[..|strokes| - 1]);
    }
  }

  /**
   * Point j of stroke s is found in the joined path right after the points
   * of the strokes before s: nothing is dropped or moved.
   */
  lemma {:induction false} FlattenAt(strokes: seq<Stroke>, s: nat, j: nat)
    requires s < |strokes| && j < |strokes[s]|
    ensures TotalPoints(strokes[..s]) + j < |Flatten(strokes)|
    ensures Flatten(strokes)[TotalPoints(strokes[..s]) + j] == strokes[s][j]
  {
    var n := |strokes| - 1;
    var init := strokes[..n];
    FlattenLength(init);
    FlattenLength(strokes);
    if s == n {
      assert strokes[..s] == init;
    } else {
      assert init[..s] == strokes[..s] && init[s] == strokes[s];
      FlattenAt(init, s, j);
    }
  }

  // ---------------------------------------------------------------------------
  // Direction patterns

  function Pow2(i: nat): (r: nat)
    ensures r >= 1
  {
    if i == 0 then 1 else 2 * Pow2(i - 1)
  }

  /** ((b >> i) & 1) == 1: bit i of b is on */
  predicate Bit(b: nat, i: nat)
  {
    if i == 0 then b % 2 == 1 else Bit(b / 2, i - 1)
  }

  /** np.flip(stroke, axis=0): the stroke drawn backwards */
  function Reverse(s: Stroke): Stroke
  {
    seq(|s|, i requires 0 <= i < |s| => s[|s| - 1 - i])
  }

  lemma {:induction false} ReversePoints(s: Stroke)
    ensures multiset(Reverse(s)) == multiset(s)
  {
    if s != [] {
      var t := s[1..];
      ReversePoints(t);
      assert Reverse(s) == Reverse(t) + [s[0]];
      assert s == [s[0]] + t;
    }
  }

  // ---------------------------------------------------------------------------
  // make_unistrokes

  /** Every entry of order names one of n strokes */
  predicate ValidOrder(order: seq<int>, n: nat)
  {
    forall i :: 0 <= i < |order| ==> 0 <= order[i] < n
  }

  predicate ValidOrders(orders: seq<seq<int>>, n: nat)
  {
    forall r :: 0 <= r < |orders| ==> ValidOrder(orders[r], n)
  }

  /** Stroke order[i], reversed when bit i of b is on */
  function Piece(strokes: seq<Stroke>, order: seq<int>, b: nat, i: nat): Stroke
    requires i < |order| && ValidOrder(order, |strokes|)
  {
    if Bit(b, i) then Reverse(strokes[order[i]]) else strokes[order[i]]
  }

  /** The strokes in the given order, each in the direction b gives it */
  function Pieces(strokes: seq<Stroke>, order: seq<int>, b: nat): seq<Stroke>
    requires ValidOrder(order, |strokes|)
  {
    seq(|order|, i requires 0 <= i < |order| => Piece(strokes, order, b, i))
  }

  /** Variant (order, b): the oriented strokes joined into one path */
  function Variant(strokes: seq<Stroke>, order: seq<int>, b: nat): seq<Point>
    requires ValidOrder(order, |strokes|)
  {
    Flatten(Pieces(strokes, order, b))
  }

  /** The variants tried for one order: patterns 0 .. n*n - 1, n = |order| */
  function Block(strokes: seq<Stroke>, order: seq<int>): seq<seq<Point>>
    requires ValidOrder(order, |strokes|)
  {
    seq(|order| * |order|, b requires 0 <= b < |order| * |order| => Variant(strokes, order, b))
  }

  /** What make_unistrokes returns: the blocks of all orders, order after order */
  function Unistrokes(strokes: seq<Stroke>, orders: seq<seq<int>>): seq<seq<Point>>
    requires ValidOrders(orders, |strokes|)
  {
    if orders == [] then []
    else Unistrokes(strokes, orders[..|orders| - 1]) + Block(strokes, orders[|orders| - 1])
  }

  /**
   * make_unistrokes(strokes, orders). Each path starts from a seed point
   * (0, 0) that is cut off at the end. The source concatenates numpy arrays,
   * which fails on an empty stroke, so strokes must not be empty.
   */
  method MakeUnistrokes(strokes: seq<Stroke>, orders: seq<seq<int>>) returns (unistrokes: seq<seq<Point>>)
    requires ValidOrders(orders, |strokes|)
    requires forall s :: 0 <= s < |strokes| ==> |strokes[s]| > 0
    ensures unistrokes == Unistrokes(strokes, orders)
  {
    unistrokes := [];
    for r := 0 to |orders|
      invariant unistrokes == Unistrokes(strokes, orders[..r])
    {
      var order := orders[r];
      var n := |order|;
      ghost var done := unistrokes;
      for b := 0 to n * n
        invariant unistrokes == done + Block(strokes, order)[..b]
      {
        ghost var ps := Pieces(strokes, order, b);
        var unistroke := [Point(0.0, 0.0)];
        for i := 0 to n
          invariant unistroke == [Point(0.0, 0.0)] + Flatten(ps[..i])
        {
          var pts;
          if Bit(b, i) {
            pts := Reverse(strokes[order[i]]);
          } else {
            pts := strokes[order[i]];
          }
          FlattenStep(ps, i);
          AppendAssoc([Point(0.0, 0.0)], Flatten(ps[..i]), pts);
          unistroke := unistroke + pts;
        }
        assert ps[..n] == ps;
        assert unistroke[1..] == Variant(strokes, order, b);
        TakeStep(Block(strokes, order), b);
        AppendAssoc(done, Block(strokes, order)[..b], [unistroke[1..]]);
        unistrokes := unistrokes + [unistroke[1..]];
      }
      assert Block(strokes, order)[..n * n] == Block(strokes, order);
      assert orders[..r + 1][..r] == orders[..r];
    }
    assert orders[..|orders|] == orders;
  }

  lemma FlattenStep(ps: seq<Stroke>, i: nat)
    requires i < |ps|
    ensures Flatten(ps[..i + 1]) == Flatten(ps[..i]) + ps[i]
  {
    assert ps[..i + 1][..i] == ps[..i];
  }

  lemma TakeStep<T>(s: seq<T>, b: nat)
    requires b < |s|
    ensures s[..b + 1] == s[..b] + [s[b]]
  {
  }

  // ---------------------------------------------------------------------------
  // How many variants, and where

  predicate AllOfLength(orders: seq<seq<int>>, n: nat)
  {
    forall r :: 0 <= r < |orders| ==> |orders[r]| == n
  }

  /** With n strokes in every order, make_unistrokes yields n*n variants per order */
  lemma {:induction false} UnistrokesCount(strokes: seq<Stroke>, orders: seq<seq<int>>, n: nat)
    requires ValidOrders(orders, |strokes|) && AllOfLength(orders, n)
    ensures |Unistrokes(strokes, orders)| == |orders| * (n * n)
  {
    if orders != [] {
      var m := |orders| - 1;
      UnistrokesCount(strokes, orders[..m], n);
      MulSucc(m, n * n);
    }
  }

  lemma MulSucc(a: nat, w: nat)
    ensures (a + 1) * w == a * w + w
  {
  }

  lemma MulMonotoneNat(a: nat, c: nat, w: nat)
    requires a <= c
    ensures a * w <= c * w
  {
  }

  /** Variants come order by order, and within an order pattern by pattern */
  lemma {:induction false} UnistrokesAt(strokes: seq<Stroke>, orders: seq<seq<int>>, n: nat, r: nat, b: nat)
    requires ValidOrders(orders, |strokes|) && AllOfLength(orders, n)
    requires r < |orders| && b < n * n
    ensures r * (n * n) + b < |Unistrokes(strokes, orders)|
    ensures Unistrokes(strokes, orders)[r * (n * n) + b] == Variant(strokes, orders[r], b)
  {
    var w := n * n;
    var last := |orders| - 1;
    var init := orders[..last];
    UnistrokesCount(strokes, init, n);
    UnistrokesCount(strokes, orders, n);
    assert |Unistrokes(strokes, init)| == last * w;
    if r == last {
      assert Unistrokes(strokes, orders)[r * w + b] == Block(strokes, orders[last])[b];
    } else {
      assert init[r] == orders[r];
      UnistrokesAt(strokes, init, n, r, b);
      MulMonotoneNat(r + 1, last, w);
      assert r * w + b < last * w;
    }
  }

  // ---------------------------------------------------------------------------
  // Every variant rearranges the drawing's points

  /** The points of the strokes named by idxs, counted with multiplicity */
  function PointsOf(strokes: seq<Stroke>, idxs: seq<int>): multiset<Point>
    requires ValidOrder(idxs, |strokes|)
  {
    if idxs == [] then multiset{}
    else PointsOf(strokes, idxs[..|idxs| - 1]) + multiset(strokes[idxs[|idxs| - 1]])
  }

  lemma {:induction false} PointsOfAppend(strokes: seq<Stroke>, xs: seq<int>, ys: seq<int>)
    requires ValidOrder(xs, |strokes|) && ValidOrder(ys, |strokes|)
    ensures ValidOrder(xs + ys, |strokes|)
    ensures PointsOf(strokes, xs + ys) == PointsOf(strokes, xs) + PointsOf(strokes, ys)
  {
    if ys != [] {
      var m := |ys| - 1;
      PointsOfAppend(strokes, xs, ys[..m]);
      assert (xs + ys)[..|xs + ys| - 1] == xs + ys[..m];
      assert (xs + ys)[|xs + ys| - 1] == ys[m];
    } else {
      assert xs + ys == xs;
    }
  }

  /** PointsOf depends only on which strokes are named, not on their order */
  lemma {:induction false} PointsOfPermuted(strokes: seq<Stroke>, xs: seq<int>, ys: seq<int>)
    requires ValidOrder(xs, |strokes|) && ValidOrder(ys, |strokes|)
    requires multiset(xs) == multiset(ys)
    ensures PointsOf(strokes, xs) == PointsOf(strokes, ys)
    decreases |xs|
  {
    if xs != [] {
      var m := |xs| - 1;
      TakeLast(xs, |strokes|);
      var j := IndexOf(ys, xs[m]);
      WithoutMultiset(ys, j);
      PointsOfWithout(strokes, ys, j);
      PointsOfPermuted(strokes, xs[..m], Without(ys, j));
    }
  }

  lemma TakeLast(xs: seq<int>, n: nat)
    requires ValidOrder(xs, n) && xs != []
    ensures var m := |xs| - 1;
            ValidOrder(xs[..m], n) && xs[m] in multiset(xs)
            && multiset(xs[..m]) == multiset(xs) - multiset{xs[m]}
  {
    var m := |xs| - 1;
    assert xs == xs[..m] + [xs[m]];
  }

  lemma IndexOf(ys: seq<int>, x: int) returns (j: nat)
    requires x in multiset(ys)
    ensures j < |ys| && ys[j] == x
  {
    j :| 0 <= j < |ys| && ys[j] == x;
  }

  /** s with its entry at j taken out */
  function Without(s: seq<int>, j: nat): (r: seq<int>)
    requires j < |s|
    ensures |r| == |s| - 1
  {
    s[..j] + s[j + 1..]
  }

  lemma WithoutMultiset(s: seq<int>, j: nat)
    requires j < |s|
    ensures multiset(Without(s, j)) == multiset(s) - multiset{s[j]}
  {
    assert s == s[..j] + [s[j]] + s[j + 1..];
  }

  lemma PointsOfWithout(strokes: seq<Stroke>, ys: seq<int>, j: nat)
    requires ValidOrder(ys, |strokes|) && j < |ys|
    ensures ValidOrder(Without(ys, j), |strokes|)
    ensures PointsOf(strokes, ys) == PointsOf(strokes, Without(ys, j)) + multiset(strokes[ys[j]])
  {
    SplitAt(ys, j, |strokes|);
    PointsOfSplit(strokes, ys[..j], ys[j], ys[j + 1..]);
  }

  lemma SplitAt(ys: seq<int>, j: nat, n: nat)
    requires ValidOrder(ys, n) && j < |ys|
    ensures ys == (ys[..j] + [ys[j]]) + ys[j + 1..] && Without(ys, j) == ys[..j] + ys[j + 1..]
    ensures ValidOrder(ys[..j], n) && ValidOrder(ys[j + 1..], n) && 0 <= ys[j] < n
  {
    assert ys == (ys[..j] + [ys[j]]) + ys[j + 1..];
  }

  lemma PointsOfSplit(strokes: seq<Stroke>, pre: seq<int>, x: int, post: seq<int>)
    requires ValidOrder(pre, |strokes|) && ValidOrder(post, |strokes|) && 0 <= x < |strokes|
    ensures ValidOrder((pre + [x]) + post, |strokes|) && ValidOrder(pre + post, |strokes|)
    ensures PointsOf(strokes, (pre + [x]) + post) == PointsOf(strokes, pre + post) + multiset(strokes[x])
  {
    PointsOfSingle(strokes, x);
    PointsOfAppend(strokes, pre, [x]);
    PointsOfAppend(strokes, pre + [x], post);
    PointsOfAppend(strokes, pre, post);
  }

  lemma PointsOfSingle(strokes: seq<Stroke>, x: int)
    requires 0 <= x < |strokes|
    ensures ValidOrder([x], |strokes|) && PointsOf(strokes, [x]) == multiset(strokes[x])
  {
    assert [x][..0] == [];
  }

  lemma {:induction false} PiecesPoints(strokes: seq<Stroke>, order: seq<int>, b: nat, m: nat)
    requires ValidOrder(order, |strokes|) && m <= |order|
    ensures multiset(Flatten(Pieces(strokes, order, b)[..m])) == PointsOf(strokes, order[..m])
  {
    if m > 0 {
      var ps := Pieces(strokes, order, b);
      PiecesPoints(strokes, order, b, m - 1);
      FlattenStep(ps, m - 1);
      assert ps[..m - 1 + 1] == ps[..m];
      ReversePoints(strokes[order[m - 1]]);
      assert multiset(ps[m - 1]) == multiset(strokes[order[m - 1]]);
      assert order[..m][..m - 1] == order[..m - 1];
      assert PointsOf(strokes, order[..m]) == PointsOf(strokes, order[..m - 1]) + multiset(strokes[order[m - 1]]);
    }
  }

  /** Pattern 0 reverses nothing: the variant visits the strokes forwards in the given order */
  lemma ZeroReversesNothing(strokes: seq<Stroke>, order: seq<int>)
    requires ValidOrder(order, |strokes|)
    ensures Pieces(strokes, order, 0) == seq(|order|, i requires 0 <= i < |order| => strokes[order[i]])
  {
    forall i | 0 <= i < |order|
      ensures Pieces(strokes, order, 0)[i] == strokes[order[i]]
    {
      ZeroBits(i);
    }
  }

  lemma {:induction false} ZeroBits(i: nat)
    ensures !Bit(0, i)
  {
    if i > 0 {
      ZeroBits(i - 1);
    }
  }

  /** The identity order with pattern 0 gives exactly the combined drawing */
  lemma IdentityVariant(strokes: seq<Stroke>)
    ensures ValidOrder(Range(|strokes|), |strokes|)
    ensures Variant(strokes, Range(|strokes|), 0) == Flatten(strokes)
  {
    ZeroReversesNothing(strokes, Range(|strokes|));
    assert Pieces(strokes, Range(|strokes|), 0) == strokes;
  }

  lemma PermutationIsValid(order: seq<int>, n: nat)
    requires IsPermutationOf(order, n)
    ensures ValidOrder(order, n)
  {
    forall i | 0 <= i < |order|
      ensures 0 <= order[i] < n
    {
      assert order[i] in multiset(Range(n));
    }
  }

  /**
   * When the order is a permutation of the strokes, every variant holds
   * exactly the points of the drawing: as many of each, in total
   * TotalPoints(strokes).
   */
  /** A variant holds the points of the strokes its order names, whatever the pattern */
  lemma VariantPoints(strokes: seq<Stroke>, order: seq<int>, b: nat)
    requires ValidOrder(order, |strokes|)
    ensures multiset(Variant(strokes, order, b)) == PointsOf(strokes, order)
  {
    var n := |order|;
    PiecesPoints(strokes, order, b, n);
    assert Pieces(strokes, order, b)[..n] == Pieces(strokes, order, b);
    assert order[..n] == order;
  }

  lemma VariantRearranges(strokes: seq<Stroke>, order: seq<int>, b: nat)
    requires IsPermutationOf(order, |strokes|)
    ensures ValidOrder(order, |strokes|)
    ensures multiset(Variant(strokes, order, b)) == multiset(Flatten(strokes))
    ensures |Variant(strokes, order, b)| == TotalPoints(strokes)
  {
    var n := |strokes|;
    PermutationIsValid(order, n);
    VariantPoints(strokes, order, b);
    PermutationIsValid(Range(n), n);
    VariantPoints(strokes, Range(n), 0);
    PointsOfPermuted(strokes, order, Range(n));
    IdentityVariant(strokes);
    FlattenLength(strokes);
    assert |multiset(Variant(strokes, order, b))| == |multiset(Flatten(strokes))|;
  }

  /** When every order is a permutation of the strokes, so is every path make_unistrokes yields */
  lemma {:induction false} UnistrokesRearrange(strokes: seq<Stroke>, orders: seq<seq<int>>)
    requires forall r :: 0 <= r < |orders| ==> IsPermutationOf(orders[r], |strokes|)
    requires ValidOrders(orders, |strokes|)
    ensures forall k :: 0 <= k < |Unistrokes(strokes, orders)| ==>
              multiset(Unistrokes(strokes, orders)[k]) == multiset(Flatten(strokes))
              && |Unistrokes(strokes, orders)[k]| == TotalPoints(strokes)
  {
    if orders != [] {
      var m := |orders| - 1;
      var init := orders[..m];
      UnistrokesRearrange(strokes, init);
      var head, block := Unistrokes(strokes, init), Block(strokes, orders[m]);
      forall b | 0 <= b < |block|
        ensures multiset(block[b]) == multiset(Flatten(strokes)) && |block[b]| == TotalPoints(strokes)
      {
        VariantRearranges(strokes, orders[m], b);
      }
      forall k | 0 <= k < |head + block|
        ensures multiset((head + block)[k]) == multiset(Flatten(strokes))
                && |(head + block)[k]| == TotalPoints(strokes)
      {
        if k >= |head| {
          assert (head + block)[k] == block[k - |head|];
        }
      }
    }
  }

  // ---------------------------------------------------------------------------
  // Which direction patterns are tried

  /** Patterns b and b + 2^n orient the first n strokes alike */
  lemma {:induction false} BitPeriodic(b: nat, n: nat, i: nat)
    requires i < n
    ensures Bit(b + Pow2(n), i) == Bit(b, i)
  {
    if i > 0 {
      assert (b + Pow2(n)) / 2 == b / 2 + Pow2(n - 1);
      BitPeriodic(b / 2, n - 1, i - 1);
    }
  }

  /** Variant (order, b + 2^n) is variant (order, b) again */
  lemma VariantPeriodic(strokes: seq<Stroke>, order: seq<int>, b: nat)
    requires ValidOrder(order, |strokes|)
    ensures Variant(strokes, order, b + Pow2(|order|)) == Variant(strokes, order, b)
  {
    PiecesPeriodic(strokes, order, b);
  }

  lemma PiecesPeriodic(strokes: seq<Stroke>, order: seq<int>, b: nat)
    requires ValidOrder(order, |strokes|)
    ensures Pieces(strokes, order, b + Pow2(|order|)) == Pieces(strokes, order, b)
  {
    var n := |order|;
    var ps, qs := Pieces(strokes, order, b + Pow2(n)), Pieces(strokes, order, b);
    forall i | 0 <= i < n
      ensures ps[i] == qs[i]
    {
      BitPeriodic(b, n, i);
    }
    assert ps == qs;
  }

  /** With three strokes, pattern 8 repeats pattern 0 */
  lemma ThreeStrokeRepeat(strokes: seq<Stroke>, order: seq<int>)
    requires ValidOrder(order, |strokes|) && |order| == 3
    ensures |Block(strokes, order)| == 9 && Block(strokes, order)[8] == Block(strokes, order)[0]
  {
    VariantPeriodic(strokes, order, 0);
  }

  /** With a single stroke only pattern 0 is tried: the stroke is never reversed */
  lemma SingleStrokeForward(strokes: seq<Stroke>, order: seq<int>)
    requires ValidOrder(order, |strokes|) && |order| == 1
    ensures Block(strokes, order) == [strokes[order[0]]]
  {
    ZeroReversesNothing(strokes, order);
    var ps := Pieces(strokes, order, 0);
    assert ps == [strokes[order[0]]];
    assert ps[..0] == [];
    assert Flatten(ps) == Flatten(ps[..0]) + ps[0];
    assert Variant(strokes, order, 0) == strokes[order[0]];
    var blk := Block(strokes, order);
    assert |blk| == 1 && blk[0] == Variant(strokes, order, 0);
  }

  /** A pattern below 2^n - 1 leaves one of the first n strokes forwards */
  lemma {:induction false} SomeBitOff(b: nat, n: nat)
    requires b < Pow2(n) - 1
    ensures exists i :: 0 <= i < n && !Bit(b, i)
  {
    if b % 2 == 0 {
      assert !Bit(b, 0);
    } else {
      SomeBitOff(b / 2, n - 1);
      var i :| 0 <= i < n - 1 && !Bit(b / 2, i);
      assert !Bit(b, i + 1);
    }
  }

  lemma {:induction false} SquareBelowPow2(n: nat)
    requires n >= 5
    ensures n * n < Pow2(n) - 1
  {
    if n > 5 {
      var k := n - 1;
      SquareBelowPow2(k);
      MulMonotoneNat(5, k, k);
      assert n * n == k * k + 2 * k + 1;
      assert Pow2(n) == 2 * Pow2(k);
    } else {
      assert Pow2(1) == 2 && Pow2(2) == 4 && Pow2(3) == 8 && Pow2(4) == 16 && Pow2(5) == 32;
    }
  }

  /**
   * From five strokes on, no tried pattern reverses every stroke: the
   * variant drawn entirely backwards is never produced.
   */
  lemma AllReversedMissing(n: nat, b: nat)
    requires n >= 5 && b < n * n
    ensures exists i :: 0 <= i < n && !Bit(b, i)
  {
    SquareBelowPow2(n);
    SomeBitOff(b, n);
  }
}
