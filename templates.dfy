/**
 * The multistroke template of dollarN.py (class multistroke).
 *
 * A template built from n strokes lists every stroke order heap_permute
 * produces and, for each, the n*n direction patterns make_unistrokes tries:
 * n! * n*n unistroke variants. The source runs each variant through a
 * floating-point pipeline (resampling, rotation, scaling, translation, start
 * vector, Protractor vector); a Unistroke value here stands for that output
 * by the two inputs it is computed from.
 */
module Templates {
  import opened Geometry
  import opened Permutations
  import opened Strokes

  /** unistroke(name, rotation_invariance, points), kept as its inputs */
  datatype Unistroke = Unistroke(rotationInvariant: bool, path: seq<Point>)

  datatype Multistroke = Multistroke(name: string, nbStrokes: nat, unistrokes: seq<Unistroke>)

  /** The stroke orders heap_permute(n, arange(n), []) lists */
  function Orders(n: nat): seq<seq<int>>
  {
    Heap(n, Range(n)).orders
  }

  lemma OrdersAreValid(n: nat)
    ensures ValidOrders(Orders(n), n) && AllOfLength(Orders(n), n)
    ensures forall r :: 0 <= r < |Orders(n)| ==> IsPermutationOf(Orders(n)[r], n)
  {
    HeapPermutations(n);
    forall r | 0 <= r < |Orders(n)|
      ensures ValidOrder(Orders(n)[r], n) && |Orders(n)[r]| == n && IsPermutationOf(Orders(n)[r], n)
    {
      assert Orders(n)[r] in Orders(n);
      PermutationIsValid(Orders(n)[r], n);
    }
  }

  /** How many variants a template of n strokes holds: n! * n*n, none for n = 0 */
  function VariantCount(n: nat): nat
  {
    if n == 0 then 0 else Fact(n) * (n * n)
  }

  /** One unistroke per path, all built with the same rotation flag */
  function Wrap(rotationInvariant: bool, paths: seq<seq<Point>>): seq<Unistroke>
  {
    seq(|paths|, k requires 0 <= k < |paths| => Unistroke(rotationInvariant, paths[k]))
  }

  lemma WrapStep(rotationInvariant: bool, paths: seq<seq<Point>>, k: nat)
    requires k < |paths|
    ensures Wrap(rotationInvariant, paths[..k + 1]) == Wrap(rotationInvariant, paths[..k]) + [Unistroke(rotationInvariant, paths[k])]
  {
  }

  /** What multistroke(name, rotation_invariance, strokes) holds */
  function TemplateOf(name: string, rotationInvariant: bool, strokes: seq<Stroke>): Multistroke
  {
    OrdersAreValid(|strokes|);
    Multistroke(name, |strokes|, Wrap(rotationInvariant, Unistrokes(strokes, Orders(|strokes|))))
  }

  /**
   * multistroke.__init__: the identity order is permuted in place, the
   * variants are built from the orders, and each becomes a unistroke.
   */
  method NewMultistroke(name: string, rotationInvariant: bool, strokes: seq<Stroke>) returns (m: Multistroke)
    requires forall s :: 0 <= s < |strokes| ==> |strokes[s]| > 0
    ensures m == TemplateOf(name, rotationInvariant, strokes)
  {
    var n := |strokes|;
    var order := new int[n](i => i);
    assert order[..] == Range(n);
    var orders := HeapPermute(n, order, []);
    assert orders == Orders(n) by {
      assert [] + Orders(n) == Orders(n);
    }
    OrdersAreValid(n);
    var paths := MakeUnistrokes(strokes, orders);
    var unistrokes := [];
    for k := 0 to |paths|
      invariant unistrokes == Wrap(rotationInvariant, paths[..k])
    {
      WrapStep(rotationInvariant, paths, k);
      unistrokes := unistrokes + [Unistroke(rotationInvariant, paths[k])];
    }
    assert paths[..|paths|] == paths;
    m := Multistroke(name, n, unistrokes);
  }

  /**
   * A template records its name and stroke count and holds n! * n*n
   * variants, all carrying the rotation flag it was built with.
   */
  lemma TemplateCount(name: string, rotationInvariant: bool, strokes: seq<Stroke>)
    ensures var m := TemplateOf(name, rotationInvariant, strokes);
            m.name == name && m.nbStrokes == |strokes|
            && |m.unistrokes| == VariantCount(|strokes|)
            && forall k :: 0 <= k < |m.unistrokes| ==> m.unistrokes[k].rotationInvariant == rotationInvariant
  {
    var n := |strokes|;
    OrdersAreValid(n);
    HeapCount(n, Range(n));
    UnistrokesCount(strokes, Orders(n), n);
  }

  /** The first variant is the drawing itself: strokes in drawn order, none reversed */
  lemma TemplateFirst(name: string, rotationInvariant: bool, strokes: seq<Stroke>)
    requires |strokes| >= 1
    ensures var m := TemplateOf(name, rotationInvariant, strokes);
            |m.unistrokes| > 0 && m.unistrokes[0] == Unistroke(rotationInvariant, Flatten(strokes))
  {
    var n := |strokes|;
    OrdersAreValid(n);
    HeapFirst(n, Range(n));
    UnistrokesAt(strokes, Orders(n), n, 0, 0);
    IdentityVariant(strokes);
  }

  /** Every variant holds exactly the drawing's points, so TotalPoints(strokes) of them */
  lemma TemplatePoints(name: string, rotationInvariant: bool, strokes: seq<Stroke>)
    ensures var m := TemplateOf(name, rotationInvariant, strokes);
            forall k :: 0 <= k < |m.unistrokes| ==>
              multiset(m.unistrokes[k].path) == multiset(Flatten(strokes))
              && |m.unistrokes[k].path| == TotalPoints(strokes)
  {
    OrdersAreValid(|strokes|);
    UnistrokesRearrange(strokes, Orders(|strokes|));
  }

  /** A template built from at least one stroke holds at least n*n variants */
  lemma VariantCountPositive(n: nat)
    requires n >= 1
    ensures VariantCount(n) >= n * n >= 1
  {
    var f, q := Fact(n), n * n;
    assert q >= 1;
    assert f * q >= q;
  }

  lemma SmallFactorials()
    ensures VariantCount(1) == 1 && VariantCount(2) == 8 && VariantCount(3) == 54
  {
    assert Fact(1) == 1;
    assert Fact(2) == 2;
    assert Fact(3) == 6;
  }

  /** One, two and three strokes give 1, 8 and 54 variants */
  lemma SmallVariantCounts(name: string, rotationInvariant: bool, strokes: seq<Stroke>)
    requires 1 <= |strokes| <= 3
    ensures |TemplateOf(name, rotationInvariant, strokes).unistrokes| == [1, 8, 54][|strokes| - 1]
  {
    TemplateCount(name, rotationInvariant, strokes);
    SmallFactorials();
  }

  /** A one-stroke template holds the stroke as drawn, and not its reverse */
  lemma OneStrokeTemplate(name: string, rotationInvariant: bool, strokes: seq<Stroke>)
    requires |strokes| == 1
    ensures TemplateOf(name, rotationInvariant, strokes).unistrokes == [Unistroke(rotationInvariant, strokes[0])]
  {
    assert Range(1) == [0];
    assert Orders(1) == [[0]];
    OrdersAreValid(1);
    SingleStrokeForward(strokes, [0]);
    assert Orders(1)[..0] == [];
    assert Unistrokes(strokes, Orders(1)) == [strokes[0]];
  }

  /** In a three-stroke template, variant 8 (pattern 8 of the first order) repeats variant 0 */
  lemma ThreeStrokeDuplicate(name: string, rotationInvariant: bool, strokes: seq<Stroke>)
    requires |strokes| == 3
    ensures var m := TemplateOf(name, rotationInvariant, strokes);
            |m.unistrokes| == 54 && m.unistrokes[8] == m.unistrokes[0]
  {
    TemplateCount(name, rotationInvariant, strokes);
    SmallFactorials();
    OrdersAreValid(3);
    HeapCount(3, Range(3));
    var orders := Orders(3);
    var paths := Unistrokes(strokes, orders);
    UnistrokesAt(strokes, orders, 3, 0, 0);
    UnistrokesAt(strokes, orders, 3, 0, 8);
    assert paths[8] == Variant(strokes, orders[0], 8);
    ThreeStrokeRepeat(strokes, orders[0]);
    assert paths[8] == paths[0];
  }
}
