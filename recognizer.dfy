/**
 * The recognizer class of dollarN.py: its settings, its list of multistroke
 * templates, and the way recognize picks the best template.
 *
 * The per-variant measurements recognize makes (the angle between start
 * vectors, the Protractor distance, the best-angle distance) are floating
 * point; a Metrics value supplies them, so what is proved here is the
 * selection: which variants are compared, which score each template gets,
 * which template wins, and what is returned.
 */
module Recognition {
  import opened Geometry
  import opened Strokes
  import opened Templates

  /** angle_sim_threshold: 30 degrees in radians, the shortest decimal form of the double deg_2_rad(30.0) */
  const AngleSimThreshold: real := 0.5235987755982988

  /** half_diagonal: half the diagonal of the 250 x 250 square, the shortest decimal form of its double */
  const HalfDiagonal: real := 176.7766952966369

  /** A template's score: np.inf until a distance is recorded */
  datatype Score = Infinite | Finite(d: real)

  /** a < b for scores, where every real is below np.inf */
  predicate Below(a: Score, b: Score)
  {
    a.Finite? && (b.Infinite? || a.d < b.d)
  }

  /**
   * The floating-point measurements, as functions of the candidate and a
   * variant: startAngle(candidate, u) is angle_btw_u_vectors of their start
   * unit vectors, cosDistance(u, candidate) is optimal_cos_distance of their
   * Protractor vectors, bestAngleDistance(candidate, u) is
   * distance_at_best_angle over the angle range.
   */
  datatype Metrics = Metrics(
    startAngle: (Unistroke, Unistroke) -> real,
    cosDistance: (Unistroke, Unistroke) -> real,
    bestAngleDistance: (Unistroke, Unistroke) -> real)

  /** A variant is compared only when its start direction is within the threshold of the candidate's */
  predicate StartsAlike(metrics: Metrics, candidate: Unistroke, u: Unistroke)
  {
    metrics.startAngle(candidate, u) <= AngleSimThreshold
  }

  /** Neither distance is ever negative, as acos and a mean of Euclidean distances are not */
  ghost predicate DistancesNonNegative(metrics: Metrics)
  {
    forall a, b :: metrics.cosDistance(a, b) >= 0.0 && metrics.bestAngleDistance(a, b) >= 0.0
  }

  /** The distance recognize uses: Protractor's, or the best-angle one */
  function Distance(metrics: Metrics, useProtractor: bool, candidate: Unistroke, u: Unistroke): real
  {
    if useProtractor then metrics.cosDistance(u, candidate) else metrics.bestAngleDistance(candidate, u)
  }

  /**
   * The score left by scanning the variants us in order from np.inf and
   * keeping a distance when it is strictly below the score so far.
   */
  function BestOf(us: seq<Unistroke>, candidate: Unistroke, metrics: Metrics, useProtractor: bool): Score
  {
    if us == [] then Infinite
    else
      var best := BestOf(us[..|us| - 1], candidate, metrics, useProtractor);
      var u := us[|us| - 1];
      var d := Distance(metrics, useProtractor, candidate, u);
      if StartsAlike(metrics, candidate, u) && Below(Finite(d), best) then Finite(d) else best
  }

  /** A template is scored only when stroke counts agree or the filter is off */
  function TemplateScore(m: Multistroke, candidate: Unistroke, nbStrokes: nat, sameNbStrokes: bool,
                         useProtractor: bool, metrics: Metrics): Score
  {
    if !sameNbStrokes || nbStrokes == m.nbStrokes then BestOf(m.unistrokes, candidate, metrics, useProtractor)
    else Infinite
  }

  function Scores(ms: seq<Multistroke>, candidate: Unistroke, nbStrokes: nat, sameNbStrokes: bool,
                  useProtractor: bool, metrics: Metrics): seq<Score>
  {
    seq(|ms|, j requires 0 <= j < |ms| => TemplateScore(ms[j], candidate, nbStrokes, sameNbStrokes, useProtractor, metrics))
  }

  /** np.argmin: the first index whose score no other score is below */
  function ArgMin(scores: seq<Score>): (i: nat)
    requires |scores| > 0
    ensures i < |scores|
    ensures forall j :: 0 <= j < |scores| ==> !Below(scores[j], scores[i])
    ensures forall j :: 0 <= j < i ==> Below(scores[i], scores[j])
  {
    if |scores| == 1 then 0
    else
      var i := ArgMin(scores[..|scores| - 1]);
      if Below(scores[|scores| - 1], scores[i]) then |scores| - 1 else i
  }

  /** The dictionary recognize returns, without its 'time' entry */
  datatype Result = Result(name: string, value: real)

  /** The confidence reported for a winning distance d */
  function Confidence(d: real, useProtractor: bool): real
  {
    if useProtractor then 1.0 - d else 1.0 - d / HalfDiagonal
  }

  /** The decision taken once the scores are known */
  function Decide(ms: seq<Multistroke>, scores: seq<Score>, useProtractor: bool): Result
    requires |scores| == |ms| > 0
  {
    var found := ArgMin(scores);
    if scores[found].Infinite? || scores[found].d >= 1.0 then Result("", 0.0)
    else Result(ms[found].name, Confidence(scores[found].d, useProtractor))
  }

  /** What recognize(strokes) returns */
  function RecognitionOf(ms: seq<Multistroke>, strokes: seq<Stroke>, rotationInvariance: bool,
                         sameNbStrokes: bool, useProtractor: bool, metrics: Metrics): Result
    requires |ms| > 0
  {
    var candidate := Unistroke(rotationInvariance, Flatten(strokes));
    Decide(ms, Scores(ms, candidate, |strokes|, sameNbStrokes, useProtractor, metrics), useProtractor)
  }

  /** A template holds as many variants as its stroke count gives, all with one rotation flag */
  ghost predicate WellFormed(m: Multistroke)
  {
    |m.unistrokes| == VariantCount(m.nbStrokes)
    && forall k, l :: 0 <= k < |m.unistrokes| && 0 <= l < |m.unistrokes| ==>
         m.unistrokes[k].rotationInvariant == m.unistrokes[l].rotationInvariant
  }

  class Recognizer {
    var rotationInvariance: bool
    var sameNbStrokes: bool
    var useProtractor: bool
    var multistrokes: seq<Multistroke>

    ghost predicate Valid()
      reads this
    {
      forall j :: 0 <= j < |multistrokes| ==> WellFormed(multistrokes[j])
    }

    /** All three settings on, no templates */
    constructor()
      ensures rotationInvariance && sameNbStrokes && useProtractor
      ensures multistrokes == []
      ensures Valid()
    {
      rotationInvariance := true;
      sameNbStrokes := true;
      useProtractor := true;
      multistrokes := [];
    }

    method SetRotationInvariance(b: bool)
      modifies this
      ensures rotationInvariance == b
      ensures sameNbStrokes == old(sameNbStrokes) && useProtractor == old(useProtractor)
      ensures multistrokes == old(multistrokes)
    {
      rotationInvariance := b;
    }

    method SetSameNbStrokes(b: bool)
      modifies this
      ensures sameNbStrokes == b
      ensures rotationInvariance == old(rotationInvariance) && useProtractor == old(useProtractor)
      ensures multistrokes == old(multistrokes)
    {
      sameNbStrokes := b;
    }

    method GetRotationInvariance() returns (b: bool)
      ensures b == rotationInvariance
    {
      b := rotationInvariance;
    }

    method GetSameNbStrokes() returns (b: bool)
      ensures b == sameNbStrokes
    {
      b := sameNbStrokes;
    }

    /**
     * add_gesture(name, strokes): one template, built with the rotation flag
     * set at this moment, goes at the end; the others stay as they were.
     */
    method AddGesture(name: string, strokes: seq<Stroke>)
      requires Valid()
      requires forall s :: 0 <= s < |strokes| ==> |strokes[s]| > 0
      modifies this
      ensures multistrokes == old(multistrokes) + [TemplateOf(name, old(rotationInvariance), strokes)]
      ensures rotationInvariance == old(rotationInvariance) && sameNbStrokes == old(sameNbStrokes)
      ensures useProtractor == old(useProtractor)
      ensures Valid()
    {
      var m := NewMultistroke(name, rotationInvariance, strokes);
      TemplateIsWellFormed(name, rotationInvariance, strokes);
      multistrokes := multistrokes + [m];
    }

    /**
     * recognize(strokes): every template gets a score (np.inf when skipped),
     * the first least score wins, and a winning score of 1 or more reports
     * no match. np.argmin fails on an empty list, hence the precondition.
     */
    method Recognize(strokes: seq<Stroke>, metrics: Metrics) returns (result: Result)
      requires |multistrokes| > 0
      ensures result == RecognitionOf(multistrokes, strokes, rotationInvariance, sameNbStrokes, useProtractor, metrics)
    {
      var points := CombineStrokes(strokes);
      var candidate := Unistroke(rotationInvariance, points);
      ghost var expected := Scores(multistrokes, candidate, |strokes|, sameNbStrokes, useProtractor, metrics);
      var scores := new Score[|multistrokes|](_ => Infinite);
      for mi := 0 to |multistrokes|
        invariant forall j :: 0 <= j < mi ==> scores[j] == expected[j]
        invariant forall j :: mi <= j < scores.Length ==> scores[j] == Infinite
      {
        var m := multistrokes[mi];
        if !sameNbStrokes || |strokes| == m.nbStrokes {
          for ui := 0 to |m.unistrokes|
            invariant scores[mi] == BestOf(m.unistrokes[..ui], candidate, metrics, useProtractor)
            invariant forall j :: 0 <= j < mi ==> scores[j] == expected[j]
            invariant forall j :: mi < j < scores.Length ==> scores[j] == Infinite
          {
            var u := m.unistrokes[ui];
            BestOfStep(m.unistrokes, ui, candidate, metrics, useProtractor);
            var abuv := metrics.startAngle(candidate, u);
            if abuv <= AngleSimThreshold {
              var d;
              if useProtractor {
                d := metrics.cosDistance(u, candidate);
              } else {
                d := metrics.bestAngleDistance(candidate, u);
              }
              if Below(Finite(d), scores[mi]) {
                scores[mi] := Finite(d);
              }
            }
          }
          assert m.unistrokes[..|m.unistrokes|] == m.unistrokes;
        }
      }
      assert scores[..] == expected;
      var found := ArgMin(scores[..]);
      if scores[found].Infinite? || scores[found].d >= 1.0 {
        result := Result("", 0.0);
      } else if useProtractor {
        result := Result(multistrokes[found].name, 1.0 - scores[found].d);
      } else {
        result := Result(multistrokes[found].name, 1.0 - scores[found].d / HalfDiagonal);
      }
    }
  }

  lemma BestOfStep(us: seq<Unistroke>, i: nat, candidate: Unistroke, metrics: Metrics, useProtractor: bool)
    requires i < |us|
    ensures var best := BestOf(us[..i], candidate, metrics, useProtractor);
            var d := Distance(metrics, useProtractor, candidate, us[i]);
            BestOf(us[..i + 1], candidate, metrics, useProtractor)
              == if StartsAlike(metrics, candidate, us[i]) && Below(Finite(d), best) then Finite(d) else best
  {
    assert us[..i + 1][..i] == us[..i];
  }

  /** A template built by TemplateOf keeps the class invariant */
  lemma TemplateIsWellFormed(name: string, rotationInvariant: bool, strokes: seq<Stroke>)
    ensures WellFormed(TemplateOf(name, rotationInvariant, strokes))
  {
    TemplateCount(name, rotationInvariant, strokes);
  }

  /**
   * In a recognizer built by the constructor and add_gesture, each template
   * holds n!·n² variants for its n strokes, hence at least one when n >= 1,
   * and all of its variants carry one rotation flag.
   */
  lemma ValidTemplates(r: Recognizer)
    requires r.Valid()
    ensures forall j :: 0 <= j < |r.multistrokes| ==>
              |r.multistrokes[j].unistrokes| == VariantCount(r.multistrokes[j].nbStrokes)
              && (r.multistrokes[j].nbStrokes >= 1 ==> |r.multistrokes[j].unistrokes| >= 1)
    ensures forall j, k :: 0 <= j < |r.multistrokes| && 0 <= k < |r.multistrokes[j].unistrokes| ==>
              r.multistrokes[j].unistrokes[k].rotationInvariant == r.multistrokes[j].unistrokes[0].rotationInvariant
  {
    forall j | 0 <= j < |r.multistrokes| && r.multistrokes[j].nbStrokes >= 1
      ensures |r.multistrokes[j].unistrokes| >= 1
    {
      assert WellFormed(r.multistrokes[j]);
      VariantCountPositive(r.multistrokes[j].nbStrokes);
    }
    forall j, k | 0 <= j < |r.multistrokes| && 0 <= k < |r.multistrokes[j].unistrokes|
      ensures r.multistrokes[j].unistrokes[k].rotationInvariant == r.multistrokes[j].unistrokes[0].rotationInvariant
    {
      assert WellFormed(r.multistrokes[j]);
    }
  }

  // ---------------------------------------------------------------------------
  // What a template's score means

  /**
   * A template's variant scan ends at np.inf exactly when no variant starts
   * alike; otherwise at the least distance among those that do.
   */
  lemma {:induction false} BestOfIsLeast(us: seq<Unistroke>, candidate: Unistroke, metrics: Metrics, useProtractor: bool)
    ensures var best := BestOf(us, candidate, metrics, useProtractor);
            (best.Infinite? <==> forall k :: 0 <= k < |us| ==> !StartsAlike(metrics, candidate, us[k]))
            && (best.Finite? ==>
                  (exists k :: 0 <= k < |us| && StartsAlike(metrics, candidate, us[k])
                               && Distance(metrics, useProtractor, candidate, us[k]) == best.d)
                  && forall k :: 0 <= k < |us| && StartsAlike(metrics, candidate, us[k]) ==>
                       best.d <= Distance(metrics, useProtractor, candidate, us[k]))
  {
    if us != [] {
      var n := |us| - 1;
      var init := us[..n];
      BestOfIsLeast(init, candidate, metrics, useProtractor);
      assert forall k :: 0 <= k < n ==> init[k] == us[k];
      var prev := BestOf(init, candidate, metrics, useProtractor);
      var best := BestOf(us, candidate, metrics, useProtractor);
      if best != prev {
        assert StartsAlike(metrics, candidate, us[n]);
      } else if prev.Finite? {
        var k :| 0 <= k < n && StartsAlike(metrics, candidate, init[k])
                 && Distance(metrics, useProtractor, candidate, init[k]) == prev.d;
        assert us[k] == init[k];
      }
    }
  }

  // ---------------------------------------------------------------------------
  // What recognize returns

  /** No template reaches a score below 1: recognize reports no match */
  lemma NoMatch(ms: seq<Multistroke>, scores: seq<Score>, useProtractor: bool)
    requires |scores| == |ms| > 0
    requires forall j :: 0 <= j < |scores| ==> scores[j].Infinite? || scores[j].d >= 1.0
    ensures Decide(ms, scores, useProtractor) == Result("", 0.0)
  {
  }

  /**
   * Some template scores below 1: recognize names the first template with
   * the least score, and reports the confidence of that score.
   */
  lemma Match(ms: seq<Multistroke>, scores: seq<Score>, useProtractor: bool, j: nat)
    requires |scores| == |ms| > 0
    requires j < |scores| && scores[j].Finite? && scores[j].d < 1.0
    ensures var w := ArgMin(scores);
            scores[w].Finite? && scores[w].d <= scores[j].d
            && (forall k :: 0 <= k < |scores| ==> !Below(scores[k], scores[w]))
            && (forall k :: 0 <= k < w ==> Below(scores[w], scores[k]))
            && Decide(ms, scores, useProtractor) == Result(ms[w].name, Confidence(scores[w].d, useProtractor))
  {
    var w := ArgMin(scores);
    assert !Below(scores[j], scores[w]);
  }

  /**
   * When distances are never negative, a match is reported with a
   * confidence in (0, 1] under Protractor and in (1 - 1/half_diagonal, 1]
   * otherwise; the source does not clamp it.
   */
  lemma ConfidenceBounds(ms: seq<Multistroke>, scores: seq<Score>, useProtractor: bool)
    requires |scores| == |ms| > 0
    requires forall j :: 0 <= j < |scores| ==> scores[j].Infinite? || scores[j].d >= 0.0
    ensures var r := Decide(ms, scores, useProtractor);
            r == Result("", 0.0)
            || (r.value <= 1.0 && if useProtractor then r.value > 0.0 else r.value > 1.0 - 1.0 / HalfDiagonal)
  {
    var w := ArgMin(scores);
    if scores[w].Finite? && scores[w].d < 1.0 && !useProtractor {
      var d := scores[w].d;
      assert d / HalfDiagonal < 1.0 / HalfDiagonal;
      assert d / HalfDiagonal >= 0.0;
    }
  }

  /** With distances never negative, every template score is np.inf or a non-negative distance */
  lemma ScoresNonNegative(ms: seq<Multistroke>, candidate: Unistroke, nbStrokes: nat, sameNbStrokes: bool,
                          useProtractor: bool, metrics: Metrics)
    requires DistancesNonNegative(metrics)
    ensures var scores := Scores(ms, candidate, nbStrokes, sameNbStrokes, useProtractor, metrics);
            forall j :: 0 <= j < |scores| ==> scores[j].Infinite? || scores[j].d >= 0.0
  {
    forall j | 0 <= j < |ms|
      ensures var s := TemplateScore(ms[j], candidate, nbStrokes, sameNbStrokes, useProtractor, metrics);
              s.Infinite? || s.d >= 0.0
    {
      BestOfIsLeast(ms[j].unistrokes, candidate, metrics, useProtractor);
    }
  }

  /** A template score of 0 wins with confidence 1 when no score is negative */
  lemma ZeroScoreWins(ms: seq<Multistroke>, scores: seq<Score>, useProtractor: bool, j: nat)
    requires |scores| == |ms| > 0
    requires forall i :: 0 <= i < |scores| ==> scores[i].Infinite? || scores[i].d >= 0.0
    requires j < |scores| && scores[j] == Finite(0.0)
    ensures Decide(ms, scores, useProtractor).value == 1.0
  {
    var w := ArgMin(scores);
    assert !Below(scores[j], scores[w]);
  }

  /** A variant starting alike at distance 0 gives its template the score 0 */
  lemma ZeroDistanceBest(us: seq<Unistroke>, candidate: Unistroke, metrics: Metrics, useProtractor: bool, k: nat)
    requires DistancesNonNegative(metrics)
    requires k < |us|
    requires StartsAlike(metrics, candidate, us[k]) && Distance(metrics, useProtractor, candidate, us[k]) == 0.0
    ensures BestOf(us, candidate, metrics, useProtractor) == Finite(0.0)
  {
    BestOfIsLeast(us, candidate, metrics, useProtractor);
    var best := BestOf(us, candidate, metrics, useProtractor);
    var i :| 0 <= i < |us| && StartsAlike(metrics, candidate, us[i])
             && Distance(metrics, useProtractor, candidate, us[i]) == best.d;
    assert metrics.cosDistance(us[i], candidate) >= 0.0 && metrics.bestAngleDistance(candidate, us[i]) >= 0.0;
  }

  /**
   * A template that passes the stroke filter and holds a variant starting
   * alike at distance 0 makes recognize report a match with confidence 1,
   * when no distance is negative.
   */
  lemma ExactCopy(ms: seq<Multistroke>, strokes: seq<Stroke>, rotationInvariance: bool, sameNbStrokes: bool,
                  useProtractor: bool, metrics: Metrics, j: nat, k: nat)
    requires DistancesNonNegative(metrics)
    requires j < |ms| && k < |ms[j].unistrokes|
    requires !sameNbStrokes || |strokes| == ms[j].nbStrokes
    requires var candidate := Unistroke(rotationInvariance, Flatten(strokes));
             StartsAlike(metrics, candidate, ms[j].unistrokes[k])
             && Distance(metrics, useProtractor, candidate, ms[j].unistrokes[k]) == 0.0
    ensures RecognitionOf(ms, strokes, rotationInvariance, sameNbStrokes, useProtractor, metrics).value == 1.0
  {
    var candidate := Unistroke(rotationInvariance, Flatten(strokes));
    var scores := Scores(ms, candidate, |strokes|, sameNbStrokes, useProtractor, metrics);
    ZeroDistanceBest(ms[j].unistrokes, candidate, metrics, useProtractor, k);
    assert scores[j] == Finite(0.0);
    ScoresNonNegative(ms, candidate, |strokes|, sameNbStrokes, useProtractor, metrics);
    ZeroScoreWins(ms, scores, useProtractor, j);
  }

  /**
   * Recognizing the very strokes that were registered reports a match with
   * confidence 1, and the registered name when it is the only template,
   * given metrics under which the candidate starts like itself at distance 0
   */
  lemma RecognizeRegistered(ms: seq<Multistroke>, name: string, rotationInvariance: bool, strokes: seq<Stroke>,
                            sameNbStrokes: bool, useProtractor: bool, metrics: Metrics)
    requires |strokes| >= 1 && DistancesNonNegative(metrics)
    requires var candidate := Unistroke(rotationInvariance, Flatten(strokes));
             StartsAlike(metrics, candidate, candidate)
             && Distance(metrics, useProtractor, candidate, candidate) == 0.0
    ensures var all := ms + [TemplateOf(name, rotationInvariance, strokes)];
            RecognitionOf(all, strokes, rotationInvariance, sameNbStrokes, useProtractor, metrics).value == 1.0
    ensures ms == [] ==>
            RecognitionOf([TemplateOf(name, rotationInvariance, strokes)], strokes, rotationInvariance,
                          sameNbStrokes, useProtractor, metrics) == Result(name, 1.0)
  {
    var all := ms + [TemplateOf(name, rotationInvariance, strokes)];
    TemplateFirst(name, rotationInvariance, strokes);
    TemplateCount(name, rotationInvariance, strokes);
    assert all[|ms|] == TemplateOf(name, rotationInvariance, strokes);
    ExactCopy(all, strokes, rotationInvariance, sameNbStrokes, useProtractor, metrics, |ms|, 0);
    if ms == [] {
      var candidate := Unistroke(rotationInvariance, Flatten(strokes));
      var scores := Scores(all, candidate, |strokes|, sameNbStrokes, useProtractor, metrics);
      ZeroDistanceBest(all[0].unistrokes, candidate, metrics, useProtractor, 0);
      assert scores[0] == Finite(0.0);
      assert ArgMin(scores) == 0;
    }
  }
}
