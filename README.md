# A verified model of the $N recognizer in dollarN.py

dollarN.py is a Python port of the $N multistroke gesture recognizer, with
Protractor as an optional distance. A gesture is a list of strokes, and each
stroke is a list of points. A template (a `multistroke`) stores every single
path the gesture could have been drawn as. `recognize` compares a candidate
drawing with those paths and returns the best template's name and a
confidence.

This project models the exact, discrete part of that program in Dafny:

- `Permutations`: `heap_permute`. Heap's algorithm swaps cells of a shared
  order array in place and appends a copy of the array at every leaf.
- `Geometry`: `bouding_box_size`, the three-way scaling of `scale_dim_to`, and
  `translate_to`, over `real` coordinates.
- `Strokes`: `combine_strokes`, and `make_unistrokes`. For each stroke order
  and each direction pattern `b`, `make_unistrokes` concatenates the strokes
  and reverses stroke `i` when bit `i` of `b` is set.
- `Templates`: the `multistroke` constructor, which builds n! orders, n*n
  patterns for each order, and one unistroke per variant.
- `Recognition`: the `recognizer` class. It has the rotation flag, the
  stroke-count filter, the Protractor flag and the list of templates, with
  the setters, the getters and `add_gesture`. It also models the selection
  `recognize` makes:
  - skip templates whose stroke count differs;
  - skip variants whose start direction is more than 30 degrees off;
  - keep each template's strict minimum distance, starting from infinity;
  - pick the first least score;
  - report no match at a score of 1 or more;
  - otherwise report a confidence of `1 - score` or `1 - score/half_diagonal`.

The per-variant measurements are floating-point trigonometry: the angle
between start vectors, the Protractor cosine distance and the best-angle
distance. The `Metrics` datatype supplies them as functions. A `Unistroke`
value stands for the descriptor the float pipeline would compute, through the
two things that pipeline is given: the rotation flag and the path. What is
proved is therefore which variants exist, which are compared, and which
template wins with what value. The geometry of the distances is not proved.

In-place state keeps the source's form:

- `HeapPermute` permutes an `array<int>` in place through `SwapCells`.
- `CombineStrokes`, `MakeUnistrokes`, `ScaleDimTo` and `NewMultistroke` are
  loops that build sequences.
- `Recognizer` is a class whose methods reassign its fields.
- `Recognize` fills an array of scores that starts at infinity.

Each method is proved equal to a specification function: `Heap`, `Flatten`,
`Unistrokes`, `ScaleBy`, `TemplateOf` or `RecognitionOf`. Lemmas prove what
the program promises about those functions.

The code differs from the algorithm's usual description in one place, and the
model follows the code. `make_unistrokes` tries `b` in `range(n**2)`
(dollarN.py:132), not `range(2**n)`. So a template of n strokes holds n!·n²
variants: 1, 8 and 54 for one, two and three strokes.
- A single stroke is never tried backwards (`OneStrokeTemplate`).
- With three strokes, pattern 8 repeats pattern 0 (`ThreeStrokeDuplicate`).
- From five strokes on, the pattern that reverses every stroke is never
  produced (`AllReversedMissing`).

## Model

| member | source | states |
|---|---|---|
| Permutations.SwapCells | dollarN.py:42-49 | the two cells of the order array are exchanged in place and nothing else changes |
| Permutations.HeapPermute | dollarN.py:35-50 | the orders list only grows: the result is the old list followed by the copies Heap's recursion appends at its leaves, and the order array ends in the state the swaps leave it in |
| Permutations.HeapIteration | dollarN.py:41-49 | one pass of the loop: the recursive call appends its orders, then cell n-1 is swapped with cell 0 (n odd) or cell i (n even) |
| Permutations.HeapCount | dollarN.py:35-50 | from k cells, heap_permute appends exactly k! orders (none for k = 0) |
| Permutations.HeapShape | dollarN.py:35-50 | every appended order and the final array rearrange only the first k cells and leave the rest as they were |
| Permutations.HeapFinal | dollarN.py:40-49 | the net effect of a call on the first k cells: identity for odd k, rotation right by one for even k |
| Permutations.HeapDistinct | dollarN.py:35-50 | when the starting cells are distinct, the appended orders are pairwise distinct |
| Permutations.HeapFirst | dollarN.py:36-41 | the first order appended is the starting array itself |
| Permutations.HeapPermutations | dollarN.py:35-50 | from arange(n): n! orders, each a permutation of 0..n-1, pairwise distinct, the first one the identity |
| Geometry.MaxIsMaximum | dollarN.py:24 | np.max of a column bounds every entry and is one of them |
| Geometry.MinIsMinimum | dollarN.py:24 | np.min of a column is below every entry and is one of them |
| Geometry.BoundingBoxSize | dollarN.py:23-24 | both extents of the bounding box are non-negative |
| Geometry.BoxIsTight | dollarN.py:23-24 | each extent bounds the difference of any two points' coordinates and equals the difference of some two |
| Geometry.ScalePoint | dollarN.py:151-159 | the three branches give the single factor size/max(bx, by) for a flat or line-like box, and size/bx and size/by otherwise |
| Geometry.ScaleDimTo | dollarN.py:144-161 | every point is scaled by the factors of the path's bounding box, in order and with nothing dropped |
| Geometry.ScaledBox | dollarN.py:148-161 | scaling by positive factors scales the bounding box by the same factors |
| Geometry.ScaledToSquare | dollarN.py:157-159 | a path that is not line-like is scaled to a box of exactly size by size |
| Geometry.ScaledLineLike | dollarN.py:151-156 | a line-like path gets a box whose larger side is size, with the aspect ratio kept |
| Geometry.TranslateTo | dollarN.py:171-172 | translate_to returns one point per input point; where they land is stated by TranslatedCentroid and TranslateKeepsDifferences |
| Geometry.TranslatedCentroid | dollarN.py:171-172 | translate_to moves the centroid exactly onto the target point |
| Geometry.TranslateKeepsDifferences | dollarN.py:171-172 | every point moves by the same offset, target minus centroid, so differences between points are kept |
| Strokes.CombineStrokes | dollarN.py:112-118 | the nested loops produce the strokes' points stroke after stroke |
| Strokes.FlattenLength | dollarN.py:112-118 | the combined path has as many points as all strokes together |
| Strokes.FlattenAt | dollarN.py:115-117 | point j of stroke s sits at the offset of the strokes before s plus j, so nothing is reordered |
| Strokes.ReversePoints | dollarN.py:137 | reversing a stroke keeps its points |
| Strokes.MakeUnistrokes | dollarN.py:129-142 | the loops over orders, patterns and strokes, with the seed point dropped, produce every order's block of variants, order after order |
| Strokes.UnistrokesCount | dollarN.py:131-132 | orders of length n yield len(orders)·n² variants |
| Strokes.UnistrokesAt | dollarN.py:131-141 | the variant at r·n² + b is order r with pattern b |
| Strokes.IdentityVariant | dollarN.py:133-141 | pattern 0 of the identity order is the drawing as drawn |
| Strokes.VariantRearranges | dollarN.py:133-141 | for a permutation order, every variant holds exactly the drawing's points, as many as the drawing has |
| Strokes.UnistrokesRearrange | dollarN.py:129-142 | every path make_unistrokes produces from permutation orders is such a rearrangement |
| Strokes.VariantPeriodic | dollarN.py:132-136 | patterns b and b + 2^n give the same variant |
| Strokes.ThreeStrokeRepeat | dollarN.py:132-136 | for three strokes, pattern 8 repeats pattern 0 |
| Strokes.SingleStrokeForward | dollarN.py:132-141 | for one stroke, the only variant is the stroke as drawn |
| Strokes.AllReversedMissing | dollarN.py:132-136 | from five strokes on, every pattern tried leaves some stroke forward |
| Templates.OrdersAreValid | dollarN.py:254-255 | the orders built from arange(n) are permutations of 0..n-1 that index the strokes |
| Templates.NewMultistroke | dollarN.py:248-259 | the constructor's steps (arange, heap_permute in place, make_unistrokes, one unistroke per path) build the template TemplateOf describes |
| Templates.TemplateCount | dollarN.py:251-259 | the template keeps its name and stroke count and holds n!·n² variants, all with the rotation flag it was built with |
| Templates.TemplateFirst | dollarN.py:254-259 | the first variant is the drawing as drawn |
| Templates.TemplatePoints | dollarN.py:256-259 | every variant holds exactly the drawing's points |
| Templates.VariantCountPositive | dollarN.py:248-259 | a template of n >= 1 strokes holds at least n*n variants, so never none |
| Templates.SmallVariantCounts | dollarN.py:248-259 | one, two and three strokes give 1, 8 and 54 variants |
| Templates.OneStrokeTemplate | dollarN.py:254-259 | a one-stroke template holds only the stroke as drawn |
| Templates.ThreeStrokeDuplicate | dollarN.py:254-259 | a three-stroke template holds 54 variants, variant 8 repeating variant 0 |
| Recognition.Recognizer.constructor | dollarN.py:262-266 | all three flags on and no templates |
| Recognition.Recognizer.SetRotationInvariance | dollarN.py:268-269 | sets the rotation flag and changes nothing else |
| Recognition.Recognizer.SetSameNbStrokes | dollarN.py:271-272 | sets the stroke-count filter and changes nothing else |
| Recognition.Recognizer.GetRotationInvariance | dollarN.py:274-275 | returns the rotation flag |
| Recognition.Recognizer.GetSameNbStrokes | dollarN.py:277-278 | returns the stroke-count filter |
| Recognition.Recognizer.AddGesture | dollarN.py:280-282 | appends exactly one template, built with the rotation flag current at the call, keeps the earlier templates and the flags, and keeps every template well formed |
| Recognition.ValidTemplates | dollarN.py:262-282 | in a recognizer filled only by its constructor and add_gesture, every template holds n!·n² variants for its n strokes (at least one when n >= 1), all carrying one rotation flag |
| Recognition.TemplateIsWellFormed | dollarN.py:281 | a new template has n!·n² variants sharing one rotation flag |
| Recognition.BestOfIsLeast | dollarN.py:288-308 | a template's score stays np.inf exactly when no variant starts alike; otherwise it is the least distance among the variants that do, reached by one of them |
| Recognition.ArgMin | dollarN.py:309 | np.argmin: no score is below the chosen one, and every earlier score is strictly above it |
| Recognition.Recognizer.Recognize | dollarN.py:284-321 | the candidate is the combined strokes with the current rotation flag; the scores array and the decision are those RecognitionOf describes |
| Recognition.NoMatch | dollarN.py:312-313 | when no score is below 1, the result is an empty name with value 0.0 |
| Recognition.Match | dollarN.py:309-319 | when some score is below 1, the result names the first template with the least score, and its value is 1 - score (Protractor) or 1 - score/half_diagonal |
| Recognition.ConfidenceBounds | dollarN.py:312-319 | with no negative score, a match has value in (0, 1] under Protractor and in (1 - 1/half_diagonal, 1] otherwise |
| Recognition.ScoresNonNegative | dollarN.py:299-308 | distances that are never negative give scores that are np.inf or non-negative |
| Recognition.ZeroDistanceBest | dollarN.py:297-308 | a variant starting alike at distance 0 gives its template the score 0 |
| Recognition.ZeroScoreWins | dollarN.py:309-319 | a score of 0, with no negative score, is reported with value 1 |
| Recognition.ExactCopy | dollarN.py:284-321 | a candidate that matches a variant of an eligible template exactly is recognized with confidence 1 |
| Recognition.RecognizeRegistered | dollarN.py:280-321 | recognizing the strokes of a gesture just added is a match with confidence 1, under its own name when it is the only template, given metrics under which the candidate starts like itself at distance 0 |

## Left out

- The floating-point pipeline is not modelled, because it needs sqrt, atan2, cos, acos and IEEE round-off. This covers `resample`, `path_length`, `path_distance`, `rotate_by`, `indicative_angle`, `vector`, `norm`, `normalize`, `distance`, `angle_btw_u_vectors`, `vectorize` and `optimal_cos_distance` (dollarN.py:8-30, 52-86, 120-127, 175-207). Their results enter as the `Metrics` functions.
- The `unistroke` constructor (dollarN.py:231-246) is a composition of those float steps. `Templates.Unistroke` keeps only its inputs: the rotation flag and the path. The name it stores is never read and is dropped. `start_angle_index` (dollarN.py:224) is used only inside this pipeline.
- `distance_at_best_angle`, `distance_at_angle` and `check_restore_orientation` (dollarN.py:88-110, 167-169) cannot run as written: they refer to `self` outside a class, and `distance_at_angle` returns nothing. The non-Protractor branch of `recognize` is therefore modelled through the abstract `Metrics.bestAngleDistance`.
- The wall-clock `time` entry of the result (dollarN.py:285, 311) is dropped. The `globals` holder (dollarN.py:210-229) becomes the constants `AngleSimThreshold` and `HalfDiagonal`. They are written as the shortest decimal forms of the doubles the source computes, because Dafny reals have no pi and no sqrt. Those forms are not the doubles' exact binary values.
- Recognition.Recognizer.Recognize, Recognition.Recognizer.AddGesture: the `Unistroke` descriptor and the `Metrics` functions are total, so the exceptions the left-out float steps raise are not modelled. For a drawing of a single point, `resample` returns one point and `calc_start_u_vector` then reads point 12 (dollarN.py:60-79, 165, 244-245), so the source's `add_gesture` and `recognize` raise IndexError where the model appends a template or returns a result. Likewise `optimal_cos_distance` (dollarN.py:183-184) can raise ValueError from an unclamped `acos` or ZeroDivisionError from `b / a`, and the model does not.
- Reals replace floats throughout. NaN and infinite distances are not represented, except np.inf as the starting score. So a comparison with NaN is not modelled.
- The source has no setter for `use_protractor`, and the model has none either. `Recognize` and the lemmas still cover both values of the flag.
- Permutations.HeapPermute: heap_permute appends in place to one `orders` list that the whole recursion shares (dollarN.py:37). The model passes that list along as a value and returns the extended list, so sharing of the list object is not captured. Only the resulting contents are.
- tkDollarN.py (the Tk user interface) and simple.py (a demo script) are not part of this model.
- Recognition.Recognizer.Recognize: requires at least one template, because np.argmin raises on an empty array.
- Strokes.MakeUnistrokes: requires every stroke to be non-empty, because np.concatenate of the (1, 2) seed with an empty array raises. Templates.NewMultistroke and Recognition.Recognizer.AddGesture inherit this precondition.
- Geometry.ScaleDimTo: requires a bounding box that is not 0 by 0, which is the case of a path whose points all coincide. There the source divides by zero and numpy produces inf or nan, which reals cannot represent.
- Strokes.ValidOrder: requires stroke indices in 0..n-1. It does not model Python's negative indexing, which heap_permute's orders never use.
- Recognition.ConfidenceBounds: requires that no score is negative. Under Protractor, the source's value is 1 - acos(...), which is at most 1. Nothing in the source clamps it.
- Recognition.Recognizer.Valid: the class invariant (every template has n!·n² variants with one rotation flag) is ghost. The source states it nowhere and keeps it only because `add_gesture` is the one way templates enter the list. `Recognition.ValidTemplates` states what it gives a caller.
