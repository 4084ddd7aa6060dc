# Audiveris OMR core, modelled in Dafny

This project models five pieces of sequential logic from the Audiveris optical
music recognition engine and proves what they promise:

- **Staff-line gap filling** (`LineFilamentAlignment.fillHoles` and its
  `Filler`). A filament's points are ordered by abscissa. Every hole between
  two consecutive points that is longer than the maximum hole length receives
  `rint(holeLength / virtualLength) - 1` virtual points, spread evenly. Each
  virtual point is interpolated from the nearest filament above and the
  nearest filament below that offer a reference point. When either is
  missing, the point is taken on the filament's own curve. The points are
  spliced in place, and the curve is fitted again only when something was
  inserted. Module `LineFilamentAlignment`; class `LineFilamentAlignment`
  holds the mutable `points` and `line`.
- **Double-beam compounds** (`DoubleBeamPattern.runPattern`). A trigger is a
  beam with exactly one stem whose shape was not set by hand. It is merged with
  the first adjacent beam glyph whose compound the classifier votes for. The
  compound is registered in the system with that evaluation. Module
  `DoubleBeamPattern`; class `SystemInfo` holds the mutable glyph population.
- **The classifier contract** (`ShapeEvaluator`). The interface has no body in
  the repository. The trained network is a `Network` value: raw grades,
  shape-specific checks and a noise weight. The functions `Evaluate`, `Vote`,
  `VoteWithConditions`, `VoteMatching` and `RawVote` state what the interface
  promises as postconditions. Module `ShapeEvaluator`.
- **Glyph-id navigation** (`SpinnerGlyphModel`). A current glyph id moves
  through a nest's glyphs, filtered by an optional predicate. `setValue`
  accepts an id only when it is legal. Module `SpinnerGlyphModel`; class
  `SpinnerGlyphModel` holds `currentId`.
- **File-name splitting** (`FileUtil.getExtension`,
  `FileUtil.getNameSansExtension`), over the last path component. Module
  `FileUtil`.

Modules `Wrappers` (an `Option` type) and `Glyphs` (shapes, evaluations,
rectangles, glyphs) hold the shared data.

Points are pairs of `real`. `Math.rint` is the function `Rint` (nearest
integer, ties to even). The collaborators the code calls but does not define
are parameters:

- `Scale.toPixels`, `NaturalSpline.interpolate` (`fit`), `getPositionAt`
  (the `Curve`) and `findPoint` (a field of `LineFilament`);
- the network behind `ShapeEvaluator`;
- the classifier's vote in `runPattern` (a `Voter`). It receives the system's
  population as it stands at the time of the vote, including the compounds
  committed earlier in the same run. `CommittedVotesAreGated` instantiates it
  with `ShapeEvaluator.Vote`, whose shape checks consult that system.

Two facts about the code shape the model:

- The compound vote of `runPattern` calls the three-argument `vote`. That
  overload applies both the ALLOWED and the CHECKED conditions, so a committed
  compound passes both.
- The Javadoc of `setValue` says it throws on an illegal id. The code only logs
  a warning and keeps the current id, and so does the model.

`fillHoles` uses the same list index `pos` twice, exactly as the code does. It
splits the filaments into those above and those below. It is also the
filament's own rank in the interpolation ratio, next to the neighbours'
`clusterPos`. The ratio lies within [0, 1] when `pos` lies between the two
neighbours' `clusterPos` (`RatioInside`), for instance when each neighbour's
`clusterPos` equals its list index; the code does not check this.

## Model

| member | source | states |
|---|---|---|
| FileUtil.LastIndexOf | src/main/org/audiveris/omr/util/FileUtil.java:137 | the index of the last occurrence of the character, with no occurrence after it, or -1 exactly when it does not occur |
| FileUtil.GetExtension | src/main/org/audiveris/omr/util/FileUtil.java:134-144 | the result is a suffix of the name; it is "" when the name has no dot; otherwise it starts with a dot and holds no other dot |
| FileUtil.GetNameSansExtension | src/main/org/audiveris/omr/util/FileUtil.java:156-166 | the result is a prefix of the name; it is the whole name when there is no dot; otherwise it is followed by a dot after which no dot occurs |
| FileUtil.SplitRoundTrip | src/main/org/audiveris/omr/util/FileUtil.java:134-166 | the base name followed by the extension gives the name back |
| FileUtil.ExtensionHoldsOneDot | src/main/org/audiveris/omr/util/FileUtil.java:136-143 | the extension holds exactly one dot and the base keeps all the other dots of the name |
| FileUtil.DocumentedExamples | src/main/org/audiveris/omr/util/FileUtil.java:118-128 | "name.ext" gives ".ext", "name." gives ".", "name" gives ""; the base of "name.ext" and of "name" is "name" |
| Glyphs.Grow | src/main/org/audiveris/omr/glyph/pattern/DoubleBeamPattern.java:96-97 | every side of the box moves outwards by the given amounts |
| Glyphs.Union | src/main/org/audiveris/omr/glyph/pattern/DoubleBeamPattern.java:120-121 | the smallest box holding both: it contains both boxes, and each of its four sides is a side of one of them |
| Glyphs.TransientCompound | src/main/org/audiveris/omr/glyph/pattern/DoubleBeamPattern.java:120-121 | the compound has no id, no shape, no stems and no forbidden shapes, is not manual, has exactly the given parts, its weight is the sum of theirs and its box is `BoundsOf` the parts, which contains every part's box |
| Glyphs.BoundsOfIsTight | src/main/org/audiveris/omr/glyph/pattern/DoubleBeamPattern.java:120-121 | the compound's box is the smallest one holding the parts: each of its four sides is a side of some part |
| ShapeEvaluator.Candidates | src/main/org/audiveris/omr/glyph/ShapeEvaluator.java:63-80 | exactly the evaluations of the shapes the gate lets through that reach the minimum grade; each shape at most once |
| ShapeEvaluator.InsertByGrade | src/main/org/audiveris/omr/glyph/ShapeEvaluator.java:63-65 | inserting into a best-first list keeps it best-first and adds exactly the new evaluation |
| ShapeEvaluator.SortByGrade | src/main/org/audiveris/omr/glyph/ShapeEvaluator.java:63-65 | the result is best-first and a permutation of the input |
| ShapeEvaluator.Ranked | src/main/org/audiveris/omr/glyph/ShapeEvaluator.java:63-80 | best-first, one entry per shape, holding exactly the qualifying shapes with their network grades |
| ShapeEvaluator.Evaluate | src/main/org/audiveris/omr/glyph/ShapeEvaluator.java:63-80 | at most `count` evaluations, each reaching `minGrade` and passing the conditions and predicate, best-first, distinct shapes, within [0, 1] for a valid network; a qualifying shape left out means the result is full and grades no lower |
| ShapeEvaluator.TopOfRanked | src/main/org/audiveris/omr/glyph/ShapeEvaluator.java:63-80 | a prefix of a ranking leaves out no qualifying shape that grades higher than one it holds |
| ShapeEvaluator.HeadOfRanked | src/main/org/audiveris/omr/glyph/ShapeEvaluator.java:98-157 | a ranking is empty exactly when no shape qualifies, and its head grades at least as high as every qualifying shape |
| ShapeEvaluator.VoteWithConditions | src/main/org/audiveris/omr/glyph/ShapeEvaluator.java:125-141 | nothing exactly when no shape passes the given conditions and predicate at `minGrade`; otherwise a best such evaluation |
| ShapeEvaluator.Vote | src/main/org/audiveris/omr/glyph/ShapeEvaluator.java:112-123 | the best evaluation among allowed and checked shapes, or nothing exactly when none reaches `minGrade` |
| ShapeEvaluator.VoteMatching | src/main/org/audiveris/omr/glyph/ShapeEvaluator.java:143-157 | the best evaluation among allowed, checked shapes that match the predicate (a missing predicate matches all), or nothing exactly when none qualifies |
| ShapeEvaluator.RawVote | src/main/org/audiveris/omr/glyph/ShapeEvaluator.java:98-110 | the best evaluation among allowed shapes that match the predicate, checks not consulted, or nothing exactly when none qualifies |
| Glyphs.WeightOfCovers | src/main/org/audiveris/omr/glyph/pattern/DoubleBeamPattern.java:120-121 | a compound weighs at least as much as each of its constituents |
| ShapeEvaluator.CompoundOfBigEnough | src/main/org/audiveris/omr/glyph/ShapeEvaluator.java:89-96 | `isBigEnough` is the noise weight threshold, and a compound with a constituent that is big enough is not noise either |
| ShapeEvaluator.VoteIsFirstEvaluation | src/main/org/audiveris/omr/glyph/ShapeEvaluator.java:63-141 | a vote is the head of the one-element evaluation under the same parameters, and is missing exactly when that evaluation is empty |
| ShapeEvaluator.RawVoteScreensVote | src/main/org/audiveris/omr/glyph/ShapeEvaluator.java:98-157 | when the raw vote finds nothing the gated vote finds nothing, and the gated vote never grades above the raw one |
| ShapeEvaluator.RawVoteIsAllowedOnlyVote | src/main/org/audiveris/omr/glyph/ShapeEvaluator.java:98-110 | the raw vote is the vote under the ALLOWED condition alone, whatever the system |
| DoubleBeamPattern.Commit | src/main/org/audiveris/omr/glyph/pattern/DoubleBeamPattern.java:130 | the glyph joins the population under the next id, and the population keeps its ids distinct and below the next one |
| DoubleBeamPattern.SystemInfo.AddGlyph | src/main/org/audiveris/omr/glyph/pattern/DoubleBeamPattern.java:130 | the system's population becomes the committed one, and the registered glyph carries the fresh id |
| DoubleBeamPattern.BeamCandidates | src/main/org/audiveris/omr/glyph/pattern/DoubleBeamPattern.java:99-111 | exactly the glyphs of the population that are beams, neither the trigger nor its stem, and touch the grown box |
| DoubleBeamPattern.Evaluated | src/main/org/audiveris/omr/glyph/pattern/DoubleBeamPattern.java:131 | the glyph carries exactly the given evaluation, so its shape is the evaluation's shape, and nothing else of the glyph changes |
| DoubleBeamPattern.FirstAccepted | src/main/org/audiveris/omr/glyph/pattern/DoubleBeamPattern.java:113-143 | the first candidate whose compound gets a vote, no earlier one getting any; nothing exactly when no compound gets a vote |
| DoubleBeamPattern.FirstVotedCompound | src/main/org/audiveris/omr/glyph/pattern/DoubleBeamPattern.java:113-143 | the candidate loop returns the first compound the vote accepts on the population as it stands, carrying that vote, or nothing when no candidate's compound is voted for |
| DoubleBeamPattern.CheckBeam | src/main/org/audiveris/omr/glyph/pattern/DoubleBeamPattern.java:83-144 | one loop pass commits the first compound of a trigger voted for within the live system, and nothing else; `merged` holds exactly when one glyph was added |
| DoubleBeamPattern.StepAddsAtMostOne | src/main/org/audiveris/omr/glyph/pattern/DoubleBeamPattern.java:83-144 | one loop pass keeps the population as a prefix, uses one id per glyph added, and adds at most one glyph, none for a glyph that is not a trigger |
| DoubleBeamPattern.StepCommitsFirstVoted | src/main/org/audiveris/omr/glyph/pattern/DoubleBeamPattern.java:113-143 | a trigger commits the compound of its first candidate that gets a vote, none before it getting one, carrying that vote under the next id |
| DoubleBeamPattern.StepWithoutVoteKeeps | src/main/org/audiveris/omr/glyph/pattern/DoubleBeamPattern.java:113-143 | a trigger none of whose candidates gets a vote leaves the population unchanged |
| DoubleBeamPattern.RunPattern | src/main/org/audiveris/omr/glyph/pattern/DoubleBeamPattern.java:78-148 | the population becomes the run over the glyphs present on entry, ids stay distinct, and the count returned is the number of glyphs added |
| DoubleBeamPattern.RunOnlyAppends | src/main/org/audiveris/omr/glyph/pattern/DoubleBeamPattern.java:113-143 | the entry population is a prefix of the result, one id is used per commit, and no more compounds are committed than there are triggers |
| DoubleBeamPattern.RunCommitsVotedCompounds | src/main/org/audiveris/omr/glyph/pattern/DoubleBeamPattern.java:120-143 | every added glyph is a compound of a trigger and one of the candidates in the population as it stood just before that commit, voted for on that population, carries that vote, and has the next consecutive id |
| DoubleBeamPattern.StepCommitIsMerged | src/main/org/audiveris/omr/glyph/pattern/DoubleBeamPattern.java:120-143 | the glyph one pass adds, if any, is the compound of its trigger and one of that trigger's candidates in the population before the pass, voted for on that population, carrying that vote, under the next id |
| DoubleBeamPattern.CommittedVotesAreGated | src/main/org/audiveris/omr/glyph/pattern/DoubleBeamPattern.java:120-131 | with the network's vote, every committed compound is made of exactly a trigger and a candidate, and its evaluation reaches the minimum grade, is allowed and passes the checks within the system as it stood just before that commit |
| SpinnerGlyphModel.IndexOfId | src/main/org/audiveris/omr/glyph/ui/SpinnerGlyphModel.java:223 | the first glyph with the id, no earlier one having it, or nothing exactly when no glyph has it |
| SpinnerGlyphModel.FirstAccepted | src/main/org/audiveris/omr/glyph/ui/SpinnerGlyphModel.java:124-128 | the first glyph the predicate accepts from an index on, or nothing exactly when none is accepted |
| SpinnerGlyphModel.LastAccepted | src/main/org/audiveris/omr/glyph/ui/SpinnerGlyphModel.java:171-180 | the last accepted glyph before an index, or nothing exactly when none is accepted |
| SpinnerGlyphModel.NextValue | src/main/org/audiveris/omr/glyph/ui/SpinnerGlyphModel.java:116-147 | from NO_VALUE, the first accepted glyph's id or nothing; otherwise the first accepted glyph after the current one, or nothing when there is none or the current id is absent |
| SpinnerGlyphModel.PreviousValue | src/main/org/audiveris/omr/glyph/ui/SpinnerGlyphModel.java:159-183 | from NO_VALUE, NO_VALUE; otherwise the last accepted glyph before the current one, NO_VALUE when there is none, nothing when the current id is absent |
| SpinnerGlyphModel.NextThenPrevious | src/main/org/audiveris/omr/glyph/ui/SpinnerGlyphModel.java:116-183 | with distinct ids, stepping back from the next value returns to the current legal value |
| SpinnerGlyphModel.PreviousThenNext | src/main/org/audiveris/omr/glyph/ui/SpinnerGlyphModel.java:116-183 | with distinct ids, a legal current value has a previous value, and stepping forward from it returns to the current value |
| SpinnerGlyphModel.OfferedValuesAreSettable | src/main/org/audiveris/omr/glyph/ui/SpinnerGlyphModel.java:116-240 | with distinct ids, every value offered by next or previous is one `setValue` accepts |
| SpinnerGlyphModel.SpinnerGlyphModel.constructor | src/main/org/audiveris/omr/glyph/ui/SpinnerGlyphModel.java:91-103 | the model keeps the nest and predicate and starts at NO_VALUE |
| SpinnerGlyphModel.SpinnerGlyphModel.Create | src/main/org/audiveris/omr/glyph/ui/SpinnerGlyphModel.java:91-103 | a missing nest is refused; otherwise a model on that nest and predicate, at NO_VALUE |
| SpinnerGlyphModel.SpinnerGlyphModel.GetNextValue | src/main/org/audiveris/omr/glyph/ui/SpinnerGlyphModel.java:116-147 | dispatches on the current id to one of the two scans, so the result is `NextValue` of the current id, and changes no state |
| SpinnerGlyphModel.ScanFirst | src/main/org/audiveris/omr/glyph/ui/SpinnerGlyphModel.java:122-130 | with no current id, the scan returns `NextValue`: the id of the first accepted glyph, or nothing |
| SpinnerGlyphModel.ScanAfter | src/main/org/audiveris/omr/glyph/ui/SpinnerGlyphModel.java:131-145 | with a current id, the scan with `found` returns `NextValue`: the first accepted glyph after the first glyph with that id, or nothing |
| SpinnerGlyphModel.SpinnerGlyphModel.GetPreviousValue | src/main/org/audiveris/omr/glyph/ui/SpinnerGlyphModel.java:159-183 | the scan with `prevGlyph` computes `PreviousValue` of the current id, and changes no state |
| SpinnerGlyphModel.SpinnerGlyphModel.GetValue | src/main/org/audiveris/omr/glyph/ui/SpinnerGlyphModel.java:193-199 | the current id |
| SpinnerGlyphModel.SpinnerGlyphModel.SetValue | src/main/org/audiveris/omr/glyph/ui/SpinnerGlyphModel.java:211-240 | the current id becomes the given one exactly when it is NO_VALUE or a nest glyph the predicate accepts, and is unchanged otherwise |
| LineFilamentAlignment.Rint | src/main/org/audiveris/omr/grid/LineFilamentAlignment.java:111-112 | the result is within one half of its argument |
| LineFilamentAlignment.RintIsNearestRounding | src/main/org/audiveris/omr/grid/LineFilamentAlignment.java:111-124 | `Rint` is a rounding to a nearest integer that never reverses the order of two reals |
| LineFilamentAlignment.HitUp | src/main/org/audiveris/omr/grid/LineFilamentAlignment.java:249-263 | the first filament from an index upwards that offers a point, or nothing exactly when none does |
| LineFilamentAlignment.HitDown | src/main/org/audiveris/omr/grid/LineFilamentAlignment.java:249-263 | the first filament from an index downwards that offers a point, or nothing exactly when none does |
| LineFilamentAlignment.FindNeighbor | src/main/org/audiveris/omr/grid/LineFilamentAlignment.java:246-266 | nothing exactly when no filament offers a point; otherwise the reference of the nearest filament that does, in the search direction |
| LineFilamentAlignment.FindInsertionFound | src/main/org/audiveris/omr/grid/LineFilamentAlignment.java:218-240 | nothing exactly when no filament above or none below offers a point; otherwise the interpolation between the nearest ones above and below, of distinct ranks |
| LineFilamentAlignment.NeighborsAroundPos | src/main/org/audiveris/omr/grid/LineFilamentAlignment.java:221-232 | the references come from the nearest filaments on either side of `pos`, of distinct ranks |
| LineFilamentAlignment.InterpolateAtReferences | src/main/org/audiveris/omr/grid/LineFilamentAlignment.java:235-239 | interpolating at either reference's rank gives that reference point |
| LineFilamentAlignment.InterpolateBetween | src/main/org/audiveris/omr/grid/LineFilamentAlignment.java:235-239 | with the rank strictly between the references' ranks, the point lies between them, coordinate by coordinate |
| LineFilamentAlignment.InterpolationExample | src/main/org/audiveris/omr/grid/LineFilamentAlignment.java:235-239 | rank 2 between ordinates 100 at rank 1 and 140 at rank 3 gives 120 |
| LineFilamentAlignment.NoReferenceBelowFallsBack | src/main/org/audiveris/omr/grid/LineFilamentAlignment.java:131-136 | without a reference below, the virtual point is the point of the filament's own curve |
| LineFilamentAlignment.NoReferenceAboveFallsBack | src/main/org/audiveris/omr/grid/LineFilamentAlignment.java:131-136 | without a reference above, the virtual point is the point of the filament's own curve |
| LineFilamentAlignment.InsertCount | src/main/org/audiveris/omr/grid/LineFilamentAlignment.java:107-114 | no point for a hole no longer than the maximum or when the rounded count minus one is not positive; that count otherwise |
| LineFilamentAlignment.InsertCountExample | src/main/org/audiveris/omr/grid/LineFilamentAlignment.java:111-114 | a hole of 50 with segments of 10 and a maximum of 20 receives four points |
| LineFilamentAlignment.GapFill | src/main/org/audiveris/omr/grid/LineFilamentAlignment.java:109-124 | a hole receives as many points as `InsertCount` gives |
| LineFilamentAlignment.SpacedInside | src/main/org/audiveris/omr/grid/LineFilamentAlignment.java:121-124 | each evenly spaced abscissa lies within the hole |
| LineFilamentAlignment.GapAbscissae | src/main/org/audiveris/omr/grid/LineFilamentAlignment.java:121-124 | under a nearest rounding, the inserted abscissae are in order and lie in the hole up to one half |
| LineFilamentAlignment.AbscissaExample | src/main/org/audiveris/omr/grid/LineFilamentAlignment.java:121-124 | the four points of a hole of 50 from 0 lie at 10, 20, 30, 40 |
| LineFilamentAlignment.RefusalExample | src/main/org/audiveris/omr/grid/LineFilamentAlignment.java:109-136 | with no reference below, that hole receives the four curve points at 10, 20, 30, 40 |
| LineFilamentAlignment.GapShape | src/main/org/audiveris/omr/grid/LineFilamentAlignment.java:109-121 | the count and spacing the loop computes are those of `GapFill` |
| LineFilamentAlignment.GapPoint | src/main/org/audiveris/omr/grid/LineFilamentAlignment.java:123-136 | the `i`-th point the loop computes is the `i`-th point of `GapFill` |
| LineFilamentAlignment.ProcessedAdvance | src/main/org/audiveris/omr/grid/LineFilamentAlignment.java:139-145 | splicing the hole before the next original point extends the processed prefix by that hole and that point |
| LineFilamentAlignment.ProcessedPrefix | src/main/org/audiveris/omr/grid/LineFilamentAlignment.java:100-147 | the list built so far is a prefix of the final list |
| LineFilamentAlignment.OriginalKept | src/main/org/audiveris/omr/grid/LineFilamentAlignment.java:100-147 | every original point is kept, at its computed index |
| LineFilamentAlignment.HoleFilledInPlace | src/main/org/audiveris/omr/grid/LineFilamentAlignment.java:139-145 | between two consecutive original points lie exactly the points of the hole they bound |
| LineFilamentAlignment.FilledLayout | src/main/org/audiveris/omr/grid/LineFilamentAlignment.java:100-147 | originals are kept in order, first and last stay at the ends, and each hole's points lie between the originals that bound it |
| LineFilamentAlignment.FilledUnchanged | src/main/org/audiveris/omr/grid/LineFilamentAlignment.java:98-153 | the list is unchanged exactly when it keeps its length, exactly when no hole receives a point |
| LineFilamentAlignment.ShortHolesUntouched | src/main/org/audiveris/omr/grid/LineFilamentAlignment.java:103-109 | when no hole is longer than the maximum, nothing is inserted |
| LineFilamentAlignment.LineFilamentAlignment.FillHole | src/main/org/audiveris/omr/grid/LineFilamentAlignment.java:109-143 | the hole's points are spliced in order at the index, and the index moves past them |
| LineFilamentAlignment.LineFilamentAlignment.ScanPoint | src/main/org/audiveris/omr/grid/LineFilamentAlignment.java:100-147 | one pass of the loop over the next original point keeps the list as the processed prefix followed by the points still to scan, with the index, the open hole and the `modified` flag to match |
| LineFilamentAlignment.LineFilamentAlignment.ScanHoles | src/main/org/audiveris/omr/grid/LineFilamentAlignment.java:98-147 | the loop turns the points into the filled list, and `modified` holds exactly when the list grew |
| LineFilamentAlignment.LineFilamentAlignment.FillHolesIn | src/main/org/audiveris/omr/grid/LineFilamentAlignment.java:96-153 | the points become the filled list, and the curve is refitted exactly when the list grew |
| LineFilamentAlignment.LineFilamentAlignment.FillHoles | src/main/org/audiveris/omr/grid/LineFilamentAlignment.java:89-154 | with the lengths converted to pixels and `Math.rint` as rounding, the points become the filled list and the curve is refitted exactly when points were inserted |

## Left out

- Collaborators without source here are parameters: `Scale.toPixels`, `NaturalSpline.interpolate`, `getPositionAt`, `findPoint`, the trained network and `GlyphNetwork.getInstance()`.
- Floating point: coordinates, lengths and grades are reals, so NaN, infinities and rounding errors are not modelled. The casts `(int) Math.rint(...)` are assumed not to overflow.
- Logging, VIP output and `fireStateChanged` listener notification are not modelled.
- `getName` of `ShapeEvaluator` is not modelled; it only names the evaluator.
- ShapeEvaluator.IsBigEnough: stated as the weight threshold of the network. The NOISE shape it implies is assigned by callers that are not part of this model.
- ShapeEvaluator: the interface is modelled as functions over a `Network` value, not as an abstract type with several implementations. The shape enumeration holds the shapes the modelled code names, plus a few others.
- Glyphs.Union: the special case of `Rectangle.union` for a box of negative width or height is not modelled; glyph boxes hold at least one pixel.
- DoubleBeamPattern.RunPattern: the loop examines the glyphs present on entry. Glyphs added during the run are candidates for later triggers but are not themselves examined as triggers, since the Java loop walks a live collection whose behaviour under insertion is not visible here.
- DoubleBeamPattern.BeamCandidates: candidates are tried in population order; the iteration order of the set `Glyphs.lookupGlyphs` returns is not known here.
- DoubleBeamPattern: `Grades.noMinGrade` is a parameter, and a glyph is identified by its id where the Java compares object references.
- DoubleBeamPattern: `addGlyph` is modelled as registering the glyph under the next id; the merging with an identical existing glyph and the lag bookkeeping of the real `addGlyph` are not part of this model.
- SpinnerGlyphModel: `SpinnerUtil.NO_VALUE` is not part of this model; it is taken as 0, an id no registered glyph carries. A `null` value passed to `setValue` is not modelled.
- SpinnerGlyphModel: `Nest.getGlyph(id)` is taken as the first glyph of the nest with that id.
- SpinnerGlyphModel.NextThenPrevious: proved under the assumption that glyph ids in the nest are distinct and differ from NO_VALUE; with a repeated id the spinner can offer an id whose first glyph the predicate rejects.
- SpinnerGlyphModel.PreviousThenNext: proved under the same assumption of distinct ids.
- SpinnerGlyphModel.OfferedValuesAreSettable: proved under the same assumption of distinct ids, since `setValue` looks up the first glyph carrying the id.
- LineFilamentAlignment.GapFill: its contract gives the number of points; the abscissa and value of each point are stated by `GapPoint`.
- LineFilamentAlignment.FindInsertion: requires the ranks (`clusterPos`) of all filaments to be distinct. The code only divides by the difference of the two neighbours' ranks (LineFilamentAlignment.java:235); a zero divisor would give an IEEE infinity or NaN, which reals do not model.
- LineFilamentAlignment.Context: the rounding is a field of the context, and `FillHoles` passes `Rint`. The splice proofs hold for any rounding.
- LineFilamentAlignment.FillHoles: re-running it on its own output is not claimed to leave it unchanged. An interpolated point need not lie at the rounded abscissa, and a rounded spacing can still exceed the maximum hole length for some scales.
- `AbstractSystemStep`, `RunsTableView`, `SymbolGlyphDescriptor`, `FileUtil.copy` and `FileUtil.deleteAll` are not part of this model. They are scheduling, user interface, XML binding and file-system I/O.
