/** The contract of the `ShapeEvaluator` interface. The trained network behind
    it is not part of this model: a `Network` value supplies its raw grades, its
    shape-specific checks and its noise threshold, and the functions below say
    how the interface turns those into ranked evaluations and votes. */
module ShapeEvaluator {
  import opened Wrappers
  import opened Glyphs

  /** Optional gates a caller may put on an evaluation. */
  datatype Condition =
    | ALLOWED   // the shape is not blacklisted by the glyph at hand
    | CHECKED   // the shape passes all its specific checks

  /** The empty set of conditions. */
  const NO_CONDITIONS: set<Condition> := {}

  /** The trained network: the grade it gives a glyph for each shape, whether a
      shape passes its specific checks for a glyph within a system as it stands,
      and the weight under which a glyph is only noise. */
  datatype Network = Network(
    grade: (Glyph, Shape) -> real,
    passesChecks: (Glyph, SystemView, Shape) -> bool,
    minWeight: nat)

  /** Grades are confidences in [0, 1]. */
  ghost predicate ValidNetwork(net: Network)
  {
    forall g: Glyph, s: Shape :: 0.0 <= net.grade(g, s) <= 1.0
  }

  predicate Allowed(g: Glyph, s: Shape)
  {
    s !in g.forbidden
  }

  /** A missing predicate accepts every shape. */
  predicate Matches(pred: Option<Shape -> bool>, s: Shape)
  {
    pred.None? || pred.value(s)
  }

  /** Shape `s` passes every requested condition and the optional predicate. */
  predicate Admits(net: Network, g: Glyph, system: SystemView, conditions: set<Condition>,
                   pred: Option<Shape -> bool>, s: Shape)
  {
    (ALLOWED in conditions ==> Allowed(g, s)) &&
    (CHECKED in conditions ==> net.passesChecks(g, system, s)) &&
    Matches(pred, s)
  }

  predicate SortedByGrade(es: seq<Evaluation>)
  {
    forall i, j :: 0 <= i < j < |es| ==> es[i].grade >= es[j].grade
  }

  predicate DistinctShapes(es: seq<Evaluation>)
  {
    forall i, j :: 0 <= i < j < |es| ==> es[i].shape != es[j].shape
  }

  predicate DistinctList(shapes: seq<Shape>)
  {
    forall i, j :: 0 <= i < j < |shapes| ==> shapes[i] != shapes[j]
  }

  /** The position of a shape in the enumeration (`ordinal()`). */
  function Ordinal(s: Shape): nat
  {
    match s
    case NOISE => 0 case CLUTTER => 1 case STEM => 2 case BEAM => 3
    case BEAM_2 => 4 case BEAM_3 => 5 case BEAM_HOOK => 6 case NOTEHEAD_BLACK => 7
    case WHOLE_NOTE => 8 case SHARP => 9 case FLAT => 10 case NATURAL => 11
  }

  lemma AllShapesDistinct()
    ensures DistinctList(AllShapes)
  {
    forall i | 0 <= i < |AllShapes|
      ensures Ordinal(AllShapes[i]) == i
    {
    }
  }

  /** The evaluations, in the order of `shapes`, of the shapes that `accept`
      lets through and that reach `minGrade`. */
  function Candidates(net: Network, g: Glyph, minGrade: real, accept: Shape -> bool,
                      shapes: seq<Shape>): (r: seq<Evaluation>)
    ensures forall e :: e in r <==>
      e.shape in shapes && accept(e.shape) && e.grade == net.grade(g, e.shape) && e.grade >= minGrade
    ensures DistinctList(shapes) ==> DistinctShapes(r)
  {
    if |shapes| == 0 then []
    else
      var rest := Candidates(net, g, minGrade, accept, shapes[1..]);
      var s := shapes[0];
      assert DistinctList(shapes) ==> DistinctList(shapes[1..]) && s !in shapes[1..];
      if accept(s) && net.grade(g, s) >= minGrade then [Evaluation(s, net.grade(g, s))] + rest
      else rest
  }

  /** Insert `e` into a list sorted best-first, ahead of the entries it does not
      grade below. */
  function InsertByGrade(e: Evaluation, es: seq<Evaluation>): (r: seq<Evaluation>)
    requires SortedByGrade(es)
    ensures SortedByGrade(r)
    ensures multiset(r) == multiset(es) + multiset{e}
    ensures forall x :: x in r <==> x == e || x in es
  {
    if |es| == 0 || e.grade >= es[0].grade then
      ConsSorted(e, es);
      [e] + es
    else
      var rest := InsertByGrade(e, es[1..]);
      assert es == [es[0]] + es[1..];
      HeadAboveInsert(e, es, rest);
      ConsSorted(es[0], rest);
      [es[0]] + rest
  }

  /** An entry grading at least as high as the head of a sorted list can go
      in front of it. */
  lemma ConsSorted(h: Evaluation, t: seq<Evaluation>)
    requires SortedByGrade(t) && (|t| > 0 ==> h.grade >= t[0].grade)
    ensures SortedByGrade([h] + t)
  {
    var l := [h] + t;
    forall i, j | 0 <= i < j < |l|
      ensures l[i].grade >= l[j].grade
    {
      assert l[j] == t[j - 1];
      if i > 0 {
        assert l[i] == t[i - 1];
      }
    }
  }

  /** When `e` goes after the head of a sorted list, the head grades at least
      as high as every entry of the rest with `e` inserted. */
  lemma HeadAboveInsert(e: Evaluation, es: seq<Evaluation>, rest: seq<Evaluation>)
    requires SortedByGrade(es) && |es| > 0 && e.grade < es[0].grade
    requires forall x :: x in rest <==> x == e || x in es[1..]
    ensures |rest| > 0 ==> es[0].grade >= rest[0].grade
  {
    if |rest| > 0 {
      assert rest[0] in rest;
      if rest[0] != e {
        var m :| 0 <= m < |es[1..]| && es[1..][m] == rest[0];
        assert es[1 + m] == rest[0];
      }
    }
  }

  function SortByGrade(es: seq<Evaluation>): (r: seq<Evaluation>)
    ensures SortedByGrade(r)
    ensures multiset(r) == multiset(es)
  {
    if |es| == 0 then []
    else
      assert es == [es[0]] + es[1..];
      InsertByGrade(es[0], SortByGrade(es[1..]))
  }

  lemma DistinctFromMultiset(a: seq<Evaluation>, b: seq<Evaluation>)
    requires multiset(a) == multiset(b)
    requires DistinctShapes(a)
    ensures DistinctShapes(b)
  {
    forall i, j | 0 <= i < j < |b| ensures b[i].shape != b[j].shape {
      if b[i].shape == b[j].shape {
        assert b[i] in multiset(a) && b[j] in multiset(a);
        var k :| 0 <= k < |a| && a[k] == b[i];
        var l :| 0 <= l < |a| && a[l] == b[j];
        if k == l {
          assert b[i] == b[j];
          MultiplicityTwo(b, i, j);
          MultiplicityOne(a, k);
        }
      }
    }
  }

  lemma MultiplicityTwo(b: seq<Evaluation>, i: nat, j: nat)
    requires i < j < |b| && b[i] == b[j]
    ensures multiset(b)[b[i]] >= 2
  {
    assert b == b[..i] + [b[i]] + b[i + 1..j] + [b[j]] + b[j + 1..];
  }

  lemma MultiplicityOne(a: seq<Evaluation>, k: nat)
    requires k < |a| && DistinctShapes(a)
    ensures multiset(a)[a[k]] == 1
  {
    assert a == a[..k] + [a[k]] + a[k + 1..];
    assert a[k] !in a[..k] && a[k] !in a[k + 1..] by {
      forall m | 0 <= m < |a| && m != k ensures a[m] != a[k] { }
    }
  }

  /** Every shape that `accept` lets through and that reaches `minGrade`,
      evaluated and sorted best-first, each shape once. */
  function Ranked(net: Network, g: Glyph, minGrade: real, accept: Shape -> bool): (r: seq<Evaluation>)
    ensures SortedByGrade(r) && DistinctShapes(r)
    ensures forall e :: e in r <==> accept(e.shape) && e.grade == net.grade(g, e.shape) && e.grade >= minGrade
  {
    var cands := Candidates(net, g, minGrade, accept, AllShapes);
    var r := SortByGrade(cands);
    AllShapesDistinct();
    DistinctFromMultiset(cands, r);
    assert forall e :: e in r <==> e in multiset(cands);
    assert forall s :: s in AllShapes by { forall s { AllShapesListed(s); } }
    r
  }

  function Best(ranked: seq<Evaluation>): Option<Evaluation>
  {
    if |ranked| == 0 then None else Some(ranked[0])
  }

  /** `evaluate`: the best evaluations of the glyph, best first, at most `count`
      of them, each with a grade of at least `minGrade`, passing the requested
      conditions and the predicate; when fewer than `count` are returned, no
      other shape qualifies, and no shape left out grades above one returned. */
  function Evaluate(net: Network, g: Glyph, system: SystemView, count: nat, minGrade: real,
                    conditions: set<Condition>, pred: Option<Shape -> bool>): (r: seq<Evaluation>)
    ensures |r| <= count
    ensures forall i :: 0 <= i < |r| ==>
      r[i].grade >= minGrade && r[i].grade == net.grade(g, r[i].shape) &&
      Admits(net, g, system, conditions, pred, r[i].shape)
    ensures ValidNetwork(net) ==> forall i :: 0 <= i < |r| ==> 0.0 <= r[i].grade <= 1.0
    ensures SortedByGrade(r) && DistinctShapes(r)
    ensures forall s: Shape ::
      (Admits(net, g, system, conditions, pred, s) && net.grade(g, s) >= minGrade &&
       forall i :: 0 <= i < |r| ==> r[i].shape != s) ==>
      (|r| == count && forall i :: 0 <= i < |r| ==> r[i].grade >= net.grade(g, s))
  {
    var accept := s => Admits(net, g, system, conditions, pred, s);
    var ranked := Ranked(net, g, minGrade, accept);
    var n := if count <= |ranked| then count else |ranked|;
    TopOfRanked(net, g, minGrade, accept, n);
    ranked[..n]
  }

  /** A prefix of a ranking leaves out no qualifying shape that grades above
      one it holds, and is shorter than asked only when it is the whole list. */
  lemma TopOfRanked(net: Network, g: Glyph, minGrade: real, accept: Shape -> bool, n: nat)
    requires n <= |Ranked(net, g, minGrade, accept)|
    ensures var r := Ranked(net, g, minGrade, accept)[..n];
      forall s: Shape ::
        (accept(s) && net.grade(g, s) >= minGrade && forall i :: 0 <= i < |r| ==> r[i].shape != s) ==>
        (n < |Ranked(net, g, minGrade, accept)| && forall i :: 0 <= i < |r| ==> r[i].grade >= net.grade(g, s))
  {
    var ranked := Ranked(net, g, minGrade, accept);
    var r := ranked[..n];
    assert |r| == n && forall i :: 0 <= i < n ==> r[i] == ranked[i];
    forall s: Shape | accept(s) && net.grade(g, s) >= minGrade && (forall i :: 0 <= i < |r| ==> r[i].shape != s)
      ensures n < |ranked| && forall i :: 0 <= i < |r| ==> r[i].grade >= net.grade(g, s)
    {
      var e := Evaluation(s, net.grade(g, s));
      assert e in ranked;
      OutsideTop(ranked, n, e);
    }
  }

  /** An entry of a sorted list that is not among its first `n` entries
      lies after them and grades no higher than any of them. */
  lemma OutsideTop(ranked: seq<Evaluation>, n: nat, e: Evaluation)
    requires SortedByGrade(ranked) && n <= |ranked| && e in ranked
    requires forall i :: 0 <= i < n ==> ranked[i].shape != e.shape
    ensures n < |ranked| && forall i :: 0 <= i < n ==> ranked[i].grade >= e.grade
  {
    var j :| 0 <= j < |ranked| && ranked[j] == e;
    assert j >= n;
  }

  /** The head of a ranking grades at least as high as every qualifying shape,
      and a ranking is empty exactly when no shape qualifies. */
  lemma HeadOfRanked(net: Network, g: Glyph, minGrade: real, accept: Shape -> bool)
    ensures var ranked := Ranked(net, g, minGrade, accept);
      (|ranked| == 0 <==> forall s: Shape :: !(accept(s) && net.grade(g, s) >= minGrade)) &&
      (|ranked| > 0 ==> forall s: Shape :: accept(s) && net.grade(g, s) >= minGrade ==> net.grade(g, s) <= ranked[0].grade)
  {
    var ranked := Ranked(net, g, minGrade, accept);
    if |ranked| > 0 {
      assert ranked[0] in ranked;
      forall s: Shape | accept(s) && net.grade(g, s) >= minGrade
        ensures net.grade(g, s) <= ranked[0].grade
      {
        var e := Evaluation(s, net.grade(g, s));
        assert e in ranked;
      }
    } else {
      forall s: Shape ensures !(accept(s) && net.grade(g, s) >= minGrade) {
        assert Evaluation(s, net.grade(g, s)) !in ranked;
      }
    }
  }

  /** `vote` with explicit conditions and predicate: the best qualifying
      evaluation, or nothing exactly when no shape qualifies. */
  function VoteWithConditions(net: Network, g: Glyph, system: SystemView, minGrade: real,
                              conditions: set<Condition>, pred: Option<Shape -> bool>): (r: Option<Evaluation>)
    ensures r.None? <==> forall s: Shape ::
      !(Admits(net, g, system, conditions, pred, s) && net.grade(g, s) >= minGrade)
    ensures r.Some? ==>
      Admits(net, g, system, conditions, pred, r.value.shape) &&
      r.value.grade == net.grade(g, r.value.shape) && r.value.grade >= minGrade &&
      forall s: Shape :: Admits(net, g, system, conditions, pred, s) && net.grade(g, s) >= minGrade ==>
        net.grade(g, s) <= r.value.grade
  {
    var accept := s => Admits(net, g, system, conditions, pred, s);
    HeadOfRanked(net, g, minGrade, accept);
    Best(Ranked(net, g, minGrade, accept))
  }

  /** `vote(glyph, system, minGrade)`: the best evaluation among the shapes that
      are both allowed and checked. */
  function Vote(net: Network, g: Glyph, system: SystemView, minGrade: real): (r: Option<Evaluation>)
    ensures r.None? <==> forall s: Shape ::
      !(Allowed(g, s) && net.passesChecks(g, system, s) && net.grade(g, s) >= minGrade)
    ensures r.Some? ==>
      Allowed(g, r.value.shape) && net.passesChecks(g, system, r.value.shape) &&
      r.value.grade == net.grade(g, r.value.shape) && r.value.grade >= minGrade &&
      forall s: Shape :: Allowed(g, s) && net.passesChecks(g, system, s) && net.grade(g, s) >= minGrade ==>
        net.grade(g, s) <= r.value.grade
  {
    VoteWithConditions(net, g, system, minGrade, {ALLOWED, CHECKED}, None)
  }

  /** `vote(glyph, system, minGrade, predicate)`: the best evaluation among the
      shapes that are allowed, checked and accepted by the predicate. */
  function VoteMatching(net: Network, g: Glyph, system: SystemView, minGrade: real,
                        pred: Option<Shape -> bool>): (r: Option<Evaluation>)
    ensures r.None? <==> forall s: Shape ::
      !(Allowed(g, s) && net.passesChecks(g, system, s) && Matches(pred, s) && net.grade(g, s) >= minGrade)
    ensures r.Some? ==>
      Allowed(g, r.value.shape) && net.passesChecks(g, system, r.value.shape) && Matches(pred, r.value.shape) &&
      r.value.grade == net.grade(g, r.value.shape) && r.value.grade >= minGrade &&
      forall s: Shape ::
        (Allowed(g, s) && net.passesChecks(g, system, s) && Matches(pred, s) && net.grade(g, s) >= minGrade) ==>
        net.grade(g, s) <= r.value.grade
  {
    VoteWithConditions(net, g, system, minGrade, {ALLOWED, CHECKED}, pred)
  }

  /** `rawVote`: the best evaluation among the shapes that are allowed and
      accepted by the predicate; the specific checks are not consulted. */
  function RawVote(net: Network, g: Glyph, minGrade: real, pred: Option<Shape -> bool>): (r: Option<Evaluation>)
    ensures r.None? <==> forall s: Shape ::
      !(Allowed(g, s) && Matches(pred, s) && net.grade(g, s) >= minGrade)
    ensures r.Some? ==>
      Allowed(g, r.value.shape) && Matches(pred, r.value.shape) &&
      r.value.grade == net.grade(g, r.value.shape) && r.value.grade >= minGrade &&
      forall s: Shape :: Allowed(g, s) && Matches(pred, s) && net.grade(g, s) >= minGrade ==>
        net.grade(g, s) <= r.value.grade
  {
    var accept := s => Allowed(g, s) && Matches(pred, s);
    HeadOfRanked(net, g, minGrade, accept);
    Best(Ranked(net, g, minGrade, accept))
  }

  /** `isBigEnough`: the glyph weighs at least the noise threshold; a glyph
      that does not is NOISE and is not to be evaluated. */
  predicate IsBigEnough(net: Network, g: Glyph)
  {
    g.weight >= net.minWeight
  }

  /** A compound is never noise when one of its constituents is big enough. */
  lemma CompoundOfBigEnough(net: Network, parts: seq<Glyph>, i: nat)
    requires i < |parts| && IsBigEnough(net, parts[i])
    ensures IsBigEnough(net, TransientCompound(parts))
  {
    WeightOfCovers(parts, i);
  }

  /** A vote is the head of the one-element evaluation under the same
      parameters: it is missing exactly when that evaluation is empty. */
  lemma VoteIsFirstEvaluation(net: Network, g: Glyph, system: SystemView, minGrade: real,
                              conditions: set<Condition>, pred: Option<Shape -> bool>)
    ensures var es := Evaluate(net, g, system, 1, minGrade, conditions, pred);
      VoteWithConditions(net, g, system, minGrade, conditions, pred) ==
        if |es| == 0 then None else Some(es[0])
  {
  }

  /** `rawVote` screens for `vote`: when the cheap raw vote finds nothing, the
      gated vote finds nothing either, and otherwise the gated vote never grades
      above the raw one. */
  lemma RawVoteScreensVote(net: Network, g: Glyph, system: SystemView, minGrade: real,
                           pred: Option<Shape -> bool>)
    ensures RawVote(net, g, minGrade, pred).None? ==>
      VoteMatching(net, g, system, minGrade, pred).None?
    ensures RawVote(net, g, minGrade, pred).Some? && VoteMatching(net, g, system, minGrade, pred).Some? ==>
      VoteMatching(net, g, system, minGrade, pred).value.grade <= RawVote(net, g, minGrade, pred).value.grade
  {
  }

  /** Rankings depend only on which shapes the gate lets through. */
  lemma {:induction false} CandidatesAgree(net: Network, g: Glyph, minGrade: real,
                                           a1: Shape -> bool, a2: Shape -> bool, shapes: seq<Shape>)
    requires forall s :: a1(s) == a2(s)
    ensures Candidates(net, g, minGrade, a1, shapes) == Candidates(net, g, minGrade, a2, shapes)
  {
    if |shapes| > 0 {
      CandidatesAgree(net, g, minGrade, a1, a2, shapes[1..]);
    }
  }

  /** `rawVote` is the vote under the ALLOWED condition alone: it never
      consults the specific checks, whatever the system. */
  lemma RawVoteIsAllowedOnlyVote(net: Network, g: Glyph, system: SystemView, minGrade: real,
                                 pred: Option<Shape -> bool>)
    ensures RawVote(net, g, minGrade, pred) ==
      VoteWithConditions(net, g, system, minGrade, {ALLOWED}, pred)
  {
    var a1 := s => Allowed(g, s) && Matches(pred, s);
    var a2 := s => Admits(net, g, system, {ALLOWED}, pred, s);
    CandidatesAgree(net, g, minGrade, a1, a2, AllShapes);
  }
}
