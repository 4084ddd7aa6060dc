/** `DoubleBeamPattern.runPattern`: within one system, a beam seen with a single
    stem is merged with an adjacent beam glyph when the classifier accepts the
    compound of the two. */
module DoubleBeamPattern {
  import opened Wrappers
  import opened Glyphs
  import opened ShapeEvaluator

  /** A system's glyph population, in enumeration order, and the id that the
      next registered glyph receives. */
  datatype Population = Population(glyphs: seq<Glyph>, nextId: nat)

  /** Every registered glyph has an id of its own, below the next one to give. */
  ghost predicate ValidPopulation(p: Population)
  {
    NO_ID < p.nextId &&
    (forall i :: 0 <= i < |p.glyphs| ==> NO_ID < p.glyphs[i].id < p.nextId) &&
    (forall i, j :: 0 <= i < j < |p.glyphs| ==> p.glyphs[i].id != p.glyphs[j].id)
  }

  /** `addGlyph`: the glyph receives the next id and joins the population. */
  function Commit(p: Population, g: Glyph): (q: Population)
    ensures q.glyphs == p.glyphs + [g.(id := p.nextId)] && q.nextId == p.nextId + 1
    ensures ValidPopulation(p) ==> ValidPopulation(q)
  {
    Population(p.glyphs + [g.(id := p.nextId)], p.nextId + 1)
  }

  /** The part of a system this pattern works on: its id and its glyphs. */
  class SystemInfo {
    const id: nat
    var glyphs: seq<Glyph>
    var nextId: nat

    ghost predicate Valid()
      reads this
    {
      ValidPopulation(Population(glyphs, nextId))
    }

    constructor (id: nat)
      ensures Valid() && this.id == id && glyphs == [] && nextId == NO_ID + 1
    {
      this.id := id;
      glyphs := [];
      nextId := NO_ID + 1;
    }

    /** `addGlyph`: registers `g` under a fresh id and returns it so registered. */
    method AddGlyph(g: Glyph) returns (committed: Glyph)
      requires Valid()
      modifies this
      ensures Valid()
      ensures Population(glyphs, nextId) == Commit(old(Population(glyphs, nextId)), g)
      ensures committed == g.(id := old(nextId))
    {
      committed := g.(id := nextId);
      glyphs := glyphs + [committed];
      nextId := nextId + 1;
    }
  }

  /** A beam seen with exactly one stem, whose shape was not set by hand. */
  predicate IsTrigger(g: Glyph)
  {
    g.AssignedShape() == Some(BEAM) && !g.manual && |g.stems| == 1
  }

  /** The trigger's box grown by one pixel on every side. */
  function SearchBox(beam: Glyph): Rect
  {
    Grow(beam.bounds, 1, 1)
  }

  /** Another beam glyph, neither the trigger nor its stem, touching the
      search box. */
  predicate IsCandidate(beam: Glyph, g: Glyph)
    requires IsTrigger(beam)
  {
    g.id != beam.stems[0] && g.id != beam.id &&
    g.AssignedShape() == Some(BEAM) && Intersects(g.bounds, SearchBox(beam))
  }

  /** `Glyphs.lookupGlyphs` with the candidate test, in population order. */
  function BeamCandidates(glyphs: seq<Glyph>, beam: Glyph): (r: seq<Glyph>)
    requires IsTrigger(beam)
    ensures forall g :: g in r <==> g in glyphs && IsCandidate(beam, g)
    ensures |r| <= |glyphs|
  {
    if |glyphs| == 0 then []
    else if IsCandidate(beam, glyphs[0]) then [glyphs[0]] + BeamCandidates(glyphs[1..], beam)
    else BeamCandidates(glyphs[1..], beam)
  }

  /** The transient compound of the trigger and one candidate. */
  function Pair(beam: Glyph, candidate: Glyph): Glyph
  {
    TransientCompound([beam, candidate])
  }

  /** `setEvaluation`: the glyph with its evaluation, hence its shape, assigned. */
  function Evaluated(g: Glyph, e: Evaluation): (r: Glyph)
    ensures r.AssignedShape() == Some(e.shape)
    ensures r.evaluation == Some(e) && r.(evaluation := g.evaluation) == g
  {
    g.(evaluation := Some(e))
  }

  /** The classifier's verdict on a compound within the system as it stands:
      `vote(compound, system, Grades.noMinGrade)` of the shared network, whose
      contract is `ShapeEvaluator.Vote`; see `CommittedVotesAreGated`. The
      system passed is the live one, so a vote may depend on the compounds
      committed earlier in the same run. */
  type Voter = (Population, Glyph) -> Option<Evaluation>

  function VoteFor(vote: Voter, p: Population, beam: Glyph, candidate: Glyph): Option<Evaluation>
  {
    vote(p, Pair(beam, candidate))
  }

  /** The index of the first candidate at or after `from` whose compound
      gets a vote within population `p`; nothing when none does. */
  function FirstAccepted(vote: Voter, p: Population, beam: Glyph, candidates: seq<Glyph>, from: nat): (r: Option<nat>)
    requires from <= |candidates|
    decreases |candidates| - from
    ensures r.None? <==> forall i :: from <= i < |candidates| ==> VoteFor(vote, p, beam, candidates[i]).None?
    ensures r.Some? ==>
      from <= r.value < |candidates| && VoteFor(vote, p, beam, candidates[r.value]).Some? &&
      forall j :: from <= j < r.value ==> VoteFor(vote, p, beam, candidates[j]).None?
  {
    if from == |candidates| then None
    else if VoteFor(vote, p, beam, candidates[from]).Some? then Some(from)
    else FirstAccepted(vote, p, beam, candidates, from + 1)
  }

  /** The compound of the trigger and its first accepted candidate, carrying
      the evaluation it was voted; nothing when no compound gets a vote. */
  function FirstMerge(vote: Voter, p: Population, beam: Glyph, candidates: seq<Glyph>): Option<Glyph>
  {
    match FirstAccepted(vote, p, beam, candidates, 0)
    case Some(i) => Some(Evaluated(Pair(beam, candidates[i]), VoteFor(vote, p, beam, candidates[i]).value))
    case None => None
  }

  /** One pass of the loop body on glyph `beam`: a trigger commits the first
      accepted compound, anything else leaves the population as it is. */
  function Step(vote: Voter, beam: Glyph, p: Population): Population
  {
    if IsTrigger(beam) then
      match FirstMerge(vote, p, beam, BeamCandidates(p.glyphs, beam))
      case Some(c) => Commit(p, c)
      case None => p
    else p
  }

  /** A candidate that gets a vote, with none from `from` on before it getting
      one, is the first accepted from `from`. */
  lemma {:induction false} FirstAcceptedIs(vote: Voter, p: Population, beam: Glyph, candidates: seq<Glyph>,
                                           from: nat, i: nat)
    requires from <= i < |candidates| && VoteFor(vote, p, beam, candidates[i]).Some?
    requires forall j :: from <= j < i ==> VoteFor(vote, p, beam, candidates[j]).None?
    ensures FirstAccepted(vote, p, beam, candidates, from) == Some(i)
    decreases i - from
  {
    if from < i {
      assert VoteFor(vote, p, beam, candidates[from]).None?;
      FirstAcceptedIs(vote, p, beam, candidates, from + 1, i);
    }
  }

  /** A trigger commits the compound of its first candidate that gets a vote,
      carrying that vote. */
  lemma StepCommitsFirstVoted(vote: Voter, t: Glyph, p: Population, i: nat)
    requires IsTrigger(t) && i < |BeamCandidates(p.glyphs, t)|
    requires VoteFor(vote, p, t, BeamCandidates(p.glyphs, t)[i]).Some?
    requires forall j :: 0 <= j < i ==> VoteFor(vote, p, t, BeamCandidates(p.glyphs, t)[j]).None?
    ensures var c := BeamCandidates(p.glyphs, t)[i];
      Step(vote, t, p) == Commit(p, Evaluated(Pair(t, c), vote(p, Pair(t, c)).value))
  {
    FirstAcceptedIs(vote, p, t, BeamCandidates(p.glyphs, t), 0, i);
  }

  /** A trigger none of whose candidates gets a vote commits nothing. */
  lemma StepWithoutVoteKeeps(vote: Voter, t: Glyph, p: Population)
    requires IsTrigger(t)
    requires forall j :: 0 <= j < |BeamCandidates(p.glyphs, t)| ==>
      VoteFor(vote, p, t, BeamCandidates(p.glyphs, t)[j]).None?
    ensures Step(vote, t, p) == p
  {
  }

  /** The loop over `beams` in order, starting from population `p`. */
  function Run(vote: Voter, beams: seq<Glyph>, p: Population): Population
  {
    if |beams| == 0 then p
    else Step(vote, beams[|beams| - 1], Run(vote, beams[..|beams| - 1], p))
  }

  function CountTriggers(beams: seq<Glyph>): nat
  {
    if |beams| == 0 then 0
    else CountTriggers(beams[..|beams| - 1]) + (if IsTrigger(beams[|beams| - 1]) then 1 else 0)
  }

  /** The loop of `runPattern` over a trigger's candidates: each compound is
      put to the vote within population `p`, and the first one voted for is
      returned carrying its evaluation (the `break` once one is found). */
  method FirstVotedCompound(vote: Voter, p: Population, beam: Glyph, candidates: seq<Glyph>)
    returns (merge: Option<Glyph>)
    ensures merge == FirstMerge(vote, p, beam, candidates)
  {
    var i := 0;
    while i < |candidates|
      invariant 0 <= i <= |candidates|
      invariant forall j :: 0 <= j < i ==> VoteFor(vote, p, beam, candidates[j]).None?
    {
      var compound := Pair(beam, candidates[i]);
      var eval := vote(p, compound);
      if eval.Some? {
        assert FirstAccepted(vote, p, beam, candidates, 0) == Some(i);
        return Some(Evaluated(compound, eval.value));
      }
      i := i + 1;
    }
    assert FirstAccepted(vote, p, beam, candidates, 0).None?;
    return None;
  }

  /** The body of the loop of `runPattern` for one glyph: for a trigger, the
      first compound of it and a candidate that gets a vote is registered with
      that evaluation; `merged` tells whether one was. */
  method CheckBeam(system: SystemInfo, vote: Voter, beam: Glyph) returns (merged: bool)
    requires system.Valid()
    modifies system
    ensures system.Valid()
    ensures Population(system.glyphs, system.nextId) == Step(vote, beam, old(Population(system.glyphs, system.nextId)))
    ensures merged <==> |system.glyphs| == |old(system.glyphs)| + 1
    ensures !merged ==> system.glyphs == old(system.glyphs)
  {
    merged := false;
    if !IsTrigger(beam) {
      return;
    }
    var pop := Population(system.glyphs, system.nextId);
    var merge := FirstVotedCompound(vote, pop, beam, BeamCandidates(system.glyphs, beam));
    if merge.Some? {
      var committed := system.AddGlyph(merge.value);
      merged := true;
    }
  }

  /** `runPattern`. The glyphs examined as triggers are those of the
      population on entry; candidates are looked up in the population as it
      stands, compounds committed so far included. Returns how many compounds
      were committed. */
  method RunPattern(system: SystemInfo, vote: Voter) returns (nb: nat)
    requires system.Valid()
    modifies system
    ensures system.Valid()
    ensures Population(system.glyphs, system.nextId) ==
      Run(vote, old(system.glyphs), old(Population(system.glyphs, system.nextId)))
    ensures nb == |system.glyphs| - |old(system.glyphs)|
  {
    nb := 0;
    var beams := system.glyphs;
    ghost var start := Population(system.glyphs, system.nextId);
    var k := 0;
    while k < |beams|
      invariant 0 <= k <= |beams|
      invariant system.Valid()
      invariant Population(system.glyphs, system.nextId) == Run(vote, beams[..k], start)
      invariant |start.glyphs| <= |system.glyphs| && nb == |system.glyphs| - |start.glyphs|
    {
      assert beams[..k + 1][..k] == beams[..k];
      var merged := CheckBeam(system, vote, beams[k]);
      if merged {
        nb := nb + 1;
      }
      k := k + 1;
    }
    assert beams[..k] == beams;
  }

  /** `g` is the compound of a trigger among `beams` and one of its
      candidates registered in `before`, committed with the evaluation it was
      voted within `before`. */
  ghost predicate MergedFrom(vote: Voter, beams: seq<Glyph>, before: Population, g: Glyph)
  {
    exists t, c :: t in beams && c in before.glyphs && IsTrigger(t) && IsCandidate(t, c) &&
      vote(before, Pair(t, c)).Some? && g.(id := NO_ID) == Evaluated(Pair(t, c), vote(before, Pair(t, c)).value)
  }

  /** One pass commits at most one compound, and only for a trigger; it never
      removes or changes a glyph. */
  lemma StepAddsAtMostOne(vote: Voter, beam: Glyph, p: Population)
    ensures var q := Step(vote, beam, p);
      p.glyphs <= q.glyphs && q.nextId == p.nextId + (|q.glyphs| - |p.glyphs|) &&
      |q.glyphs| <= |p.glyphs| + (if IsTrigger(beam) then 1 else 0)
  {
  }

  /** The pattern never removes or changes a glyph: the population on entry is
      a prefix of the result, one id is used per committed compound, and no
      more compounds are committed than there are triggers. */
  lemma {:induction false} RunOnlyAppends(vote: Voter, beams: seq<Glyph>, p: Population)
    ensures var q := Run(vote, beams, p);
      p.glyphs <= q.glyphs && q.nextId == p.nextId + (|q.glyphs| - |p.glyphs|) &&
      |q.glyphs| - |p.glyphs| <= CountTriggers(beams)
  {
    if |beams| > 0 {
      var init := beams[..|beams| - 1];
      RunOnlyAppends(vote, init, p);
      StepAddsAtMostOne(vote, beams[|beams| - 1], Run(vote, init, p));
    }
  }

  /** Every glyph the pattern adds is a compound of a trigger and one of its
      candidates that the classifier voted for within the population as it
      stood just before (the glyphs ahead of it, with its own id next to
      give), carrying that vote; the added glyphs receive consecutive fresh
      ids. */
  lemma {:induction false} RunCommitsVotedCompounds(vote: Voter, beams: seq<Glyph>, p: Population)
    ensures var q := Run(vote, beams, p);
      forall m :: |p.glyphs| <= m < |q.glyphs| ==>
        q.glyphs[m].id == p.nextId + (m - |p.glyphs|) &&
        MergedFrom(vote, beams, Population(q.glyphs[..m], q.glyphs[m].id), q.glyphs[m])
  {
    if |beams| > 0 {
      var init := beams[..|beams| - 1];
      var t := beams[|beams| - 1];
      var mid := Run(vote, init, p);
      var q := Run(vote, beams, p);
      assert init <= beams;
      RunCommitsVotedCompounds(vote, init, p);
      RunOnlyAppends(vote, init, p);
      StepAddsAtMostOne(vote, t, mid);
      forall m | |p.glyphs| <= m < |q.glyphs|
        ensures q.glyphs[m].id == p.nextId + (m - |p.glyphs|) &&
          MergedFrom(vote, beams, Population(q.glyphs[..m], q.glyphs[m].id), q.glyphs[m])
      {
        if m < |mid.glyphs| {
          assert q.glyphs[m] == mid.glyphs[m];
          assert q.glyphs[..m] == mid.glyphs[..m];
          MergedFromMore(vote, init, beams, Population(q.glyphs[..m], q.glyphs[m].id), q.glyphs[m]);
        } else {
          assert q.glyphs[..m] == mid.glyphs;
          StepCommitIsMerged(vote, beams, t, mid);
        }
      }
    }
  }

  /** A compound merged from a trigger among `init` is merged from one among
      any `beams` that extends `init`. */
  lemma MergedFromMore(vote: Voter, init: seq<Glyph>, beams: seq<Glyph>, before: Population, g: Glyph)
    requires init <= beams && MergedFrom(vote, init, before, g)
    ensures MergedFrom(vote, beams, before, g)
  {
    var t, c :| t in init && c in before.glyphs && IsTrigger(t) && IsCandidate(t, c) &&
      vote(before, Pair(t, c)).Some? && g.(id := NO_ID) == Evaluated(Pair(t, c), vote(before, Pair(t, c)).value);
    assert t in beams;
  }

  /** The compound a pass for `t` commits is merged from `t` and one of its
      candidates within the population before the pass, under its next id. */
  lemma StepCommitIsMerged(vote: Voter, beams: seq<Glyph>, t: Glyph, p: Population)
    requires t in beams
    ensures var q := Step(vote, t, p);
      |q.glyphs| > |p.glyphs| ==>
        q.glyphs[|p.glyphs|].id == p.nextId && MergedFrom(vote, beams, p, q.glyphs[|p.glyphs|])
  {
    var q := Step(vote, t, p);
    if |q.glyphs| > |p.glyphs| {
      var cands := BeamCandidates(p.glyphs, t);
      var i := FirstAccepted(vote, p, t, cands, 0).value;
      var c := cands[i];
      assert c in cands;
      assert c in p.glyphs;
    }
  }

  /** The shared network's `vote` as the pattern's oracle, within system
      `systemId` holding the population's glyphs. */
  function NetworkVoter(net: Network, systemId: nat, minGrade: real): Voter
  {
    (p: Population, g: Glyph) => Vote(net, g, SystemView(systemId, p.glyphs), minGrade)
  }

  /** With the shared network as the oracle, every compound the pattern
      commits carries an evaluation that reaches the minimum grade, whose shape
      the compound allows and whose checks it passes within the system as it
      stood when it was voted: holding exactly the glyphs ahead of it. */
  lemma CommittedVotesAreGated(net: Network, systemId: nat, minGrade: real, beams: seq<Glyph>, p: Population, m: nat)
    requires |p.glyphs| <= m < |Run(NetworkVoter(net, systemId, minGrade), beams, p).glyphs|
    ensures var q := Run(NetworkVoter(net, systemId, minGrade), beams, p);
      var g := q.glyphs[m];
      g.evaluation.Some? && g.evaluation.value.grade >= minGrade &&
      exists t, c :: t in beams && IsTrigger(t) && IsCandidate(t, c) && g.parts == [t, c] &&
        Allowed(Pair(t, c), g.evaluation.value.shape) &&
        net.passesChecks(Pair(t, c), SystemView(systemId, q.glyphs[..m]), g.evaluation.value.shape)
  {
    var vote := NetworkVoter(net, systemId, minGrade);
    var q := Run(vote, beams, p);
    RunCommitsVotedCompounds(vote, beams, p);
    var before := Population(q.glyphs[..m], q.glyphs[m].id);
    var t, c :| t in beams && c in before.glyphs && IsTrigger(t) && IsCandidate(t, c) &&
      vote(before, Pair(t, c)).Some? &&
      q.glyphs[m].(id := NO_ID) == Evaluated(Pair(t, c), vote(before, Pair(t, c)).value);
    var e := vote(before, Pair(t, c)).value;
    assert vote(before, Pair(t, c)) == Vote(net, Pair(t, c), SystemView(systemId, q.glyphs[..m]), minGrade);
    assert q.glyphs[m].parts == [t, c] && q.glyphs[m].evaluation == Some(e);
    assert Allowed(Pair(t, c), e.shape) && net.passesChecks(Pair(t, c), SystemView(systemId, q.glyphs[..m]), e.shape);
  }
}
