/** `SpinnerGlyphModel`: a spinner over the ids of the glyphs of a nest,
    restricted by an optional predicate, with a current id that only
    `setValue` changes, and only to an id it can vouch for. */
module SpinnerGlyphModel {
  import opened Wrappers
  import opened Glyphs

  /** The spinner's "no glyph" value. */
  const NO_VALUE: int := 0

  /** A glyph nest: its glyphs in the order `getAllGlyphs` lists them. */
  class Nest {
    var glyphs: seq<Glyph>

    constructor (glyphs: seq<Glyph>)
      ensures this.glyphs == glyphs
    {
      this.glyphs := glyphs;
    }
  }

  /** The optional predicate lets a glyph through (`null` lets all through). */
  predicate Accepts(pred: Option<Glyph -> bool>, g: Glyph)
  {
    pred.None? || pred.value(g)
  }

  /** The first index at or after `from` of a glyph with id `id`. */
  function IndexOfId(gs: seq<Glyph>, id: int, from: nat): (r: Option<nat>)
    requires from <= |gs|
    decreases |gs| - from
    ensures r.None? <==> forall k :: from <= k < |gs| ==> gs[k].id != id
    ensures r.Some? ==> (from <= r.value < |gs| && gs[r.value].id == id &&
      forall k :: from <= k < r.value ==> gs[k].id != id)
  {
    if from == |gs| then None
    else if gs[from].id == id then Some(from)
    else IndexOfId(gs, id, from + 1)
  }

  /** The first index at or after `from` of an accepted glyph. */
  function FirstAccepted(gs: seq<Glyph>, pred: Option<Glyph -> bool>, from: nat): (r: Option<nat>)
    requires from <= |gs|
    decreases |gs| - from
    ensures r.None? <==> forall k :: from <= k < |gs| ==> !Accepts(pred, gs[k])
    ensures r.Some? ==> (from <= r.value < |gs| && Accepts(pred, gs[r.value]) &&
      forall k :: from <= k < r.value ==> !Accepts(pred, gs[k]))
  {
    if from == |gs| then None
    else if Accepts(pred, gs[from]) then Some(from)
    else FirstAccepted(gs, pred, from + 1)
  }

  /** The last index before `upto` of an accepted glyph. */
  function LastAccepted(gs: seq<Glyph>, pred: Option<Glyph -> bool>, upto: nat): (r: Option<nat>)
    requires upto <= |gs|
    ensures r.None? <==> forall k :: 0 <= k < upto ==> !Accepts(pred, gs[k])
    ensures r.Some? ==> (r.value < upto && Accepts(pred, gs[r.value]) &&
      forall k :: r.value < k < upto ==> !Accepts(pred, gs[k]))
  {
    if upto == 0 then None
    else if Accepts(pred, gs[upto - 1]) then Some(upto - 1)
    else LastAccepted(gs, pred, upto - 1)
  }

  /** `getNextValue`: from no value, the id of the first accepted glyph;
      otherwise the id of the first accepted glyph after the first glyph
      carrying the current id; nothing if there is none or the current id is
      not in the nest. */
  function NextValue(gs: seq<Glyph>, pred: Option<Glyph -> bool>, cur: int): (r: Option<int>)
    ensures cur == NO_VALUE ==>
      (r.None? <==> forall k :: 0 <= k < |gs| ==> !Accepts(pred, gs[k]))
    ensures cur == NO_VALUE && r.Some? ==> exists k :: (0 <= k < |gs| &&
      Accepts(pred, gs[k]) && gs[k].id == r.value &&
      forall j :: 0 <= j < k ==> !Accepts(pred, gs[j]))
    ensures cur != NO_VALUE ==> (r.None? <==> forall i :: (0 <= i < |gs| && gs[i].id == cur &&
      (forall j :: 0 <= j < i ==> gs[j].id != cur)) ==> forall k :: i < k < |gs| ==> !Accepts(pred, gs[k]))
    ensures cur != NO_VALUE && r.Some? ==> exists i, k :: (0 <= i < k < |gs| &&
      gs[i].id == cur && (forall j :: 0 <= j < i ==> gs[j].id != cur) &&
      Accepts(pred, gs[k]) && gs[k].id == r.value &&
      forall j :: i < j < k ==> !Accepts(pred, gs[j]))
  {
    if cur == NO_VALUE then
      var k := FirstAccepted(gs, pred, 0);
      if k.Some? then Some(gs[k.value].id as int) else None
    else
      var i := IndexOfId(gs, cur, 0);
      if i.None? then None
      else
        var k := FirstAccepted(gs, pred, i.value + 1);
        if k.Some? then Some(gs[k.value].id as int) else None
  }

  /** `getPreviousValue`: from no value, no value; otherwise the id of the
      last accepted glyph before the first glyph carrying the current id, no
      value if there is none, and nothing if the current id is not in the nest. */
  function PreviousValue(gs: seq<Glyph>, pred: Option<Glyph -> bool>, cur: int): (r: Option<int>)
    ensures cur == NO_VALUE ==> r == Some(NO_VALUE)
    ensures cur != NO_VALUE ==> (r.None? <==> forall k :: 0 <= k < |gs| ==> gs[k].id != cur)
    ensures cur != NO_VALUE && r.Some? ==> exists i :: (0 <= i < |gs| &&
      gs[i].id == cur && (forall j :: 0 <= j < i ==> gs[j].id != cur) &&
      ((r.value == NO_VALUE && forall j :: 0 <= j < i ==> !Accepts(pred, gs[j])) ||
       (exists k :: (0 <= k < i && Accepts(pred, gs[k]) && gs[k].id == r.value &&
          forall j :: k < j < i ==> !Accepts(pred, gs[j])))))
  {
    if cur == NO_VALUE then Some(NO_VALUE)
    else
      var i := IndexOfId(gs, cur, 0);
      if i.None? then None
      else
        var k := LastAccepted(gs, pred, i.value);
        if k.Some? then Some(gs[k.value].id as int) else Some(NO_VALUE)
  }

  /** `setValue` takes `id`: always for no value; otherwise only when the nest
      holds a glyph with that id (`getGlyph`, the first one listed) and the
      predicate accepts that glyph. */
  predicate Settable(gs: seq<Glyph>, pred: Option<Glyph -> bool>, id: int)
  {
    id == NO_VALUE ||
    (IndexOfId(gs, id, 0).Some? && Accepts(pred, gs[IndexOfId(gs, id, 0).value]))
  }

  /** Glyph ids in a nest are unique and never the "no glyph" value. */
  predicate UniqueIds(gs: seq<Glyph>)
  {
    (forall k :: 0 <= k < |gs| ==> gs[k].id != NO_VALUE) &&
    (forall i, j :: 0 <= i < j < |gs| ==> gs[i].id != gs[j].id)
  }

  /** With unique ids, the glyph found by id is the one at index `k`. */
  lemma IndexOfUniqueId(gs: seq<Glyph>, k: nat)
    requires UniqueIds(gs) && k < |gs|
    ensures IndexOfId(gs, gs[k].id, 0) == Some(k)
  {
  }

  /** An accepted glyph with none accepted after it before `upto` is the last
      accepted one before `upto`. */
  lemma {:induction false} LastAcceptedIs(gs: seq<Glyph>, pred: Option<Glyph -> bool>, i: nat, upto: nat)
    requires i < upto <= |gs| && Accepts(pred, gs[i])
    requires forall j :: i < j < upto ==> !Accepts(pred, gs[j])
    ensures LastAccepted(gs, pred, upto) == Some(i)
    decreases upto
  {
    if upto - 1 != i {
      LastAcceptedIs(gs, pred, i, upto - 1);
    }
  }

  /** An accepted glyph with none accepted before it from `from` on is the
      first accepted one from `from`. */
  lemma {:induction false} FirstAcceptedIs(gs: seq<Glyph>, pred: Option<Glyph -> bool>, from: nat, k: nat)
    requires from <= k < |gs| && Accepts(pred, gs[k])
    requires forall j :: from <= j < k ==> !Accepts(pred, gs[j])
    ensures FirstAccepted(gs, pred, from) == Some(k)
    decreases k - from
  {
    if from != k {
      FirstAcceptedIs(gs, pred, from + 1, k);
    }
  }

  /** From the glyph at `p`, the next value is the id of the first accepted
      glyph after it. */
  lemma NextFromIndex(gs: seq<Glyph>, pred: Option<Glyph -> bool>, p: nat, i: nat)
    requires UniqueIds(gs) && p < i < |gs| && Accepts(pred, gs[i])
    requires forall j :: p < j < i ==> !Accepts(pred, gs[j])
    ensures NextValue(gs, pred, gs[p].id as int) == Some(gs[i].id as int)
  {
    IndexOfUniqueId(gs, p);
    FirstAcceptedIs(gs, pred, p + 1, i);
  }

  /** From no value, the next value is the id of the first accepted glyph. */
  lemma NextFromStart(gs: seq<Glyph>, pred: Option<Glyph -> bool>, i: nat)
    requires i < |gs| && Accepts(pred, gs[i])
    requires forall j :: 0 <= j < i ==> !Accepts(pred, gs[j])
    ensures NextValue(gs, pred, NO_VALUE) == Some(gs[i].id as int)
  {
    FirstAcceptedIs(gs, pred, 0, i);
  }

  /** From the glyph at `k`, the previous value is the id of the last accepted
      glyph before it, or no value when none is accepted before it. */
  lemma PreviousFromIndex(gs: seq<Glyph>, pred: Option<Glyph -> bool>, k: nat)
    requires UniqueIds(gs) && k < |gs|
    ensures PreviousValue(gs, pred, gs[k].id as int) ==
      (match LastAccepted(gs, pred, k)
       case Some(i) => Some(gs[i].id as int)
       case None => Some(NO_VALUE))
  {
    IndexOfUniqueId(gs, k);
  }

  /** Stepping forward then back returns to an accepted current glyph (or to
      no value when starting from no value). */
  lemma NextThenPrevious(gs: seq<Glyph>, pred: Option<Glyph -> bool>, cur: int)
    requires UniqueIds(gs)
    requires cur == NO_VALUE || Settable(gs, pred, cur)
    requires NextValue(gs, pred, cur).Some?
    ensures PreviousValue(gs, pred, NextValue(gs, pred, cur).value) == Some(cur)
  {
    if cur == NO_VALUE {
      var k := FirstAccepted(gs, pred, 0).value;
      assert NextValue(gs, pred, cur) == Some(gs[k].id as int);
      PreviousFromIndex(gs, pred, k);
      assert LastAccepted(gs, pred, k).None?;
    } else {
      var i := IndexOfId(gs, cur, 0).value;
      var k := FirstAccepted(gs, pred, i + 1).value;
      assert NextValue(gs, pred, cur) == Some(gs[k].id as int);
      PreviousFromIndex(gs, pred, k);
      LastAcceptedIs(gs, pred, i, k);
    }
  }

  /** Stepping back then forward returns to an accepted current glyph. */
  lemma PreviousThenNext(gs: seq<Glyph>, pred: Option<Glyph -> bool>, cur: int)
    requires UniqueIds(gs)
    requires cur != NO_VALUE && Settable(gs, pred, cur)
    ensures PreviousValue(gs, pred, cur).Some?
    ensures NextValue(gs, pred, PreviousValue(gs, pred, cur).value) == Some(cur)
  {
    var i := IndexOfId(gs, cur, 0).value;
    var prev := LastAccepted(gs, pred, i);
    if prev.Some? {
      assert PreviousValue(gs, pred, cur) == Some(gs[prev.value].id as int);
      NextFromIndex(gs, pred, prev.value, i);
    } else {
      assert PreviousValue(gs, pred, cur) == Some(NO_VALUE);
      NextFromStart(gs, pred, i);
    }
  }

  /** Whatever the spinner offers next or previous, `setValue` takes. */
  lemma OfferedValuesAreSettable(gs: seq<Glyph>, pred: Option<Glyph -> bool>, cur: int)
    requires UniqueIds(gs)
    ensures NextValue(gs, pred, cur).Some? ==>
      Settable(gs, pred, NextValue(gs, pred, cur).value)
    ensures PreviousValue(gs, pred, cur).Some? ==>
      Settable(gs, pred, PreviousValue(gs, pred, cur).value)
  {
    var next := NextValue(gs, pred, cur);
    if next.Some? {
      var k :| 0 <= k < |gs| && Accepts(pred, gs[k]) && gs[k].id == next.value;
      IndexOfUniqueId(gs, k);
    }
    var prev := PreviousValue(gs, pred, cur);
    if prev.Some? && prev.value != NO_VALUE {
      var i := IndexOfId(gs, cur, 0).value;
      var k := LastAccepted(gs, pred, i).value;
      IndexOfUniqueId(gs, k);
    }
  }

  /** The first loop of `getNextValue`: the id of the first accepted glyph. */
  method ScanFirst(gs: seq<Glyph>, pred: Option<Glyph -> bool>) returns (r: Option<int>)
    ensures r == NextValue(gs, pred, NO_VALUE)
  {
    var i := 0;
    while i < |gs|
      invariant 0 <= i <= |gs|
      invariant FirstAccepted(gs, pred, i) == FirstAccepted(gs, pred, 0)
    {
      if Accepts(pred, gs[i]) {
        return Some(gs[i].id as int);
      }
      i := i + 1;
    }
    return None;
  }

  /** Once the first glyph carrying `cur` is at `p`, an accepted glyph at `i`
      with none accepted between them gives the next value. */
  lemma NextAfterIs(gs: seq<Glyph>, pred: Option<Glyph -> bool>, cur: int, p: nat, i: nat)
    requires cur != NO_VALUE && IndexOfId(gs, cur, 0) == Some(p)
    requires p < i < |gs| && Accepts(pred, gs[i])
    requires forall j :: p < j < i ==> !Accepts(pred, gs[j])
    ensures NextValue(gs, pred, cur) == Some(gs[i].id as int)
  {
    FirstAcceptedIs(gs, pred, p + 1, i);
  }

  /** The second loop of `getNextValue`: once the glyph with id `cur` is
      `found`, the id of the first accepted glyph after it. */
  method ScanAfter(gs: seq<Glyph>, pred: Option<Glyph -> bool>, cur: int) returns (r: Option<int>)
    requires cur != NO_VALUE
    ensures r == NextValue(gs, pred, cur)
  {
    ghost var at := IndexOfId(gs, cur, 0);
    var found := false;
    var i := 0;
    while i < |gs|
      invariant 0 <= i <= |gs|
      invariant !found ==> IndexOfId(gs, cur, i) == at
      invariant found ==> (at.Some? && at.value < i &&
        forall j :: at.value < j < i ==> !Accepts(pred, gs[j]))
    {
      if !found {
        if gs[i].id == cur {
          assert IndexOfId(gs, cur, i) == Some(i);
          found := true;
        } else {
          assert IndexOfId(gs, cur, i) == IndexOfId(gs, cur, i + 1);
        }
      } else if Accepts(pred, gs[i]) {
        NextAfterIs(gs, pred, cur, at.value, i);
        return Some(gs[i].id as int);
      }
      i := i + 1;
    }
    assert !found ==> at.None?;
    assert found ==> FirstAccepted(gs, pred, at.value + 1).None?;
    return None;
  }

  class SpinnerGlyphModel {
    const nest: Nest
    const pred: Option<Glyph -> bool>
    var currentId: int

    /** A new model starts at no value. */
    constructor (nest: Nest, pred: Option<Glyph -> bool>)
      ensures this.nest == nest && this.pred == pred && currentId == NO_VALUE
    {
      this.nest := nest;
      this.pred := pred;
      currentId := NO_VALUE;
    }

    /** The constructor's argument check: a missing nest is refused. */
    static method Create(nest: Nest?, pred: Option<Glyph -> bool>) returns (m: Option<SpinnerGlyphModel>)
      ensures m.None? <==> nest == null
      ensures m.Some? ==> (fresh(m.value) && m.value.nest == nest &&
        m.value.pred == pred && m.value.currentId == NO_VALUE)
    {
      if nest == null {
        return None;
      }
      var model := new SpinnerGlyphModel(nest, pred);
      return Some(model);
    }

    /** `getNextValue`, scanning the nest as it stands. */
    method GetNextValue() returns (r: Option<int>)
      ensures r == NextValue(nest.glyphs, pred, currentId)
    {
      if currentId == NO_VALUE {
        r := ScanFirst(nest.glyphs, pred);
      } else {
        r := ScanAfter(nest.glyphs, pred, currentId);
      }
    }

    /** `getPreviousValue`, scanning the nest as it stands and remembering the
        last accepted glyph met so far. */
    method GetPreviousValue() returns (r: Option<int>)
      ensures r == PreviousValue(nest.glyphs, pred, currentId)
    {
      var cur := currentId;
      if cur == NO_VALUE {
        return Some(NO_VALUE);
      }
      var gs := nest.glyphs;
      var prevGlyph: Option<Glyph> := None;
      var i := 0;
      while i < |gs|
        invariant 0 <= i <= |gs|
        invariant IndexOfId(gs, cur, i) == IndexOfId(gs, cur, 0)
        invariant prevGlyph == match LastAccepted(gs, pred, i)
          case None => None
          case Some(k) => Some(gs[k])
      {
        var glyph := gs[i];
        if glyph.id == cur {
          return if prevGlyph.Some? then Some(prevGlyph.value.id as int) else Some(NO_VALUE);
        }
        if Accepts(pred, glyph) {
          prevGlyph := Some(glyph);
        }
        i := i + 1;
      }
      return None;
    }

    /** `getValue`. */
    method GetValue() returns (v: int)
      ensures v == currentId
    {
      v := currentId;
    }

    /** `setValue`: the current id becomes `id` when `id` is settable, and
        stays as it was otherwise. */
    method SetValue(id: int)
      modifies this
      ensures currentId == if Settable(nest.glyphs, pred, id) then id else old(currentId)
    {
      var ok := false;
      if id == NO_VALUE {
        ok := true;
      } else {
        var gs := nest.glyphs;
        var k := IndexOfId(gs, id, 0);
        if k.Some? {
          if pred.Some? {
            ok := pred.value(gs[k.value]);
          } else {
            ok := true;
          }
        }
      }
      if ok {
        currentId := id;
      }
    }
  }
}
