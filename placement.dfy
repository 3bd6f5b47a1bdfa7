/**
 * The fill action of the optimised plugin (`fill_zones_with_vias_optimized`): index the vias
 * already on the board, generate candidates for every selected zone, keep the candidates that
 * pass the fast DRC check against the indexed vias, then create a via at each kept position.
 * The progress dialog is an oracle `proceed(k)` that says whether the user let step k go on.
 */
module Placement {
  import opened Wrappers
  import opened Geometry
  import opened Seqs
  import opened SpatialIndexing
  import opened Candidates

  /** `int(via_size * 1.5)`: the cell size of the index; between via_size and 2 * via_size. */
  function IndexCellSize(viaSize: int): (g: int)
    ensures viaSize > 0 ==> viaSize <= g < 2 * viaSize
  {
    TruncDiv(3 * viaSize, 2)
  }

  /** `via_size * 1.1` as the exact rational (11 * via_size) / 10. */
  function DrcRadiusNum(viaSize: int): int { 11 * viaSize }
  const DrcRadiusDen: int := 10

  /** No stored via lies within the DRC radius of `pos`. */
  predicate DrcClear<V>(s: seq<Entry<V>>, pos: Point, viaSize: int)
  {
    forall i :: 0 <= i < |s| ==> !WithinRadius(s[i].pos, pos, DrcRadiusNum(viaSize), DrcRadiusDen)
  }

  /** `check_drc_fast`: true exactly when no indexed via lies within 1.1 x via_size of `pos`. */
  method CheckDrcFast<V(==)>(index: SpatialIndex<V>, pos: Point, viaSize: int) returns (ok: bool)
    requires index.Valid()
    ensures ok <==> DrcClear(index.Contents, pos, viaSize)
  {
    var nearby := index.NearbyVias(pos, DrcRadiusNum(viaSize), DrcRadiusDen);
    ok := |nearby| == 0;
    if ok {
      assert |multiset(NearbyIn(index.Contents, pos, DrcRadiusNum(viaSize), DrcRadiusDen))| == 0;
      forall i | 0 <= i < |index.Contents|
        ensures !WithinRadius(index.Contents[i].pos, pos, DrcRadiusNum(viaSize), DrcRadiusDen)
      {
        var e := index.Contents[i];
        NearbyInMember(index.Contents, pos, DrcRadiusNum(viaSize), DrcRadiusDen, Nearby(e.pos, e.via, DistSq(e.pos, pos)));
      }
    } else {
      assert nearby[0] in nearby;
      var e := Entry(nearby[0].pos, nearby[0].via);
      ghost var i :| 0 <= i < |index.Contents| && index.Contents[i] == e;
    }
  }

  /**
   * The first consulted step in [from, n) at which the user cancels: the dialog is consulted
   * at steps k with k % period == 0.
   */
  function FirstHalt(proceed: nat -> bool, period: nat, from: nat, n: nat): (r: Option<nat>)
    requires period > 0
    decreases n - from
    ensures r.Some? ==> from <= r.value < n && r.value % period == 0 && !proceed(r.value)
    ensures r.Some? ==> forall k: nat :: from <= k < r.value && k % period == 0 ==> proceed(k)
    ensures r.None? ==> forall k: nat :: from <= k < n && k % period == 0 ==> proceed(k)
  {
    if from >= n then None
    else if from % period == 0 && !proceed(from) then Some(from)
    else FirstHalt(proceed, period, from + 1, n)
  }

  /** A step at which the user is not asked, or lets the run go on, does not stop it. */
  lemma {:induction false} FirstHaltStep(proceed: nat -> bool, period: nat, from: nat, n: nat)
    requires period > 0 && from < n && !(from % period == 0 && !proceed(from))
    ensures FirstHalt(proceed, period, from, n) == FirstHalt(proceed, period, from + 1, n)
  {
  }

  /** The candidates that pass the DRC check against the vias in `s`, in candidate order. */
  function ValidPositions<V>(s: seq<Entry<V>>, candidates: seq<Point>, viaSize: int): seq<Point>
  {
    Filter(candidates, p => DrcClear(s, p, viaSize))
  }

  datatype FilterOutcome = FilterCancelled | Filtered(valid: seq<Point>)

  /** The filter phase: cancelled if the user stops it, otherwise every valid position. */
  function FilterSpec<V>(s: seq<Entry<V>>, candidates: seq<Point>, viaSize: int, proceed: nat -> bool): FilterOutcome
  {
    if FirstHalt(proceed, 10, 0, |candidates|).Some? then FilterCancelled
    else Filtered(ValidPositions(s, candidates, viaSize))
  }

  /**
   * The filter loop: every tenth candidate consults the dialog; each candidate is checked
   * against the index as it was before the loop (accepted candidates are not added to it).
   * The method has no `modifies` clause, so the index is left unchanged.
   */
  method FilterCandidates<V(==)>(index: SpatialIndex<V>, candidates: seq<Point>, viaSize: int, proceed: nat -> bool)
    returns (outcome: FilterOutcome)
    requires index.Valid()
    ensures outcome == FilterSpec(index.Contents, candidates, viaSize, proceed)
  {
    ghost var contents := index.Contents;
    var valid := [];
    var processed := 0;
    while processed < |candidates|
      invariant 0 <= processed <= |candidates|
      invariant FirstHalt(proceed, 10, 0, |candidates|) == FirstHalt(proceed, 10, processed, |candidates|)
      invariant valid == ValidPositions(contents, candidates[..processed], viaSize)
    {
      if processed % 10 == 0 && !proceed(processed) {
        return FilterCancelled;
      }
      var pos := candidates[processed];
      var ok := CheckDrcFast(index, pos, viaSize);
      FilterStep(candidates, processed, p => DrcClear(contents, p, viaSize));
      if ok {
        valid := valid + [pos];
      }
      processed := processed + 1;
    }
    assert candidates[..processed] == candidates;
    outcome := Filtered(valid);
  }

  /**
   * What the filter phase keeps: exactly the candidates clear of every pre-existing via, in
   * candidate order.
   */
  lemma {:induction false} ValidPositionsMeaning<V>(s: seq<Entry<V>>, candidates: seq<Point>, viaSize: int, p: Point)
    ensures p in ValidPositions(s, candidates, viaSize) <==> p in candidates && DrcClear(s, p, viaSize)
    ensures Subsequence(ValidPositions(s, candidates, viaSize), candidates)
  {
    FilterMember(candidates, q => DrcClear(s, q, viaSize), p);
    FilterIsSubsequence(candidates, q => DrcClear(s, q, viaSize));
  }

  /**
   * Accepted candidates are never checked against each other: two candidates at the very same
   * spot are both kept when the spot is clear of the existing vias.
   */
  lemma {:induction false} CoincidentCandidatesBothKept<V>(s: seq<Entry<V>>, p: Point, viaSize: int)
    requires DrcClear(s, p, viaSize)
    ensures ValidPositions(s, [p, p], viaSize) == [p, p]
  {
    FilterAll([p, p], q => DrcClear(s, q, viaSize));
  }

  /** The entries the creation loop adds for valid[0 .. count): one per successful `add_via`. */
  function CreatedEntries<V>(valid: seq<Point>, made: nat -> Option<V>, count: nat): seq<Entry<V>>
    requires count <= |valid|
  {
    if count == 0 then []
    else CreatedEntries(valid, made, count - 1) +
         (match made(count - 1) case Some(v) => [Entry(valid[count - 1], v)] case None => [])
  }

  /**
   * The vias the creation loop adds are those of the attempts that succeeded, in order:
   * at most one per attempted position, each at its position.
   */
  lemma {:induction false} CreatedEntriesMeaning<V>(valid: seq<Point>, made: nat -> Option<V>, count: nat, e: Entry<V>)
    requires count <= |valid|
    ensures |CreatedEntries(valid, made, count)| <= count
    ensures e in CreatedEntries(valid, made, count) <==>
            exists i :: 0 <= i < count && valid[i] == e.pos && made(i) == Some(e.via)
  {
    if count > 0 {
      CreatedEntriesMeaning(valid, made, count - 1, e);
      var i := count - 1;
      if made(i) == Some(e.via) && valid[i] == e.pos {
        assert e == Entry(valid[i], e.via);
      }
    }
  }

  /** How many positions the creation loop attempts before it stops. */
  function CreationStop(valid: seq<Point>, proceed: nat -> bool): (done: nat)
    ensures done <= |valid|
  {
    match FirstHalt(proceed, 5, 0, |valid|)
    case Some(k) => k
    case None => |valid|
  }

  /**
   * The creation loop: every fifth position consults the dialog; each successful `add_via`
   * is also added to the index.
   */
  /** One step of the creation loop, in terms of the specification functions. */
  lemma {:induction false} CreationStep<V>(valid: seq<Point>, made: nat -> Option<V>, proceed: nat -> bool, i: nat)
    requires i < |valid|
    requires FirstHalt(proceed, 5, 0, |valid|) == FirstHalt(proceed, 5, i, |valid|)
    ensures i % 5 == 0 && !proceed(i) ==>
              FirstHalt(proceed, 5, 0, |valid|) == Some(i) && CreationStop(valid, proceed) == i
    ensures !(i % 5 == 0 && !proceed(i)) ==>
              FirstHalt(proceed, 5, 0, |valid|) == FirstHalt(proceed, 5, i + 1, |valid|)
    ensures CreatedEntries(valid, made, i + 1) == CreatedEntries(valid, made, i) +
              (if made(i).Some? then [Entry(valid[i], made(i).value)] else [])
  {
    if !(i % 5 == 0 && !proceed(i)) {
      FirstHaltStep(proceed, 5, i, |valid|);
    }
  }

  method CreateVias<V(==)>(index: SpatialIndex<V>, valid: seq<Point>, made: nat -> Option<V>, proceed: nat -> bool)
    returns (added: seq<Entry<V>>, cancelled: bool)
    requires index.Valid()
    modifies index
    ensures index.Valid()
    ensures added == CreatedEntries(valid, made, CreationStop(valid, proceed))
    ensures cancelled <==> FirstHalt(proceed, 5, 0, |valid|).Some?
    ensures index.Contents == old(index.Contents) + added
  {
    added := [];
    ghost var before := index.Contents;
    var i := 0;
    while i < |valid|
      invariant 0 <= i <= |valid|
      invariant FirstHalt(proceed, 5, 0, |valid|) == FirstHalt(proceed, 5, i, |valid|)
      invariant index.Valid()
      invariant added == CreatedEntries(valid, made, i)
      invariant index.Contents == before + added
    {
      CreationStep(valid, made, proceed, i);
      if i % 5 == 0 && !proceed(i) {
        return added, true;
      }
      var pos := valid[i];
      var m := made(i);
      if m.Some? {
        index.AddVia(pos, m.value);
        added := added + [Entry(pos, m.value)];
      }
      i := i + 1;
    }
    assert FirstHalt(proceed, 5, i, |valid|) == None;
    cancelled := false;
  }

  /** Every selected zone's candidates, zone after zone. */
  function AllCandidates(zones: seq<Box>, pattern: Pattern, h: int, v: int, hOff: int, vOff: int, ec: int): seq<Point>
    requires forall z :: z in zones ==> CandidatesDefined(z, pattern, h, v, hOff, vOff, ec)
  {
    if zones == [] then []
    else AllCandidates(zones[..|zones| - 1], pattern, h, v, hOff, vOff, ec) +
         CandidatesFor(zones[|zones| - 1], pattern, h, v, hOff, vOff, ec)
  }

  /** Every candidate of every zone lies in that zone's inset bounding box. */
  lemma {:induction false} AllCandidatesInside(zones: seq<Box>, pattern: Pattern, h: int, v: int, hOff: int, vOff: int, ec: int, p: Point)
    requires forall z :: z in zones ==> CandidatesDefined(z, pattern, h, v, hOff, vOff, ec)
    requires p in AllCandidates(zones, pattern, h, v, hOff, vOff, ec)
    ensures exists z :: z in zones && InsetContains(z, p, ec)
  {
    var front := zones[..|zones| - 1];
    var last := zones[|zones| - 1];
    if p in AllCandidates(front, pattern, h, v, hOff, vOff, ec) {
      AllCandidatesInside(front, pattern, h, v, hOff, vOff, ec, p);
      var z :| z in front && InsetContains(z, p, ec);
      assert z in zones;
    } else {
      CandidatesInside(last, pattern, h, v, hOff, vOff, ec, p);
    }
  }

  /** How a fill run ends; the counts are the numbers of vias created. */
  datatype FillOutcome = NoCandidates | CancelledWhileFiltering | NoValidPositions
                       | CancelledWhileCreating(created: nat) | Completed(created: nat)

  /** The outcome of a fill run over `candidates`, with the vias it adds to the board. */
  function FillSpec<V>(existing: seq<Entry<V>>, candidates: seq<Point>, viaSize: int, made: nat -> Option<V>,
                       filterProceed: nat -> bool, createProceed: nat -> bool): (FillOutcome, seq<Entry<V>>)
  {
    if |candidates| == 0 then (NoCandidates, [])
    else match FilterSpec(existing, candidates, viaSize, filterProceed)
      case FilterCancelled => (CancelledWhileFiltering, [])
      case Filtered(valid) =>
        if |valid| == 0 then (NoValidPositions, [])
        else
          var added := CreatedEntries(valid, made, CreationStop(valid, createProceed));
          if FirstHalt(createProceed, 5, 0, |valid|).Some? then (CancelledWhileCreating(|added|), added)
          else (Completed(|added|), added)
  }

  /**
   * What a fill run adds: only vias at candidate positions clear of every via that was on the
   * board before the run, at most one per valid position; nothing at all unless the run
   * reached the creation phase.
   */
  lemma {:induction false} FillAddsOnlyClearCandidates<V>(existing: seq<Entry<V>>, candidates: seq<Point>, viaSize: int,
                                       made: nat -> Option<V>, filterProceed: nat -> bool, createProceed: nat -> bool,
                                       e: Entry<V>)
    ensures var (outcome, added) := FillSpec(existing, candidates, viaSize, made, filterProceed, createProceed);
            (e in added ==> e.pos in candidates && DrcClear(existing, e.pos, viaSize)) &&
            (outcome.NoCandidates? || outcome.CancelledWhileFiltering? || outcome.NoValidPositions? ==> added == []) &&
            |added| <= |candidates|
  {
    var (outcome, added) := FillSpec(existing, candidates, viaSize, made, filterProceed, createProceed);
    if |candidates| > 0 && FilterSpec(existing, candidates, viaSize, filterProceed).Filtered? {
      var valid := ValidPositions(existing, candidates, viaSize);
      if |valid| > 0 {
        var stop := CreationStop(valid, createProceed);
        CreatedEntriesMeaning(valid, made, stop, e);
        FilterLength(candidates, p => DrcClear(existing, p, viaSize));
        if e in added {
          var i :| 0 <= i < stop && valid[i] == e.pos && made(i) == Some(e.via);
          ValidPositionsMeaning(existing, candidates, viaSize, e.pos);
        }
      }
    }
  }

  /**
   * `fill_zones_with_vias_optimized` for one set of zones: build the index from the vias on
   * the board, gather every zone's candidates, filter them, then create the vias. The index is
   * a fresh object local to the run; `added` lists the vias the run adds to the board.
   */
  method FillZones<V(==)>(existing: seq<Entry<V>>, zones: seq<Box>, pattern: Pattern, h: int, v: int,
                          hOff: int, vOff: int, ec: int, viaSize: int, made: nat -> Option<V>,
                          filterProceed: nat -> bool, createProceed: nat -> bool)
    returns (outcome: FillOutcome, added: seq<Entry<V>>)
    requires viaSize > 0
    requires forall z :: z in zones ==> CandidatesDefined(z, pattern, h, v, hOff, vOff, ec)
    ensures (outcome, added) ==
            FillSpec(existing, AllCandidates(zones, pattern, h, v, hOff, vOff, ec), viaSize, made, filterProceed, createProceed)
  {
    var index := BuildIndex(existing, viaSize);
    var all := GatherCandidates(zones, pattern, h, v, hOff, vOff, ec);
    if |all| == 0 {
      return NoCandidates, [];
    }
    var filtered := FilterCandidates(index, all, viaSize, filterProceed);
    if filtered.FilterCancelled? {
      return CancelledWhileFiltering, [];
    }
    var valid := filtered.valid;
    if |valid| == 0 {
      return NoValidPositions, [];
    }
    var cancelled;
    added, cancelled := CreateVias(index, valid, made, createProceed);
    if cancelled {
      outcome := CancelledWhileCreating(|added|);
    } else {
      outcome := Completed(|added|);
    }
  }

  /** The index built from the vias already on the board, in board order. */
  method BuildIndex<V(==)>(existing: seq<Entry<V>>, viaSize: int) returns (index: SpatialIndex<V>)
    requires viaSize > 0
    ensures fresh(index) && index.Valid()
    ensures index.gridSize == IndexCellSize(viaSize) && index.Contents == existing
  {
    index := new SpatialIndex<V>(IndexCellSize(viaSize));
    var i := 0;
    while i < |existing|
      invariant 0 <= i <= |existing|
      invariant fresh(index) && index.Valid()
      invariant index.gridSize == IndexCellSize(viaSize) && index.Contents == existing[..i]
    {
      index.AddVia(existing[i].pos, existing[i].via);
      assert existing[..i + 1] == existing[..i] + [existing[i]];
      i := i + 1;
    }
    assert existing[..i] == existing;
  }

  /** The candidates of every zone, zone after zone. */
  method GatherCandidates(zones: seq<Box>, pattern: Pattern, h: int, v: int, hOff: int, vOff: int, ec: int)
    returns (all: seq<Point>)
    requires forall z :: z in zones ==> CandidatesDefined(z, pattern, h, v, hOff, vOff, ec)
    ensures all == AllCandidates(zones, pattern, h, v, hOff, vOff, ec)
  {
    all := [];
    var k := 0;
    while k < |zones|
      invariant 0 <= k <= |zones|
      invariant all == AllCandidates(zones[..k], pattern, h, v, hOff, vOff, ec)
    {
      var positions := CandidatePositions(zones[k], pattern, h, v, hOff, vOff, ec);
      assert zones[..k + 1][..k] == zones[..k];
      all := all + positions;
      k := k + 1;
    }
    assert zones[..k] == zones;
  }
}
