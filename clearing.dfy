/**
 * The clear action of the optimised plugin (`clear_vias`): for every selected zone and every
 * via on the board, remove the via when it is on the chosen net, lies in the zone's bounding
 * box, and (when only plugin vias are to be cleared) belongs to a group whose name starts
 * with the configured group name. The progress dialog is an oracle `proceed(k)`.
 */
module Clearing {
  import opened Geometry
  import opened Seqs

  /** A via on the board: its identity, position and net code. */
  datatype ViaRecord = ViaRecord(id: nat, pos: Point, net: int)

  /** A member of a group: a via (by identity) or anything else. */
  datatype GroupItem = ViaItem(id: nat) | OtherItem

  datatype Group = Group(name: string, items: seq<GroupItem>)

  /** The vias among a group's items, in item order. */
  function ViaIdsOf(items: seq<GroupItem>): seq<nat>
  {
    if items == [] then []
    else ViaIdsOf(items[..|items| - 1]) +
         (match items[|items| - 1] case ViaItem(id) => [id] case OtherItem => [])
  }

  /** `group_vias`: the vias of every group whose name starts with `prefix`, group after group. */
  function GroupViaIds(groups: seq<Group>, prefix: string): seq<nat>
  {
    if groups == [] then []
    else GroupViaIds(groups[..|groups| - 1], prefix) +
         (if prefix <= groups[|groups| - 1].name then ViaIdsOf(groups[|groups| - 1].items) else [])
  }

  lemma {:induction false} ViaIdsOfMember(items: seq<GroupItem>, id: nat)
    ensures id in ViaIdsOf(items) <==> ViaItem(id) in items
  {
    if items != [] {
      ViaIdsOfMember(items[..|items| - 1], id);
      assert items == items[..|items| - 1] + [items[|items| - 1]];
    }
  }

  /** A via is collected exactly when some group named with the prefix holds it. */
  lemma {:induction false} GroupViaIdsMember(groups: seq<Group>, prefix: string, id: nat)
    ensures id in GroupViaIds(groups, prefix) <==>
            exists g :: g in groups && prefix <= g.name && ViaItem(id) in g.items
  {
    if groups != [] {
      var front, last := groups[..|groups| - 1], groups[|groups| - 1];
      GroupViaIdsMember(front, prefix, id);
      ViaIdsOfMember(last.items, id);
      assert groups == front + [last];
      if exists g :: g in groups && prefix <= g.name && ViaItem(id) in g.items {
        var g :| g in groups && prefix <= g.name && ViaItem(id) in g.items;
        if g != last {
          assert g in front;
        }
      }
    }
  }

  /** The group scan of `clear_vias`, run only when plugin vias alone are to be cleared. */
  method CollectGroupVias(groups: seq<Group>, prefix: string) returns (ids: seq<nat>)
    ensures ids == GroupViaIds(groups, prefix)
  {
    ids := [];
    var k := 0;
    while k < |groups|
      invariant 0 <= k <= |groups|
      invariant ids == GroupViaIds(groups[..k], prefix)
    {
      var group := groups[k];
      assert groups[..k + 1][..k] == groups[..k];
      if prefix <= group.name {
        var j := 0;
        ghost var before := ids;
        while j < |group.items|
          invariant 0 <= j <= |group.items|
          invariant ids == before + ViaIdsOf(group.items[..j])
        {
          assert group.items[..j + 1][..j] == group.items[..j];
          match group.items[j] {
            case ViaItem(id) => ids := ids + [id];
            case OtherItem =>
          }
          j := j + 1;
        }
        assert group.items[..j] == group.items;
      }
      k := k + 1;
    }
    assert groups[..k] == groups;
  }

  /** A via passes the net and group checks of the loop (position aside). */
  predicate Eligible(via: ViaRecord, net: int, clearPlugin: bool, groupIds: seq<nat>)
  {
    via.net == net && (!clearPlugin || via.id in groupIds)
  }

  /** The loop visits every (zone, via) pair: zones outer, vias inner. */
  function ZonePairs(zone: Box, vias: seq<ViaRecord>): seq<(Box, ViaRecord)>
  {
    if vias == [] then [] else ZonePairs(zone, vias[..|vias| - 1]) + [(zone, vias[|vias| - 1])]
  }

  function Pairs(zones: seq<Box>, vias: seq<ViaRecord>): seq<(Box, ViaRecord)>
  {
    if zones == [] then [] else Pairs(zones[..|zones| - 1], vias) + ZonePairs(zones[|zones| - 1], vias)
  }

  /** Loop state: the `processed` counter, the vias removed so far, and whether it was cancelled. */
  datatype ClearState = ClearState(processed: nat, removed: seq<ViaRecord>, cancelled: bool)

  /**
   * One iteration: consult the dialog when `processed % 10 == 0`; skip a via of another net
   * or, when clearing plugin vias only, outside the collected groups (without counting it);
   * otherwise count it and remove it when it lies in the zone's bounding box. A skipped via
   * leaves the count unchanged, so the dialog may be consulted several times at one count;
   * `proceed` gives all of those consultations one answer, which loses no outcome because
   * nothing is removed between them.
   */
  function ClearStep(st: ClearState, pair: (Box, ViaRecord), net: int, clearPlugin: bool,
                     groupIds: seq<nat>, proceed: nat -> bool): ClearState
  {
    var (zone, via) := pair;
    if st.processed % 10 == 0 && !proceed(st.processed) then st.(cancelled := true)
    else if !Eligible(via, net, clearPlugin, groupIds) then st
    else ClearState(st.processed + 1,
                    st.removed + (if InsetContains(zone, via.pos, 0) then [via] else []), false)
  }

  /** The loop over `pairs`, stopping at the first cancellation. */
  function ClearRun(pairs: seq<(Box, ViaRecord)>, net: int, clearPlugin: bool, groupIds: seq<nat>,
                    proceed: nat -> bool): ClearState
  {
    if pairs == [] then ClearState(0, [], false)
    else
      var st := ClearRun(pairs[..|pairs| - 1], net, clearPlugin, groupIds, proceed);
      if st.cancelled then st else ClearStep(st, pairs[|pairs| - 1], net, clearPlugin, groupIds, proceed)
  }

  /** Reference removal list: every pair whose via is eligible and inside the zone, in loop order. */
  function ClearPlan(pairs: seq<(Box, ViaRecord)>, net: int, clearPlugin: bool, groupIds: seq<nat>): seq<ViaRecord>
  {
    if pairs == [] then []
    else
      var (zone, via) := pairs[|pairs| - 1];
      ClearPlan(pairs[..|pairs| - 1], net, clearPlugin, groupIds) +
      (if Eligible(via, net, clearPlugin, groupIds) && InsetContains(zone, via.pos, 0) then [via] else [])
  }

  /**
   * The loop removes a prefix of the plan, and the whole plan when it was not cancelled.
   */
  lemma {:induction false} ClearRunFollowsPlan(pairs: seq<(Box, ViaRecord)>, net: int, clearPlugin: bool,
                                               groupIds: seq<nat>, proceed: nat -> bool)
    ensures ClearRun(pairs, net, clearPlugin, groupIds, proceed).removed <= ClearPlan(pairs, net, clearPlugin, groupIds)
    ensures !ClearRun(pairs, net, clearPlugin, groupIds, proceed).cancelled ==>
              ClearRun(pairs, net, clearPlugin, groupIds, proceed).removed == ClearPlan(pairs, net, clearPlugin, groupIds)
  {
    if pairs != [] {
      ClearRunFollowsPlan(pairs[..|pairs| - 1], net, clearPlugin, groupIds, proceed);
    }
  }

  lemma {:induction false} ClearRunStep(a: seq<(Box, ViaRecord)>, pair: (Box, ViaRecord), net: int,
                                        clearPlugin: bool, groupIds: seq<nat>, proceed: nat -> bool)
    requires !ClearRun(a, net, clearPlugin, groupIds, proceed).cancelled
    ensures ClearRun(a + [pair], net, clearPlugin, groupIds, proceed) ==
            ClearStep(ClearRun(a, net, clearPlugin, groupIds, proceed), pair, net, clearPlugin, groupIds, proceed)
  {
    assert (a + [pair])[..|a|] == a;
  }

  /** Once cancelled, later pairs change nothing. */
  lemma {:induction false} ClearRunStaysCancelled(a: seq<(Box, ViaRecord)>, b: seq<(Box, ViaRecord)>, net: int,
                                                  clearPlugin: bool, groupIds: seq<nat>, proceed: nat -> bool)
    requires ClearRun(a, net, clearPlugin, groupIds, proceed).cancelled
    ensures ClearRun(a + b, net, clearPlugin, groupIds, proceed) == ClearRun(a, net, clearPlugin, groupIds, proceed)
    decreases |b|
  {
    if b == [] {
      assert a + b == a;
    } else {
      ClearRunStaysCancelled(a, b[..|b| - 1], net, clearPlugin, groupIds, proceed);
      assert (a + b)[..|a + b| - 1] == a + b[..|b| - 1];
    }
  }

  lemma {:induction false} ZonePairsAppend(zone: Box, a: seq<ViaRecord>, b: seq<ViaRecord>)
    ensures ZonePairs(zone, a + b) == ZonePairs(zone, a) + ZonePairs(zone, b)
    decreases |b|
  {
    if b == [] {
      assert a + b == a;
    } else {
      ZonePairsAppend(zone, a, b[..|b| - 1]);
      assert (a + b)[..|a + b| - 1] == a + b[..|b| - 1];
    }
  }

  lemma {:induction false} PairsAppend(a: seq<Box>, b: seq<Box>, vias: seq<ViaRecord>)
    ensures Pairs(a + b, vias) == Pairs(a, vias) + Pairs(b, vias)
    decreases |b|
  {
    if b == [] {
      assert a + b == a;
    } else {
      PairsAppend(a, b[..|b| - 1], vias);
      assert (a + b)[..|a + b| - 1] == a + b[..|b| - 1];
    }
  }

  /** What the clear loop removes: eligible vias inside some selected zone's bounding box. */
  lemma {:induction false} ClearPlanMember(zones: seq<Box>, vias: seq<ViaRecord>, net: int, clearPlugin: bool,
                                           groupIds: seq<nat>, v: ViaRecord)
    ensures v in ClearPlan(Pairs(zones, vias), net, clearPlugin, groupIds) <==>
            v in vias && Eligible(v, net, clearPlugin, groupIds) && exists z :: z in zones && InsetContains(z, v.pos, 0)
  {
    if zones != [] {
      var front, last := zones[..|zones| - 1], zones[|zones| - 1];
      ClearPlanMember(front, vias, net, clearPlugin, groupIds, v);
      ZonePlanMember(last, vias, Pairs(front, vias), net, clearPlugin, groupIds, v);
      if exists z :: z in zones && InsetContains(z, v.pos, 0) {
        var z :| z in zones && InsetContains(z, v.pos, 0);
        if z != last {
          assert z in front;
        }
      }
    }
  }

  lemma {:induction false} ZonePlanMember(zone: Box, vias: seq<ViaRecord>, pre: seq<(Box, ViaRecord)>, net: int,
                                          clearPlugin: bool, groupIds: seq<nat>, v: ViaRecord)
    ensures v in ClearPlan(pre + ZonePairs(zone, vias), net, clearPlugin, groupIds) <==>
            v in ClearPlan(pre, net, clearPlugin, groupIds) ||
            (v in vias && Eligible(v, net, clearPlugin, groupIds) && InsetContains(zone, v.pos, 0))
  {
    if vias == [] {
      assert pre + ZonePairs(zone, vias) == pre;
    } else {
      var vs := vias[..|vias| - 1];
      ZonePlanMember(zone, vs, pre, net, clearPlugin, groupIds, v);
      var all := pre + ZonePairs(zone, vias);
      assert all[..|all| - 1] == pre + ZonePairs(zone, vs);
      assert vias == vs + [vias[|vias| - 1]];
    }
  }

  /**
   * One iteration of the inner loop of `clear_vias` on (zone, vias[vi]) when the dialog is not
   * consulted or lets the run go on: the run advances by one `ClearStep`.
   */
  lemma {:induction false} ClearZoneStep(zone: Box, vias: seq<ViaRecord>, vi: nat, net: int, clearPlugin: bool,
                                         groupIds: seq<nat>, proceed: nat -> bool, done: seq<(Box, ViaRecord)>,
                                         processed: nat, removed: seq<ViaRecord>)
    requires vi < |vias| && !(processed % 10 == 0 && !proceed(processed))
    requires ClearRun(done + ZonePairs(zone, vias[..vi]), net, clearPlugin, groupIds, proceed) ==
             ClearState(processed, removed, false)
    ensures ClearRun(done + ZonePairs(zone, vias[..vi + 1]), net, clearPlugin, groupIds, proceed) ==
            if Eligible(vias[vi], net, clearPlugin, groupIds)
            then ClearState(processed + 1, removed + (if InsetContains(zone, vias[vi].pos, 0) then [vias[vi]] else []), false)
            else ClearState(processed, removed, false)
  {
    var before := done + ZonePairs(zone, vias[..vi]);
    ZonePairsSnoc(zone, vias, vi);
    assert done + ZonePairs(zone, vias[..vi + 1]) == before + [(zone, vias[vi])];
    ClearRunStep(before, (zone, vias[vi]), net, clearPlugin, groupIds, proceed);
  }

  /** Extending the visited vias of a zone by one adds that one pair at the end. */
  lemma {:induction false} ZonePairsSnoc(zone: Box, vias: seq<ViaRecord>, vi: nat)
    requires vi < |vias|
    ensures ZonePairs(zone, vias[..vi + 1]) == ZonePairs(zone, vias[..vi]) + [(zone, vias[vi])]
  {
    assert vias[..vi + 1][..vi] == vias[..vi];
  }

  /**
   * A cancellation at (zone, vias[vi]) ends the zone: the run over all of the zone's pairs
   * stops in the state reached before that via.
   */
  lemma {:induction false} ClearZoneCancel(zone: Box, vias: seq<ViaRecord>, vi: nat, net: int, clearPlugin: bool,
                                           groupIds: seq<nat>, proceed: nat -> bool, done: seq<(Box, ViaRecord)>,
                                           processed: nat, removed: seq<ViaRecord>)
    requires vi < |vias| && processed % 10 == 0 && !proceed(processed)
    requires ClearRun(done + ZonePairs(zone, vias[..vi]), net, clearPlugin, groupIds, proceed) ==
             ClearState(processed, removed, false)
    ensures ClearRun(done + ZonePairs(zone, vias), net, clearPlugin, groupIds, proceed) ==
            ClearState(processed, removed, true)
  {
    var before := done + ZonePairs(zone, vias[..vi]);
    var rest := ZonePairs(zone, vias[vi + 1..]);
    ZonePairsSnoc(zone, vias, vi);
    ZonePairsSplit(zone, vias, vi);
    assert done + ZonePairs(zone, vias) == before + [(zone, vias[vi])] + rest;
    CancelSkipsRest(before, (zone, vias[vi]), rest, net, clearPlugin, groupIds, proceed, processed, removed);
  }

  /** Once the dialog is consulted and refuses, nothing after that pair is visited. */
  lemma {:induction false} CancelSkipsRest(before: seq<(Box, ViaRecord)>, pair: (Box, ViaRecord),
                                           rest: seq<(Box, ViaRecord)>, net: int, clearPlugin: bool,
                                           groupIds: seq<nat>, proceed: nat -> bool,
                                           processed: nat, removed: seq<ViaRecord>)
    requires ClearRun(before, net, clearPlugin, groupIds, proceed) == ClearState(processed, removed, false)
    requires processed % 10 == 0 && !proceed(processed)
    ensures ClearRun(before + [pair] + rest, net, clearPlugin, groupIds, proceed) == ClearState(processed, removed, true)
  {
    ClearRunStep(before, pair, net, clearPlugin, groupIds, proceed);
    ClearRunStaysCancelled(before + [pair], rest, net, clearPlugin, groupIds, proceed);
  }

  /** The pairs of a zone split after the via at index vi. */
  lemma {:induction false} ZonePairsSplit(zone: Box, vias: seq<ViaRecord>, vi: nat)
    requires vi < |vias|
    ensures ZonePairs(zone, vias) == ZonePairs(zone, vias[..vi + 1]) + ZonePairs(zone, vias[vi + 1..])
  {
    assert vias[..vi + 1] + vias[vi + 1..] == vias;
    ZonePairsAppend(zone, vias[..vi + 1], vias[vi + 1..]);
  }

  /**
   * `clear_vias`: returns the vias passed to `board.Remove`, in order (their number is the
   * reported count), and whether the user cancelled.
   */
  method ClearVias(vias: seq<ViaRecord>, zones: seq<Box>, net: int, clearPlugin: bool, prefix: string,
                   groups: seq<Group>, proceed: nat -> bool)
    returns (removed: seq<ViaRecord>, cancelled: bool)
    ensures var groupIds := if clearPlugin then GroupViaIds(groups, prefix) else [];
            var st := ClearRun(Pairs(zones, vias), net, clearPlugin, groupIds, proceed);
            removed == st.removed && cancelled == st.cancelled
  {
    var groupIds := [];
    if clearPlugin {
      groupIds := CollectGroupVias(groups, prefix);
    }
    removed := [];
    var processed := 0;
    var zi := 0;
    while zi < |zones|
      invariant 0 <= zi <= |zones|
      invariant ClearRun(Pairs(zones[..zi], vias), net, clearPlugin, groupIds, proceed) == ClearState(processed, removed, false)
    {
      ghost var done := Pairs(zones[..zi], vias);
      var zoneCancelled;
      processed, removed, zoneCancelled := ClearZone(zones[zi], vias, net, clearPlugin, groupIds, proceed,
                                                     done, processed, removed);
      assert zones[..zi + 1][..zi] == zones[..zi];
      assert Pairs(zones[..zi + 1], vias) == done + ZonePairs(zones[zi], vias);
      if zoneCancelled {
        assert zones[..zi + 1] + zones[zi + 1..] == zones;
        PairsAppend(zones[..zi + 1], zones[zi + 1..], vias);
        ClearRunStaysCancelled(Pairs(zones[..zi + 1], vias), Pairs(zones[zi + 1..], vias),
                               net, clearPlugin, groupIds, proceed);
        return removed, true;
      }
      zi := zi + 1;
    }
    assert zones[..zi] == zones;
    cancelled := false;
  }

  /**
   * The inner loop of `clear_vias` over the vias for one zone, continuing the run that has
   * visited the pairs `done` and reached `processed0` and `removed0`.
   */
  method ClearZone(zone: Box, vias: seq<ViaRecord>, net: int, clearPlugin: bool, groupIds: seq<nat>,
                   proceed: nat -> bool, ghost done: seq<(Box, ViaRecord)>, processed0: nat, removed0: seq<ViaRecord>)
    returns (processed: nat, removed: seq<ViaRecord>, cancelled: bool)
    requires ClearRun(done, net, clearPlugin, groupIds, proceed) == ClearState(processed0, removed0, false)
    ensures ClearRun(done + ZonePairs(zone, vias), net, clearPlugin, groupIds, proceed) ==
            ClearState(processed, removed, cancelled)
  {
    processed, removed := processed0, removed0;
    var vi := 0;
    assert done + ZonePairs(zone, vias[..vi]) == done;
    while vi < |vias|
      invariant 0 <= vi <= |vias|
      invariant ClearRun(done + ZonePairs(zone, vias[..vi]), net, clearPlugin, groupIds, proceed) ==
                ClearState(processed, removed, false)
    {
      var via := vias[vi];
      if processed % 10 == 0 && !proceed(processed) {
        ClearZoneCancel(zone, vias, vi, net, clearPlugin, groupIds, proceed, done, processed, removed);
        return processed, removed, true;
      }
      ClearZoneStep(zone, vias, vi, net, clearPlugin, groupIds, proceed, done, processed, removed);
      if via.net == net && !(clearPlugin && via.id !in groupIds) {
        if InsetContains(zone, via.pos, 0) {
          removed := removed + [via];
        }
        processed := processed + 1;
      }
      vi := vi + 1;
    }
    assert vias[..vi] == vias;
    cancelled := false;
  }


  /**
   * A via lying in the bounding boxes of two selected zones is visited once per zone and is
   * therefore passed to `board.Remove` twice and counted twice.
   */
  lemma {:induction false} OverlappingZonesRemoveTwice(v: ViaRecord, z1: Box, z2: Box, net: int,
                                                       proceed: nat -> bool)
    requires v.net == net && InsetContains(z1, v.pos, 0) && InsetContains(z2, v.pos, 0)
    requires proceed(0)
    ensures ClearRun(Pairs([z1, z2], [v]), net, false, [], proceed).removed == [v, v]
  {
    assert [v][..0] == [];
    assert ZonePairs(z1, [v]) == [(z1, v)];
    assert ZonePairs(z2, [v]) == [(z2, v)];
    assert [z1][..0] == [];
    assert Pairs([z1], [v]) == [(z1, v)];
    assert [z1, z2][..1] == [z1];
    assert Pairs([z1, z2], [v]) == [(z1, v)] + [(z2, v)];
    var pairs := [(z1, v), (z2, v)];
    assert pairs[..1] == [(z1, v)];
    assert [(z1, v)][..0] == [];
    var start := ClearRun([], net, false, [], proceed);
    assert start == ClearState(0, [], false);
    assert Eligible(v, net, false, []);
    var first := ClearRun([(z1, v)], net, false, [], proceed);
    assert first == ClearStep(start, (z1, v), net, false, [], proceed);
    assert first == ClearState(1, [v], false);
    assert ClearRun(pairs, net, false, [], proceed) == ClearState(2, [v, v], false);
  }

  /** The via lies in the bounding box of at least one selected zone. */
  predicate InAnyZone(zones: seq<Box>, p: Point)
  {
    exists z :: z in zones && InsetContains(z, p, 0)
  }

  /** The intended removal list: each eligible via inside some selected zone, once, in board order. */
  function ClearSelection(vias: seq<ViaRecord>, zones: seq<Box>, net: int, clearPlugin: bool,
                          groupIds: seq<nat>): seq<ViaRecord>
  {
    Filter(vias, v => Eligible(v, net, clearPlugin, groupIds) && InAnyZone(zones, v.pos))
  }

  /**
   * The intended selection removes the same vias as the loop's plan, but never the same via
   * twice, and keeps the board order.
   */
  lemma {:induction false} ClearSelectionOnce(vias: seq<ViaRecord>, zones: seq<Box>, net: int,
                                              clearPlugin: bool, groupIds: seq<nat>)
    ensures forall v :: v in ClearSelection(vias, zones, net, clearPlugin, groupIds) <==>
                        v in ClearPlan(Pairs(zones, vias), net, clearPlugin, groupIds)
    ensures NoDuplicates(vias) ==> NoDuplicates(ClearSelection(vias, zones, net, clearPlugin, groupIds))
    ensures Subsequence(ClearSelection(vias, zones, net, clearPlugin, groupIds), vias)
  {
    var keep := v => Eligible(v, net, clearPlugin, groupIds) && InAnyZone(zones, v.pos);
    forall v
      ensures v in ClearSelection(vias, zones, net, clearPlugin, groupIds) <==>
              v in ClearPlan(Pairs(zones, vias), net, clearPlugin, groupIds)
    {
      FilterMember(vias, keep, v);
      ClearPlanMember(zones, vias, net, clearPlugin, groupIds, v);
    }
    if NoDuplicates(vias) {
      FilterNoDuplicates(vias, keep);
    }
    FilterIsSubsequence(vias, keep);
  }
}
