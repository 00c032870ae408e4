/** Quota exhaustion: every FAR behind a URR is set to DROP and its action remembered, and
    the reverse step puts the remembered actions back (urr.c). */
module Quota {
  import opened Types

  const FAR_ACTION_DROP: u16 := 1
  const FAR_ACTION_FORW: u16 := 2
  const MAX_PDR_PER_SESSION: nat := 0xFF

  /** A matching node with a FAR behind it: the PDR's id and the FAR. */
  datatype Visit<F> = Visit(pdrId: u16, far: F)

  /** Where the last visit of f is. */
  function LastVisit<F(==)>(vs: seq<Visit<F>>, f: F): (i: nat)
    requires exists j | 0 <= j < |vs| :: vs[j].far == f
    ensures i < |vs| && vs[i].far == f && forall j | i < j < |vs| :: vs[j].far != f
  {
    if vs[|vs| - 1].far == f then |vs| - 1
    else
      assert forall j | 0 <= j < |vs| && vs[j].far == f :: vs[..|vs| - 1][j].far == f;
      LastVisit(vs[..|vs| - 1], f)
  }

  function LastWithId<F>(vs: seq<Visit<F>>, id: u16): (i: nat)
    requires exists j | 0 <= j < |vs| :: vs[j].pdrId == id
    ensures i < |vs| && vs[i].pdrId == id && forall j | i < j < |vs| :: vs[j].pdrId != id
  {
    if vs[|vs| - 1].pdrId == id then |vs| - 1
    else
      assert forall j | 0 <= j < |vs| && vs[j].pdrId == id :: vs[..|vs| - 1][j].pdrId == id;
      LastWithId(vs[..|vs| - 1], id)
  }

  predicate Visited<F(==)>(vs: seq<Visit<F>>, f: F) { exists j | 0 <= j < |vs| :: vs[j].far == f }

  /** The action the k-th visit finds and remembers: a FAR met before is already on DROP. */
  function Found<F(==)>(vs: seq<Visit<F>>, act: map<F, u16>, k: nat): (r: u16)
    requires k < |vs| && vs[k].far in act
  {
    if Visited(vs[..k], vs[k].far) then FAR_ACTION_DROP else act[vs[k].far]
  }

  /** A FAR's action once the exhaust step and then the reverse step have run. */
  function Restored<F(==)>(vs: seq<Visit<F>>, act: map<F, u16>, f: F): (r: u16)
    requires f in act && forall j | 0 <= j < |vs| :: vs[j].far in act
  {
    if Visited(vs, f) then Found(vs, act, LastWithId(vs, vs[LastVisit(vs, f)].pdrId)) else act[f]
  }

  ghost predicate DistinctFars<F>(vs: seq<Visit<F>>) {
    forall i, j | 0 <= i < j < |vs| :: vs[i].far != vs[j].far
  }

  ghost predicate DistinctIds<F>(vs: seq<Visit<F>>) {
    forall i, j | 0 <= i < j < |vs| :: vs[i].pdrId != vs[j].pdrId
  }

  /** Whatever the actions are, every FAR gets its own one back. */
  ghost predicate AlwaysRestores<F(!new)>(vs: seq<Visit<F>>) {
    forall act: map<F, u16>, f: F |
      f in act && (forall j | 0 <= j < |vs| :: vs[j].far in act) :: Restored(vs, act, f) == act[f]
  }

  /** The other FARs on DROP and f forwarding: the assignment that shows a loss. */
  function Probe<F(==)>(vs: seq<Visit<F>>, f: F): (act: map<F, u16>)
    ensures f in act && act[f] == FAR_ACTION_FORW
    ensures forall j | 0 <= j < |vs| :: vs[j].far in act
    ensures forall g | g in act && g != f :: act[g] == FAR_ACTION_DROP
  {
    if vs == [] then map[f := FAR_ACTION_FORW]
    else
      var rest := Probe(vs[..|vs| - 1], f);
      var g := vs[|vs| - 1].far;
      if g == f then rest else rest[g := FAR_ACTION_DROP]
  }

  lemma DistinctRestores<F>(vs: seq<Visit<F>>, act: map<F, u16>, f: F)
    requires DistinctFars(vs) && DistinctIds(vs)
    requires f in act && forall j | 0 <= j < |vs| :: vs[j].far in act
    ensures Restored(vs, act, f) == act[f]
  {
    if Visited(vs, f) {
      var i := LastVisit(vs, f);
      var k := LastWithId(vs, vs[i].pdrId);
      assert k == i;
    }
  }

  /** Two visits of one FAR: what is put back is never the action it had before. */
  lemma SharedFarLost<F>(vs: seq<Visit<F>>, i: nat, j: nat)
    requires i < j < |vs| && vs[i].far == vs[j].far
    ensures Restored(vs, Probe(vs, vs[i].far), vs[i].far) == FAR_ACTION_DROP
  {
    var f := vs[i].far;
    var last := LastVisit(vs, f);
    var k := LastWithId(vs, vs[last].pdrId);
    assert i < j <= last <= k;
    if vs[k].far == f { assert vs[..k][i].far == f; }
  }

  /** Two visits of one PDR id: the earlier FAR gets the later one's action. */
  lemma SharedIdLost<F>(vs: seq<Visit<F>>, i: nat, j: nat)
    requires i < j < |vs| && vs[i].pdrId == vs[j].pdrId && DistinctFars(vs)
    ensures Restored(vs, Probe(vs, vs[i].far), vs[i].far) == FAR_ACTION_DROP
  {
    var f := vs[i].far;
    assert LastVisit(vs, f) == i;
    var k := LastWithId(vs, vs[i].pdrId);
    assert i < j <= k;
  }

  /** Exhausting and reversing is the identity on every assignment of actions exactly when
      the matching nodes lead to pairwise distinct FARs and carry pairwise distinct PDR ids. */
  lemma RestoresIffDistinct<F(!new)>(vs: seq<Visit<F>>)
    ensures AlwaysRestores(vs) <==> DistinctFars(vs) && DistinctIds(vs)
  {
    if DistinctFars(vs) && DistinctIds(vs) {
      forall act: map<F, u16>, f: F | f in act && (forall j | 0 <= j < |vs| :: vs[j].far in act)
        ensures Restored(vs, act, f) == act[f]
      {
        DistinctRestores(vs, act, f);
      }
    } else if !DistinctFars(vs) {
      var i, j :| 0 <= i < j < |vs| && vs[i].far == vs[j].far;
      SharedFarLost(vs, i, j);
      assert Restored(vs, Probe(vs, vs[i].far), vs[i].far) != Probe(vs, vs[i].far)[vs[i].far];
    } else {
      var i, j :| 0 <= i < j < |vs| && vs[i].pdrId == vs[j].pdrId;
      SharedIdLost(vs, i, j);
      assert Restored(vs, Probe(vs, vs[i].far), vs[i].far) != Probe(vs, vs[i].far)[vs[i].far];
    }
  }

  /** Two PDRs of a session that share a forwarding FAR: it stays on DROP. */
  lemma SharedFarExample()
    ensures Restored([Visit(1, 10), Visit(2, 10)], map[10 := FAR_ACTION_FORW], 10) == FAR_ACTION_DROP
  {
    var vs := [Visit(1, 10), Visit(2, 10)];
    assert vs[1].far == 10 && vs[1].pdrId == 2 && vs[..1][0].far == 10;
    assert LastVisit(vs, 10) == 1 && LastWithId(vs, 2) == 1;
  }

  /** The inner loop of the reverse step: the last remembered action under this PDR id. */
  function Put(ids: seq<u16>, actions: seq<u16>, id: u16, now: u16): (r: u16)
    requires |ids| == |actions|
  {
    if ids == [] then now
    else if ids[|ids| - 1] == id then actions[|ids| - 1]
    else Put(ids[..|ids| - 1], actions[..|ids| - 1], id, now)
  }

  /** f's action after the reverse step has gone through the visits. */
  function Replay<F(==)>(vs: seq<Visit<F>>, ids: seq<u16>, actions: seq<u16>, f: F, now: u16): (r: u16)
    requires |ids| == |actions|
  {
    if vs == [] then now
    else
      var before := Replay(vs[..|vs| - 1], ids, actions, f, now);
      if vs[|vs| - 1].far == f then Put(ids, actions, vs[|vs| - 1].pdrId, before) else before
  }

  lemma ReplayAppend<F>(vs: seq<Visit<F>>, v: Visit<F>, ids: seq<u16>, actions: seq<u16>, f: F, now: u16)
    requires |ids| == |actions|
    ensures var before := Replay(vs, ids, actions, f, now);
            Replay(vs + [v], ids, actions, f, now) == if v.far == f then Put(ids, actions, v.pdrId, before) else before
  {
    assert (vs + [v])[..|vs|] == vs;
  }

  ghost predicate Remembers<F>(vs: seq<Visit<F>>, act: map<F, u16>, ids: seq<u16>, actions: seq<u16>) {
    && |ids| == |actions| == |vs|
    && forall k | 0 <= k < |vs| :: vs[k].far in act && ids[k] == vs[k].pdrId && actions[k] == Found(vs, act, k)
  }

  lemma {:induction false} PutLast<F>(vs: seq<Visit<F>>, ids: seq<u16>, actions: seq<u16>, id: u16, now: u16)
    requires |ids| == |actions| == |vs| && forall k | 0 <= k < |vs| :: ids[k] == vs[k].pdrId
    requires exists k | 0 <= k < |vs| :: vs[k].pdrId == id
    ensures Put(ids, actions, id, now) == actions[LastWithId(vs, id)]
  {
    var n := |vs| - 1;
    if ids[n] != id {
      assert forall k | 0 <= k < |vs| && vs[k].pdrId == id :: vs[..n][k].pdrId == id;
      PutLast(vs[..n], ids[..n], actions[..n], id, now);
    }
  }

  /** Replaying over the first n visits what was remembered over all of them. */
  lemma {:induction false} ReplayRestores<F>(
      vs: seq<Visit<F>>, n: nat, act: map<F, u16>, ids: seq<u16>, actions: seq<u16>, f: F, now: u16)
    requires Remembers(vs, act, ids, actions) && n <= |vs| && f in act
    ensures Replay(vs[..n], ids, actions, f, now) ==
            if Visited(vs[..n], f) then Found(vs, act, LastWithId(vs, vs[LastVisit(vs[..n], f)].pdrId)) else now
  {
    if n == 0 {
    } else {
      var ws := vs[..n];
      assert ws[..n - 1] == vs[..n - 1];
      ReplayRestores(vs, n - 1, act, ids, actions, f, now);
      if ws[n - 1].far == f {
        PutLast(vs, ids, actions, vs[n - 1].pdrId, Replay(vs[..n - 1], ids, actions, f, now));
      } else {
        assert Visited(ws, f) <==> Visited(ws[..n - 1], f) by {
          assert forall j | 0 <= j < n && ws[j].far == f :: ws[..n - 1][j].far == f;
        }
      }
    }
  }

  /** Exhaust, then reverse: each FAR ends with what Restored says. */
  lemma ReplayAllRestores<F>(vs: seq<Visit<F>>, act: map<F, u16>, ids: seq<u16>, actions: seq<u16>, now: map<F, u16>)
    requires Remembers(vs, act, ids, actions) && now.Keys == act.Keys
    requires forall f | f in act :: now[f] == if Visited(vs, f) then FAR_ACTION_DROP else act[f]
    ensures forall f | f in act :: Replay(vs, ids, actions, f, now[f]) == Restored(vs, act, f)
    ensures DistinctFars(vs) && DistinctIds(vs) ==>
              forall f | f in act :: Replay(vs, ids, actions, f, now[f]) == act[f]
  {
    forall f | f in act
      ensures Replay(vs, ids, actions, f, now[f]) == Restored(vs, act, f)
      ensures DistinctFars(vs) && DistinctIds(vs) ==> Restored(vs, act, f) == act[f]
    {
      ReplayRestores(vs, |vs|, act, ids, actions, f, now[f]);
      assert vs[..|vs|] == vs;
      if DistinctFars(vs) && DistinctIds(vs) { DistinctRestores(vs, act, f); }
    }
  }
}
