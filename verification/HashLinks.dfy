/** The two list hooks a PDR carries for detection, and when unlinking one goes through a poisoned
    pointer (pdr.c). hlist_del_rcu leaves poison behind, which hlist_unhashed takes for a link. */
module HashLinks {
  import opened Types
  import opened RuleData

  datatype Hook = Unhashed | Linked | Poisoned

  datatype Hooks = Hooks(teid: Hook, addr: Hook)

  /** hlist_del_rcu on a hook that does not look unhashed; None writes through the poison. */
  function Unlinked(h: Hook): (r: Option<Hook>) {
    match h
    case Unhashed => Some(Unhashed)
    case Linked => Some(Poisoned)
    case Poisoned => None
  }

  /** What pdr_context_delete, and pdr_update_hlist_table at its start, do to both hooks. */
  function UnlinkBoth(h: Hooks): (r: Option<Hooks>) {
    match (Unlinked(h.teid), Unlinked(h.addr))
    case (Some(t), Some(a)) => Some(Hooks(t, a))
    case _ => None
  }

  /** pdr_update_hlist_table for a PDR configured as c. */
  function Refiled(h: Hooks, c: PdrConf): (r: Option<Hooks>) {
    match UnlinkBoth(h)
    case None => None
    case Some(u) =>
      Some(if c.ByTeid() then u.(teid := Linked) else if c.ByAddr() then u.(addr := Linked) else u)
  }

  /** The hooks of a PDR after it has been filed under each configuration in turn. */
  function Life(cs: seq<PdrConf>): (r: Option<Hooks>) {
    if cs == [] then Some(Hooks(Unhashed, Unhashed))
    else
      var before := Life(cs[..|cs| - 1]);
      if before.None? then None else Refiled(before.value, cs[|cs| - 1])
  }

  /** A PDR never loses its F-TEID or its UE address. */
  predicate Grows(a: PdrConf, b: PdrConf) {
    (a.ByTeid() ==> b.ByTeid()) && (a.ByAddr() ==> b.ByAddr() || b.ByTeid())
  }

  lemma {:induction false} FillGrows(c: PdrConf, attrs: seq<PdrAttr>)
    ensures Grows(c, Fill(c, attrs).now)
  {
    if attrs == [] {
    } else {
      FillGrows(c, attrs[..|attrs| - 1]);
    }
  }

  predicate Growing(cs: seq<PdrConf>) { forall i | 0 <= i < |cs| - 1 :: Grows(cs[i], cs[i + 1]) }

  /** Between steps i and i + 1 the PDR gained an F-TEID, and moved from one table to the other. */
  predicate Moved(cs: seq<PdrConf>, i: int) { 0 <= i < |cs| - 1 && cs[i].ByAddr() && cs[i + 1].ByTeid() }

  /** Filing a PDR again and again reaches poison exactly when it is filed once more after it has
      moved from the UE-address table to the tunnel table. */
  lemma LifeIff(cs: seq<PdrConf>)
    requires Growing(cs)
    ensures Life(cs).None? <==> exists i :: Moved(cs, i) && i + 2 < |cs|
  {
    HooksAfter(cs);
  }

  /** And deleting it does exactly when that was the last thing that happened to it. */
  lemma DeletionIff(cs: seq<PdrConf>)
    requires Growing(cs) && Life(cs).Some?
    ensures UnlinkBoth(Life(cs).value).None? <==> Moved(cs, |cs| - 2)
  {
    HooksAfter(cs);
  }

  lemma {:induction false} HooksAfter(cs: seq<PdrConf>)
    requires Growing(cs)
    ensures Life(cs).None? <==> exists i :: Moved(cs, i) && i + 2 < |cs|
    ensures Life(cs).Some? ==>
              var h, n := Life(cs).value, |cs|;
              && h.teid == (if n > 0 && cs[n - 1].ByTeid() then Linked else Unhashed)
              && h.addr == (if Moved(cs, n - 2) then Poisoned
                            else if n > 0 && cs[n - 1].ByAddr() then Linked else Unhashed)
  {
    forall i | 0 <= i < |cs| ensures !(cs[i].ByTeid() && cs[i].ByAddr()) {}
    hide PdrConf.ByTeid, PdrConf.ByAddr;
    if cs == [] {
    } else {
      var n := |cs| - 1;
      var before := cs[..n];
      HooksAfter(before);
      assert forall i :: Moved(before, i) <==> Moved(cs, i) && i + 1 < n;
      if i :| Moved(cs, i) && i + 2 < |cs| && i + 2 != n {
        assert Moved(before, i) && i + 2 < |before|;
      }
      if Moved(cs, n - 2) { assert Moved(before, n - 2); }
      if n > 0 { assert Grows(cs[n - 1], cs[n]); }
    }
  }

  const BY_ADDR: PdrConf := ZEROED.(pdi := Some(Pdi(0, Some(1), None, None)))
  const BY_TEID: PdrConf := ZEROED.(pdi := Some(Pdi(0, Some(1), Some(FTeid(1, 1)), None)))

  /** Created by address, replaced with an F-TEID, replaced once more. */
  lemma PoisonReached()
    ensures Growing([BY_ADDR, BY_TEID, BY_TEID]) && Life([BY_ADDR, BY_TEID, BY_TEID]).None?
  {
    var cs := [BY_ADDR, BY_TEID, BY_TEID];
    assert Moved(cs, 0);
    LifeIff(cs);
  }
}
