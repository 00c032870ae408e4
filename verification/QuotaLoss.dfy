/** A session whose traffic is dropped because another session's quota is exhausted: the scan of
    the URR bucket compares URR ids and never sessions (urr.c). */
module QuotaLoss {
  import opened Types
  import opened Quota
  import opened RuleData
  import opened Store
  import opened Rules
  import opened UrrObject
  import RateLoss

  /** A request for PDR 1 of a session, which goes through the session's FAR 1 and refers to URR 7. */
  function Attrs(seid: u64): (r: seq<PdrAttr>) { [Seid(seid), PdrAttr.Id(1), Precedence(1), FarId(1), UrrId(7)] }

  function Conf(seid: u64): (r: PdrConf) { PdrConf(seid, 1, 1, None, None, Some(1), [], [7]) }

  lemma AttrsMeanConf(seid: u64)
    ensures Fill(ZEROED, Attrs(seid)) == Edit(Conf(seid), true)
    ensures IdOf(Attrs(seid)) == Some(1) && SeidOf(Attrs(seid)) == seid
    ensures HasPrecedence(Attrs(seid)) && HasFarId(Attrs(seid))
  {
    hide Fill, IdOf, SeidOf;
    var a := Attrs(seid);
    assert a[2].Precedence? && a[3].FarId? && AddId([], 7) == [7];
    RateLoss.FillNothing(ZEROED);
    RateLoss.FillStep(ZEROED, [], a[0]);
    assert [] + [a[0]] == [a[0]];
    RateLoss.FillStep(ZEROED, [a[0]], a[1]);
    assert [a[0]] + [a[1]] == [a[0], a[1]];
    RateLoss.FillStep(ZEROED, [a[0], a[1]], a[2]);
    assert [a[0], a[1]] + [a[2]] == [a[0], a[1], a[2]];
    RateLoss.FillStep(ZEROED, [a[0], a[1], a[2]], a[3]);
    assert [a[0], a[1], a[2]] + [a[3]] == [a[0], a[1], a[2], a[3]];
    RateLoss.FillStep(ZEROED, [a[0], a[1], a[2], a[3]], a[4]);
    assert [a[0], a[1], a[2], a[3]] + [a[4]] == a;
  }

  /** FAR 1 of sessions 1 and 2, forwarding, on a device with one bucket. */
  method OneBucket(isUpf: bool, idHash: (u64, u32) -> nat, wordHash: u32 -> nat) returns (dev: Gtp5gDev)
    ensures fresh(dev) && fresh(dev.known) && fresh(dev.live) && fresh(dev.fars) && dev.Valid() && dev.hashSize == 1
    ensures dev.live == {} && |dev.relatedUrr| == 1 && dev.relatedUrr[0] == []
    ensures dev.FarAt(1, 1) != null && dev.FarAt(2, 1) != null && dev.FarAt(2, 1).action == FAR_ACTION_FORW
  {
    hide Gtp5gDev.Valid;
    dev := new Gtp5gDev(1, isUpf, idHash, wordHash);
    var _, _ := dev.AddFar(RateLoss.CREATE, 1, 1, RateLoss.FORWARD);
    ghost var first := dev.FarAt(1, 1);
    var _, _ := dev.AddFar(RateLoss.CREATE, 2, 1, RateLoss.FORWARD);
    assert first in dev.fars;
  }

  /** PDR 1 of a session that has none yet. */
  method AddPdr1(dev: Gtp5gDev, seid: u64) returns (ghost p: Pdr)
    requires dev.Valid() && dev.FarAt(seid, 1) != null && dev.PdrAt(seid, 1) == null
    modifies dev`pdrIdHash, dev`relatedFar, dev`relatedQer, dev`relatedUrr
    modifies dev`teidHash, dev`addrHash, dev`rank, dev`clock, dev`live, dev`known, dev.live
    ensures dev.Valid() && fresh(dev.known - old(dev.known)) && fresh(p)
    ensures dev.live == old(dev.live) + {p} && p.conf == Conf(seid)
    ensures forall q | q in old(dev.live) :: unchanged(q)
    ensures dev.UrrNodesGrow(p, 1)
  {
    hide Gtp5gDev.Valid, Gtp5gDev.RankedLast, Gtp5gDev.RateChosen, Gtp5gDev.PdrAt, Gtp5gDev.UrrNodesGrow, Fill, IdOf,
         SeidOf, HasPrecedence, HasFarId;
    AttrsMeanConf(seid);
    var _, made := dev.AddPdr(RateLoss.CREATE, Attrs(seid), true);
    p := made;
  }

  lemma MatchingFew(nodes: seq<Pdr>, urrId: u32)
    ensures Matching(nodes, urrId) <= |nodes|
  {
    if nodes == [] {
    } else {
      MatchingFew(nodes[..|nodes| - 1], urrId);
    }
  }

  /** Sessions 1 and 2 with a PDR each, and their two nodes in the one URR bucket. */
  method TwoSessions(isUpf: bool, idHash: (u64, u32) -> nat, wordHash: u32 -> nat)
    returns (dev: Gtp5gDev, ghost p: Pdr)
    ensures fresh(dev) && fresh(dev.fars) && dev.Valid() && dev.hashSize == 1
    ensures p in dev.live && p.conf == Conf(2) && p.far == dev.FarAt(2, 1) != null && p.far.action == FAR_ACTION_FORW
    ensures |dev.relatedUrr| == 1 && |dev.relatedUrr[0]| <= 2 && FarsOf(dev.relatedUrr[0]) <= dev.fars
  {
    hide Gtp5gDev.Valid;
    dev := OneBucket(isUpf, idHash, wordHash);
    ghost var q := AddPdr1(dev, 1);
    p := AddPdr1(dev, 2);
    dev.CachedFarIsLookup(q);
    dev.CachedFarIsLookup(p);
  }

  /** Session 1 runs out of the quota of its URR 7; session 2, which has a URR 7 of its own and an
      untouched quota, forwards before and drops after. */
  method InnocentSessionDrops(isUpf: bool, idHash: (u64, u32) -> nat, wordHash: u32 -> nat)
    returns (dev: Gtp5gDev, ghost p: Pdr, ghost before: u16)
    ensures fresh(dev) && dev.Valid() && p in dev.live && p.conf.seid == 2 && p.far == dev.FarAt(2, 1) != null
    ensures before == FAR_ACTION_FORW && p.far.action == FAR_ACTION_DROP
  {
    hide Gtp5gDev.Valid, Matching, Behind;
    dev, p := TwoSessions(isUpf, idHash, wordHash);
    before := p.far.action;
    var u := new Urr(1, 7);
    assert dev.IdBucket(1, 7) == 0 && dev.IdBucket(2, 7) == 0;
    MatchingFew(dev.relatedUrr[0], 7);
    ExhaustOnDevice(dev, u);
  }
}
