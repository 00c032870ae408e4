/** A PDR that loses its rate because a QER it does not list is deleted (qer.c, genl_qer.c). */
module RateLoss {
  import opened Types
  import opened RuleData
  import opened Store
  import opened Rules

  const CREATE: Flags := Flags(false, false, false)

  const FORWARD: FarAttrs := FarAttrs(Some(Bytes(2)), None)

  /** A request for PDR 1 of session 0, which goes through FAR 1 and lists QER 1 alone. */
  const ATTRS: seq<PdrAttr> := [PdrAttr.Id(1), Precedence(1), FarId(1), QerId(1)]

  const CONF: PdrConf := PdrConf(0, 1, 1, None, None, Some(1), [1], [])

  lemma FillStep(c: PdrConf, attrs: seq<PdrAttr>, a: PdrAttr)
    requires Fill(c, attrs).ok
    ensures Fill(c, attrs + [a]) == ApplyAttr(Fill(c, attrs).now, a)
    ensures IdOf(attrs + [a]) == (if a.Id? then Some(a.id) else IdOf(attrs))
    ensures SeidOf(attrs + [a]) == if a.Seid? then a.seid else SeidOf(attrs)
  {
    assert (attrs + [a])[..|attrs + [a]| - 1] == attrs;
  }

  lemma AttrsMeanConf()
    ensures Fill(ZEROED, ATTRS) == Edit(CONF, true) && IdOf(ATTRS) == Some(1) && SeidOf(ATTRS) == 0
    ensures HasPrecedence(ATTRS) && HasFarId(ATTRS)
  {
    hide Fill, IdOf, SeidOf;
    assert ATTRS[1].Precedence? && ATTRS[2].FarId?;
    FillNothing(ZEROED);
    assert AddId([], 1) == [1];
    FillStep(ZEROED, [], ATTRS[0]);
    assert [] + [ATTRS[0]] == [ATTRS[0]];
    FillStep(ZEROED, [ATTRS[0]], ATTRS[1]);
    assert [ATTRS[0]] + [ATTRS[1]] == [ATTRS[0], ATTRS[1]];
    FillStep(ZEROED, [ATTRS[0], ATTRS[1]], ATTRS[2]);
    assert [ATTRS[0], ATTRS[1]] + [ATTRS[2]] == [ATTRS[0], ATTRS[1], ATTRS[2]];
    FillStep(ZEROED, [ATTRS[0], ATTRS[1], ATTRS[2]], ATTRS[3]);
    assert [ATTRS[0], ATTRS[1], ATTRS[2]] + [ATTRS[3]] == ATTRS;
  }

  lemma FillNothing(c: PdrConf)
    ensures Fill(c, []) == Edit(c.(seid := 0), true) && IdOf([]) == None && SeidOf([]) == 0
  {}

  /** FAR 1 and the rated QERs 1 and 2 of session 0, all in the one bucket there is. */
  method OneBucket(isUpf: bool, idHash: (u64, u32) -> nat, wordHash: u32 -> nat) returns (dev: Gtp5gDev)
    ensures fresh(dev) && fresh(dev.known) && fresh(dev.live) && fresh(dev.qers) && dev.Valid() && dev.hashSize == 1
    ensures dev.live == {} && dev.FarAt(0, 1) != null
    ensures dev.QerAt(0, 1) != null && dev.QerAt(0, 1).hasPolicers && dev.QerAt(0, 2) != null
  {
    hide Gtp5gDev.Valid;
    dev := new Gtp5gDev(1, isUpf, idHash, wordHash);
    var _, _ := dev.AddFar(CREATE, 0, 1, FORWARD);
    var _ := dev.AddQer(CREATE, 0, 1, true);
    ghost var first := dev.QerAt(0, 1);
    var _ := dev.AddQer(CREATE, 0, 2, true);
    assert first in dev.qers;
  }

  lemma RateOfConf(dev: Gtp5gDev, p: Pdr)
    requires p.conf == CONF && dev.QerAt(0, 1) != null && dev.QerAt(0, 1).hasPolicers && dev.RateChosen(p, null)
    ensures p.qerWithRate == dev.QerAt(0, 1)
  {
    hide Gtp5gDev.QerAt;
    assert CONF.qerIds == [1] && dev.Rated(0, 1);
  }

  /** PDR 1, with QER 1's rate. */
  method AddPdr1(dev: Gtp5gDev) returns (ghost p: Pdr)
    requires dev.Valid() && dev.live == {} && dev.FarAt(0, 1) != null
    requires dev.QerAt(0, 1) != null && dev.QerAt(0, 1).hasPolicers
    modifies dev`pdrIdHash, dev`relatedFar, dev`relatedQer, dev`relatedUrr
    modifies dev`teidHash, dev`addrHash, dev`rank, dev`clock, dev`live, dev`known
    ensures dev.Valid() && fresh(dev.known - old(dev.known)) && p in dev.live && p.conf == CONF
    ensures p.qerWithRate == dev.QerAt(0, 1)
  {
    hide Gtp5gDev.Valid, Gtp5gDev.RankedLast, Gtp5gDev.RateChosen, Gtp5gDev.QerAt, Gtp5gDev.PdrAt, Fill, IdOf, SeidOf,
         HasPrecedence, HasFarId;
    AttrsMeanConf();
    var _, made := dev.AddPdr(CREATE, ATTRS, true);
    p := made;
    RateOfConf(dev, p);
  }

  lemma OneBucketLists(dev: Gtp5gDev, ids: seq<u32>, b: nat)
    requires dev.hashSize == 1 && ids != [] && b < 1
    ensures dev.Lists(0, ids, b)
  {
    assert ids[0] in ids && dev.IdBucket(0, ids[0]) == b;
  }

  /** The PDR has QER 1's rate; QER 2 is deleted; QER 1 is still there and still listed, and the
      PDR has no rate. */
  method InnocentLosesRate(isUpf: bool, idHash: (u64, u32) -> nat, wordHash: u32 -> nat)
    returns (dev: Gtp5gDev, ghost p: Pdr, ghost before: Qer?)
    ensures fresh(dev) && dev.Valid() && p in dev.live && p.conf == CONF
    ensures before != null && before == dev.QerAt(0, 1) && before.hasPolicers && dev.QerAt(0, 2) == null
    ensures p.qerWithRate == null
  {
    hide Gtp5gDev.Valid, Gtp5gDev.Lists;
    dev := OneBucket(isUpf, idHash, wordHash);
    p := AddPdr1(dev);
    before := p.qerWithRate;
    OneBucketLists(dev, [1], dev.IdBucket(0, 2));
    var _ := dev.DelQer(0, 2);
    assert before in dev.qers;
    dev.KeysAllDiffer();
  }
}
