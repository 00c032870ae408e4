/** The rule store of one gtp5g device: PDR, FAR and QER tables, the reverse indexes that
    repair the pointers cached in PDRs, and packet detection (pdr.c, far.c, qer.c,
    genl_pdr.c, genl_far.c, genl_qer.c). */
module Rules {
  import opened Types
  import opened Sdf
  import opened RuleData
  import opened Buckets
  import opened Store

  /** far_fill and qer_fill write the key the rule was just looked up with, so the key of a
      FAR or QER never changes once it is set. */
  class Far {
    const seid: u64
    const id: u32
    var action: u16
    var fwd: Option<FwdParam>

    constructor (seid: u64, id: u32)
      ensures this.seid == seid && this.id == id && action == 0 && fwd == None
    {
      this.seid, this.id, action, fwd := seid, id, 0, None;
    }
  }

  class Qer {
    const seid: u64
    const id: u32
    var hasPolicers: bool

    constructor (seid: u64, id: u32)
      ensures this.seid == seid && this.id == id && !hasPolicers
    {
      this.seid, this.id, hasPolicers := seid, id, false;
    }
  }

  class Pdr {
    var conf: PdrConf
    var far: Far?
    var qerWithRate: Qer?

    constructor ()
      ensures conf == ZEROED && far == null && qerWithRate == null
    {
      conf, far, qerWithRate := ZEROED, null, null;
    }
  }

  class Gtp5gDev {
    const hashSize: nat
    const isUpf: bool
    /** str_hashfn of the text key seid.c builds: any function, collisions included. */
    const idHash: (u64, u32) -> nat
    /** u32_hashfn, which is also ipv4_hashfn. */
    const wordHash: u32 -> nat

    var pdrIdHash: seq<seq<Pdr>>
    var farIdHash: seq<seq<Far>>
    var qerIdHash: seq<seq<Qer>>
    var teidHash: seq<seq<Pdr>>
    var addrHash: seq<seq<Pdr>>
    // Reverse indexes: the buckets hold pdr_nodes, each just a pointer to a PDR. Nodes of
    // PDRs that are no longer installed may stay behind.
    var relatedFar: seq<seq<Pdr>>
    var relatedQer: seq<seq<Pdr>>
    var relatedUrr: seq<seq<Pdr>>

    /** The installed rules. */
    ghost var live: set<Pdr>
    ghost var fars: set<Far>
    ghost var qers: set<Qer>
    /** Every PDR a node may still point to. */
    ghost var known: set<Pdr>
    ghost var rank: map<Pdr, Rank>
    ghost var clock: nat

    function IdBucket(seid: u64, id: u32): (b: nat)
      requires hashSize > 0
      ensures b < hashSize
    {
      idHash(seid, id) % hashSize
    }

    function WordBucket(w: u32): (b: nat)
      requires hashSize > 0
      ensures b < hashSize
    {
      wordHash(w) % hashSize
    }

    // ---------- invariants; x is a PDR in the middle of an edit, or null ----------

    ghost predicate KeysDiffer(x: Pdr)
      reads this`live, live`conf, x`conf
    {
      forall p | p in live :: p.conf.seid != x.conf.seid || p.conf.id != x.conf.id
    }

    ghost function PdrAt(seid: u64, id: u16): (p: Pdr?)
      reads this`live, live`conf
      ensures p != null ==> p in live && p.conf.seid == seid && p.conf.id == id
      ensures p == null ==> KeyFree(seid, id)
    {
      if exists p :: p in live && p.conf.seid == seid && p.conf.id == id
      then var p :| p in live && p.conf.seid == seid && p.conf.id == id; p
      else null
    }

    ghost predicate PdrTableOk(x: Pdr?)
      reads this`pdrIdHash, this`live, live`conf
    {
      && hashSize > 0 && |pdrIdHash| == hashSize
      && (forall p | p in live :: p in pdrIdHash[IdBucket(p.conf.seid, p.conf.id)])
      && (forall b | 0 <= b < hashSize :: NoDup(pdrIdHash[b]))
      && (forall b, p | 0 <= b < hashSize && p in pdrIdHash[b] && p != x ::
            p in live && b == IdBucket(p.conf.seid, p.conf.id))
      && (forall p, q | p in live && q in live && p.conf.seid == q.conf.seid && p.conf.id == q.conf.id :: p == q)
    }

    ghost predicate FarTableOk()
      reads this`farIdHash, this`fars
    {
      && hashSize > 0 && |farIdHash| == hashSize
      && (forall f | f in fars :: f in farIdHash[IdBucket(f.seid, f.id)])
      && (forall b | 0 <= b < hashSize :: NoDup(farIdHash[b]))
      && (forall b, f | 0 <= b < hashSize && f in farIdHash[b] :: f in fars && b == IdBucket(f.seid, f.id))
      && (forall f, g | f in fars && g in fars && f.seid == g.seid && f.id == g.id :: f == g)
    }

    ghost predicate QerTableOk()
      reads this`qerIdHash, this`qers
    {
      && hashSize > 0 && |qerIdHash| == hashSize
      && (forall q | q in qers :: q in qerIdHash[IdBucket(q.seid, q.id)])
      && (forall b | 0 <= b < hashSize :: NoDup(qerIdHash[b]))
      && (forall b, q | 0 <= b < hashSize && q in qerIdHash[b] :: q in qers && b == IdBucket(q.seid, q.id))
      && (forall q, r | q in qers && r in qers && q.seid == r.seid && q.id == r.id :: q == r)
    }

    /** The FAR table's answer for a key. */
    ghost predicate IsFarOf(f: Far?, seid: u64, id: u32)
      reads this`fars
    {
      if f != null then f in fars && f.seid == seid && f.id == id
      else forall g | g in fars :: g.seid != seid || g.id != id
    }

    ghost function FarAt(seid: u64, id: u32): (f: Far?)
      reads this`fars
      ensures IsFarOf(f, seid, id)
    {
      if exists g :: g in fars && g.seid == seid && g.id == id
      then var g :| g in fars && g.seid == seid && g.id == id; g
      else null
    }

    /** p's cached FAR is the table's answer, and p can be found again from its FAR key. */
    ghost predicate FarCached(p: Pdr)
      reads this`fars, this`relatedFar, p`conf, p`far
    {
      && hashSize > 0 && |relatedFar| == hashSize
      && p.conf.farId.Some?
      && p in relatedFar[IdBucket(p.conf.seid, p.conf.farId.value)]
      && IsFarOf(p.far, p.conf.seid, p.conf.farId.value)
    }

    /** Nodes only lead to PDRs that have been through pdr_fill, which gave them a FAR id. */
    ghost predicate FarNodesOk()
      reads this`known, this`relatedFar, known`conf
    {
      && hashSize > 0 && |relatedFar| == hashSize
      && (forall b, p | 0 <= b < hashSize && p in relatedFar[b] :: p in known && p.conf.farId.Some?)
    }

    /** Every installed PDR has the right FAR cached. */
    ghost predicate FarCacheOk()
      reads this`live, this`known, this`fars, this`relatedFar, known`conf, live`conf, live`far
    {
      FarNodesOk() && live <= known && forall p | p in live :: FarCached(p)
    }

    ghost function QerAt(seid: u64, id: u32): (q: Qer?)
      reads this`qers
      ensures q != null ==> q in qers && q.seid == seid && q.id == id
      ensures q == null ==> forall r | r in qers :: r.seid != seid || r.id != id
    {
      if exists q :: q in qers && q.seid == seid && q.id == id
      then var q :| q in qers && q.seid == seid && q.id == id; q
      else null
    }

    /** Some listed id of the session has its nodes in bucket b. */
    ghost predicate Lists(seid: u64, ids: seq<u32>, b: nat)
      requires hashSize > 0
    {
      exists id :: id in ids && IdBucket(seid, id) == b
    }

    /** x hangs in no other QER buckets than those of the ids listed. */
    ghost predicate NodesUnder(x: Pdr, seid: u64, ids: seq<u32>)
      reads this`relatedQer
    {
      && hashSize > 0 && |relatedQer| == hashSize
      && forall b | 0 <= b < hashSize && x in relatedQer[b] :: Lists(seid, ids, b)
    }

    /** p's rate-enforcing QER is installed, of p's session and listed in p; p can be found again
        from each of its QER ids, and from no bucket but theirs. */
    ghost predicate QerCached(p: Pdr)
      reads this`qers, this`relatedQer, p`conf, p`qerWithRate
    {
      && hashSize > 0 && |relatedQer| == hashSize
      && (forall id | id in p.conf.qerIds :: p in relatedQer[IdBucket(p.conf.seid, id)])
      && NodesUnder(p, p.conf.seid, p.conf.qerIds)
      && (p.qerWithRate != null ==>
            && p.qerWithRate in qers
            && p.qerWithRate.seid == p.conf.seid
            && p.qerWithRate.id in p.conf.qerIds)
    }

    ghost predicate QerCacheOk()
      reads this`live, this`known, this`qers, this`relatedQer, live`conf, live`qerWithRate
    {
      && hashSize > 0 && |relatedQer| == hashSize
      && (forall b, p | 0 <= b < hashSize && p in relatedQer[b] :: p in known)
      && (forall p | p in live :: QerCached(p))
    }

    /** p can be found from each of its URR ids. */
    ghost predicate UrrIndexed(p: Pdr)
      reads this`relatedUrr, p`conf
    {
      && hashSize > 0 && |relatedUrr| == hashSize
      && (forall id | id in p.conf.urrIds :: p in relatedUrr[IdBucket(p.conf.seid, id)])
    }

    ghost predicate UrrIndexOk()
      reads this`live, this`relatedUrr, live`conf
    {
      && hashSize > 0 && |relatedUrr| == hashSize
      && (forall p | p in live :: UrrIndexed(p))
    }

    ghost predicate Ranked(p: Pdr)
      reads this`rank, p`conf
    {
      p in rank && rank[p].precedence == p.conf.precedence
    }

    /** Every list of the F-TEID table is in rank order; it links exactly the installed PDRs
        that have an F-TEID, each in the bucket of its own key. Nothing is said about x. */
    ghost predicate TeidOk(x: Pdr?)
      reads this`teidHash, this`rank, this`live, live`conf
    {
      && hashSize > 0 && |teidHash| == hashSize
      && (forall b | 0 <= b < hashSize :: Ordered(teidHash[b], rank))
      && (forall b, p | 0 <= b < hashSize && p in teidHash[b] && p != x ::
            p in live && p.conf.ByTeid() && b == WordBucket(p.conf.Teid()))
      && (forall p | p in live && p.conf.ByTeid() :: p in teidHash[WordBucket(p.conf.Teid())] && Ranked(p))
    }

    /** The same for UE addresses, which file the PDRs without an F-TEID. */
    ghost predicate AddrOk(x: Pdr?)
      reads this`addrHash, this`rank, this`live, live`conf
    {
      && hashSize > 0 && |addrHash| == hashSize
      && (forall b | 0 <= b < hashSize :: Ordered(addrHash[b], rank))
      && (forall b, p | 0 <= b < hashSize && p in addrHash[b] && p != x ::
            p in live && p.conf.ByAddr() && b == WordBucket(p.conf.Addr()))
      && (forall p | p in live && p.conf.ByAddr() :: p in addrHash[WordBucket(p.conf.Addr())] && Ranked(p))
    }

    ghost predicate ClockOk()
      reads this`rank, this`clock
    {
      forall p | p in rank :: rank[p].stamp < clock
    }

    /** The two detection tables. */
    ghost predicate DetectOk(x: Pdr?)
      reads this`teidHash, this`addrHash, this`rank, this`clock, this`live, live`conf
    {
      TeidOk(x) && AddrOk(x) && ClockOk()
    }

    /** The pointers cached in PDRs and the reverse indexes that keep them right. */
    ghost predicate RelatedOk()
      reads this`live, this`known, this`fars, this`qers, this`relatedFar, this`relatedQer, this`relatedUrr
      reads known`conf, live`conf, live`far, live`qerWithRate
    {
      FarCacheOk() && QerCacheOk() && UrrIndexOk()
    }

    /** x is linked where its own key says, and nowhere else. */
    ghost predicate InTeidByKey(x: Pdr)
      reads this`teidHash, this`rank, x`conf
    {
      && hashSize > 0 && |teidHash| == hashSize
      && (x.conf.ByTeid() ==> Ranked(x))
      && forall b | 0 <= b < hashSize :: x in teidHash[b] <==> x.conf.ByTeid() && b == WordBucket(x.conf.Teid())
    }

    ghost predicate InAddrByKey(x: Pdr)
      reads this`addrHash, this`rank, x`conf
    {
      && hashSize > 0 && |addrHash| == hashSize
      && (x.conf.ByAddr() ==> Ranked(x))
      && forall b | 0 <= b < hashSize :: x in addrHash[b] <==> x.conf.ByAddr() && b == WordBucket(x.conf.Addr())
    }

    /** Everything, while x (which does not count as installed) is being edited. */
    ghost predicate ValidBut(x: Pdr?)
      reads this`pdrIdHash, this`farIdHash, this`qerIdHash, this`teidHash, this`addrHash
      reads this`relatedFar, this`relatedQer, this`relatedUrr
      reads this`live, this`known, this`fars, this`qers, this`rank, this`clock
      reads known`conf, live`conf, live`far, live`qerWithRate
    {
      x !in live && PdrTableOk(x) && FarTableOk() && QerTableOk() && RelatedOk() && DetectOk(x)
    }

    ghost predicate Valid()
      reads this`pdrIdHash, this`farIdHash, this`qerIdHash, this`teidHash, this`addrHash
      reads this`relatedFar, this`relatedQer, this`relatedUrr
      reads this`live, this`known, this`fars, this`qers, this`rank, this`clock
      reads known`conf, live`conf, live`far, live`qerWithRate
    {
      ValidBut(null)
    }

    constructor (hashSize: nat, isUpf: bool, idHash: (u64, u32) -> nat, wordHash: u32 -> nat)
      requires hashSize > 0
      ensures Valid() && live == {} && fars == {} && qers == {} && known == {}
      ensures this.hashSize == hashSize && this.isUpf == isUpf && this.idHash == idHash && this.wordHash == wordHash
      ensures |relatedUrr| == hashSize && forall b | 0 <= b < hashSize :: relatedUrr[b] == []
    {
      this.hashSize, this.isUpf, this.idHash, this.wordHash := hashSize, isUpf, idHash, wordHash;
      pdrIdHash := seq(hashSize, _ => []);
      farIdHash := seq(hashSize, _ => []);
      qerIdHash := seq(hashSize, _ => []);
      teidHash := seq(hashSize, _ => []);
      addrHash := seq(hashSize, _ => []);
      relatedFar := seq(hashSize, _ => []);
      relatedQer := seq(hashSize, _ => []);
      relatedUrr := seq(hashSize, _ => []);
      live, fars, qers, known, rank, clock := {}, {}, {}, {}, map[], 0;
    }

    // ---------- lookups ----------

    method FindPdr(seid: u64, id: u16) returns (r: Pdr?)
      requires PdrTableOk(null)
      ensures r == PdrAt(seid, id)
    {
      var head := pdrIdHash[IdBucket(seid, id)];
      var i := 0;
      while i < |head|
        invariant 0 <= i <= |head|
        invariant forall j | 0 <= j < i :: head[j].conf.seid != seid || head[j].conf.id != id
      {
        if head[i].conf.seid == seid && head[i].conf.id == id { return head[i]; }
        i := i + 1;
      }
      return null;
    }

    method FindFar(seid: u64, id: u32) returns (r: Far?)
      requires FarTableOk()
      ensures r == FarAt(seid, id)
    {
      var head := farIdHash[IdBucket(seid, id)];
      var i := 0;
      while i < |head|
        invariant 0 <= i <= |head|
        invariant forall j | 0 <= j < i :: head[j].seid != seid || head[j].id != id
      {
        if head[i].seid == seid && head[i].id == id { return head[i]; }
        i := i + 1;
      }
      return null;
    }

    method FindQer(seid: u64, id: u32) returns (r: Qer?)
      requires QerTableOk()
      ensures r == QerAt(seid, id)
    {
      var head := qerIdHash[IdBucket(seid, id)];
      var i := 0;
      while i < |head|
        invariant 0 <= i <= |head|
        invariant forall j | 0 <= j < i :: head[j].seid != seid || head[j].id != id
      {
        if head[i].seid == seid && head[i].id == id { return head[i]; }
        i := i + 1;
      }
      return null;
    }

    // ---------- FARs ----------

    /** The loop of far_update and far_context_delete: points every PDR whose node hangs in
        the key's bucket, and whose own key agrees, at f. */
    method PointMatching(seid: u64, id: u32, f: Far?)
      requires FarNodesOk()
      modifies known`far
      ensures forall p | p in known :: p.far ==
                if p in relatedFar[IdBucket(seid, id)] && p.conf.seid == seid && p.conf.farId == Some(id)
                then f else old(p.far)
    {
      var head := relatedFar[IdBucket(seid, id)];
      var i := 0;
      while i < |head|
        invariant 0 <= i <= |head|
        invariant forall p | p in known :: p.far ==
                    if p in head[..i] && p.conf.seid == seid && p.conf.farId == Some(id) then f else old(p.far)
      {
        var p := head[i];
        assert p in head && head[..i + 1] == head[..i] + [p];
        if p.conf.seid == seid && p.conf.farId.value == id {
          p.far := f;
        }
        i := i + 1;
      }
      assert head[..i] == head;
    }

    /** far_context_delete; far need not be installed. */
    method FarContextDelete(far: Far)
      requires FarTableOk() && FarCacheOk()
      requires far in fars || FarAt(far.seid, far.id) == null
      modifies this`farIdHash, this`fars, known`far
      ensures FarTableOk() && FarCacheOk() && fars == old(fars) - {far} && FarAt(far.seid, far.id) == null
    {
      WithoutNoDupAll(farIdHash, far);
      farIdHash := Unlink(farIdHash, far);
      fars := fars - {far};
      PointMatching(far.seid, far.id, null);
    }

    /** p's cached FAR is right once far has joined the table. */
    ghost predicate FarCachedWith(p: Pdr, far: Far)
      reads this`fars, this`relatedFar, p`conf, p`far
    {
      && hashSize > 0 && |relatedFar| == hashSize
      && p.conf.farId.Some?
      && p in relatedFar[IdBucket(p.conf.seid, p.conf.farId.value)]
      && if p.conf.seid == far.seid && p.conf.farId.value == far.id then p.far == far
         else IsFarOf(p.far, p.conf.seid, p.conf.farId.value)
    }

    /** far_append */
    method FarAppend(far: Far)
      requires FarTableOk() && FarAt(far.seid, far.id) == null
      requires FarNodesOk() && live <= known && forall p | p in live :: FarCachedWith(p, far)
      modifies this`farIdHash, this`fars
      ensures FarTableOk() && FarCacheOk() && fars == old(fars) + {far}
    {
      var b := IdBucket(far.seid, far.id);
      assert far !in farIdHash[b];
      AddHeadNoDup(farIdHash, b, far);
      hide NoDup, AddHead;
      farIdHash := AddHead(farIdHash, b, far);
      fars := fars + {far};
    }

    /** far_fill: assigns the attributes, then links every PDR waiting for this FAR. */
    method FarFill(far: Far, a: FarAttrs) returns (ok: bool, marker: Option<EndMarker>)
      requires FarNodesOk()
      modifies far`action, far`fwd, known`far
      ensures far.action == FarAction(old(far.action), a)
      ensures var e := FarFwd(old(far.fwd), a); far.fwd == e.fwd && ok == e.ok && (ok ==> marker == e.marker)
      ensures forall p | p in known :: p.far ==
                if ok && p in relatedFar[IdBucket(far.seid, far.id)]
                   && p.conf.seid == far.seid && p.conf.farId == Some(far.id)
                then far else old(p.far)
    {
      marker := None;
      if a.action.Some? {
        match a.action.value {
          case Bytes(v) => far.action := v;
          case BadLength =>
        }
      }
      if a.fwd.Some? {
        var e := FillFwd(far.fwd, a.fwd.value);
        far.fwd := e.fwd;
        if !e.ok { return false, None; }
        marker := e.marker;
      }
      PointMatching(far.seid, far.id, far);
      return true, marker;
    }

    /** gtp5g_genl_add_far for a FAR that is already installed. */
    method ReplaceFar(f: Far, a: FarAttrs) returns (st: Status, marker: Option<EndMarker>)
      requires FarTableOk() && FarCacheOk() && f in fars
      modifies this`farIdHash, this`fars, known`far, f`action, f`fwd
      ensures FarTableOk() && FarCacheOk()
      ensures f.action == FarAction(old(f.action), a) && f.fwd == FarFwd(old(f.fwd), a).fwd
      ensures if FarFwd(old(f.fwd), a).ok
              then st == Done && fars == old(fars) && marker == FarFwd(old(f.fwd), a).marker
              else st == Invalid && fars == old(fars) - {f} && marker == None
    {
      var ok;
      ok, marker := FarFill(f, a);
      if ok { return Done, marker; }
      FarContextDelete(f);
      return Invalid, None;
    }

    /** gtp5g_genl_add_far for a key that is not in use. */
    method CreateFar(seid: u64, id: u32, a: FarAttrs) returns (st: Status)
      requires FarTableOk() && FarCacheOk() && FarAt(seid, id) == null
      modifies this`farIdHash, this`fars, known`far
      ensures FarTableOk() && FarCacheOk()
      ensures if FarFwd(None, a).ok
              then st == Done && var f := FarAt(seid, id);
                   f != null && fresh(f) && fars == old(fars) + {f}
                   && f.action == FarAction(0, a) && f.fwd == FarFwd(None, a).fwd
              else st == Invalid && fars == old(fars)
    {
      var far := new Far(seid, id);
      var ok, _ := FarFill(far, a);
      if !ok {
        FarContextDelete(far);
        return Invalid;
      }
      FarAppend(far);
      return Done;
    }

    /** gtp5g_genl_add_far */
    method AddFar(nl: Flags, seid: u64, id: u32, a: FarAttrs) returns (st: Status, marker: Option<EndMarker>)
      requires Valid()
      modifies this`farIdHash, this`fars, known`far, fars`action, fars`fwd
      ensures Valid()
      ensures old(FarAt(seid, id)) != null ==>
                var f := old(FarAt(seid, id));
                var e := FarFwd(old(f.fwd), a);
                if nl.excl || !nl.replace then
                  st == (if nl.excl then Exists else Unsupported) && fars == old(fars) && marker == None
                  && f.action == old(f.action) && f.fwd == old(f.fwd)
                else if e.ok then
                  st == Done && fars == old(fars) && marker == e.marker
                  && f.action == FarAction(old(f.action), a) && f.fwd == e.fwd
                else st == Invalid && fars == old(fars) - {f} && marker == None
      ensures old(FarAt(seid, id)) == null ==>
                marker == None &&
                if nl.replace then st == NotFound && fars == old(fars)
                else if nl.append then st == Unsupported && fars == old(fars)
                else if a.action.None? || !FarFwd(None, a).ok then st == Invalid && fars == old(fars)
                else st == Done && var f := FarAt(seid, id);
                     f != null && fresh(f) && fars == old(fars) + {f}
                     && f.action == FarAction(0, a) && f.fwd == FarFwd(None, a).fwd
      ensures forall f | f in old(fars) && f != old(FarAt(seid, id)) :: f.action == old(f.action) && f.fwd == old(f.fwd)
    {
      hide PdrTableOk, FarTableOk, QerTableOk, FarCacheOk, QerCacheOk, UrrIndexOk, DetectOk, FarFwd, FarAction;
      var found := FindFar(seid, id);
      if found != null {
        if nl.excl { return Exists, None; }
        if !nl.replace { return Unsupported, None; }
        st, marker := ReplaceFar(found, a);
        return;
      }
      if nl.replace { return NotFound, None; }
      if nl.append { return Unsupported, None; }
      if a.action.None? { return Invalid, None; }
      st := CreateFar(seid, id, a);
      return st, None;
    }

    /** gtp5g_genl_del_far */
    method DelFar(seid: u64, id: u32) returns (st: Status)
      requires Valid()
      modifies this`farIdHash, this`fars, known`far
      ensures Valid() && FarAt(seid, id) == null
      ensures if old(FarAt(seid, id)) == null then st == NotFound && fars == old(fars)
              else st == Done && fars == old(fars) - {old(FarAt(seid, id))}
    {
      hide PdrTableOk, FarTableOk, QerTableOk, FarCacheOk, QerCacheOk, UrrIndexOk, DetectOk, FarFwd, FarAction;
      var far := FindFar(seid, id);
      if far == null { return NotFound; }
      FarContextDelete(far);
      return Done;
    }

    // ---------- reverse indexes ----------

    /** The scan of del_related_*_hash in one bucket: deletes the first node whose PDR
        carries x's key, if there is one. */
    method DropNode(t: seq<seq<Pdr>>, b: nat, x: Pdr) returns (r: seq<seq<Pdr>>)
      requires b < |t|
      ensures |r| == |t| && forall c | 0 <= c < |t| && c != b :: r[c] == t[c]
      ensures forall p | p in r[b] :: p in t[b]
      ensures forall p | p in t[b] && (p.conf.seid != x.conf.seid || p.conf.id != x.conf.id) :: p in r[b]
      ensures if exists p :: p in t[b] && p.conf.seid == x.conf.seid && p.conf.id == x.conf.id
              then |r[b]| == |t[b]| - 1 else r == t
    {
      var head := t[b];
      var i := 0;
      while i < |head|
        invariant 0 <= i <= |head|
        invariant forall j | 0 <= j < i :: head[j].conf.seid != x.conf.seid || head[j].conf.id != x.conf.id
      {
        if head[i].conf.seid == x.conf.seid && head[i].conf.id == x.conf.id {
          assert head == head[..i] + [head[i]] + head[i + 1..];
          return t[b := head[..i] + head[i + 1..]];
        }
        i := i + 1;
      }
      return t;
    }

    /** del_related_qer_hash and del_related_urr_hash: one node per listed id. */
    method DropNodes(t: seq<seq<Pdr>>, ids: seq<u32>, x: Pdr) returns (r: seq<seq<Pdr>>)
      requires hashSize > 0 && |t| == hashSize
      ensures |r| == |t| && forall b | 0 <= b < |t| :: |r[b]| <= |t[b]|
      ensures forall b, p | 0 <= b < |t| && p in r[b] :: p in t[b]
      ensures forall b, p | 0 <= b < |t| && p in t[b] && (p.conf.seid != x.conf.seid || p.conf.id != x.conf.id) ::
                p in r[b]
    {
      r := t;
      var j := 0;
      while j < |ids|
        invariant 0 <= j <= |ids| && |r| == |t| && forall b | 0 <= b < |t| :: |r[b]| <= |t[b]|
        invariant forall b, p | 0 <= b < |t| && p in r[b] :: p in t[b]
        invariant forall b, p | 0 <= b < |t| && p in t[b] && (p.conf.seid != x.conf.seid || p.conf.id != x.conf.id) ::
                    p in r[b]
      {
        var b := IdBucket(x.conf.seid, ids[j]);
        var next := DropNode(r, b, x);
        assert |next[b]| <= |r[b]|;
        forall c, p | 0 <= c < |t| && p in next[c] ensures p in t[c] {
          assert c != b ==> next[c] == r[c];
          assert p in r[c];
        }
        forall c, p | 0 <= c < |t| && p in t[c] && (p.conf.seid != x.conf.seid || p.conf.id != x.conf.id)
          ensures p in next[c]
        {
          assert p in r[c];
          assert c != b ==> next[c] == r[c];
        }
        r := next;
        j := j + 1;
      }
    }

    /** qer_set_pdr and urr_set_pdr: drops x's old nodes and adds one for every listed id,
        so several ids in one bucket give several nodes there. */
    method Reindex(t: seq<seq<Pdr>>, ids: seq<u32>, x: Pdr) returns (r: seq<seq<Pdr>>)
      requires hashSize > 0 && |t| == hashSize
      ensures |r| == |t| && forall b | 0 <= b < |t| :: |r[b]| <= |t[b]| + |ids|
      ensures forall b, p | 0 <= b < |t| && p in r[b] :: p in t[b] || p == x
      ensures forall b, p | 0 <= b < |t| && p in t[b] && (p.conf.seid != x.conf.seid || p.conf.id != x.conf.id) ::
                p in r[b]
      ensures forall id | id in ids :: x in r[IdBucket(x.conf.seid, id)]
      ensures forall b | 0 <= b < |t| && x in r[b] :: x in t[b] || Lists(x.conf.seid, ids, b)
    {
      r := DropNodes(t, ids, x);
      var j := 0;
      while j < |ids|
        invariant 0 <= j <= |ids| && |r| == |t| && forall b | 0 <= b < |t| :: |r[b]| <= |t[b]| + j
        invariant forall b, p | 0 <= b < |t| && p in r[b] :: p in t[b] || p == x
        invariant forall b, p | 0 <= b < |t| && p in t[b] && (p.conf.seid != x.conf.seid || p.conf.id != x.conf.id) ::
                    p in r[b]
        invariant forall i | 0 <= i < j :: x in r[IdBucket(x.conf.seid, ids[i])]
        invariant forall b | 0 <= b < |t| && x in r[b] :: x in t[b] || Lists(x.conf.seid, ids, b)
      {
        var b := IdBucket(x.conf.seid, ids[j]);
        assert ids[j] in ids;
        var next := AddHead(r, b, x);
        assert forall c, p | 0 <= c < |t| && p in r[c] :: p in next[c];
        r := next;
        j := j + 1;
      }
    }

    /** far_set_pdr */
    method FarSetPdr(x: Pdr)
      requires FarCacheOk() && x in known && x !in live && KeysDiffer(x) && x.conf.farId.Some?
      modifies this`relatedFar
      ensures FarCacheOk() && x in relatedFar[IdBucket(x.conf.seid, x.conf.farId.value)]
    {
      var b := IdBucket(x.conf.seid, x.conf.farId.value);
      var t := DropNode(relatedFar, b, x);
      relatedFar := AddHead(t, b, x);
    }

    /** No URR bucket has gained other nodes than x's, nor more than n. */
    twostate predicate UrrNodesGrow(new x: Pdr, new n: nat)
      reads this
    {
      && |relatedUrr| == |old(relatedUrr)|
      && (forall b | 0 <= b < |relatedUrr| :: |relatedUrr[b]| <= |old(relatedUrr)[b]| + n)
      && (forall b, p | 0 <= b < |relatedUrr| && p in relatedUrr[b] :: p in old(relatedUrr)[b] || p == x)
    }

    method UrrSetPdr(x: Pdr)
      requires UrrIndexOk() && x !in live && KeysDiffer(x)
      modifies this`relatedUrr
      ensures UrrIndexOk() && UrrIndexed(x) && UrrNodesGrow(x, |x.conf.urrIds|)
    {
      relatedUrr := Reindex(relatedUrr, x.conf.urrIds, x);
    }

    method QerSetPdr(x: Pdr)
      requires QerCacheOk() && x in known && x !in live && KeysDiffer(x)
      requires NodesUnder(x, x.conf.seid, x.conf.qerIds)
      modifies this`relatedQer
      ensures NodesUnder(x, x.conf.seid, x.conf.qerIds)
      ensures QerCacheOk() && forall id | id in x.conf.qerIds :: x in relatedQer[IdBucket(x.conf.seid, id)]
    {
      relatedQer := Reindex(relatedQer, x.conf.qerIds, x);
    }

    method DelRelatedFar(x: Pdr)
      requires FarCacheOk() && x !in live && KeysDiffer(x) && x.conf.farId.Some?
      modifies this`relatedFar
      ensures FarCacheOk()
    {
      relatedFar := DropNode(relatedFar, IdBucket(x.conf.seid, x.conf.farId.value), x);
    }

    method DelRelatedQer(x: Pdr)
      requires QerCacheOk() && x !in live && KeysDiffer(x)
      modifies this`relatedQer
      ensures QerCacheOk()
    {
      relatedQer := DropNodes(relatedQer, x.conf.qerIds, x);
    }

    method DelRelatedUrr(x: Pdr)
      requires UrrIndexOk() && x !in live && KeysDiffer(x)
      modifies this`relatedUrr
      ensures UrrIndexOk()
    {
      relatedUrr := DropNodes(relatedUrr, x.conf.urrIds, x);
    }

    // ---------- the QER that enforces a PDR's rate ----------

    ghost predicate Rated(seid: u64, id: u32)
      reads this`qers, qers`hasPolicers
    {
      QerAt(seid, id) != null && QerAt(seid, id).hasPolicers
    }

    /** The last of the first n listed QERs that has policers. */
    ghost function LastRated(seid: u64, ids: seq<u32>, n: nat): (r: Qer?)
      requires n <= |ids|
      reads this`qers, qers`hasPolicers
    {
      if n == 0 then null
      else if Rated(seid, ids[n - 1]) then QerAt(seid, ids[n - 1])
      else LastRated(seid, ids, n - 1)
    }

    /** The last listed QER with policers enforces x's rate; without one, the earlier choice
        stays. */
    ghost predicate RateChosen(x: Pdr, before: Qer?)
      reads this`qers, qers`hasPolicers, x`conf, x`qerWithRate
    {
      var q := LastRated(x.conf.seid, x.conf.qerIds, |x.conf.qerIds|);
      x.qerWithRate == if q != null then q else before
    }

    /** The QER loop of pdr_fill: the last listed QER with policers enforces the rate, and
        the old choice stays when there is none. */
    method SelectQer(x: Pdr)
      requires QerTableOk()
      modifies x`qerWithRate
      ensures RateChosen(x, old(x.qerWithRate))
    {
      var rate := x.qerWithRate;
      var i := 0;
      var ids, s := x.conf.qerIds, x.conf.seid;
      while i < |ids|
        invariant 0 <= i <= |ids|
        invariant var q := LastRated(s, ids, i); rate == if q != null then q else x.qerWithRate
        modifies {}
      {
        var qer := FindQer(s, ids[i]);
        if qer != null && qer.hasPolicers { rate := qer; }
        i := i + 1;
      }
      x.qerWithRate := rate;
    }

    /** Whatever SelectQer picks is an installed, listed QER of the session. */
    lemma {:induction false} LastRatedListed(seid: u64, ids: seq<u32>, n: nat)
      requires n <= |ids|
      ensures var q := LastRated(seid, ids, n);
              q != null ==> q in qers && q.seid == seid && q.id in ids && q.hasPolicers
    {
      if n > 0 && !Rated(seid, ids[n - 1]) { LastRatedListed(seid, ids, n - 1); }
    }

    // ---------- detection tables ----------

    method UnlinkTeid(x: Pdr)
      requires TeidOk(x) && x !in live
      modifies this`teidHash
      ensures TeidOk(null)
    {
      WithoutOrderedAll(teidHash, x, rank);
      teidHash := Unlink(teidHash, x);
    }

    method UnlinkAddr(x: Pdr)
      requires AddrOk(x) && x !in live
      modifies this`addrHash
      ensures AddrOk(null)
    {
      WithoutOrderedAll(addrHash, x, rank);
      addrHash := Unlink(addrHash, x);
    }

    /** The scan of pdr_update_hlist_table: how many entries stay ahead of x. */
    method InsertionPoint(head: seq<Pdr>, x: Pdr) returns (k: nat)
      ensures k <= |head|
      ensures forall i | 0 <= i < k :: head[i].conf.precedence < x.conf.precedence
      ensures k < |head| ==> x.conf.precedence <= head[k].conf.precedence
    {
      k := 0;
      while k < |head| && x.conf.precedence > head[k].conf.precedence
        invariant 0 <= k <= |head|
        invariant forall i | 0 <= i < k :: head[i].conf.precedence < x.conf.precedence
      {
        k := k + 1;
      }
    }

    /** Nothing but the rank of x, which is not installed, changes. */
    twostate predicate OnlyRankChanges(x: Pdr)
      reads this, live
    {
      && live == old(live) && x !in live && (forall p | p in live :: unchanged(p))
      && unchanged(this`teidHash, this`addrHash) && x in rank && rank == old(rank)[x := rank[x]]
    }

    twostate lemma RerankTeid(x: Pdr)
      requires OnlyRankChanges(x) && old(TeidOk(null))
      ensures TeidOk(null)
    {
      assert forall b | 0 <= b < hashSize :: Ordered(teidHash[b], old(rank)) && x !in teidHash[b];
      OrderedFrameAll(teidHash, old(rank), x, rank[x]);
      hide Ordered;
      assert forall b | 0 <= b < hashSize :: Ordered(teidHash[b], rank);
      forall b, p | 0 <= b < hashSize && p in teidHash[b]
        ensures p in live && p.conf.ByTeid() && b == WordBucket(p.conf.Teid())
      {
        assert p in old(teidHash)[b];
        assert old(p in live && p.conf.ByTeid() && b == WordBucket(p.conf.Teid()));
        assert unchanged(p);
      }
      forall p | p in live && p.conf.ByTeid()
        ensures p in teidHash[WordBucket(p.conf.Teid())] && Ranked(p)
      {
        assert unchanged(p) && old(Ranked(p));
      }
    }

    twostate lemma RerankAddr(x: Pdr)
      requires OnlyRankChanges(x) && old(AddrOk(null))
      ensures AddrOk(null)
    {
      assert forall b | 0 <= b < hashSize :: Ordered(addrHash[b], old(rank)) && x !in addrHash[b];
      OrderedFrameAll(addrHash, old(rank), x, rank[x]);
      hide Ordered;
      assert forall b | 0 <= b < hashSize :: Ordered(addrHash[b], rank);
      forall b, p | 0 <= b < hashSize && p in addrHash[b]
        ensures p in live && p.conf.ByAddr() && b == WordBucket(p.conf.Addr())
      {
        assert p in old(addrHash)[b];
        assert old(p in live && p.conf.ByAddr() && b == WordBucket(p.conf.Addr()));
        assert unchanged(p);
      }
      forall p | p in live && p.conf.ByAddr()
        ensures p in addrHash[WordBucket(p.conf.Addr())] && Ranked(p)
      {
        assert unchanged(p) && old(Ranked(p));
      }
    }

    /** Re-ranking x, which is in no list, keeps every list in order. */
    ghost method Stamp(x: Pdr)
      requires DetectOk(null) && x !in live
      modifies this`rank, this`clock
      ensures DetectOk(null)
      ensures rank == old(rank)[x := Rank(x.conf.precedence, old(clock))] && clock == old(clock) + 1
    {
      rank := rank[x := Rank(x.conf.precedence, clock)];
      clock := clock + 1;
      RerankTeid(x);
      RerankAddr(x);
    }

    /** The head of a detection list with x put in its place. */
    method Place(head: seq<Pdr>, x: Pdr) returns (r: seq<Pdr>)
      requires Ordered(head, rank) && x !in head
      requires forall p | p in head :: rank[p].precedence == p.conf.precedence
      requires forall p | p in rank :: rank[p].stamp < clock
      ensures Ordered(r, rank[x := Rank(x.conf.precedence, clock)])
      ensures exists k :: 0 <= k <= |head| && r == head[..k] + [x] + head[k..]
      ensures forall p | p in r :: p in head || p == x
      ensures x in r && forall p | p in head :: p in r
    {
      var k := InsertionPoint(head, x);
      r := head[..k] + [x] + head[k..];
      OrderedInsert(head, rank, x, k, Rank(x.conf.precedence, clock));
      assert forall i | 0 <= i < |head| :: head[i] == r[if i < k then i else i + 1];
      assert r[k] == x;
    }

    method LinkTeid(x: Pdr)
      requires DetectOk(null) && x !in live && x.conf.ByTeid()
      modifies this`teidHash, this`rank, this`clock
      ensures TeidOk(x) && InTeidByKey(x) && AddrOk(null) && ClockOk()
      ensures rank == old(rank)[x := Rank(x.conf.precedence, old(clock))] && clock == old(clock) + 1
    {
      var b := WordBucket(x.conf.Teid());
      var list := Place(teidHash[b], x);
      Stamp(x);
      PutTeid(x, b, list);
    }

    method PutTeid(x: Pdr, b: nat, list: seq<Pdr>)
      requires TeidOk(null) && x !in live && x.conf.ByTeid() && b == WordBucket(x.conf.Teid()) && Ranked(x)
      requires Ordered(list, rank) && x in list
      requires (forall p | p in list :: p in teidHash[b] || p == x) && forall p | p in teidHash[b] :: p in list
      modifies this`teidHash
      ensures TeidOk(x) && InTeidByKey(x)
    {
      teidHash := teidHash[b := list];
    }

    method LinkAddr(x: Pdr)
      requires DetectOk(null) && x !in live && x.conf.ByAddr()
      modifies this`addrHash, this`rank, this`clock
      ensures TeidOk(null) && AddrOk(x) && InAddrByKey(x) && ClockOk()
      ensures rank == old(rank)[x := Rank(x.conf.precedence, old(clock))] && clock == old(clock) + 1
    {
      var b := WordBucket(x.conf.Addr());
      var list := Place(addrHash[b], x);
      Stamp(x);
      PutAddr(x, b, list);
    }

    method PutAddr(x: Pdr, b: nat, list: seq<Pdr>)
      requires AddrOk(null) && x !in live && x.conf.ByAddr() && b == WordBucket(x.conf.Addr()) && Ranked(x)
      requires Ordered(list, rank) && x in list
      requires (forall p | p in list :: p in addrHash[b] || p == x) && forall p | p in addrHash[b] :: p in list
      modifies this`addrHash
      ensures AddrOk(x) && InAddrByKey(x)
    {
      addrHash := addrHash[b := list];
    }

    /** x, if it is filed at all, has just been ranked as the most recent of its precedence;
        nobody else's rank moved. */
    ghost predicate RankedLast(x: Pdr, before: map<Pdr, Rank>, now: nat)
      reads this`rank, this`clock, x`conf
    {
      if x.conf.ByTeid() || x.conf.ByAddr()
      then rank == before[x := Rank(x.conf.precedence, now)] && clock == now + 1
      else rank == before && clock == now
    }

    lemma NotInTeid(x: Pdr)
      requires TeidOk(null) && x !in live
      ensures TeidOk(x) && (!x.conf.ByTeid() ==> InTeidByKey(x))
    {}

    lemma NotInAddr(x: Pdr)
      requires AddrOk(null) && x !in live
      ensures AddrOk(x) && (!x.conf.ByAddr() ==> InAddrByKey(x))
    {}

    /** pdr_update_hlist_table: refiles x by its present key and precedence, ahead of its
        equals, however its old links came about. */
    method UpdateHlist(x: Pdr)
      requires DetectOk(x) && x !in live
      modifies this`teidHash, this`addrHash, this`rank, this`clock
      ensures DetectOk(x) && InTeidByKey(x) && InAddrByKey(x)
      ensures RankedLast(x, old(rank), old(clock))
    {
      UnlinkTeid(x);
      UnlinkAddr(x);
      if x.conf.ByTeid() {
        LinkTeid(x);
        NotInAddr(x);
      } else if x.conf.ByAddr() {
        LinkAddr(x);
        NotInTeid(x);
      } else {
        NotInTeid(x);
        NotInAddr(x);
      }
    }

    method UnlinkId(x: Pdr)
      requires PdrTableOk(x) && x !in live
      modifies this`pdrIdHash
      ensures PdrTableOk(null)
    {
      WithoutNoDupAll(pdrIdHash, x);
      pdrIdHash := Unlink(pdrIdHash, x);
    }

    method UnlinkDetection(x: Pdr)
      requires DetectOk(x) && x !in live
      modifies this`teidHash, this`addrHash
      ensures DetectOk(null)
    {
      UnlinkTeid(x);
      UnlinkAddr(x);
    }

    /** pdr_context_delete: unlinks x from the id table and both detection tables. */
    method PdrContextDelete(x: Pdr)
      requires ValidBut(x)
      modifies this`pdrIdHash, this`teidHash, this`addrHash
      ensures Valid()
    {
      hide PdrTableOk, FarTableOk, QerTableOk, RelatedOk, DetectOk;
      UnlinkDetection(x);
      UnlinkId(x);
    }

    // ---------- PDRs ----------

    /** The attribute loop of pdr_fill: edits x in place and stops at a refused attribute. */
    method ApplyAttributes(x: Pdr, attrs: seq<PdrAttr>) returns (ok: bool)
      modifies x`conf
      ensures x.conf == Fill(old(x.conf), attrs).now && ok == Fill(old(x.conf), attrs).ok
    {
      ghost var c := x.conf;
      x.conf := x.conf.(seid := 0);
      var k := 0;
      while k < |attrs|
        invariant 0 <= k <= |attrs|
        invariant Fill(c, attrs[..k]) == Edit(x.conf, true)
      {
        assert attrs[..k + 1][..k] == attrs[..k];
        var e := ApplyAttr(x.conf, attrs[k]);
        x.conf := e.now;
        if !e.ok {
          FillStuck(c, attrs, k + 1);
          return false;
        }
        k := k + 1;
      }
      assert attrs[..k] == attrs;
      return true;
    }

    method LinkFar(x: Pdr) returns (far: Far?)
      requires FarTableOk() && FarCacheOk() && x in known && x !in live && KeysDiffer(x)
      requires x.conf.farId.Some?
      modifies this`relatedFar, x`far
      ensures FarCacheOk() && far == FarAt(x.conf.seid, x.conf.farId.value)
      ensures if far != null then FarCached(x) else x.far == old(x.far)
    {
      far := FindFar(x.conf.seid, x.conf.farId.value);
      if far == null { return; }
      x.far := far;
      FarSetPdr(x);
    }

    /** x's rate-enforcing QER, if it has one, is an installed QER that x lists. */
    ghost predicate RateListed(x: Pdr)
      reads this`qers, x`conf, x`qerWithRate
    {
      x.qerWithRate != null ==>
        x.qerWithRate in qers && x.qerWithRate.seid == x.conf.seid && x.qerWithRate.id in x.conf.qerIds
    }

    method LinkQers(x: Pdr)
      requires QerTableOk() && QerCacheOk() && x in known && x !in live && KeysDiffer(x)
      requires RateListed(x) && NodesUnder(x, x.conf.seid, x.conf.qerIds)
      modifies this`relatedQer, x`qerWithRate
      ensures QerCacheOk() && QerCached(x)
      ensures RateChosen(x, old(x.qerWithRate))
    {
      QerSetPdr(x);
      LastRatedListed(x.conf.seid, x.conf.qerIds, |x.conf.qerIds|);
      SelectQer(x);
    }

    method LinkIndexes(x: Pdr)
      requires QerTableOk() && QerCacheOk() && UrrIndexOk()
      requires x in known && x !in live && KeysDiffer(x) && RateListed(x)
      requires NodesUnder(x, x.conf.seid, x.conf.qerIds)
      modifies this`relatedQer, this`relatedUrr, x`qerWithRate
      ensures QerCacheOk() && UrrIndexOk() && QerCached(x) && UrrIndexed(x) && UrrNodesGrow(x, |x.conf.urrIds|)
      ensures RateChosen(x, old(x.qerWithRate))
    {
      UrrSetPdr(x);
      LinkQers(x);
    }

    method LinkRules(x: Pdr) returns (ok: bool)
      requires FarTableOk() && QerTableOk() && RelatedOk()
      requires x in known && x !in live && KeysDiffer(x) && x.conf.farId.Some? && RateListed(x)
      requires NodesUnder(x, x.conf.seid, x.conf.qerIds)
      modifies this`relatedFar, this`relatedQer, this`relatedUrr, x`far, x`qerWithRate
      ensures RelatedOk()
      ensures ok == (FarAt(x.conf.seid, x.conf.farId.value) != null)
      ensures ok ==> FarCached(x) && QerCached(x) && UrrIndexed(x) && UrrNodesGrow(x, |x.conf.urrIds|)
      ensures ok ==> RateChosen(x, old(x.qerWithRate))
    {
      hide QerTableOk, FarTableOk, QerCacheOk, UrrIndexOk, FarCacheOk, FarCached, QerCached, UrrIndexed, RateChosen,
           KeysDiffer, RateListed, NodesUnder;
      var far := LinkFar(x);
      if far == null { return false; }
      LinkIndexes(x);
      return true;
    }

    /** Editing a PDR that does not count as installed leaves the caches right. */
    method EditConf(x: Pdr, attrs: seq<PdrAttr>) returns (ok: bool)
      requires RelatedOk() && x !in live
      modifies x`conf
      ensures RelatedOk()
      ensures x.conf == Fill(old(x.conf), attrs).now && ok == Fill(old(x.conf), attrs).ok
    {
      FillKeepsKey(x.conf, attrs);
      ok := ApplyAttributes(x, attrs);
    }

    ghost predicate KeyFree(seid: u64, id: u16)
      reads this`live, live`conf
    {
      forall p | p in live :: p.conf.seid != seid || p.conf.id != id
    }

    /** What pdr_fill leaves behind when it goes through. */
    ghost predicate Linked(x: Pdr)
      reads this`fars, this`relatedFar, this`qers, this`relatedQer, this`relatedUrr
      reads this`teidHash, this`addrHash, this`rank, x
    {
      FarCached(x) && QerCached(x) && UrrIndexed(x) && InTeidByKey(x) && InAddrByKey(x)
    }

    /** The part of pdr_fill behind the attribute loop. */
    method LinkPdr(x: Pdr, sockOk: bool) returns (ok: bool)
      requires FarTableOk() && QerTableOk() && RelatedOk()
      requires DetectOk(x)
      requires x in known && x !in live && KeysDiffer(x) && x.conf.farId.Some? && RateListed(x)
      requires NodesUnder(x, x.conf.seid, x.conf.qerIds)
      modifies this`relatedFar, this`relatedQer, this`relatedUrr, this`teidHash, this`addrHash, this`rank, this`clock
      modifies x`far, x`qerWithRate
      ensures RelatedOk() && DetectOk(x)
      ensures ok == (FarAt(x.conf.seid, x.conf.farId.value) != null && sockOk)
      ensures ok ==> Linked(x) && RankedLast(x, old(rank), old(clock)) && RateChosen(x, old(x.qerWithRate))
      ensures ok ==> UrrNodesGrow(x, |x.conf.urrIds|)
    {
      hide RelatedOk, DetectOk, FarTableOk, QerTableOk, FarCached, QerCached, UrrIndexed, InTeidByKey, InAddrByKey;
      hide KeysDiffer, RateListed, RankedLast, FarAt, RateChosen, NodesUnder;
      ok := LinkRules(x);
      if !ok { return false; }
      if !sockOk { return false; }
      UpdateHlist(x);
    }

    /** Whether a request with these attributes goes through for a PDR configured as c. */
    ghost predicate FillsOk(c: PdrConf, attrs: seq<PdrAttr>, sockOk: bool)
      reads this`fars
    {
      var e := Fill(c, attrs);
      e.ok && e.now.farId.Some? && FarAt(SeidOf(attrs), e.now.farId.value) != null && sockOk
    }

    lemma NodesUnderMore(x: Pdr, seid: u64, ids: seq<u32>, more: seq<u32>)
      requires NodesUnder(x, seid, ids) && ids <= more
      ensures NodesUnder(x, seid, more)
    {
      forall b | 0 <= b < hashSize && x in relatedQer[b] ensures Lists(seid, more, b) {
        var id :| id in ids && IdBucket(seid, id) == b;
        assert id in more;
      }
    }

    /** pdr_fill: what it does to x depends on the attributes alone, and it goes through
        exactly when the attributes do, the FAR exists and the socket can be set up. */
    method PdrFill(x: Pdr, attrs: seq<PdrAttr>, sockOk: bool) returns (ok: bool)
      requires ValidBut(x) && x in known && RateListed(x)
      requires IdOf(attrs).Some? && KeyFree(SeidOf(attrs), IdOf(attrs).value)
      requires x.qerWithRate != null ==> x.conf.seid == SeidOf(attrs)
      requires x.conf.farId.Some? || HasFarId(attrs)
      requires NodesUnder(x, SeidOf(attrs), x.conf.qerIds)
      modifies this`relatedFar, this`relatedQer, this`relatedUrr, this`teidHash, this`addrHash, this`rank, this`clock
      modifies x
      ensures ValidBut(x)
      ensures x.conf == Fill(old(x.conf), attrs).now
      ensures ok == FillsOk(old(x.conf), attrs, sockOk)
      ensures ok ==> Linked(x) && RankedLast(x, old(rank), old(clock)) && RateChosen(x, old(x.qerWithRate))
      ensures ok ==> UrrNodesGrow(x, |x.conf.urrIds|)
      ensures ok ==> x.conf.seid == SeidOf(attrs) && x.conf.id == IdOf(attrs).value
    {
      hide PdrTableOk, FarTableOk, QerTableOk, RelatedOk, DetectOk, Linked, Fill, SeidOf, IdOf, HasFarId, RateChosen;
      FillKeepsKey(x.conf, attrs);
      ghost var seid, ids := SeidOf(attrs), x.conf.qerIds;
      ok := EditConf(x, attrs);
      if ok {
        NodesUnderMore(x, seid, ids, x.conf.qerIds);
        ok := LinkPdr(x, sockOk);
      }
    }

    /** x hangs in the id bucket of the key and in no other. */
    ghost predicate InIdByKey(x: Pdr, seid: u64, id: u16)
      reads this`pdrIdHash
    {
      hashSize > 0 && |pdrIdHash| == hashSize
                && forall b | 0 <= b < hashSize :: x in pdrIdHash[b] <==> b == IdBucket(seid, id)
    }

    /** Nothing but the set of installed PDRs changes. */
    twostate predicate OnlyLiveChanges()
      reads this, known
    {
      && known == old(known) && (forall p | p in known :: unchanged(p))
      && unchanged(this`pdrIdHash, this`teidHash, this`addrHash, this`relatedFar, this`relatedQer, this`relatedUrr)
      && unchanged(this`fars, this`qers, this`rank, this`clock)
    }

    twostate lemma ShrinkIds(x: Pdr)
      requires OnlyLiveChanges() && old(PdrTableOk(null)) && x in old(live) && live == old(live) - {x} && x in known
      requires old(live) <= known
      ensures PdrTableOk(x) && KeyFree(x.conf.seid, x.conf.id) && InIdByKey(x, x.conf.seid, x.conf.id)
    {}

    twostate lemma ShrinkRelated(x: Pdr)
      requires OnlyLiveChanges() && old(RelatedOk()) && x in old(live) && live == old(live) - {x}
      ensures RelatedOk() && x in known && RateListed(x) && x.conf.farId.Some?
      ensures NodesUnder(x, x.conf.seid, x.conf.qerIds)
    {
      assert old(FarCached(x)) && old(QerCached(x));
    }

    twostate lemma ShrinkTeid(x: Pdr)
      requires OnlyLiveChanges() && old(TeidOk(null)) && x in old(live) && live == old(live) - {x} && x in known
      requires old(live) <= known
      ensures TeidOk(x)
    {
      hide Ordered;
    }

    twostate lemma ShrinkAddr(x: Pdr)
      requires OnlyLiveChanges() && old(AddrOk(null)) && x in old(live) && live == old(live) - {x} && x in known
      requires old(live) <= known
      ensures AddrOk(x)
    {
      hide Ordered;
    }

    twostate lemma ShrinkDetection(x: Pdr)
      requires OnlyLiveChanges() && old(DetectOk(null)) && x in old(live) && live == old(live) - {x} && x in known
      requires old(live) <= known
      ensures DetectOk(x)
    {
      hide TeidOk, AddrOk, OnlyLiveChanges;
      ShrinkTeid(x);
      ShrinkAddr(x);
      ShrinkClock();
    }

    twostate lemma ShrinkClock()
      requires OnlyLiveChanges() && old(ClockOk())
      ensures ClockOk()
    {}

    /** An installed PDR stops counting as installed while it is edited in place. */
    ghost method Uninstall(x: Pdr)
      requires Valid() && x in live
      modifies this`live
      ensures live == old(live) - {x}
      ensures ValidBut(x)
      ensures KeyFree(x.conf.seid, x.conf.id) && InIdByKey(x, x.conf.seid, x.conf.id)
      ensures x in known && RateListed(x) && x.conf.farId.Some?
      ensures NodesUnder(x, x.conf.seid, x.conf.qerIds)
    {
      LiveAreKnown();
      live := live - {x};
      ShrinkRelated(x);
      ShrinkIds(x);
      ShrinkDetection(x);
    }

    lemma LiveAreKnown()
      requires RelatedOk()
      ensures live <= known
    {}

    twostate lemma GrowIds(x: Pdr)
      requires OnlyLiveChanges() && old(PdrTableOk(x)) && x !in old(live) && live == old(live) + {x} && x in known
      requires old(KeyFree(x.conf.seid, x.conf.id)) && InIdByKey(x, x.conf.seid, x.conf.id) && old(live) <= known
      ensures PdrTableOk(null)
    {}

    twostate lemma GrowRelated(x: Pdr)
      requires OnlyLiveChanges() && old(RelatedOk()) && x !in old(live) && live == old(live) + {x} && x in known
      requires Linked(x)
      ensures RelatedOk()
    {}

    twostate lemma GrowDetection(x: Pdr)
      requires OnlyLiveChanges() && old(DetectOk(x)) && x !in old(live) && live == old(live) + {x} && x in known
      requires Linked(x) && old(live) <= known
      ensures DetectOk(null)
    {}

    /** An edit that went through makes x an installed PDR. */
    ghost method Install(x: Pdr)
      requires ValidBut(x) && x in known
      requires KeyFree(x.conf.seid, x.conf.id) && InIdByKey(x, x.conf.seid, x.conf.id) && Linked(x)
      modifies this`live
      ensures Valid() && live == old(live) + {x}
    {
      hide PdrTableOk, FarTableOk, QerTableOk, RelatedOk, DetectOk, Linked, KeyFree, InIdByKey;
      LiveAreKnown();
      live := live + {x};
      GrowRelated(x);
      GrowIds(x);
      GrowDetection(x);
    }

    /** gtp5g_genl_add_pdr for a PDR that is already installed: edited in place, linked or
        not, and deleted when the edit fails half-way. */
    method ReplacePdr(x: Pdr, attrs: seq<PdrAttr>, sockOk: bool) returns (st: Status)
      requires Valid()
      requires x in live && IdOf(attrs) == Some(x.conf.id) && SeidOf(attrs) == x.conf.seid
      modifies this`pdrIdHash, this`relatedFar, this`relatedQer, this`relatedUrr
      modifies this`teidHash, this`addrHash, this`rank, this`clock, this`live, x
      ensures Valid()
      ensures x.conf == Fill(old(x.conf), attrs).now
      ensures if FillsOk(old(x.conf), attrs, sockOk)
              then st == Done && live == old(live) && RankedLast(x, old(rank), old(clock))
                   && RateChosen(x, old(x.qerWithRate))
              else st == Invalid && live == old(live) - {x}
    {
      hide *;
      Uninstall(x);
      var ok := PdrFill(x, attrs, sockOk);
      if !ok {
        PdrContextDelete(x);
        return Invalid;
      }
      Install(x);
      return Done;
    }

    /** pdr_append */
    method PdrAppend(x: Pdr)
      requires ValidBut(x)
      requires forall b | 0 <= b < |pdrIdHash| :: x !in pdrIdHash[b]
      modifies this`pdrIdHash
      ensures ValidBut(x) && InIdByKey(x, x.conf.seid, x.conf.id)
    {
      hide PdrTableOk, FarTableOk, QerTableOk, RelatedOk, DetectOk, InIdByKey;
      LinkId(x);
    }

    method LinkId(x: Pdr)
      requires PdrTableOk(x)
      requires forall b | 0 <= b < |pdrIdHash| :: x !in pdrIdHash[b]
      modifies this`pdrIdHash
      ensures PdrTableOk(x) && InIdByKey(x, x.conf.seid, x.conf.id)
    {
      AddHeadNoDup(pdrIdHash, IdBucket(x.conf.seid, x.conf.id), x);
      hide NoDup, AddHead;
      pdrIdHash := AddHead(pdrIdHash, IdBucket(x.conf.seid, x.conf.id), x);
    }

    lemma WeakenIds(x: Pdr)
      requires PdrTableOk(null) && x !in live
      ensures PdrTableOk(x) && forall b | 0 <= b < |pdrIdHash| :: x !in pdrIdHash[b]
    {}

    twostate lemma RememberRelated(x: Pdr)
      requires old(RelatedOk()) && known == old(known) + {x}
      requires unchanged(this`live, this`fars, this`qers, this`relatedFar, this`relatedQer, this`relatedUrr)
      requires forall p | p in old(known) :: unchanged(p)
      ensures RelatedOk()
      ensures x !in old(known) ==> |relatedQer| == hashSize && forall b | 0 <= b < hashSize :: x !in relatedQer[b]
    {}

    /** x may have nodes from now on. */
    ghost method Remember(x: Pdr)
      requires Valid() && x !in known && x !in live
      modifies this`known
      ensures ValidBut(x) && known == old(known) + {x}
      ensures forall seid, ids :: NodesUnder(x, seid, ids)
      ensures forall b | 0 <= b < |pdrIdHash| :: x !in pdrIdHash[b]
    {
      hide PdrTableOk, FarTableOk, QerTableOk, RelatedOk, DetectOk;
      WeakenDetection(x);
      WeakenIds(x);
      known := known + {x};
      RememberRelated(x);
    }

    lemma WeakenDetection(x: Pdr)
      requires DetectOk(null) && x !in live
      ensures DetectOk(x)
    {
      NotInTeid(x);
      NotInAddr(x);
    }

    /** gtp5g_genl_add_pdr for a key that is not in use. */
    method CreatePdr(attrs: seq<PdrAttr>, sockOk: bool) returns (st: Status, ghost made: Pdr)
      requires Valid()
      requires IdOf(attrs).Some? && KeyFree(SeidOf(attrs), IdOf(attrs).value) && HasFarId(attrs)
      modifies this`pdrIdHash, this`relatedFar, this`relatedQer, this`relatedUrr
      modifies this`teidHash, this`addrHash, this`rank, this`clock, this`live, this`known
      ensures Valid()
      ensures fresh(made) && known == old(known) + {made} && made.conf == Fill(ZEROED, attrs).now
      ensures if FillsOk(ZEROED, attrs, sockOk)
              then st == Done && live == old(live) + {made} && RankedLast(made, old(rank), old(clock))
                   && RateChosen(made, null)
              else st == Invalid && live == old(live)
      ensures st == Done ==> UrrNodesGrow(made, |made.conf.urrIds|)
    {
      hide ValidBut, NodesUnder, Fill, FillsOk, Linked, KeyFree, InIdByKey, RankedLast, SeidOf, IdOf, HasFarId,
           RateChosen;
      var x := new Pdr();
      made := x;
      Remember(x);
      var ok := PdrFill(x, attrs, sockOk);
      if !ok {
        PdrContextDelete(x);
        return Invalid, x;
      }
      PdrAppend(x);
      Install(x);
      return Done, x;
    }

    /** gtp5g_genl_add_pdr. Without a FAR id a new PDR whose attributes are all taken would make
        pdr_fill read through a null pointer; here such a request is refused. */
    method AddPdr(nl: Flags, attrs: seq<PdrAttr>, sockOk: bool) returns (st: Status, ghost made: Pdr?)
      requires Valid()
      modifies this`pdrIdHash, this`relatedFar, this`relatedQer, this`relatedUrr
      modifies this`teidHash, this`addrHash, this`rank, this`clock, this`live, this`known, live
      ensures Valid()
      ensures fresh(known - old(known)) && fresh(live - old(live)) && (made != null ==> fresh(made))
      // everyone but the PDR the request names is untouched
      ensures forall p | p in old(live) && (IdOf(attrs).None? || p != old(PdrAt(SeidOf(attrs), IdOf(attrs).value))) ::
                unchanged(p) && p in live
      ensures IdOf(attrs).None? ==> st == NoId && live == old(live)
      ensures IdOf(attrs).Some? && old(PdrAt(SeidOf(attrs), IdOf(attrs).value)) != null ==>
                var p := old(PdrAt(SeidOf(attrs), IdOf(attrs).value));
                if nl.excl || !nl.replace then
                  st == (if nl.excl then Exists else Unsupported) && live == old(live) && unchanged(p)
                else
                  p.conf == Fill(old(p.conf), attrs).now &&
                  if FillsOk(old(p.conf), attrs, sockOk)
                  then st == Done && live == old(live) && RankedLast(p, old(rank), old(clock))
                       && RateChosen(p, old(p.qerWithRate))
                  else st == Invalid && live == old(live) - {p}
      ensures IdOf(attrs).Some? && old(PdrAt(SeidOf(attrs), IdOf(attrs).value)) == null ==>
                if nl.replace then st == NotFound && live == old(live)
                else if nl.append then st == Unsupported && live == old(live)
                else if !HasPrecedence(attrs) then st == Invalid && live == old(live)
                else if !HasFarId(attrs) then
                  st == (if Fill(ZEROED, attrs).ok then NullFarId else Invalid) && live == old(live)
                else if FillsOk(ZEROED, attrs, sockOk)
                then st == Done && made != null && fresh(made) && live == old(live) + {made}
                     && made.conf == Fill(ZEROED, attrs).now && RankedLast(made, old(rank), old(clock))
                     && RateChosen(made, null) && UrrNodesGrow(made, |made.conf.urrIds|)
                else st == Invalid && live == old(live)
    {
      hide PdrTableOk, FarTableOk, QerTableOk, RelatedOk, DetectOk;
      hide Fill, FillsOk, RankedLast, KeyFree, SeidOf, IdOf, HasFarId, HasPrecedence, RateChosen;
      made := null;
      if IdOf(attrs).None? { return NoId, null; }
      var pdr := FindPdr(SeidOf(attrs), IdOf(attrs).value);
      hide *;
      if pdr != null {
        if nl.excl { return Exists, null; }
        if !nl.replace { return Unsupported, null; }
        st := ReplacePdr(pdr, attrs, sockOk);
        return;
      }
      if nl.replace { return NotFound, null; }
      if nl.append { return Unsupported, null; }
      if !HasPrecedence(attrs) { return Invalid, null; }
      if !HasFarId(attrs) { return if Fill(ZEROED, attrs).ok then NullFarId else Invalid, null; }
      st, made := CreatePdr(attrs, sockOk);
    }

    /** gtp5g_genl_del_pdr */
    method DelPdr(seid: u64, id: u16) returns (st: Status)
      requires Valid()
      modifies this`pdrIdHash, this`relatedFar, this`relatedQer, this`relatedUrr
      modifies this`teidHash, this`addrHash, this`live
      ensures Valid() && PdrAt(seid, id) == null
      ensures if old(PdrAt(seid, id)) == null then st == NotFound && live == old(live)
              else st == Done && live == old(live) - {old(PdrAt(seid, id))}
    {
      hide PdrTableOk, FarTableOk, QerTableOk, RelatedOk, DetectOk;
      var pdr := FindPdr(seid, id);
      if pdr == null { return NotFound; }
      hide ValidBut;
      Uninstall(pdr);
      DropRelated(pdr);
      PdrContextDelete(pdr);
      return Done;
    }

    method DropRelated(x: Pdr)
      requires ValidBut(x) && KeysDiffer(x) && x.conf.farId.Some?
      modifies this`relatedFar, this`relatedQer, this`relatedUrr
      ensures ValidBut(x)
    {
      hide PdrTableOk, FarTableOk, QerTableOk, DetectOk, FarCacheOk, QerCacheOk, UrrIndexOk;
      DelRelatedUrr(x);
      DelRelatedQer(x);
      DelRelatedFar(x);
    }

    // ---------- QERs ----------

    /** set_pdr_qer_with_rate_null: takes the rate from every PDR with a node in the bucket,
        whichever QER that node was put there for. */
    method ClearRates(seid: u64, id: u32)
      requires QerCacheOk()
      modifies known`qerWithRate
      ensures forall p | p in known ::
                p.qerWithRate == if p in relatedQer[IdBucket(seid, id)] then null else old(p.qerWithRate)
    {
      var head := relatedQer[IdBucket(seid, id)];
      var i := 0;
      while i < |head|
        invariant 0 <= i <= |head|
        invariant forall p | p in known :: p.qerWithRate == if p in head[..i] then null else old(p.qerWithRate)
      {
        var p := head[i];
        assert p in head && head[..i + 1] == head[..i] + [p];
        p.qerWithRate := null;
        i := i + 1;
      }
      assert head[..i] == head;
    }

    method QerUnlink(q: Qer)
      requires QerTableOk() && QerCacheOk() && q in qers && forall p | p in live :: p.qerWithRate != q
      modifies this`qerIdHash, this`qers
      ensures QerTableOk() && QerCacheOk() && qers == old(qers) - {q} && QerAt(q.seid, q.id) == null
    {
      WithoutNoDupAll(qerIdHash, q);
      qerIdHash := Unlink(qerIdHash, q);
      qers := qers - {q};
    }

    /** An installed PDR hangs in a QER bucket exactly when one of its listed QERs files there. */
    lemma QerBucketIff(p: Pdr, b: nat)
      requires QerCacheOk() && p in live && b < hashSize
      ensures p in relatedQer[b] <==> Lists(p.conf.seid, p.conf.qerIds, b)
    {
      assert QerCached(p);
    }

    /** gtp5g_genl_del_qer: an installed PDR loses its rate exactly when one of its listed QERs,
        not necessarily the deleted one, shares the deleted one's bucket. */
    method DelQer(seid: u64, id: u32) returns (st: Status)
      requires Valid()
      modifies this`qerIdHash, this`qers, known`qerWithRate, qers`hasPolicers
      ensures Valid() && QerAt(seid, id) == null
      ensures if old(QerAt(seid, id)) == null
              then st == NotFound && qers == old(qers) && forall p | p in known :: p.qerWithRate == old(p.qerWithRate)
              else st == Done && qers == old(qers) - {old(QerAt(seid, id))}
                   && (forall p | p in known :: p.qerWithRate ==
                         if p in relatedQer[IdBucket(seid, id)] then null else old(p.qerWithRate))
                   && (forall p | p in live :: p.qerWithRate ==
                         if Lists(p.conf.seid, p.conf.qerIds, IdBucket(seid, id)) then null else old(p.qerWithRate))
      ensures forall q | q in qers :: q.hasPolicers == old(q.hasPolicers)
    {
      hide PdrTableOk, FarTableOk, QerTableOk, FarNodesOk, FarCached, QerCacheOk, UrrIndexOk, DetectOk, Lists;
      var qer := FindQer(seid, id);
      if qer == null { return NotFound; }
      RemoveQer(qer);
      return Done;
    }

    method RemoveQer(q: Qer)
      requires QerTableOk() && QerCacheOk() && live <= known && q in qers
      modifies this`qerIdHash, this`qers, known`qerWithRate, q`hasPolicers
      ensures QerTableOk() && QerCacheOk() && qers == old(qers) - {q} && QerAt(q.seid, q.id) == null
      ensures forall p | p in known :: p.qerWithRate ==
                if p in relatedQer[IdBucket(q.seid, q.id)] then null else old(p.qerWithRate)
      ensures forall p | p in live :: p.qerWithRate ==
                if Lists(p.conf.seid, p.conf.qerIds, IdBucket(q.seid, q.id)) then null else old(p.qerWithRate)
    {
      hide Lists, NodesUnder;
      forall p | p in live ensures p in relatedQer[IdBucket(q.seid, q.id)] <==>
                                     Lists(p.conf.seid, p.conf.qerIds, IdBucket(q.seid, q.id)) {
        QerBucketIff(p, IdBucket(q.seid, q.id));
      }
      q.hasPolicers := false;
      ClearRates(q.seid, q.id);
      assert QerCacheOk() && forall p | p in live :: p.qerWithRate != q by {
        assert forall p | p in live :: old(QerCached(p));
      }
      QerUnlink(q);
    }

    method CreateQer(seid: u64, id: u32, mbr: bool)
      requires QerTableOk() && QerCacheOk() && QerAt(seid, id) == null
      modifies this`qerIdHash, this`qers
      ensures QerTableOk() && QerCacheOk()
      ensures var q := QerAt(seid, id);
              q != null && fresh(q) && qers == old(qers) + {q} && q.hasPolicers == mbr
    {
      var made := new Qer(seid, id);
      if mbr { made.hasPolicers := true; }
      var b := IdBucket(seid, id);
      assert made !in qerIdHash[b];
      AddHeadNoDup(qerIdHash, b, made);
      hide NoDup, AddHead;
      qerIdHash := AddHead(qerIdHash, b, made);
      qers := qers + {made};
    }

    /** gtp5g_genl_add_qer. qer_fill cannot fail; of what it sets, only whether there is a
        maximum bit rate (and so a pair of policers) matters to the rule store. */
    method AddQer(nl: Flags, seid: u64, id: u32, mbr: bool) returns (st: Status)
      requires Valid()
      modifies this`qerIdHash, this`qers, qers`hasPolicers
      ensures Valid()
      ensures old(QerAt(seid, id)) != null ==>
                var q := old(QerAt(seid, id));
                qers == old(qers) &&
                if nl.excl || !nl.replace then
                  st == (if nl.excl then Exists else Unsupported) && q.hasPolicers == old(q.hasPolicers)
                else st == Done && q.hasPolicers == (old(q.hasPolicers) || mbr)
      ensures old(QerAt(seid, id)) == null ==>
                if nl.replace then st == NotFound && qers == old(qers)
                else if nl.append then st == Unsupported && qers == old(qers)
                else st == Done && var q := QerAt(seid, id);
                     q != null && fresh(q) && qers == old(qers) + {q} && q.hasPolicers == mbr
      ensures forall q | q in old(qers) && q != old(QerAt(seid, id)) :: q.hasPolicers == old(q.hasPolicers)
    {
      hide PdrTableOk, FarTableOk, QerTableOk, FarCacheOk, QerCacheOk, UrrIndexOk, DetectOk;
      var qer := FindQer(seid, id);
      if qer != null {
        if nl.excl { return Exists; }
        if !nl.replace { return Unsupported; }
        if mbr { qer.hasPolicers := true; }
        return Done;
      }
      if nl.replace { return NotFound; }
      if nl.append { return Unsupported; }
      CreateQer(seid, id, mbr);
      return Done;
    }

    // ---------- what validity says, one installed PDR at a time ----------

    /** The cached FAR is what looking the FAR up would give, null included. */
    lemma CachedFarIsLookup(p: Pdr)
      requires Valid() && p in live
      ensures p.conf.farId.Some? && p.far == FarAt(p.conf.seid, p.conf.farId.value)
    {
      assert FarCached(p);
    }

    /** The cached QER is never a deleted one: null, or installed, of the same session and
        listed. */
    lemma CachedQerIsInstalled(p: Pdr)
      requires Valid() && p in live
      ensures p.qerWithRate != null ==>
                p.qerWithRate.id in p.conf.qerIds && p.qerWithRate == QerAt(p.conf.seid, p.qerWithRate.id)
    {
      assert QerCached(p);
    }

    /** The bucket of a URR holds every installed PDR of the session that refers to it. */
    lemma UrrBucketComplete(p: Pdr, urrId: u32)
      requires Valid() && p in live && urrId in p.conf.urrIds
      ensures |relatedUrr| == hashSize && p in relatedUrr[IdBucket(p.conf.seid, urrId)]
    {
      assert UrrIndexed(p);
    }

    /** The id table is a finite map: a PDR hangs in a bucket exactly when it is installed and
        the bucket is its key's, once, and no other installed PDR has its key. */
    lemma IdTableIsMap(p: Pdr, b: nat)
      requires Valid() && b < hashSize
      ensures p in pdrIdHash[b] <==> p in live && b == IdBucket(p.conf.seid, p.conf.id)
      ensures NoDup(pdrIdHash[b])
      ensures p in live ==> p == PdrAt(p.conf.seid, p.conf.id)
    {}

    /** A PDR is linked for detection exactly in its key's bucket of the one table its key
        kind selects, at most once, in precedence order. */
    lemma LinkedExactlyByKey(p: Pdr, b: nat)
      requires Valid() && b < hashSize
      ensures p in teidHash[b] <==> p in live && p.conf.ByTeid() && b == WordBucket(p.conf.Teid())
      ensures p in addrHash[b] <==> p in live && p.conf.ByAddr() && b == WordBucket(p.conf.Addr())
      ensures NoDup(teidHash[b]) && NoDup(addrHash[b])
      ensures forall i, j | 0 <= i < j < |teidHash[b]| ::
                teidHash[b][i].conf.precedence <= teidHash[b][j].conf.precedence
      ensures forall i, j | 0 <= i < j < |addrHash[b]| ::
                addrHash[b][i].conf.precedence <= addrHash[b][j].conf.precedence
    {
      hide PdrTableOk, FarTableOk, QerTableOk, RelatedOk;
      OrderedNoDup(teidHash[b], rank);
      OrderedNoDup(addrHash[b], rank);
      forall i, j | 0 <= i < j < |teidHash[b]|
        ensures teidHash[b][i].conf.precedence <= teidHash[b][j].conf.precedence
      {
        assert teidHash[b][i] in teidHash[b] && teidHash[b][j] in teidHash[b];
      }
      forall i, j | 0 <= i < j < |addrHash[b]|
        ensures addrHash[b][i].conf.precedence <= addrHash[b][j].conf.precedence
      {
        assert addrHash[b][i] in addrHash[b] && addrHash[b][j] in addrHash[b];
      }
    }

    // ---------- packet detection ----------

    /** Whether a tunnel PDR accepts a packet: for user data its UE address (source on the
        user-plane function, destination elsewhere) and its filter must agree as well. */
    predicate TunnelMatch(c: PdrConf, pkt: Packet, teid: u32, tpdu: bool) {
      c.ByTeid() && c.Teid() == teid &&
      (tpdu ==>
         && pkt.ip.Some?
         && (c.pdi.value.ueAddr.Some? ==>
               c.pdi.value.ueAddr.value == if isUpf then pkt.ip.value.saddr else pkt.ip.value.daddr)
         && (c.pdi.value.sdf.Some? ==> FilterAccepts(c.pdi.value.sdf.value, pkt, SDF_FILTER_OUT)))
    }

    predicate AddrMatch(c: PdrConf, pkt: Packet, addr: u32) {
      c.ByAddr() && c.Addr() == addr &&
      (c.pdi.value.sdf.Some? ==> FilterAccepts(c.pdi.value.sdf.value, pkt, SDF_FILTER_OUT))
    }

    /** r is an installed PDR that stands ahead of p, so its precedence value is no larger. */
    ghost predicate Wins(r: Pdr, p: Pdr)
      reads this`rank, r`conf, p`conf
    {
      r.conf.precedence <= p.conf.precedence && r in rank && p in rank && Ahead(rank[r], rank[p])
    }

    /** pdr_find_by_gtp1u: the first hit in one bucket is the best match among all installed
        tunnel PDRs, and there is none exactly when nothing matches. */
    method FindByGtp1u(pkt: Packet, teid: u32, tpdu: bool) returns (r: Pdr?)
      requires TeidOk(null)
      ensures if pkt.isIpv4 && exists p :: p in live && TunnelMatch(p.conf, pkt, teid, tpdu)
              then r != null && r in live && TunnelMatch(r.conf, pkt, teid, tpdu)
                   && forall p | p in live && p != r && TunnelMatch(p.conf, pkt, teid, tpdu) :: Wins(r, p)
              else r == null
    {
      if !pkt.isIpv4 { return null; }
      if tpdu && pkt.ip.None? { return null; }
      var head := teidHash[WordBucket(teid)];
      var i := 0;
      while i < |head|
        invariant 0 <= i <= |head|
        invariant forall j | 0 <= j < i :: !TunnelMatch(head[j].conf, pkt, teid, tpdu)
      {
        var pdr := head[i];
        assert pdr in head;
        var pdi := pdr.conf.pdi.value;
        var hit := pdi.fTeid.value.teid == teid;
        if hit && tpdu {
          var target := if isUpf then pkt.ip.value.saddr else pkt.ip.value.daddr;
          if pdi.ueAddr.Some? && target != pdi.ueAddr.value {
            hit := false;
          } else {
            hit := SdfFilterMatch(pdi.sdf, pkt, SDF_FILTER_OUT);
          }
        }
        if hit {
          BestOfBucket(head, i);
          return pdr;
        }
        i := i + 1;
      }
      return null;
    }

    lemma BestOfBucket(head: seq<Pdr>, i: nat)
      requires Ordered(head, rank) && i < |head| && forall p | p in head :: Ranked(p)
      ensures forall j | i < j < |head| :: Wins(head[i], head[j])
    {
      assert forall j | i <= j < |head| :: head[j] in head;
    }

    /** pdr_find_by_ipv4 */
    method FindByIpv4(pkt: Packet, addr: u32) returns (r: Pdr?)
      requires AddrOk(null)
      ensures if exists p :: p in live && AddrMatch(p.conf, pkt, addr)
              then r != null && r in live && AddrMatch(r.conf, pkt, addr)
                   && forall p | p in live && p != r && AddrMatch(p.conf, pkt, addr) :: Wins(r, p)
              else r == null
    {
      var head := addrHash[WordBucket(addr)];
      var i := 0;
      while i < |head|
        invariant 0 <= i <= |head|
        invariant forall j | 0 <= j < i :: !AddrMatch(head[j].conf, pkt, addr)
      {
        var pdr := head[i];
        assert pdr in head;
        var pdi := pdr.conf.pdi.value;
        if pdi.ueAddr.value == addr {
          var hit := SdfFilterMatch(pdi.sdf, pkt, SDF_FILTER_OUT);
          if hit {
            BestOfBucket(head, i);
            return pdr;
          }
        }
        i := i + 1;
      }
      return null;
    }

    // ---------- the tables as maps ----------

    /** The installed rules are exactly what the maps say. */
    ghost predicate Represents(m: Maps)
      reads this`live, live`conf, this`fars, fars`action, fars`fwd, this`qers, qers`hasPolicers
    {
      HasPdrs(m.pdrs) && HasFars(m.fars) && HasQers(m.qers)
    }

    ghost predicate HasPdrs(pdrs: map<(u64, u16), PdrConf>)
      reads this`live, live`conf
    {
      && (forall p | p in live :: (p.conf.seid, p.conf.id) in pdrs && pdrs[(p.conf.seid, p.conf.id)] == p.conf)
      && (forall k | k in pdrs :: PdrAt(k.0, k.1) != null)
    }

    ghost predicate HasFars(farMap: map<(u64, u32), FarConf>)
      reads this`fars, fars`action, fars`fwd
    {
      && (forall f | f in fars :: (f.seid, f.id) in farMap && farMap[(f.seid, f.id)] == FarConf(f.action, f.fwd))
      && (forall k | k in farMap :: FarAt(k.0, k.1) != null)
    }

    ghost predicate HasQers(qerMap: map<(u64, u32), bool>)
      reads this`qers, qers`hasPolicers
    {
      && (forall q | q in qers :: (q.seid, q.id) in qerMap && qerMap[(q.seid, q.id)] == q.hasPolicers)
      && (forall k | k in qerMap :: QerAt(k.0, k.1) != null)
    }

    lemma RepresentsNothing()
      requires live == {} && fars == {} && qers == {}
      ensures Represents(EMPTY)
    {}

    /** One rule was written, joined its table or left it. */
    twostate lemma FarsFollow(new f: Far, farMap: map<(u64, u32), FarConf>)
      requires old(HasFars(farMap)) && FarKeysDiffer() && old(FarKeysDiffer())
      requires f in fars || f in old(fars)
      requires forall g | g in fars && g != f :: g in old(fars)
      requires forall g | g in old(fars) && g != f :: g in fars && g.action == old(g.action) && g.fwd == old(g.fwd)
      ensures if f in fars then HasFars(farMap[(f.seid, f.id) := FarConf(f.action, f.fwd)])
              else HasFars(farMap - {(f.seid, f.id)})
    {}

    twostate lemma QersFollow(new q: Qer, qerMap: map<(u64, u32), bool>)
      requires old(HasQers(qerMap)) && QerKeysDiffer() && old(QerKeysDiffer())
      requires q in qers || q in old(qers)
      requires forall r | r in qers && r != q :: r in old(qers)
      requires forall r | r in old(qers) && r != q :: r in qers && r.hasPolicers == old(r.hasPolicers)
      ensures if q in qers then HasQers(qerMap[(q.seid, q.id) := q.hasPolicers]) else HasQers(qerMap - {(q.seid, q.id)})
    {}

    twostate lemma PdrsFollow(new x: Pdr, new key: (u64, u16), pdrMap: map<(u64, u16), PdrConf>)
      requires old(HasPdrs(pdrMap)) && PdrKeysDiffer() && old(PdrKeysDiffer())
      requires x in live || x in old(live)
      requires x in live ==> (x.conf.seid, x.conf.id) == key
      requires old(allocated(x)) && x in old(live) ==> old((x.conf.seid, x.conf.id)) == key
      requires forall p | p in live && p != x :: p in old(live)
      requires forall p | p in old(live) && p != x :: p in live && p.conf == old(p.conf)
      ensures if x in live then HasPdrs(pdrMap[key := x.conf]) else HasPdrs(pdrMap - {key})
    {}

    /** A refused request writes nothing. */
    twostate lemma NothingFollows(m: Maps)
      requires old(Represents(m))
      requires live == old(live) && fars == old(fars) && qers == old(qers)
      requires forall p | p in live :: p.conf == old(p.conf)
      requires forall f | f in fars :: f.action == old(f.action) && f.fwd == old(f.fwd)
      requires forall q | q in qers :: q.hasPolicers == old(q.hasPolicers)
      ensures Represents(m)
    {}

    ghost predicate FarKeysDiffer()
      reads this`fars
    {
      forall f, g | f in fars && g in fars && f.seid == g.seid && f.id == g.id :: f == g
    }

    ghost predicate QerKeysDiffer()
      reads this`qers
    {
      forall q, r | q in qers && r in qers && q.seid == r.seid && q.id == r.id :: q == r
    }

    ghost predicate PdrKeysDiffer()
      reads this`live, live`conf
    {
      forall p, q | p in live && q in live && p.conf.seid == q.conf.seid && p.conf.id == q.conf.id :: p == q
    }

    lemma LookUpPdr(pdrMap: map<(u64, u16), PdrConf>, seid: u64, id: u16)
      requires HasPdrs(pdrMap)
      ensures (seid, id) in pdrMap <==> PdrAt(seid, id) != null
      ensures (seid, id) in pdrMap ==> pdrMap[(seid, id)] == PdrAt(seid, id).conf
    {}

    lemma LookUpFar(farMap: map<(u64, u32), FarConf>, seid: u64, id: u32)
      requires HasFars(farMap)
      ensures (seid, id) in farMap <==> FarAt(seid, id) != null
      ensures (seid, id) in farMap ==> var f := FarAt(seid, id); farMap[(seid, id)] == FarConf(f.action, f.fwd)
    {}

    lemma FillsOnMaps(c: PdrConf, attrs: seq<PdrAttr>, sockOk: bool, farMap: map<(u64, u32), FarConf>)
      requires HasFars(farMap)
      ensures var e := Fill(c, attrs);
              FillsOk(c, attrs, sockOk) <==>
                e.ok && e.now.farId.Some? && (SeidOf(attrs), e.now.farId.value) in farMap && sockOk
    {
      hide HasFars, Fill;
      var e := Fill(c, attrs);
      if e.now.farId.Some? { LookUpFar(farMap, SeidOf(attrs), e.now.farId.value); }
    }

    lemma LookUpQer(qerMap: map<(u64, u32), bool>, seid: u64, id: u32)
      requires HasQers(qerMap)
      ensures (seid, id) in qerMap <==> QerAt(seid, id) != null
      ensures (seid, id) in qerMap ==> qerMap[(seid, id)] == QerAt(seid, id).hasPolicers
    {}

    lemma KeysAllDiffer()
      requires Valid()
      ensures FarKeysDiffer() && QerKeysDiffer() && PdrKeysDiffer()
    {}

    /** Detection on the maps: a packet in a tunnel finds a PDR exactly when some configured one
        matches, and then one of least precedence value. */
    method DetectByGtp1u(pkt: Packet, teid: u32, tpdu: bool, ghost m: Maps) returns (r: Pdr?)
      requires Valid() && Represents(m)
      ensures r == null <==> !pkt.isIpv4 || forall k | k in m.pdrs :: !TunnelMatch(m.pdrs[k], pkt, teid, tpdu)
      ensures r != null ==>
                var key := (r.conf.seid, r.conf.id);
                && key in m.pdrs && r == PdrAt(key.0, key.1) && TunnelMatch(m.pdrs[key], pkt, teid, tpdu)
                && forall k | k in m.pdrs && TunnelMatch(m.pdrs[k], pkt, teid, tpdu) ::
                     m.pdrs[key].precedence <= m.pdrs[k].precedence
    {
      hide PdrTableOk, FarTableOk, QerTableOk, RelatedOk, TeidOk, AddrOk, HasFars, HasQers, TunnelMatch;
      KeysAllDiffer();
      r := FindByGtp1u(pkt, teid, tpdu);
      forall k | k in m.pdrs ensures PdrAt(k.0, k.1) in live && PdrAt(k.0, k.1).conf == m.pdrs[k] {}
    }

    /** The same for a packet to or from a UE address. */
    method DetectByIpv4(pkt: Packet, addr: u32, ghost m: Maps) returns (r: Pdr?)
      requires Valid() && Represents(m)
      ensures r == null <==> forall k | k in m.pdrs :: !AddrMatch(m.pdrs[k], pkt, addr)
      ensures r != null ==>
                var key := (r.conf.seid, r.conf.id);
                && key in m.pdrs && r == PdrAt(key.0, key.1) && AddrMatch(m.pdrs[key], pkt, addr)
                && forall k | k in m.pdrs && AddrMatch(m.pdrs[k], pkt, addr) ::
                     m.pdrs[key].precedence <= m.pdrs[k].precedence
    {
      hide PdrTableOk, FarTableOk, QerTableOk, RelatedOk, TeidOk, AddrOk, HasFars, HasQers, AddrMatch;
      KeysAllDiffer();
      r := FindByIpv4(pkt, addr);
      forall k | k in m.pdrs ensures PdrAt(k.0, k.1) in live && PdrAt(k.0, k.1).conf == m.pdrs[k] {}
    }

    // ---------- whole runs ----------

    method ExecuteAddPdr(nl: Flags, attrs: seq<PdrAttr>, sockOk: bool, ghost m: Maps) returns (st: Status)
      requires Valid() && Represents(m)
      modifies this`pdrIdHash, this`relatedFar, this`relatedQer, this`relatedUrr
      modifies this`teidHash, this`addrHash, this`rank, this`clock, this`live, this`known, live
      ensures Valid() && fresh(known - old(known)) && fresh(live - old(live))
      ensures var a := Apply(m, Command.AddPdr(nl, attrs, sockOk)); Represents(a.maps) && st == a.status
    {
      hide Valid, HasPdrs, HasFars, HasQers, PdrKeysDiffer, FarKeysDiffer, QerKeysDiffer, Fill, RankedLast, RateChosen,
           HasPrecedence, HasFarId, SeidOf, IdOf, PdrAt, FillsOk, FarAt;
      ghost var made;
      if IdOf(attrs).None? {
        st, made := this.AddPdr(nl, attrs, sockOk);
        NothingFollows(m);
        return;
      }
      hide Apply;
      KeysAllDiffer();
      AddPdrAnswer(m, nl, attrs, sockOk);
      ghost var key := (SeidOf(attrs), IdOf(attrs).value);
      ghost var x := PdrAt(key.0, key.1);
      LookUpPdr(m.pdrs, key.0, key.1);
      ghost var c := if x != null then x.conf else ZEROED;
      FillKeepsKey(c, attrs);
      FillsOnMaps(c, attrs, sockOk, m.fars);
      st, made := this.AddPdr(nl, attrs, sockOk);
      KeysAllDiffer();
      ghost var written := if x != null then x else made;
      if written != null && (written in live || x != null) && (st == Done || st == Invalid) {
        PdrsFollow(written, key, m.pdrs);
      } else {
        assert st == Invalid ==> m.pdrs - {key} == m.pdrs;
        NothingFollows(m);
      }
    }

    method ExecuteDelPdr(seid: u64, id: u16, ghost m: Maps) returns (st: Status)
      requires Valid() && Represents(m)
      modifies this`pdrIdHash, this`relatedFar, this`relatedQer, this`relatedUrr
      modifies this`teidHash, this`addrHash, this`live
      ensures Valid() && live <= old(live)
      ensures var a := Apply(m, Command.DelPdr(seid, id)); Represents(a.maps) && st == a.status
    {
      hide Valid, HasPdrs, HasFars, HasQers, PdrKeysDiffer, FarKeysDiffer, QerKeysDiffer;
      KeysAllDiffer();
      ghost var x := PdrAt(seid, id);
      LookUpPdr(m.pdrs, seid, id);
      st := this.DelPdr(seid, id);
      KeysAllDiffer();
      if x != null { PdrsFollow(x, (seid, id), m.pdrs); }
    }

    method ExecuteAddFar(nl: Flags, seid: u64, id: u32, a: FarAttrs, ghost m: Maps) returns (st: Status)
      requires Valid() && Represents(m)
      modifies this`farIdHash, this`fars, known`far, fars`action, fars`fwd
      ensures Valid() && fresh(fars - old(fars))
      ensures var r := Apply(m, Command.AddFar(nl, seid, id, a)); Represents(r.maps) && st == r.status
    {
      hide Valid, HasPdrs, HasFars, HasQers, PdrKeysDiffer, FarKeysDiffer, QerKeysDiffer, FarFwd, FarAction;
      KeysAllDiffer();
      ghost var x := FarAt(seid, id);
      LookUpFar(m.fars, seid, id);
      var marker;
      st, marker := this.AddFar(nl, seid, id, a);
      KeysAllDiffer();
      ghost var written := if x != null then x else FarAt(seid, id);
      if written != null && (st == Done || st == Invalid) {
        FarsFollow(written, m.fars);
      } else {
        assert (seid, id) !in m.fars ==> m.fars - {(seid, id)} == m.fars;
        NothingFollows(m);
      }
    }

    method ExecuteDelFar(seid: u64, id: u32, ghost m: Maps) returns (st: Status)
      requires Valid() && Represents(m)
      modifies this`farIdHash, this`fars, known`far
      ensures Valid() && fars <= old(fars)
      ensures var a := Apply(m, Command.DelFar(seid, id)); Represents(a.maps) && st == a.status
    {
      hide Valid, HasPdrs, HasFars, HasQers, PdrKeysDiffer, FarKeysDiffer, QerKeysDiffer;
      KeysAllDiffer();
      ghost var x := FarAt(seid, id);
      LookUpFar(m.fars, seid, id);
      st := this.DelFar(seid, id);
      KeysAllDiffer();
      if x != null { FarsFollow(x, m.fars); }
    }

    method ExecuteAddQer(nl: Flags, seid: u64, id: u32, mbr: bool, ghost m: Maps) returns (st: Status)
      requires Valid() && Represents(m)
      modifies this`qerIdHash, this`qers, qers`hasPolicers
      ensures Valid() && fresh(qers - old(qers))
      ensures var a := Apply(m, Command.AddQer(nl, seid, id, mbr)); Represents(a.maps) && st == a.status
    {
      hide Valid, HasPdrs, HasFars, HasQers, PdrKeysDiffer, FarKeysDiffer, QerKeysDiffer;
      KeysAllDiffer();
      ghost var x := QerAt(seid, id);
      LookUpQer(m.qers, seid, id);
      st := this.AddQer(nl, seid, id, mbr);
      KeysAllDiffer();
      ghost var written := if x != null then x else QerAt(seid, id);
      if written != null && st == Done { QersFollow(written, m.qers); } else { NothingFollows(m); }
    }

    method ExecuteDelQer(seid: u64, id: u32, ghost m: Maps) returns (st: Status)
      requires Valid() && Represents(m)
      modifies this`qerIdHash, this`qers, known`qerWithRate, qers`hasPolicers
      ensures Valid() && qers <= old(qers)
      ensures var a := Apply(m, Command.DelQer(seid, id)); Represents(a.maps) && st == a.status
    {
      hide Valid, HasPdrs, HasFars, HasQers, PdrKeysDiffer, FarKeysDiffer, QerKeysDiffer;
      KeysAllDiffer();
      ghost var x := QerAt(seid, id);
      LookUpQer(m.qers, seid, id);
      st := this.DelQer(seid, id);
      KeysAllDiffer();
      if x != null { QersFollow(x, m.qers); }
    }

    /** Every request keeps the tables valid, and does to the installed rules, and answers, what
        it does to plain maps. */
    method Execute(c: Command, ghost m: Maps) returns (st: Status)
      requires Valid() && Represents(m)
      modifies this, known, live, fars, qers
      ensures Valid() && Represents(Apply(m, c).maps) && st == Apply(m, c).status
      ensures fresh(known - old(known)) && fresh(live - old(live)) && fresh(fars - old(fars)) && fresh(qers - old(qers))
    {
      hide *;
      match c {
        case AddPdr(nl, attrs, sockOk) => st := ExecuteAddPdr(nl, attrs, sockOk, m);
        case DelPdr(seid, id) => st := ExecuteDelPdr(seid, id, m);
        case AddFar(nl, seid, farId, a) => st := ExecuteAddFar(nl, seid, farId, a, m);
        case DelFar(seid, farId) => st := ExecuteDelFar(seid, farId, m);
        case AddQer(nl, seid, qerId, mbr) => st := ExecuteAddQer(nl, seid, qerId, mbr, m);
        case DelQer(seid, qerId) => st := ExecuteDelQer(seid, qerId, m);
      }
    }
  }

  /** Whatever the hash functions and the number of buckets, any sequence of requests to an empty
      device leaves valid tables that hold exactly what the same requests leave in plain maps,
      and is answered alike. */
  method Run(hashSize: nat, isUpf: bool, idHash: (u64, u32) -> nat, wordHash: u32 -> nat, cs: seq<Command>)
    returns (dev: Gtp5gDev, answers: seq<Status>)
    requires hashSize > 0
    ensures fresh(dev) && dev.Valid() && dev.Represents(ApplyAll(EMPTY, cs)) && answers == Statuses(EMPTY, cs)
  {
    hide *;
    dev := new Gtp5gDev(hashSize, isUpf, idHash, wordHash);
    dev.RepresentsNothing();
    answers := [];
    NoCommands();
    ghost var m := EMPTY;
    assert cs[..0] == [];
    for i := 0 to |cs|
      invariant fresh(dev) && dev.Valid() && dev.Represents(m)
      invariant m == ApplyAll(EMPTY, cs[..i]) && answers == Statuses(EMPTY, cs[..i])
      invariant fresh(dev.known) && fresh(dev.live) && fresh(dev.fars) && fresh(dev.qers)
    {
      OneCommand(cs[..i], cs[i]);
      assert cs[..i + 1] == cs[..i] + [cs[i]];
      var st := dev.Execute(cs[i], m);
      m := Apply(m, cs[i]).maps;
      answers := answers + [st];
    }
    assert cs[..|cs|] == cs;
  }

  lemma NoCommands()
    ensures ApplyAll(EMPTY, []) == EMPTY && Statuses(EMPTY, []) == []
  {}

  lemma OneCommand(cs: seq<Command>, c: Command)
    ensures var m, a := ApplyAll(EMPTY, cs), Apply(ApplyAll(EMPTY, cs), c);
            ApplyAll(EMPTY, cs + [c]) == a.maps && Statuses(EMPTY, cs + [c]) == Statuses(EMPTY, cs) + [a.status]
  {
    assert (cs + [c])[..|cs + [c]| - 1] == cs;
  }
}
