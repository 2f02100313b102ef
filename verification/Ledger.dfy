/** What every run of the receiver keeps, whatever datagrams arrive: ordering, conservation and the backlog bound. */
module Ledger {
  import opened Words
  import opened Wire
  import opened Bits
  import opened Receiver

  // The id whose successor wraps to 0.
  const LAST_ID: uint32 := U32_LIMIT - 1

  function Ids(rs: seq<Removed>): set<uint32> { set r | r in rs :: r.id }

  /** Each element of `all`, and nothing else, is in exactly one of the three sets. */
  ghost predicate Partition(all: set<uint32>, a: set<uint32>, b: set<uint32>, c: set<uint32>) {
    && (forall k :: k in all <==> k in a || k in b || k in c)
    && (forall k :: k in a ==> k !in b && k !in c)
    && (forall k :: k in b ==> k !in c)
  }

  /** Frames that have left: in increasing id order, all below the watermark. */
  ghost predicate Left(rs: seq<Removed>, watermark: int) {
    && (forall i :: 0 <= i < |rs| ==> rs[i].id < watermark)
    && (forall i, j :: 0 <= i < j < |rs| ==> rs[i].id < rs[j].id)
  }

  ghost predicate Waiting(m: map<uint32, FrameAssembly>, watermark: int) {
    forall k :: k in m ==> watermark <= k < LAST_ID
  }

  /** Every id filed so far is in exactly one of three places. */
  ghost predicate Conserved(s: State) {
    Partition(s.filed, Ids(s.delivered), Ids(s.abandoned), s.pending.Keys)
  }

  /** The watermark separates what waits from what has left. */
  ghost predicate Ordered(s: State) {
    && Waiting(s.pending, s.nextDeliver)
    && Left(s.delivered, s.nextDeliver)
    && Left(s.abandoned, s.nextDeliver)
  }

  /** Only complete frames are delivered, only incomplete ones abandoned. */
  ghost predicate Judged(s: State) {
    && (forall i :: 0 <= i < |s.delivered| ==> s.delivered[i].frame.Complete())
    && (forall i :: 0 <= i < |s.abandoned| ==> !s.abandoned[i].frame.Complete())
  }

  ghost predicate Balanced(s: State) { Conserved(s) && Ordered(s) && Judged(s) }

  /** Between two datagrams the front of `pending` is an incomplete frame and at most BACKLOG frames wait. */
  ghost predicate Drained(s: State) {
    s.pending != map[] ==>
      && |s.pending| <= BACKLOG
      && IsHead(s.pending, s.nextDeliver)
      && !s.pending[s.nextDeliver].Complete()
  }

  ghost predicate AllDescribed(s: State) {
    forall k :: k in s.pending ==> s.pending[k].totalPackets > 0
  }

  /** Before the first keyframe nothing happens; afterwards the start id is filed and is the least id ever filed. */
  ghost predicate Started(s: State) {
    if s.streamStarted then
      s.start in s.filed && s.start <= s.nextDeliver && forall id :: id in s.filed ==> s.start <= id
    else s.filed == {} && s.nextDeliver == 0 && s.start == 0
  }

  /** `t` is a later state: the watermark and the two histories only grow. */
  ghost predicate Later(s: State, t: State) {
    && s.nextDeliver <= t.nextDeliver
    && s.delivered <= t.delivered
    && s.abandoned <= t.abandoned
    && s.filed <= t.filed
  }

  /** `now` continues `before` with entries of `m`. */
  ghost predicate CameFrom(m: map<uint32, FrameAssembly>, before: seq<Removed>, now: seq<Removed>) {
    && before <= now
    && forall i :: |before| <= i < |now| ==> now[i].id in m && now[i].frame == m[now[i].id]
  }

  /** What the drain loop removes was pending, unchanged. */
  ghost predicate MovedOut(s: State, t: State) {
    && (forall k :: k in t.pending ==> k in s.pending && t.pending[k] == s.pending[k])
    && CameFrom(s.pending, s.delivered, t.delivered) && CameFrom(s.pending, s.abandoned, t.abandoned)
  }

  lemma {:induction false} LaterTransitive(s: State, t: State, u: State)
    requires Later(s, t) && Later(t, u)
    ensures Later(s, u)
  {
  }

  lemma {:induction false} LaterMovedTransitive(s: State, t: State, u: State)
    requires Later(s, t) && MovedOut(s, t) && Later(t, u) && MovedOut(t, u)
    ensures Later(s, u) && MovedOut(s, u)
  {
    CameFromTransitive(s.pending, t.pending, s.delivered, t.delivered, u.delivered);
    CameFromTransitive(s.pending, t.pending, s.abandoned, t.abandoned, u.abandoned);
  }

  lemma {:induction false} CameFromTransitive(m: map<uint32, FrameAssembly>, n: map<uint32, FrameAssembly>,
                           a: seq<Removed>, b: seq<Removed>, c: seq<Removed>)
    requires CameFrom(m, a, b) && CameFrom(n, b, c)
    requires forall k :: k in n ==> k in m && n[k] == m[k]
    ensures CameFrom(m, a, c)
  {
    forall i | |a| <= i < |c| ensures c[i].id in m && c[i].frame == m[c[i].id] {
      if i < |b| {
        assert c[i] == b[i];
      }
    }
  }

  lemma {:induction false} RemoveOne(m: map<uint32, FrameAssembly>, k: uint32)
    requires k in m
    ensures |m - {k}| == |m| - 1
  {
    assert (m - {k}).Keys == m.Keys - {k};
  }

  lemma {:induction false} IdsAre(rs: seq<Removed>)
    ensures forall id :: id in Ids(rs) <==> exists i :: 0 <= i < |rs| && rs[i].id == id
  {
    forall i | 0 <= i < |rs| ensures rs[i].id in Ids(rs) {
      assert rs[i] in rs;
    }
  }

  lemma {:induction false} LeftAppend(rs: seq<Removed>, watermark: int, r: Removed)
    requires Left(rs, watermark) && watermark <= r.id
    ensures Left(rs + [r], r.id + 1)
    ensures Ids(rs + [r]) == Ids(rs) + {r.id}
  {
    var t := rs + [r];
    assert t[..|rs|] == rs;
    forall i, j | 0 <= i < j < |t| ensures t[i].id < t[j].id {
      assert i < |rs| && t[i] == rs[i];
    }
  }

  lemma {:induction false} LeftLater(rs: seq<Removed>, a: int, b: int)
    requires Left(rs, a) && a <= b
    ensures Left(rs, b)
  {
  }

  lemma {:induction false} LeftIds(rs: seq<Removed>, watermark: int)
    requires Left(rs, watermark)
    ensures forall k :: k in Ids(rs) ==> k < watermark
  {
    IdsAre(rs);
  }

  lemma {:induction false} MoveOne(all: set<uint32>, a: set<uint32>, b: set<uint32>, c: set<uint32>, k: uint32)
    requires Partition(all, a, b, c) && k in c
    ensures Partition(all, a + {k}, b, c - {k}) && Partition(all, a, b + {k}, c - {k})
  {
  }

  lemma {:induction false} HeadRemoved(m: map<uint32, FrameAssembly>, watermark: int)
    requires Waiting(m, watermark) && m != map[]
    ensures watermark <= Head(m) && Succ(Head(m)) == Head(m) + 1
    ensures Waiting(m - {Head(m)}, Head(m) + 1)
    ensures (m - {Head(m)}).Keys == m.Keys - {Head(m)} && |m - {Head(m)}| == |m| - 1
  {
  }

  /**
   * Removing the head keeps the removed ids below the watermark exactly when its successor does not wrap:
   * the stale test is a plain `<`, so id 2^32 - 1 would reopen every id.
   */
  lemma {:induction false} WatermarkPassesHeadIff(s: State)
    requires s.pending != map[]
    ensures Head(s.pending) < Deliver(s).nextDeliver <==> Head(s.pending) != LAST_ID
    ensures Head(s.pending) < Abandon(s).nextDeliver <==> Head(s.pending) != LAST_ID
  {
  }

  /** A removed id is refused from then on exactly when it is not the last one. */
  lemma {:induction false} RemovedStaysRefusedIff(s: State)
    requires s.pending != map[] && s.streamStarted
    ensures (forall h: PacketHeader :: h.frameId == Head(s.pending) ==> !Accepted(Deliver(s), h))
            <==> Head(s.pending) != LAST_ID
  {
    var h := PacketHeader(MAGIC, Head(s.pending), 0, 0, 0, 0, 0, 0, 0);
    assert h.frameId == Head(s.pending);
  }

  /** After the last id was removed the watermark is 0: no id is stale, and a frame decoded before is opened again. */
  lemma {:induction false} LastIdReopens(s: State, p: Packet)
    requires s.streamStarted && s.pending.Keys == {LAST_ID} && s.pending[LAST_ID].Complete()
    requires p.header.frameId in Ids(s.delivered) && p.header.totalPackets > 1 && p.header.frameSize > 0
    ensures Deliver(s).nextDeliver == 0 && Accepted(Deliver(s), p.header)
    ensures var t := Handle(Deliver(s), p);
            && p.header.frameId in t.pending && p.header.frameId in Ids(t.delivered) && !Conserved(t)
  {
    var d := Deliver(s);
    var fa := Assemble(d, p);
    assert d.pending == map[];
    assert Filed(d, p).pending == map[p.header.frameId := fa];
    assert IsHead(Filed(d, p).pending, p.header.frameId) && Head(Filed(d, p).pending) == p.header.frameId;
    assert |Filed(d, p).pending| == 1;
    assert d.delivered[..|d.delivered| - 1] == s.delivered;
  }

  lemma {:induction false} DeliverConserves(s: State)
    requires Conserved(s) && Ordered(s) && s.pending != map[]
    ensures Conserved(Deliver(s)) && Ordered(Deliver(s))
  {
    var k := Head(s.pending);
    HeadRemoved(s.pending, s.nextDeliver);
    LeftAppend(s.delivered, s.nextDeliver, Removed(k, s.pending[k]));
    LeftLater(s.abandoned, s.nextDeliver, k + 1);
    MoveOne(s.filed, Ids(s.delivered), Ids(s.abandoned), s.pending.Keys, k);
  }

  lemma {:induction false} AbandonConserves(s: State)
    requires Conserved(s) && Ordered(s) && s.pending != map[]
    ensures Conserved(Abandon(s)) && Ordered(Abandon(s))
  {
    var k := Head(s.pending);
    HeadRemoved(s.pending, s.nextDeliver);
    LeftAppend(s.abandoned, s.nextDeliver, Removed(k, s.pending[k]));
    LeftLater(s.delivered, s.nextDeliver, k + 1);
    MoveOne(s.filed, Ids(s.delivered), Ids(s.abandoned), s.pending.Keys, k);
  }

  lemma {:induction false} DeliverBalances(s: State)
    requires Balanced(s) && s.pending != map[] && s.pending[Head(s.pending)].Complete()
    ensures Balanced(Deliver(s)) && Later(s, Deliver(s)) && MovedOut(s, Deliver(s))
    ensures |Deliver(s).pending| == |s.pending| - 1
  {
    DeliverConserves(s);
    HeadRemoved(s.pending, s.nextDeliver);
  }

  lemma {:induction false} AbandonBalances(s: State)
    requires Balanced(s) && s.pending != map[] && !s.pending[Head(s.pending)].Complete()
    ensures Balanced(Abandon(s)) && Later(s, Abandon(s)) && MovedOut(s, Abandon(s))
    ensures |Abandon(s).pending| == |s.pending| - 1
  {
    AbandonConserves(s);
    HeadRemoved(s.pending, s.nextDeliver);
  }

  /** The drain loop keeps the ledger balanced and moves frames out unchanged. */
  lemma {:induction false} DrainBalances(s: State)
    requires Balanced(s)
    ensures Balanced(Drain(s)) && Later(s, Drain(s)) && MovedOut(s, Drain(s))
    decreases s.pending.Keys
  {
    if s.pending == map[] {
    } else {
      var k := Head(s.pending);
      if s.pending[k].Complete() {
        DeliverBalances(s);
        DrainBalances(Deliver(s));
        assert Drain(s) == Drain(Deliver(s));
        LaterMovedTransitive(s, Deliver(s), Drain(s));
      } else if |s.pending| > BACKLOG {
        AbandonBalances(s);
        DrainBalances(Abandon(s));
        assert Drain(s) == Drain(Abandon(s));
        LaterMovedTransitive(s, Abandon(s), Drain(s));
      } else {
        HeadRemoved(s.pending, s.nextDeliver);
        LeftLater(s.delivered, s.nextDeliver, k);
        LeftLater(s.abandoned, s.nextDeliver, k);
        assert Drain(s) == s.(nextDeliver := k);
      }
    }
  }

  /** It touches nothing else, and abandons no more frames than wait beyond the backlog. */
  lemma {:induction false} DrainAbandonsExcess(s: State)
    ensures |Drain(s).abandoned| <= |s.abandoned| + Max(0, |s.pending| - BACKLOG)
    ensures Drain(s).streamStarted == s.streamStarted && Drain(s).start == s.start && Drain(s).filed == s.filed
    decreases s.pending.Keys
  {
    if s.pending == map[] {
    } else {
      var k := Head(s.pending);
      RemoveOne(s.pending, k);
      if s.pending[k].Complete() {
        DrainAbandonsExcess(Deliver(s));
      } else if |s.pending| > BACKLOG {
        DrainAbandonsExcess(Abandon(s));
      }
    }
  }

  lemma {:induction false} DrainDrains(s: State)
    ensures Drained(Drain(s))
    decreases s.pending.Keys
  {
    if s.pending == map[] {
    } else {
      var k := Head(s.pending);
      if s.pending[k].Complete() {
        DrainDrains(Deliver(s));
      } else if |s.pending| > BACKLOG {
        DrainDrains(Abandon(s));
      }
    }
  }

  function WaitingFrom(m: map<uint32, FrameAssembly>, id: uint32): set<uint32> { set k | k in m && k >= id }

  /** A frame is only given up while more than BACKLOG frames wait from it on. */
  lemma {:induction false} DrainAbandonsPiled(s: State, j: nat)
    requires |s.abandoned| <= j < |Drain(s).abandoned|
    ensures |WaitingFrom(s.pending, Drain(s).abandoned[j].id)| > 12
    decreases s.pending.Keys
  {
    var r := Drain(s).abandoned[j];
    if s.pending != map[] {
      var k := Head(s.pending);
      if s.pending[k].Complete() {
        DrainAbandonsPiled(Deliver(s), j);
        SubsetSize(WaitingFrom(Deliver(s).pending, r.id), WaitingFrom(s.pending, r.id));
      } else if |s.pending| > BACKLOG {
        if j == |s.abandoned| {
          DrainKeepsAbandoned(Abandon(s));
          assert WaitingFrom(s.pending, k) == s.pending.Keys;
        } else {
          DrainAbandonsPiled(Abandon(s), j);
          SubsetSize(WaitingFrom(Abandon(s).pending, r.id), WaitingFrom(s.pending, r.id));
        }
      }
    }
  }

  lemma {:induction false} SubsetSize<T>(a: set<T>, b: set<T>)
    requires a <= b
    ensures |a| <= |b|
  {
    if a != {} {
      var x :| x in a;
      SubsetSize(a - {x}, b - {x});
    }
  }

  lemma {:induction false} DrainKeepsAbandoned(s: State)
    ensures s.abandoned <= Drain(s).abandoned
    decreases s.pending.Keys
  {
    if s.pending == map[] {
    } else if s.pending[Head(s.pending)].Complete() {
      DrainKeepsAbandoned(Deliver(s));
    } else if |s.pending| > BACKLOG {
      DrainKeepsAbandoned(Abandon(s));
      assert s.abandoned <= Abandon(s).abandoned <= Drain(s).abandoned;
    }
  }

  /** The drain loop gives up an incomplete front if and only if at least 13 frames wait, it being one of them. */
  lemma {:induction false} FrontGivenUpIff(s: State, k: uint32)
    requires IsHead(s.pending, k) && !s.pending[k].Complete()
    ensures 13 <= |s.pending| <==> s.abandoned + [Removed(k, s.pending[k])] <= Drain(s).abandoned
    ensures |s.pending| <= 12 ==> Drain(s) == s.(nextDeliver := k)
  {
    assert s.pending != map[] && Head(s.pending) == k;
    if |s.pending| > BACKLOG {
      DrainKeepsAbandoned(Abandon(s));
    }
  }

  /** The watermark stands at a waiting frame or right behind one that was filed. */
  ghost predicate Anchored(s: State) {
    s.nextDeliver in s.pending || (s.nextDeliver > 0 && s.nextDeliver - 1 in s.filed)
  }

  lemma {:induction false} DrainAnchors(s: State)
    requires Conserved(s) && (forall k :: k in s.pending ==> k < LAST_ID) && (s.pending != map[] || Anchored(s))
    ensures Anchored(Drain(s))
    decreases s.pending.Keys
  {
    if s.pending != map[] {
      var k := Head(s.pending);
      MoveOne(s.filed, Ids(s.delivered), Ids(s.abandoned), s.pending.Keys, k);
      if s.pending[k].Complete() {
        DrainAnchors(Deliver(s));
      } else if |s.pending| > BACKLOG {
        DrainAnchors(Abandon(s));
      }
    }
  }

  ghost predicate Good(s: State) { Balanced(s) && Started(s) }

  lemma {:induction false} NoIds(rs: seq<Removed>)
    ensures Ids(rs) == {} <==> rs == []
  {
    if rs != [] {
      assert rs[|rs| - 1].id in Ids(rs);
    }
  }

  lemma {:induction false} NothingBeforeStart(s: State)
    requires Balanced(s) && s.filed == {}
    ensures s.delivered == [] && s.abandoned == [] && s.pending == map[]
  {
    NoIds(s.delivered);
    NoIds(s.abandoned);
    assert s.pending.Keys == {};
  }

  lemma {:induction false} ResyncBalances(s: State, h: PacketHeader)
    requires Good(s) && (s.streamStarted || HasKeyframeFlag(h.flags))
    ensures Balanced(Resync(s, h))
    ensures !s.streamStarted ==> Resync(s, h).start == h.frameId && s.filed == {}
  {
    if !s.streamStarted {
      NothingBeforeStart(s);
    }
  }

  lemma {:induction false} FileKey(m: map<uint32, FrameAssembly>, id: uint32, fa: FrameAssembly)
    ensures m[id := fa].Keys == m.Keys + {id} && |m[id := fa]| <= |m| + 1
  {
    assert m[id := fa].Keys == m.Keys + {id};
  }

  function WithEntry(s: State, id: uint32, fa: FrameAssembly): State {
    s.(pending := s.pending[id := fa], filed := s.filed + {id})
  }

  /** Filing an id at or above the watermark: it was never removed. */
  lemma {:induction false} AddOne(all: set<uint32>, a: set<uint32>, b: set<uint32>, c: set<uint32>, k: uint32)
    requires Partition(all, a, b, c) && k !in a + b
    ensures Partition(all + {k}, a, b, c + {k})
  {
  }

  lemma {:induction false} FilingConserves(s: State, id: uint32, fa: FrameAssembly)
    requires Balanced(s) && s.nextDeliver <= id < LAST_ID
    ensures Balanced(WithEntry(s, id, fa)) && |WithEntry(s, id, fa).pending| <= |s.pending| + 1
  {
    FileKey(s.pending, id, fa);
    LeftIds(s.delivered, s.nextDeliver);
    LeftIds(s.abandoned, s.nextDeliver);
    AddOne(s.filed, Ids(s.delivered), Ids(s.abandoned), s.pending.Keys, id);
  }

  lemma {:induction false} FilingIsGood(s: State, id: uint32, fa: FrameAssembly)
    requires Balanced(s) && s.streamStarted && s.nextDeliver <= id < LAST_ID
    requires if s.filed == {} then s.start == id && s.start <= s.nextDeliver else Started(s)
    ensures Good(WithEntry(s, id, fa)) && Later(s, WithEntry(s, id, fa))
    ensures |WithEntry(s, id, fa).pending| <= |s.pending| + 1
  {
    FilingConserves(s, id, fa);
  }

  lemma {:induction false} ResyncIsReady(s: State, h: PacketHeader)
    requires Good(s) && Accepted(s, h)
    ensures var s1 := Resync(s, h);
            && Balanced(s1) && s1.streamStarted && s1.nextDeliver <= h.frameId
            && (if s1.filed == {} then s1.start == h.frameId && s1.start <= s1.nextDeliver else Started(s1))
            && s1.pending == s.pending && s1.delivered == s.delivered && s1.abandoned == s.abandoned
            && (s.streamStarted ==> s1 == s) && Later(s, s1)
  {
    ResyncBalances(s, h);
  }

  /** Both ways of filing an accepted packet. */
  lemma {:induction false} FilingBalances(s: State, p: Packet)
    requires Good(s) && Accepted(s, p.header) && p.header.frameId != LAST_ID
    ensures var s1 := Resync(s, p.header);
            && Good(File(s1, p.header.frameId)) && Later(s1, File(s1, p.header.frameId))
            && Good(Filed(s1, p)) && Later(s1, Filed(s1, p))
            && |Filed(s1, p).pending| <= |s.pending| + 1
  {
    var s1, id := Resync(s, p.header), p.header.frameId;
    ResyncIsReady(s, p.header);
    FilingIsGood(s1, id, Entry(s1, id));
    FilingIsGood(s1, id, Assemble(s1, p));
    FiledIsWithEntry(s1, p);
  }

  lemma {:induction false} FiledIsWithEntry(s: State, p: Packet)
    ensures Filed(s, p) == WithEntry(s, p.header.frameId, Assemble(s, p))
    ensures File(s, p.header.frameId) == WithEntry(s, p.header.frameId, Entry(s, p.header.frameId))
  {
  }

  lemma {:induction false} DrainKeepsGood(s: State)
    requires Good(s)
    ensures Good(Drain(s)) && Later(s, Drain(s))
  {
    DrainBalances(s);
    DrainAbandonsExcess(s);
  }

  /** One packet of any content, short of the wrapping id. */
  lemma {:induction false} HandleKeepsLedger(s: State, p: Packet)
    requires Good(s) && p.header.frameId != LAST_ID
    ensures Good(Handle(s, p)) && Later(s, Handle(s, p))
  {
    if Accepted(s, p.header) {
      var s1 := Resync(s, p.header);
      ResyncIsReady(s, p.header);
      FilingBalances(s, p);
      if OpensNothing(s1, p.header) {
        LaterTransitive(s, s1, File(s1, p.header.frameId));
      } else {
        var t := Filed(s1, p);
        DrainKeepsGood(t);
        LaterTransitive(s, s1, t);
        LaterTransitive(s, t, Drain(t));
      }
    }
  }

  /** One datagram abandons at most one frame. */
  lemma {:induction false} AtMostOneAbandoned(s: State, p: Packet)
    requires Good(s) && p.header.frameId != LAST_ID && |s.pending| <= BACKLOG
    ensures s.abandoned <= Handle(s, p).abandoned && |Handle(s, p).abandoned| <= |s.abandoned| + 1
  {
    if Accepted(s, p.header) {
      var s1 := Resync(s, p.header);
      FilingBalances(s, p);
      if !OpensNothing(s1, p.header) {
        DrainKeepsGood(Filed(s1, p));
        DrainAbandonsExcess(Filed(s1, p));
        assert Handle(s, p) == Drain(Filed(s1, p)) && Filed(s1, p).abandoned == s.abandoned;
      }
    }
  }

  lemma {:induction false} DrainKeepsDescribed(s: State)
    requires AllDescribed(s)
    ensures AllDescribed(Drain(s))
    decreases s.pending.Keys
  {
    if s.pending == map[] {
    } else if s.pending[Head(s.pending)].Complete() {
      DrainKeepsDescribed(Deliver(s));
    } else if |s.pending| > BACKLOG {
      DrainKeepsDescribed(Abandon(s));
    }
  }

  lemma {:induction false} FilesEmptyIff(s: State, h: PacketHeader)
    requires AllDescribed(s)
    ensures Accepted(s, h) && OpensNothing(Resync(s, h), h) <==>
            && (if s.streamStarted then h.frameId >= s.nextDeliver else h.flags % 2 == 1)
            && h.frameId !in s.pending && (h.totalPackets == 0 || h.frameSize == 0)
  {
  }

  lemma {:induction false} DrainedUnlessEmpty(s: State, p: Packet)
    requires Good(s) && Drained(s) && AllDescribed(s) && p.header.frameId != LAST_ID
    ensures Drained(Handle(s, p)) && AllDescribed(Handle(s, p)) <==>
            !(Accepted(s, p.header) && OpensNothing(Resync(s, p.header), p.header))
  {
    var h := p.header;
    var s1 := Resync(s, h);
    if Accepted(s, h) {
      if OpensNothing(s1, h) {
        assert !AllDescribed(File(s1, h.frameId)) by { assert h.frameId in File(s1, h.frameId).pending; }
      } else {
        FiledIsDescribed(s, p);
        DrainDrains(Filed(s1, p));
        DrainKeepsDescribed(Filed(s1, p));
      }
    }
  }

  /**
   * Both the backlog bound and the absence of empty entries survive a packet exactly when it is not the first one
   * accepted of a frame and without a count or a size: the map entry is created before the two are tested, and that
   * path skips the drain loop.
   */
  lemma {:induction false} DrainedAfterPacketIff(s: State, p: Packet)
    requires Good(s) && Drained(s) && AllDescribed(s) && p.header.frameId != LAST_ID
    ensures var h := p.header;
            Drained(Handle(s, p)) && AllDescribed(Handle(s, p)) <==>
            !(&& (if s.streamStarted then h.frameId >= s.nextDeliver else h.flags % 2 == 1)
              && h.frameId !in s.pending && (h.totalPackets == 0 || h.frameSize == 0))
  {
    DrainedUnlessEmpty(s, p);
    FilesEmptyIff(s, p.header);
  }

  lemma {:induction false} FiledIsDescribed(s: State, p: Packet)
    requires AllDescribed(s) && !OpensNothing(Resync(s, p.header), p.header)
    ensures AllDescribed(Filed(Resync(s, p.header), p))
  {
  }

  lemma {:induction false} NothingWaitsBeforeStart(s: State)
    requires Good(s) && !s.streamStarted
    ensures s.pending == map[]
  {
    NothingBeforeStart(s);
  }

  lemma {:induction false} EmptyEntryDrainedIff(s: State, id: uint32)
    requires Drained(s) && id !in s.pending && s.nextDeliver <= id
    ensures Drained(WithEntry(s, id, NO_FRAME)) <==> 0 < |s.pending| < BACKLOG
  {
    var m := s.pending[id := NO_FRAME];
    assert m.Keys == s.pending.Keys + {id} && |m| == |m.Keys| == |s.pending| + 1;
    if s.pending == map[] {
      assert m == map[id := NO_FRAME];
    } else {
      assert IsHead(m, s.nextDeliver) && m[s.nextDeliver] == s.pending[s.nextDeliver];
    }
  }

  lemma {:induction false} OpensNothingFilesEmpty(s: State, h: PacketHeader)
    requires AllDescribed(s) && Accepted(s, h) && OpensNothing(Resync(s, h), h)
    ensures h.frameId !in s.pending && Resync(s, h).pending == s.pending
    ensures File(Resync(s, h), h.frameId) == WithEntry(Resync(s, h), h.frameId, NO_FRAME)
  {
  }

  lemma {:induction false} ResyncKeepsDrained(s: State, h: PacketHeader)
    requires Good(s) && Drained(s)
    ensures Drained(Resync(s, h))
  {
    if !s.streamStarted {
      NothingWaitsBeforeStart(s);
    }
  }

  lemma {:induction false} BacklogKeptUnlessEmpty(s: State, p: Packet)
    requires Good(s) && Drained(s) && AllDescribed(s) && p.header.frameId != LAST_ID
    ensures Drained(Handle(s, p)) <==>
            !(Accepted(s, p.header) && OpensNothing(Resync(s, p.header), p.header)) || 0 < |s.pending| < 12
  {
    if Accepted(s, p.header) && OpensNothing(Resync(s, p.header), p.header) {
      OpensNothingFilesEmpty(s, p.header);
      ResyncKeepsDrained(s, p.header);
      EmptyEntryDrainedIff(Resync(s, p.header), p.header.frameId);
    } else {
      DrainedUnlessEmpty(s, p);
    }
  }

  /** The backlog bound alone also survives an empty entry while other frames wait and there is room for one more. */
  lemma {:induction false} BacklogKeptIff(s: State, p: Packet)
    requires Good(s) && Drained(s) && AllDescribed(s) && p.header.frameId != LAST_ID
    ensures var h := p.header;
            Drained(Handle(s, p)) <==>
            || !(&& (if s.streamStarted then h.frameId >= s.nextDeliver else h.flags % 2 == 1)
                 && h.frameId !in s.pending && (h.totalPackets == 0 || h.frameSize == 0))
            || 0 < |s.pending| < 12
  {
    BacklogKeptUnlessEmpty(s, p);
    FilesEmptyIff(s, p.header);
  }

  lemma {:induction false} DrainKeepsDelivered(s: State)
    ensures s.delivered <= Drain(s).delivered
    decreases s.pending.Keys
  {
    if s.pending == map[] {
    } else if s.pending[Head(s.pending)].Complete() {
      DrainKeepsDelivered(Deliver(s));
      assert s.delivered <= Deliver(s).delivered <= Drain(s).delivered;
    } else if |s.pending| > BACKLOG {
      DrainKeepsDelivered(Abandon(s));
    }
  }

  lemma {:induction false} EmptyHeadIsDelivered(s: State, id: uint32)
    requires IsHead(s.pending, id) && s.pending[id] == NO_FRAME
    ensures |Drain(s).delivered| > |s.delivered| && Drain(s).delivered[|s.delivered|] == Removed(id, NO_FRAME)
  {
    assert s.pending != map[] && Head(s.pending) == id;
    DrainKeepsDelivered(Deliver(s));
    assert Deliver(s).delivered == s.delivered + [Removed(id, NO_FRAME)];
  }

  lemma {:induction false} FiledBehindEmpty(s: State, id: uint32, q: Packet)
    requires s.pending == map[id := NO_FRAME] && id < q.header.frameId
    ensures IsHead(Filed(s, q).pending, id) && Filed(s, q).pending[id] == NO_FRAME
    ensures Filed(s, q).delivered == s.delivered
  {
  }

  /**
   * An entry of 0 of 0 packets counts as complete: the next frame's packet sends it to the decoder as an empty frame.
   */
  lemma {:induction false} EmptyEntryReachesDecoder(s: State, p: Packet, q: Packet)
    requires s.pending == map[] && Accepted(s, p.header) && OpensNothing(Resync(s, p.header), p.header)
    requires p.header.frameId < q.header.frameId && q.header.totalPackets > 0 && q.header.frameSize > 0
    ensures var t := Handle(Handle(s, p), q);
            && |t.delivered| > |s.delivered|
            && t.delivered[|s.delivered|] == Removed(p.header.frameId, NO_FRAME)
  {
    var id := p.header.frameId;
    var s1 := File(Resync(s, p.header), id);
    assert s1.pending == map[id := NO_FRAME];
    FiledBehindEmpty(s1, id, q);
    EmptyHeadIsDelivered(Filed(s1, q), id);
    assert Handle(s, p) == s1 && Handle(s1, q) == Drain(Filed(s1, q));
  }

  /** An id once delivered or abandoned is never opened again: its late and duplicate packets change nothing. */
  lemma {:induction false} RemovedIsNeverReopened(s: State, p: Packet)
    requires Good(s) && p.header.frameId in Ids(s.delivered) + Ids(s.abandoned)
    ensures Handle(s, p) == s
  {
    LeftIds(s.delivered, s.nextDeliver);
    LeftIds(s.abandoned, s.nextDeliver);
  }

  // ---- counting packets ----------------------------------------------------

  /** recvCount is the number of marks. */
  predicate Counted(fa: FrameAssembly) { fa.recvCount == Ones(fa.have) }

  ghost predicate AllCounted(s: State) {
    && (forall k :: k in s.pending ==> Counted(s.pending[k]))
    && (forall i :: 0 <= i < |s.delivered| ==> Counted(s.delivered[i].frame))
    && (forall i :: 0 <= i < |s.abandoned| ==> Counted(s.abandoned[i].frame))
  }

  /** So an entry is complete exactly when every packet it announced is marked, whatever the packets held. */
  lemma {:induction false} CompleteIffAllMarked(fa: FrameAssembly)
    requires Counted(fa)
    ensures fa.Complete() <==> forall i :: 0 <= i < |fa.have| ==> fa.have[i]
  {
    AllOnes(fa.have);
  }

  lemma {:induction false} AbsorbKeepsCount(fa: FrameAssembly, p: Packet)
    requires Counted(fa)
    ensures Counted(Absorb(fa, p))
  {
    var idx := p.header.packetIdx;
    if idx < fa.totalPackets && !fa.have[idx] {
      OnesCountUp(fa.have, idx);
      AllOnes(fa.have);
    }
  }

  lemma {:induction false} AssembleKeepsCount(s: State, p: Packet)
    requires AllCounted(s)
    ensures Counted(Assemble(s, p)) && Counted(Entry(s, p.header.frameId))
  {
    var entry := Entry(s, p.header.frameId);
    NoOnes(p.header.totalPackets);
    assert Counted(entry);
    AbsorbKeepsCount(if entry.totalPackets == 0 then Fresh(p.header) else entry, p);
  }

  lemma {:induction false} DrainKeepsCount(s: State)
    requires AllCounted(s)
    ensures AllCounted(Drain(s))
    decreases s.pending.Keys
  {
    if s.pending == map[] {
    } else if s.pending[Head(s.pending)].Complete() {
      DrainKeepsCount(Deliver(s));
    } else if |s.pending| > BACKLOG {
      DrainKeepsCount(Abandon(s));
    }
  }

  lemma {:induction false} HandleKeepsCount(s: State, p: Packet)
    requires AllCounted(s)
    ensures AllCounted(Handle(s, p))
  {
    var s1 := Resync(s, p.header);
    AssembleKeepsCount(s1, p);
    if Accepted(s, p.header) && !OpensNothing(s1, p.header) {
      DrainKeepsCount(Filed(s1, p));
    }
  }

  // ---- every run -------------------------------------------------------------

  ghost function RunFrom(s: State, data: seq<seq<byte>>): State {
    if data == [] then s else Step(RunFrom(s, data[..|data| - 1]), data[|data| - 1])
  }

  predicate NoWrap(data: seq<byte>) {
    Parse(data).Some? ==> Parse(data).value.header.frameId != LAST_ID
  }

  /** In every run over arbitrary datagrams the counts are right, the last id included. */
  lemma {:induction false} AnyRunCounts(data: seq<seq<byte>>)
    ensures AllCounted(RunFrom(INIT_STATE, data))
  {
    if data != [] {
      var n := |data| - 1;
      AnyRunCounts(data[..n]);
      if Parse(data[n]).Some? {
        HandleKeepsCount(RunFrom(INIT_STATE, data[..n]), Parse(data[n]).value);
      }
    }
  }

  /** Every run over arbitrary datagrams that avoids the last id. */
  lemma {:induction false} AnyRunKeepsLedger(data: seq<seq<byte>>)
    requires forall d :: d in data ==> NoWrap(d)
    ensures Good(RunFrom(INIT_STATE, data)) && AllCounted(RunFrom(INIT_STATE, data))
  {
    AnyRunCounts(data);
    if data == [] {
      assert Ids([]) == {};
    } else {
      var n := |data| - 1;
      AnyRunKeepsLedger(data[..n]);
      assert data[n] in data;
      if Parse(data[n]).Some? {
        HandleKeepsLedger(RunFrom(INIT_STATE, data[..n]), Parse(data[n]).value);
      }
    }
  }

  /** The first frame to leave is the one the stream was started at: it is delivered first unless it was abandoned. */
  lemma {:induction false} StartLeavesFirst(s: State)
    requires Good(s)
    ensures s.delivered != [] ==> s.delivered[0].id == s.start || s.start in Ids(s.abandoned)
    ensures s.delivered + s.abandoned != [] ==> s.start in Ids(s.delivered) + Ids(s.abandoned)
    ensures s.start in Ids(s.abandoned) ==> s.abandoned[0].id == s.start
  {
    IdsAre(s.delivered);
    IdsAre(s.abandoned);
    if s.delivered != [] {
      assert s.delivered[0].id in Ids(s.delivered);
    }
    if s.abandoned != [] {
      assert s.abandoned[0].id in Ids(s.abandoned);
    }
  }
}
