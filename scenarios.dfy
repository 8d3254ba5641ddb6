/**
 * Concrete sweeps worked through the specification functions: a shot
 * next to the first of two players ten apart, a player at exactly the hit
 * radius, and the first-match tie-break across two shots.
 */
module Scenarios {
  import opened Wrappers
  import opened Protocol
  import opened Sequences
  import opened Shots
  import opened PlayerRegistry
  import opened HitDetection

  function At(x: real): Player {
    Player(Vec3(x, 0.0, 0.0), 0.0)
  }

  /** P1 at the origin and P2 at x = 10, registered in that order. */
  function TwoApart(): (r: Registry)
    ensures r.Valid()
  {
    Registry(["P1", "P2"], map["P1" := At(0.0), "P2" := At(10.0)])
  }

  /** P1 at the origin and P2 at x = 0.5, registered in that order. */
  function SideBySide(): (r: Registry)
    ensures r.Valid()
  {
    Registry(["P1", "P2"], map["P1" := At(0.0), "P2" := At(0.5)])
  }

  /** Connecting P1 and then P2 and moving them into place gives the registry TwoApart. */
  lemma TwoApartByHandlers()
    ensures Put(Put(Put(Put(Empty, "P1", Spawn), "P2", Spawn), "P1", At(0.0)), "P2", At(10.0)) == TwoApart()
  {
    var r := Put(Put(Empty, "P1", Spawn), "P2", Spawn);
    assert r.order == ["P1", "P2"];
    assert r.records["P1" := At(0.0)]["P2" := At(10.0)] == TwoApart().records;
  }

  /** When the first player in iteration order is in range, the scan stops there. */
  lemma FirstInRangeIsTarget(r: Registry, at: Vec3)
    requires r.Valid() && |r.order| > 0 && InRange(at, r.records[r.order[0]].position)
    ensures FirstTarget(r, at, |r.order|) == Some(0)
  {
  }

  /** Deleting the first of two players. */
  lemma DeleteFirstOfTwo(a: SocketId, b: SocketId, p: Player, q: Player)
    requires a != b
    ensures Delete(Registry([a, b], map[a := p, b := q]), a) == Registry([b], map[b := q])
  {
    assert [a, b][..1] == [a] && [a][..0] == [];
    assert RemoveAll([a], {a}) == [];
    assert map[a := p, b := q] - {a} == map[b := q];
  }

  /** Deleting the only player. */
  lemma DeleteOnly(b: SocketId, q: Player)
    ensures Delete(Registry([b], map[b := q]), b) == Registry([], map[])
  {
    assert [b][..0] == [];
    assert RemoveAll([b], {b}) == RemoveAll([], {b}) == [];
    assert map[b := q] - {b} == map[];
  }

  /** The one shot that hit is filtered out, leaving no shots. */
  lemma OneShotSpent(shot: ShotRecord, victim: SocketId)
    ensures RemoveAll([shot], HitShots([shot], [Kill(0, victim)])) == []
  {
    assert Kill(0, victim) in [Kill(0, victim)];
    assert HitShots([shot], [Kill(0, victim)]) == {shot};
    assert [shot][..0] == [];
  }

  /** The two emits announcing one kill. */
  lemma AnnounceOne(victim: SocketId, to: set<SocketId>)
    ensures Announce([Kill(0, victim)], to) == [Emission(PlayerHit(victim), to), Emission(PlayerDisconnected(victim), to)]
  {
    assert [Kill(0, victim)][..0] == [];
  }

  /** The hit loop for a shot at x = 0.5 over TwoApart takes out P1 only. */
  lemma ShotNearFirstPlayerHits(shot: ShotRecord)
    requires shot.position == Vec3(0.5, 0.0, 0.0)
    ensures HitPhase(TwoApart(), [shot], 1) == HitState(Registry(["P2"], map["P2" := At(10.0)]), [Kill(0, "P1")])
  {
    var r := TwoApart();
    assert InRange(shot.position, r.records[r.order[0]].position);
    FirstInRangeIsTarget(r, shot.position);
    DeleteFirstOfTwo("P1", "P2", At(0.0), At(10.0));
  }

  /** A shot at x = 0.5 takes out P1 only, announces it once, and is itself removed. */
  lemma ShotNearFirstPlayer(shot: ShotRecord, audience: set<SocketId>, now: nat)
    requires shot.position == Vec3(0.5, 0.0, 0.0)
    ensures var o := Sweep(TwoApart(), [shot], audience, now);
      && o.players.records == map["P2" := At(10.0)]
      && o.kills == [Kill(0, "P1")]
      && o.announced == [Emission(PlayerHit("P1"), audience), Emission(PlayerDisconnected("P1"), audience)]
      && o.shots == []
  {
    ShotNearFirstPlayerHits(shot);
    OneShotSpent(shot, "P1");
    AnnounceOne("P1", audience);
  }

  /** A player at distance exactly `playerRadius` from a shot is not hit, and the unspent shot stays while live. */
  lemma ShotAtExactRadius(shot: ShotRecord, audience: set<SocketId>)
    requires shot.position == Vec3(1.0, 0.0, 0.0)
    ensures var o := Sweep(Registry(["P1"], map["P1" := At(0.0)]), [shot], audience, shot.timestamp);
      && o.players == Registry(["P1"], map["P1" := At(0.0)])
      && o.kills == []
      && o.announced == []
      && o.shots == [shot]
  {
    var r := Registry(["P1"], map["P1" := At(0.0)]);
    assert !InRange(shot.position, r.records["P1"].position);
    assert FirstTarget(r, shot.position, 1) == None;
    assert HitShots([shot], []) == {};
    assert RemoveAll([shot], {}) == [shot];
  }

  /** The first of two shots at x = 0.25 takes out P1, the first registered of the two in range. */
  lemma SideBySideFirstShot(fired: seq<ShotRecord>)
    requires |fired| == 2 && fired[0].position == Vec3(0.25, 0.0, 0.0)
    ensures HitPhase(SideBySide(), fired, 1) == HitState(Registry(["P2"], map["P2" := At(0.5)]), [Kill(0, "P1")])
  {
    var r := SideBySide();
    assert InRange(fired[0].position, r.records[r.order[0]].position);
    FirstInRangeIsTarget(r, fired[0].position);
    DeleteFirstOfTwo("P1", "P2", At(0.0), At(0.5));
  }

  /** The second shot, checked against the players that remain, takes out P2. */
  lemma SideBySideSecondShot(fired: seq<ShotRecord>)
    requires |fired| == 2 && fired[0].position == Vec3(0.25, 0.0, 0.0) && fired[1].position == Vec3(0.25, 0.0, 0.0)
    ensures HitPhase(SideBySide(), fired, 2) == HitState(Registry([], map[]), [Kill(0, "P1"), Kill(1, "P2")])
  {
    SideBySideFirstShot(fired);
    var left := Registry(["P2"], map["P2" := At(0.5)]);
    HitPhaseNext(SideBySide(), fired, 1);
    assert InRange(fired[1].position, left.records[left.order[0]].position);
    FirstInRangeIsTarget(left, fired[1].position);
    DeleteOnly("P2", At(0.5));
  }

  /** When the two shots register the two kills, filtering out the shots that hit leaves nothing. */
  lemma BothShotsSpent(s1: ShotRecord, s2: ShotRecord)
    ensures RemoveAll([s1, s2], HitShots([s1, s2], [Kill(0, "P1"), Kill(1, "P2")])) == []
  {
    var fired := [s1, s2];
    var kills := [Kill(0, "P1"), Kill(1, "P2")];
    assert kills[0] in kills && kills[1] in kills;
    forall x | x in HitShots(fired, kills) ensures x == s1 || x == s2 {
      var kill :| kill in kills && kill.shot < |fired| && x == fired[kill.shot];
    }
    assert HitShots(fired, kills) == {s1, s2};
    assert fired[..1] == [s1] && [s1][..0] == [];
    assert RemoveAll([s1], {s1, s2}) == [];
  }

  /**
   * Two shots at x = 0.25 have both players in range: the first shot takes
   * out the player registered first, and the second shot, checked against
   * the players that remain, takes out the other; both shots are removed.
   */
  lemma FirstMatchThenRemaining(s1: ShotRecord, s2: ShotRecord, audience: set<SocketId>, now: nat)
    requires s1.position == Vec3(0.25, 0.0, 0.0) && s2.position == Vec3(0.25, 0.0, 0.0)
    ensures var o := Sweep(SideBySide(), [s1, s2], audience, now);
      && o.kills == [Kill(0, "P1"), Kill(1, "P2")]
      && o.players.records == map[]
      && o.shots == []
  {
    SideBySideSecondShot([s1, s2]);
    BothShotsSpent(s1, s2);
  }
}
