/**
 * The once-a-second sweep of server.js as a specification: which players
 * each shot takes out, the events announced, and the shots that remain.
 * The loop that performs it is GameServer.Tick; the lemmas here state what
 * one sweep guarantees.
 */
module HitDetection {
  import opened Wrappers
  import opened Protocol
  import opened Sequences
  import opened Shots
  import opened PlayerRegistry

  /** The shot at index `shot` of the list the sweep walks took out `victim`. */
  datatype Kill = Kill(shot: nat, victim: SocketId)

  /** The registry and the kills after the hit loop has handled some shots. */
  datatype HitState = HitState(players: Registry, kills: seq<Kill>)

  /** What a sweep leaves: the registry, the shot list, the events sent, and who was hit by what. */
  datatype Outcome = Outcome(players: Registry, shots: seq<ShotRecord>, announced: seq<Emission>, kills: seq<Kill>)

  function Victims(kills: seq<Kill>): set<SocketId> {
    set kill | kill in kills :: kill.victim
  }

  function ShotIndices(kills: seq<Kill>): set<nat> {
    set kill | kill in kills :: kill.shot
  }

  /** The shot objects that registered a hit. */
  function HitShots(fired: seq<ShotRecord>, kills: seq<Kill>): set<ShotRecord> {
    set kill | kill in kills && kill.shot < |fired| :: fired[kill.shot]
  }

  /**
   * The `for...in` scan with its `break`: the place in iteration order of
   * the first of the first `n` players strictly within range of `at`.
   */
  function FirstTarget(r: Registry, at: Vec3, n: nat): (t: Option<nat>)
    requires r.Valid() && n <= |r.order|
    ensures t.Some? ==> t.value < n && InRange(at, r.records[r.order[t.value]].position)
    ensures forall j :: 0 <= j < n && (t.None? || j < t.value) ==>
              !InRange(at, r.records[r.order[j]].position)
    decreases n
  {
    if n == 0 then None
    else match FirstTarget(r, at, n - 1)
      case Some(i) => Some(i)
      case None =>
        if InRange(at, r.records[r.order[n - 1]].position) then Some(n - 1) else None
  }

  /** One turn of the `for...of` loop: shot number `k` takes out its first target, if any. */
  function Resolve(st: HitState, shot: ShotRecord, k: nat): (st': HitState)
    requires st.players.Valid()
    ensures st'.players.Valid()
  {
    match FirstTarget(st.players, shot.position, |st.players.order|)
    case None => st
    case Some(i) =>
      var victim := st.players.order[i];
      HitState(Delete(st.players, victim), st.kills + [Kill(k, victim)])
  }

  /** The hit loop over the first `n` shots of `fired`, starting from `before`. */
  function HitPhase(before: Registry, fired: seq<ShotRecord>, n: nat): (st: HitState)
    requires before.Valid() && n <= |fired|
    ensures st.players.Valid()
    decreases n
  {
    if n == 0 then HitState(before, [])
    else Resolve(HitPhase(before, fired, n - 1), fired[n - 1], n - 1)
  }

  /** The two `io.emit` calls per kill, `playerHit` then `playerDisconnected`, to `to`. */
  function Announce(kills: seq<Kill>, to: set<SocketId>): (r: seq<Emission>)
    ensures |r| == 2 * |kills|
    ensures forall i :: 0 <= i < |kills| ==>
              r[2 * i] == Emission(PlayerHit(kills[i].victim), to) &&
              r[2 * i + 1] == Emission(PlayerDisconnected(kills[i].victim), to)
    decreases |kills|
  {
    if kills == [] then []
    else
      var last := kills[|kills| - 1];
      Announce(kills[..|kills| - 1], to)
        + [Emission(PlayerHit(last.victim), to), Emission(PlayerDisconnected(last.victim), to)]
  }

  /**
   * One sweep at time `now` over the registry `before` and the shot list
   * `fired`, announcing to the sockets in `audience`: the hit loop, the
   * removal of every shot that hit, then the expiry filter.
   */
  function Sweep(before: Registry, fired: seq<ShotRecord>, audience: set<SocketId>, now: nat): (o: Outcome)
    requires before.Valid()
    ensures o.players.Valid()
  {
    var st := HitPhase(before, fired, |fired|);
    Outcome(st.players, Expire(RemoveAll(fired, HitShots(fired, st.kills)), now),
            Announce(st.kills, audience), st.kills)
  }

  /** The registry lost exactly the victims and changed no other record. */
  ghost predicate LostOnlyVictims(before: Registry, after: Registry, kills: seq<Kill>) {
    after.records == before.records - Victims(kills)
  }

  /**
   * Every kill names one of the first `n` shots and a registered player
   * strictly within its range; no shot and no player occurs in two kills.
   */
  ghost predicate KillsSound(before: Registry, fired: seq<ShotRecord>, n: nat, kills: seq<Kill>) {
    && n <= |fired|
    && (forall i :: 0 <= i < |kills| ==>
          && kills[i].shot < n
          && kills[i].victim in before.records
          && InRange(fired[kills[i].shot].position, before.records[kills[i].victim].position))
    && (forall i, j :: 0 <= i < j < |kills| ==>
          kills[i].shot < kills[j].shot && kills[i].victim != kills[j].victim)
  }

  /** Each of the first `n` shots that hit nobody is out of range of every player still registered. */
  ghost predicate MissesAreClean(fired: seq<ShotRecord>, n: nat, st: HitState) {
    && n <= |fired|
    && forall j, id {:trigger InRange(fired[j].position, st.players.records[id].position)} :: 0 <= j < n && j !in ShotIndices(st.kills) && id in st.players.records ==>
         !InRange(fired[j].position, st.players.records[id].position)
  }

  /** All three facts about the hit loop after its first `n` shots. */
  ghost predicate HitFacts(before: Registry, fired: seq<ShotRecord>, n: nat, st: HitState) {
    && LostOnlyVictims(before, st.players, st.kills)
    && KillsSound(before, fired, n, st.kills)
    && MissesAreClean(fired, n, st)
  }

  /** A shot that finds no target keeps the facts. */
  lemma ResolveMiss(before: Registry, fired: seq<ShotRecord>, k: nat, st: HitState)
    requires k < |fired| && st.players.Valid() && HitFacts(before, fired, k, st)
    requires FirstTarget(st.players, fired[k].position, |st.players.order|).None?
    ensures HitFacts(before, fired, k + 1, st)
  {
    forall j, id | 0 <= j < k + 1 && j !in ShotIndices(st.kills) && id in st.players.records
      ensures !InRange(fired[j].position, st.players.records[id].position)
    {
      if j == k {
        var p :| 0 <= p < |st.players.order| && st.players.order[p] == id;
      }
    }
  }

  /** Taking out the target of a shot keeps the registry facts. */
  lemma ResolveHitRegistry(before: Registry, st: HitState, victim: SocketId, k: nat)
    requires st.players.Valid() && LostOnlyVictims(before, st.players, st.kills)
    requires victim in st.players.records
    ensures LostOnlyVictims(before, Delete(st.players, victim), st.kills + [Kill(k, victim)])
  {
    var kills' := st.kills + [Kill(k, victim)];
    assert Victims(kills') == Victims(st.kills) + {victim};
  }

  /** Taking out the target of a shot keeps the kills sound. */
  lemma ResolveHitKills(before: Registry, fired: seq<ShotRecord>, k: nat, st: HitState, victim: SocketId)
    requires k < |fired| && st.players.Valid()
    requires LostOnlyVictims(before, st.players, st.kills) && KillsSound(before, fired, k, st.kills)
    requires victim in st.players.records
    requires InRange(fired[k].position, st.players.records[victim].position)
    ensures KillsSound(before, fired, k + 1, st.kills + [Kill(k, victim)])
  {
    forall i | 0 <= i < |st.kills| ensures st.kills[i].victim != victim {
      assert st.kills[i] in st.kills;
    }
  }

  /** Taking out the target of a shot keeps misses clean. */
  lemma ResolveHitMisses(fired: seq<ShotRecord>, k: nat, st: HitState, victim: SocketId)
    requires k < |fired| && st.players.Valid() && MissesAreClean(fired, k, st)
    ensures MissesAreClean(fired, k + 1, HitState(Delete(st.players, victim), st.kills + [Kill(k, victim)]))
  {
    var kills' := st.kills + [Kill(k, victim)];
    assert ShotIndices(kills') == ShotIndices(st.kills) + {k};
  }

  /** The turn of the hit loop for shot `n - 1` keeps the facts. */
  lemma ResolveSound(before: Registry, fired: seq<ShotRecord>, n: nat, st: HitState)
    requires 0 < n <= |fired| && st.players.Valid() && HitFacts(before, fired, n - 1, st)
    ensures HitFacts(before, fired, n, Resolve(st, fired[n - 1], n - 1))
  {
    var k := n - 1;
    match FirstTarget(st.players, fired[k].position, |st.players.order|)
    case None =>
      ResolveMiss(before, fired, k, st);
    case Some(i) =>
      var victim := st.players.order[i];
      ResolveHitRegistry(before, st, victim, k);
      ResolveHitKills(before, fired, k, st, victim);
      ResolveHitMisses(fired, k, st, victim);
  }

  /** The facts hold after every prefix of the hit loop. */
  lemma {:induction false} HitPhaseSound(before: Registry, fired: seq<ShotRecord>, n: nat)
    requires before.Valid() && n <= |fired|
    ensures HitFacts(before, fired, n, HitPhase(before, fired, n))
    decreases n
  {
    if n > 0 {
      HitPhaseSound(before, fired, n - 1);
      ResolveSound(before, fired, n, HitPhase(before, fired, n - 1));
    }
  }

  /**
   * The registry after a sweep: exactly the victims are gone, every other
   * record is untouched, every victim was registered and strictly within
   * range of the shot that took it out, and no player was added.
   */
  lemma SweepRegistry(before: Registry, fired: seq<ShotRecord>, audience: set<SocketId>, now: nat)
    requires before.Valid()
    ensures var o := Sweep(before, fired, audience, now);
      && (forall id :: id in o.players.records ==> id in before.records && o.players.records[id] == before.records[id])
      && (forall id :: id in before.records && id !in Victims(o.kills) ==> id in o.players.records)
      && (forall kill :: kill in o.kills ==> kill.victim !in o.players.records)
      && (forall i :: 0 <= i < |o.kills| ==>
            && o.kills[i].shot < |fired|
            && o.kills[i].victim in before.records
            && InRange(fired[o.kills[i].shot].position, before.records[o.kills[i].victim].position))
  {
    HitPhaseSound(before, fired, |fired|);
  }

  /**
   * Each shot takes out at most one player and each player is taken out at
   * most once: kills are listed in the order of their shots, with no shot
   * and no victim repeated.
   */
  lemma SweepEliminatesAtMostOnce(before: Registry, fired: seq<ShotRecord>, audience: set<SocketId>, now: nat)
    requires before.Valid()
    ensures var o := Sweep(before, fired, audience, now);
      forall i, j :: 0 <= i < j < |o.kills| ==>
        o.kills[i].shot < o.kills[j].shot && o.kills[i].victim != o.kills[j].victim
  {
    HitPhaseSound(before, fired, |fired|);
  }

  /** A player strictly within range of no shot survives the sweep with its record unchanged. */
  lemma UntargetedPlayersSurvive(before: Registry, fired: seq<ShotRecord>, audience: set<SocketId>, now: nat, id: SocketId)
    requires before.Valid() && id in before.records
    requires forall j :: 0 <= j < |fired| ==> !InRange(fired[j].position, before.records[id].position)
    ensures var o := Sweep(before, fired, audience, now);
      id in o.players.records && o.players.records[id] == before.records[id]
  {
    HitPhaseSound(before, fired, |fired|);
  }

  /** A shot that hit nobody is out of range of every player left in the registry. */
  lemma MissedShotsMissSurvivors(before: Registry, fired: seq<ShotRecord>, audience: set<SocketId>, now: nat)
    requires before.Valid()
    ensures var o := Sweep(before, fired, audience, now);
      forall j, id :: 0 <= j < |fired| && j !in ShotIndices(o.kills) && id in o.players.records ==>
        !InRange(fired[j].position, o.players.records[id].position)
  {
    HitPhaseSound(before, fired, |fired|);
  }

  /**
   * The shot list after a sweep: exactly the live shots that hit nobody,
   * in their original order; nothing is added, every shot that hit is gone,
   * and every survivor is younger than the lifetime.
   */
  lemma SweepShots(before: Registry, fired: seq<ShotRecord>, audience: set<SocketId>, now: nat)
    requires before.Valid()
    ensures var o := Sweep(before, fired, audience, now);
      && (forall s :: s in o.shots ==> s in fired && Live(s, now) && s !in HitShots(fired, o.kills))
      && (forall s :: s in fired && Live(s, now) && s !in HitShots(fired, o.kills) ==> s in o.shots)
      && (forall kill :: kill in o.kills ==> kill.shot < |fired| && fired[kill.shot] !in o.shots)
      && SubsequenceOf(o.shots, fired)
      && |o.shots| <= |fired|
  {
    HitPhaseSound(before, fired, |fired|);
    var o := Sweep(before, fired, audience, now);
    var hit := RemoveAll(fired, HitShots(fired, o.kills));
    RemoveAllIsSubsequence(fired, HitShots(fired, o.kills));
    SubsequenceTransitive(o.shots, hit, fired);
    SubsequenceBounds(o.shots, fired);
    forall kill | kill in o.kills ensures kill.shot < |fired| && fired[kill.shot] in HitShots(fired, o.kills) {
      var i :| 0 <= i < |o.kills| && o.kills[i] == kill;
    }
  }

  /** When the shot objects are distinct, a live shot that hit nobody survives the sweep. */
  lemma MissedLiveShotsSurvive(before: Registry, fired: seq<ShotRecord>, audience: set<SocketId>, now: nat, j: nat)
    requires before.Valid() && Distinct(fired) && j < |fired| && Live(fired[j], now)
    ensures var o := Sweep(before, fired, audience, now);
      j !in ShotIndices(o.kills) ==> fired[j] in o.shots
  {
    var o := Sweep(before, fired, audience, now);
    if j !in ShotIndices(o.kills) {
      MissedShotNotHit(fired, o.kills, j);
    }
  }

  /** When the shot objects are distinct, a shot whose index registered no kill is not among the shots that hit. */
  lemma MissedShotNotHit(fired: seq<ShotRecord>, kills: seq<Kill>, j: nat)
    requires Distinct(fired) && j < |fired| && j !in ShotIndices(kills)
    ensures fired[j] !in HitShots(fired, kills)
  {
    forall kill | kill in kills && kill.shot < |fired| ensures fired[kill.shot] != fired[j] {
      assert kill.shot in ShotIndices(kills);
    }
  }

  /**
   * The events announced for a list of kills with distinct victims, all
   * sent to `to`: a `playerHit` for each victim, always immediately
   * followed by a `playerDisconnected` with the same id, and never two
   * `playerHit` events for the same id.
   */
  lemma AnnouncePairsHits(kills: seq<Kill>, to: set<SocketId>)
    requires forall i, j :: 0 <= i < j < |kills| ==> kills[i].victim != kills[j].victim
    ensures var ann := Announce(kills, to);
      && (forall a :: 0 <= a < |ann| ==> ann[a].recipients == to)
      && (forall a :: 0 <= a < |ann| && ann[a].event.PlayerHit? ==>
            a + 1 < |ann| && ann[a + 1].event == PlayerDisconnected(ann[a].event.id))
      && (forall a, b :: 0 <= a < b < |ann| && ann[a].event.PlayerHit? && ann[b].event.PlayerHit? ==>
            ann[a].event.id != ann[b].event.id)
      && (forall kill :: kill in kills ==> Emission(PlayerHit(kill.victim), to) in ann)
  {
    var ann := Announce(kills, to);
    forall a | 0 <= a < |ann| && ann[a].event.PlayerHit?
      ensures a + 1 < |ann| && ann[a + 1].event == PlayerDisconnected(ann[a].event.id)
    {
      AnnounceAt(kills, to, a);
      AnnounceAt(kills, to, a + 1);
    }
    forall a, b | 0 <= a < b < |ann| && ann[a].event.PlayerHit? && ann[b].event.PlayerHit?
      ensures ann[a].event.id != ann[b].event.id
    {
      AnnounceAt(kills, to, a);
      AnnounceAt(kills, to, b);
    }
    forall kill | kill in kills ensures Emission(PlayerHit(kill.victim), to) in ann {
      var i :| 0 <= i < |kills| && kills[i] == kill;
      assert ann[2 * i] == Emission(PlayerHit(kill.victim), to);
    }
  }

  /** Entry `a` of the announcements: the hit (even `a`) or the disconnect (odd `a`) for kill `a / 2`. */
  lemma AnnounceAt(kills: seq<Kill>, to: set<SocketId>, a: nat)
    requires a < 2 * |kills|
    ensures a / 2 < |kills|
    ensures Announce(kills, to)[a] == Emission(if a % 2 == 0 then PlayerHit(kills[a / 2].victim)
                                               else PlayerDisconnected(kills[a / 2].victim), to)
  {
    var i := a / 2;
    assert a == 2 * i || a == 2 * i + 1;
  }

  /** The events of a sweep pair each `playerHit` with its `playerDisconnected`, with no player hit twice. */
  lemma SweepAnnouncements(before: Registry, fired: seq<ShotRecord>, audience: set<SocketId>, now: nat)
    requires before.Valid()
    ensures var o := Sweep(before, fired, audience, now);
      && |o.announced| == 2 * |o.kills|
      && (forall a :: 0 <= a < |o.announced| ==> o.announced[a].recipients == audience)
      && (forall a :: 0 <= a < |o.announced| && o.announced[a].event.PlayerHit? ==>
            && a + 1 < |o.announced|
            && o.announced[a + 1].event == PlayerDisconnected(o.announced[a].event.id))
      && (forall a, b :: 0 <= a < b < |o.announced| && o.announced[a].event.PlayerHit? && o.announced[b].event.PlayerHit? ==>
            o.announced[a].event.id != o.announced[b].event.id)
      && (forall kill :: kill in o.kills ==> Emission(PlayerHit(kill.victim), audience) in o.announced)
  {
    HitPhaseSound(before, fired, |fired|);
    AnnouncePairsHits(Sweep(before, fired, audience, now).kills, audience);
  }

  /** The hit loop after `k + 1` shots is one more turn after `k`. */
  lemma HitPhaseNext(before: Registry, fired: seq<ShotRecord>, k: nat)
    requires before.Valid() && k < |fired|
    ensures HitPhase(before, fired, k + 1) == Resolve(HitPhase(before, fired, k), fired[k], k)
  {
  }

  /** Recording one more kill adds its shot to the shots that hit. */
  lemma HitShotsAppend(fired: seq<ShotRecord>, kills: seq<Kill>, k: nat, victim: SocketId)
    requires k < |fired|
    ensures HitShots(fired, kills + [Kill(k, victim)]) == HitShots(fired, kills) + {fired[k]}
  {
    var kills' := kills + [Kill(k, victim)];
    assert kills'[|kills|] == Kill(k, victim);
  }

  /** Filtering out the shot of a new kill from what is left equals filtering by all shots that hit. */
  lemma FilterNextHit(fired: seq<ShotRecord>, kills: seq<Kill>, k: nat, victim: SocketId)
    requires k < |fired|
    ensures RemoveAll(RemoveAll(fired, HitShots(fired, kills)), {fired[k]})
         == RemoveAll(fired, HitShots(fired, kills + [Kill(k, victim)]))
  {
    RemoveAllTwice(fired, HitShots(fired, kills), {fired[k]});
    HitShotsAppend(fired, kills, k, victim);
  }

  /** A log holding the announcements of `kills`, extended by the two emits of one more kill, holds those of all of them. */
  lemma AnnounceNextKill(sent: seq<Emission>, kills: seq<Kill>, kill: Kill, to: set<SocketId>)
    ensures sent + Announce(kills, to) + [Emission(PlayerHit(kill.victim), to), Emission(PlayerDisconnected(kill.victim), to)]
         == sent + Announce(kills + [kill], to)
  {
    var pair := [Emission(PlayerHit(kill.victim), to), Emission(PlayerDisconnected(kill.victim), to)];
    AnnounceAppend(kills, kill, to);
    assert sent + Announce(kills, to) + pair == sent + (Announce(kills, to) + pair);
  }

  /** Recording one more kill appends its two announcements. */
  lemma AnnounceAppend(kills: seq<Kill>, kill: Kill, to: set<SocketId>)
    ensures Announce(kills + [kill], to)
         == Announce(kills, to) + [Emission(PlayerHit(kill.victim), to), Emission(PlayerDisconnected(kill.victim), to)]
  {
    assert (kills + [kill])[..|kills|] == kills;
  }
}
