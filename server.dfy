/**
 * The relay server of server.js as one object: the `players` registry,
 * the `shots` array, the open sockets, and the log of everything emitted.
 * Each socket.io callback and each interval tick runs to completion on its
 * own, so each is one method call here.
 */
module Server {
  import opened Wrappers
  import opened Protocol
  import opened Sequences
  import opened Shots
  import opened PlayerRegistry
  import opened HitDetection

  class GameServer {
    /** `players`. */
    var players: Registry
    /** `shots`. */
    var shots: seq<ShotRecord>
    /** The sockets currently connected; `io.emit` reaches all of them. */
    var connected: set<SocketId>
    /** Every emit so far, oldest first. */
    var outbox: seq<Emission>

    /** The registry is well formed and no shot object is listed twice. */
    ghost predicate Valid()
      reads this
    {
      players.Valid() && Distinct(shots)
    }

    /** The state at start-up: no players, no shots, nobody connected. */
    constructor ()
      ensures Valid()
      ensures players == Empty && shots == [] && connected == {} && outbox == []
    {
      players := Empty;
      shots := [];
      connected := {};
      outbox := [];
    }

    /** `io.on('connection')`: the new socket gets the spawn record; nothing is emitted. */
    method OnConnection(sid: SocketId)
      requires Valid()
      modifies this
      ensures Valid()
      ensures players == Put(old(players), sid, Spawn)
      ensures sid in players.records && players.records[sid] == Spawn
      ensures forall id :: id != sid ==> (id in players.records <==> id in old(players).records)
      ensures forall id :: id != sid && id in players.records ==> players.records[id] == old(players).records[id]
      ensures connected == old(connected) + {sid}
      ensures shots == old(shots) && outbox == old(outbox)
    {
      players := Put(players, sid, Spawn);
      connected := connected + {sid};
    }

    /**
     * `updatePosition`: the record under the id the client sent is replaced
     * whole, and the payload goes unchanged to every other connected socket.
     */
    method OnUpdatePosition(sender: SocketId, data: PositionUpdate)
      requires Valid()
      modifies this
      ensures Valid()
      ensures players == Put(old(players), data.id, Player(data.position, data.rotation))
      ensures data.id in players.records && players.records[data.id] == Player(data.position, data.rotation)
      ensures forall id :: id != data.id ==> (id in players.records <==> id in old(players).records)
      ensures forall id :: id != data.id && id in players.records ==> players.records[id] == old(players).records[id]
      ensures outbox == old(outbox) + [Emission(UpdatePosition(data), connected - {sender})]
      ensures sender !in outbox[|outbox| - 1].recipients
      ensures shots == old(shots) && connected == old(connected)
    {
      players := Put(players, data.id, Player(data.position, data.rotation));
      outbox := outbox + [Emission(UpdatePosition(data), connected - {sender})];
    }

    /**
     * `shoot`: one new shot object, stamped with the sender and `now`, goes
     * to the end of the list, and `playerShot` goes to every other socket.
     */
    method OnShoot(sender: SocketId, data: ShotRequest, now: nat)
      requires Valid()
      modifies this
      ensures Valid()
      ensures |shots| == |old(shots)| + 1 && shots[..|old(shots)|] == old(shots)
      ensures var s := shots[|shots| - 1];
        && fresh(s)
        && s.id == sender && s.position == data.position && s.direction == data.direction && s.timestamp == now
      ensures outbox == old(outbox) + [Emission(PlayerShot(sender, data.position, data.direction), connected - {sender})]
      ensures players == old(players) && connected == old(connected)
    {
      var shot := new ShotRecord(sender, data.position, data.direction, now);
      shots := shots + [shot];
      outbox := outbox + [Emission(PlayerShot(sender, data.position, data.direction), connected - {sender})];
    }

    /**
     * `disconnect`: the sender's record is deleted and `playerDisconnected`
     * goes once to every socket still connected, never to the sender.
     */
    method OnDisconnect(sender: SocketId)
      requires Valid()
      modifies this
      ensures Valid()
      ensures players == Delete(old(players), sender)
      ensures sender !in players.records
      ensures forall id :: id != sender ==> (id in players.records <==> id in old(players).records)
      ensures forall id :: id in players.records ==> players.records[id] == old(players).records[id]
      ensures connected == old(connected) - {sender}
      ensures outbox == old(outbox) + [Emission(PlayerDisconnected(sender), connected)]
      ensures shots == old(shots)
    {
      players := Delete(players, sender);
      connected := connected - {sender};
      outbox := outbox + [Emission(PlayerDisconnected(sender), connected)];
    }

    /**
     * The inner `for...in` of the sweep: the place in iteration order of
     * the first player strictly within range of `at`, or None when every
     * player is out of range.
     */
    method FindTarget(at: Vec3) returns (target: Option<nat>)
      requires players.Valid()
      ensures target.Some? ==> target.value < |players.order|
      ensures target.Some? ==> InRange(at, players.records[players.order[target.value]].position)
      ensures target.Some? ==> forall j :: 0 <= j < target.value ==> !InRange(at, players.records[players.order[j]].position)
      ensures target.None? <==> forall id :: id in players.records ==> !InRange(at, players.records[id].position)
      ensures target == FirstTarget(players, at, |players.order|)
    {
      var i := 0;
      while i < |players.order|
        invariant 0 <= i <= |players.order|
        invariant FirstTarget(players, at, i) == None
      {
        if InRange(at, players.records[players.order[i]].position) {
          return Some(i);
        }
        i := i + 1;
      }
      forall id | id in players.records ensures !InRange(at, players.records[id].position) {
        var p :| 0 <= p < |players.order| && players.order[p] == id;
      }
      return None;
    }

    /**
     * The body of a hit: `playerHit` to everyone, the victim's record
     * deleted, then `playerDisconnected` to everyone.
     */
    method Eliminate(victim: SocketId)
      requires players.Valid()
      modifies this
      ensures players == Delete(old(players), victim)
      ensures outbox == old(outbox) + [Emission(PlayerHit(victim), connected), Emission(PlayerDisconnected(victim), connected)]
      ensures shots == old(shots) && connected == old(connected)
    {
      outbox := outbox + [Emission(PlayerHit(victim), connected)];
      players := Delete(players, victim);
      outbox := outbox + [Emission(PlayerDisconnected(victim), connected)];
    }

    /**
     * One turn of the outer `for...of` over the list `fired` as it stood
     * when the sweep started: shot `k` takes out the first player in range,
     * if any, and is then filtered out of `shots`. `kills` and the result
     * record who was taken out by which shot so far.
     */
    method ShotTurn(fired: seq<ShotRecord>, k: nat, ghost before: Registry, ghost kills: seq<Kill>, ghost sent: seq<Emission>)
      returns (ghost kills': seq<Kill>)
      requires k < |fired| && before.Valid() && players.Valid()
      requires HitState(players, kills) == HitPhase(before, fired, k)
      requires shots == RemoveAll(fired, HitShots(fired, kills))
      requires outbox == sent + Announce(kills, connected)
      modifies this
      ensures players.Valid()
      ensures HitState(players, kills') == HitPhase(before, fired, k + 1)
      ensures shots == RemoveAll(fired, HitShots(fired, kills'))
      ensures outbox == sent + Announce(kills', connected)
      ensures connected == old(connected)
    {
      var shot := fired[k];
      HitPhaseNext(before, fired, k);
      kills' := kills;
      var target := FindTarget(shot.position);
      match target {
        case None =>
        case Some(i) =>
          var victim := players.order[i];
          Eliminate(victim);
          FilterNextHit(fired, kills, k, victim);
          AnnounceNextKill(sent, kills, Kill(k, victim), connected);
          shots := RemoveAll(shots, {shot});
          kills' := kills + [Kill(k, victim)];
      }
    }

    /**
     * The interval callback at time `now`: every shot of the list as it
     * stood when the callback started takes out the first player in range,
     * each hit is announced to everyone as `playerHit` then
     * `playerDisconnected`, the shot that hit is filtered out, and finally
     * every shot aged `shotLifetime` or more is dropped.
     */
    method Tick(now: nat)
      requires Valid()
      modifies this
      ensures Valid()
      ensures var o := Sweep(old(players), old(shots), old(connected), now);
        && players == o.players
        && shots == o.shots
        && outbox == old(outbox) + o.announced
        && connected == old(connected)
    {
      var fired := shots;
      ghost var kills: seq<Kill> := [];
      RemoveAllAbsent(fired, {});
      assert HitShots(fired, kills) == {};
      var k := 0;
      while k < |fired|
        invariant k <= |fired|
        invariant players.Valid() && Distinct(fired)
        invariant HitState(players, kills) == HitPhase(old(players), fired, k)
        invariant shots == RemoveAll(fired, HitShots(fired, kills))
        invariant outbox == old(outbox) + Announce(kills, connected)
        invariant connected == old(connected)
      {
        kills := ShotTurn(fired, k, old(players), kills, old(outbox));
        k := k + 1;
      }
      shots := Expire(shots, now);
    }
  }
}
