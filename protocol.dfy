/**
 * The values the relay server in server.js keeps and exchanges: player
 * records, socket.io event payloads, the outbox entries its emits become,
 * and the two constants of the hit sweep.
 */
module Protocol {

  /** A socket.io connection id; the registry is keyed by these strings. */
  type SocketId = string

  /** A position or direction `{x, y, z}`; JavaScript numbers are modelled as exact reals. */
  datatype Vec3 = Vec3(x: real, y: real, z: real)

  /** A registry record `{ position, rotation }`. */
  datatype Player = Player(position: Vec3, rotation: real)

  /** The `updatePosition` payload `{ id, position, rotation }`; `id` is whatever the client sent. */
  datatype PositionUpdate = PositionUpdate(id: SocketId, position: Vec3, rotation: real)

  /** The `shoot` payload `{ position, direction }`. */
  datatype ShotRequest = ShotRequest(position: Vec3, direction: Vec3)

  /** The events the server sends, one constructor per event name. */
  datatype Event =
    | UpdatePosition(data: PositionUpdate)
    | PlayerShot(id: SocketId, position: Vec3, direction: Vec3)
    | PlayerHit(id: SocketId)
    | PlayerDisconnected(id: SocketId)

  /** One `emit`: the event and the sockets it is addressed to. */
  datatype Emission = Emission(event: Event, recipients: set<SocketId>)

  /** `shotLifetime`, in milliseconds. */
  const ShotLifetime: int := 3000

  /** `playerRadius`: a shot hits a player strictly closer than this. */
  const PlayerRadius: real := 1.0

  /** The record stored for a socket when it connects. */
  const Spawn: Player := Player(Vec3(0.0, -100.0, 0.0), 0.0)

  function DistanceSquared(a: Vec3, b: Vec3): real {
    (a.x - b.x) * (a.x - b.x) + (a.y - b.y) * (a.y - b.y) + (a.z - b.z) * (a.z - b.z)
  }

  /** The hit test `Math.sqrt(...) < playerRadius`, with both sides squared. */
  predicate InRange(shot: Vec3, player: Vec3) {
    DistanceSquared(shot, player) < PlayerRadius * PlayerRadius
  }

  /**
   * For the non-negative root `d` that `Math.sqrt` returns, the squared
   * test agrees with `d < playerRadius`; in particular a player at
   * distance exactly 1 is not hit.
   */
  lemma InRangeIsStrictDistance(shot: Vec3, player: Vec3, d: real)
    requires d >= 0.0 && d * d == DistanceSquared(shot, player)
    ensures InRange(shot, player) <==> d < PlayerRadius
  {
    if d < PlayerRadius {
      assert d * d <= d * PlayerRadius == d;
    } else {
      assert d * d >= d * PlayerRadius == d;
    }
  }
}
