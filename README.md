# Relay server of the planet shooter, modelled in Dafny

`server.js` is the authoritative half of a small multiplayer shooter. It
keeps a registry of players, keyed by the socket id on connect and by the
id the client sends on `updatePosition`, and a list of shots. It relays position updates and shots between clients. Once a second
it runs a sweep: every shot takes out the first player strictly within
`playerRadius` (1), each hit is announced as `playerHit` then
`playerDisconnected`, shots that hit are filtered out, and shots aged
`shotLifetime` (3000 ms) or more are dropped.

The model keeps the program's shape:

- `Server.GameServer` is a class whose fields are the program's mutable
  state: `players`, `shots`, the set of connected sockets, and an outbox
  that logs every emit with its recipient set. Each socket.io callback and
  each interval tick is one method.
- The sweep is written twice:
  - as loops that change the fields (`Tick`, `ShotTurn`, `FindTarget`);
  - as a pure specification (`HitDetection.Sweep`, built from
    `FirstTarget`, `Resolve`, `HitPhase` and `Announce`).

  `Tick`'s postcondition says the two agree. The lemmas about `Sweep` state
  what one sweep guarantees.
- `players` is a JavaScript object. A `for...in` over it visits ordinary
  string keys in insertion order, so the registry (`PlayerRegistry.Registry`) is a map
  plus the key order. `players[id] = ...` keeps an existing key's place;
  `delete` removes the key from the order.
- A shot is an object. The sweep removes the shot that hit with
  `s !== shot`, which compares references, so `Shots.ShotRecord` is a class
  with immutable fields. That filter is `RemoveAll(shots, {shot})`.
- The outer `for (let shot of shots)` iterates the array as it stood when
  the loop began, even though `shots` is reassigned inside the loop. The
  model walks a saved copy, `fired`. Each inner `for...in` starts again
  over the current registry, so later shots never see players deleted by
  earlier shots.
- `Math.sqrt(d2) < playerRadius` is `d2 < playerRadius * playerRadius`
  over exact reals. `Protocol.InRangeIsStrictDistance` proves the two tests
  agree for the non-negative root. A player at distance exactly 1 is
  therefore not hit.
- `Date.now()` is the parameter `now` (a natural number of milliseconds).
  The shot handler stamps the shot with it, and the sweep tests
  `now - timestamp < 3000` with it.

Some consequences of the code that the model keeps:

- A registry id need not belong to a live connection:
  - `updatePosition` writes under whatever `id` the client sends;
  - a player who is hit is deleted from the registry but stays connected,
    so their next `updatePosition` adds them back.
- A shot is dropped once `now - timestamp >= 3000`, so at age exactly
  3000. `Shots.ShotLifetimeBoundary` pins this down for the expiry filter:
  it keeps a shot at age 2999 and drops it at age 3000. A shot that hits
  a player is removed by the same sweep whatever its age.
- The scenarios use the code's hit radius, 1.

## Model

| member | source | states |
|---|---|---|
| `Sequences.RemoveAll` | server.js:114 | the filter keeps exactly the elements not in the removed set, and keeps a duplicate-free list duplicate-free |
| `Sequences.RemoveAllIsSubsequence` | server.js:114 | filtering keeps the survivors in their original order |
| `Sequences.RemoveAllTwice` | server.js:114 | two successive filters equal one filter by the union, so removing the hit shots one at a time is removing them all |
| `Protocol.InRangeIsStrictDistance` | server.js:95-102 | the squared test agrees with `distance < playerRadius` for the non-negative square root, so a player at distance exactly 1 is not hit |
| `Shots.ShotRecord.constructor` | server.js:59-64 | a new shot carries the sender's id, the payload's position and direction, and the timestamp |
| `Shots.Expire` | server.js:122 | the surviving shots are exactly the listed shots with `now - timestamp < 3000`, in their original order, with no duplicates introduced |
| `Shots.ExpireIdempotent` | server.js:122 | expiring twice at the same `now` leaves the same shots as expiring once |
| `Shots.ShotLifetimeBoundary` | server.js:34 | the expiry filter keeps a shot at age 2999 ms and drops it at age 3000 ms |
| `PlayerRegistry.Put` | server.js:50 | `players[id] = p`: afterwards `id` maps to `p`, every other key keeps its presence and record, an existing key keeps its place in iteration order, and a new key goes last |
| `PlayerRegistry.Delete` | server.js:79 | `delete players[id]`: `id` is gone, every other key keeps its presence and record, and the remaining keys keep their relative iteration order |
| `PlayerRegistry.DeleteUndoesPut` | server.js:43 | deleting a key that was just added restores the registry, iteration order included |
| `PlayerRegistry.PutLastWriteWins` | server.js:50 | two writes to one key leave the second record, in the place the key had after the first write |
| `HitDetection.FirstTarget` | server.js:91-117 | the index found is of a player in range, and every player before it in iteration order (all of them when none is found) is out of range |
| `HitDetection.Resolve` | server.js:90-117 | one turn of the outer loop keeps the registry well formed |
| `HitDetection.HitPhase` | server.js:90-119 | the hit loop over a prefix of the shots keeps the registry well formed |
| `HitDetection.Announce` | server.js:104-111 | two emits per kill, `playerHit` then `playerDisconnected` with the victim's id, both to the given recipients |
| `HitDetection.Sweep` | server.js:87-123 | a whole sweep leaves a well-formed registry |
| `HitDetection.ResolveSound` | server.js:90-117 | one turn of the outer loop keeps the hit-loop invariant: the registry lost exactly the victims; each kill names an earlier shot and a registered player strictly in its range; no shot or victim occurs twice; and a shot that missed is out of range of every remaining player |
| `HitDetection.HitPhaseSound` | server.js:90-119 | by induction over the shots, that invariant holds after every prefix of the hit loop |
| `HitDetection.SweepRegistry` | server.js:87-123 | after a sweep, every hit player is absent; every player that was not hit is present with its record unchanged; no player is added; and every victim was registered and strictly in range of its shot |
| `HitDetection.SweepEliminatesAtMostOnce` | server.js:90-119 | kills come in shot order; no shot takes out two players; no player is taken out twice |
| `HitDetection.UntargetedPlayersSurvive` | server.js:87-123 | a player strictly in range of no shot is still registered after the sweep, with the same record |
| `HitDetection.MissedShotsMissSurvivors` | server.js:90-119 | a shot that hit nobody is out of range of every player left in the registry |
| `HitDetection.SweepShots` | server.js:114-122 | the shots left are exactly the live shots that hit nobody, as an order-preserving subsequence of the original list; every shot that hit is gone; the list never grows |
| `HitDetection.MissedLiveShotsSurvive` | server.js:114-122 | when the shot objects are distinct, a live shot whose index registered no kill survives |
| `HitDetection.MissedShotNotHit` | server.js:114 | when the shot objects are distinct, a shot whose index registered no kill is not among the shots the filter removes |
| `HitDetection.HitShotsAppend` | server.js:114 | recording a kill adds exactly that shot to the set of shots that hit |
| `HitDetection.AnnounceAppend` | server.js:104-111 | recording a kill appends exactly its two emits |
| `HitDetection.FilterNextHit` | server.js:114 | filtering the shot of a new kill out of what is left equals filtering the original list by every shot that hit |
| `HitDetection.AnnounceNextKill` | server.js:104-111 | an outbox holding the announcements of the kills so far, extended by the two emits of a new kill, holds the announcements of all of them |
| `HitDetection.AnnouncePairsHits` | server.js:104-116 | every `playerHit` is immediately followed by `playerDisconnected` with the same id; no id gets two `playerHit` events; every victim gets one |
| `HitDetection.SweepAnnouncements` | server.js:104-116 | a sweep emits two events per kill, all to every connected socket, pairing each `playerHit` with its `playerDisconnected`, with no player hit twice |
| `Scenarios.TwoApartByHandlers` | server.js:43-50 | connecting P1 and P2 and then moving them gives the registry of P1 at the origin and P2 at x = 10, in connection order |
| `Scenarios.FirstInRangeIsTarget` | server.js:91-116 | when the first player in iteration order is in range, the scan stops at it |
| `Scenarios.ShotNearFirstPlayer` | server.js:87-123 | with P1 at the origin and P2 at x = 10, a shot at x = 0.5 removes only P1, emits `playerHit` and `playerDisconnected` for P1 once each, and is itself removed |
| `Scenarios.ShotAtExactRadius` | server.js:102 | a player at distance exactly 1 is not hit: the registry is unchanged, nothing is emitted, and the live shot stays |
| `Scenarios.SideBySideFirstShot` | server.js:90-117 | with two players in range of a shot, the one registered first is taken out |
| `Scenarios.SideBySideSecondShot` | server.js:90-117 | the second shot is tested against the players that remain and takes out the other |
| `Scenarios.FirstMatchThenRemaining` | server.js:87-123 | two shots at one spot take out both players in registration order, and both shots are removed |
| `Server.GameServer.constructor` | server.js:36-37 | the server starts with no players, no shots, nobody connected and nothing sent |
| `Server.GameServer.OnConnection` | server.js:43 | the new socket's id maps to the spawn record `{(0, -100, 0), 0}`; no other key changes; nothing is emitted |
| `Server.GameServer.OnUpdatePosition` | server.js:46-54 | the record under the payload's id becomes exactly `{position, rotation}`; no other key changes; the payload goes unchanged to every connected socket except the sender |
| `Server.GameServer.OnShoot` | server.js:57-72 | the shot list grows by exactly one fresh shot at its end, stamped with the sender's id, the payload and `now`; `playerShot` goes to every connected socket except the sender |
| `Server.GameServer.OnDisconnect` | server.js:75-83 | the sender's record is deleted; no other key changes; exactly one `playerDisconnected` with the sender's id goes to every remaining socket and not to the sender |
| `Server.GameServer.FindTarget` | server.js:91-117 | the scan returns the first player in iteration order strictly in range, and returns none exactly when every registered player is out of range |
| `Server.GameServer.Eliminate` | server.js:104-111 | `playerHit` to everyone, the victim deleted, then `playerDisconnected` to everyone |
| `Server.GameServer.ShotTurn` | server.js:90-117 | one turn of the outer loop advances the registry, the shot list and the outbox exactly as the specification's next turn does |
| `Server.GameServer.Tick` | server.js:87-123 | after the tick, the registry, the shot list and the new emits are exactly those of `Sweep` on the state before it; the server stays well formed; the connected set is unchanged |

## Left out

- `public/js/script.js` is not part of this model. It is the browser
  client: Three.js scene, rendering, pointer lock, the animation loop, and
  float vector and quaternion math done inside library calls.
- The Express app, view routing, static files and `server.listen`
  (server.js:13-30, server.js:126) are web-server plumbing with no game state.
- Socket.io transport is not modelled: delivery, ordering and loss. An
  emit is one outbox entry with its recipient set.
- `Date.now()` and the 1000 ms timer are not modelled. The time is the
  parameter `now`, and one tick is one call to `Tick`.
- Malformed or missing payload fields are not modelled, because the code
  does no validation. Payloads are well-typed records.
- The `console.log` calls are left out, because they are output only.
- JavaScript numbers are exact reals here. Floating-point rounding in the
  distance computation is not captured.
- `for...in` visits integer-like keys (such as `"7"`) first, in numeric
  order, and only then the other keys in insertion order. The registry
  uses plain insertion order for every key. Socket.io ids are not
  integer-like, but the `id` a client sends in `updatePosition`
  (server.js:47-50) can be; integer-like client ids are not ordered as
  JavaScript orders them, so with such ids the first-match scan
  (server.js:91-116) can pick a different player than the model does.
- A client id of `"__proto__"` in `updatePosition` (server.js:50) does not
  add a key: the assignment replaces the prototype of `players`. The next
  sweep's `for...in` (server.js:91) then also visits the inherited keys
  `position` and `rotation`, whose values have no `.position`, so
  server.js:96 throws and the process stops. The model treats that id as an
  ordinary key and does not capture the crash.
