/**
 * The shot list of server.js. A shot is an object literal pushed onto
 * `shots`; the sweep removes a shot that hit by reference
 * (`s !== shot`), so shots are modelled as objects with immutable fields.
 */
module Shots {
  import opened Protocol
  import opened Sequences

  /** `{ id, position, direction, timestamp }` as pushed by the `shoot` handler. */
  class ShotRecord {
    const id: SocketId
    const position: Vec3
    const direction: Vec3
    const timestamp: nat

    constructor (id: SocketId, position: Vec3, direction: Vec3, timestamp: nat)
      ensures this.id == id && this.position == position
      ensures this.direction == direction && this.timestamp == timestamp
    {
      this.id := id;
      this.position := position;
      this.direction := direction;
      this.timestamp := timestamp;
    }
  }

  /** The test that keeps a shot at the end of a sweep: `now - shot.timestamp < shotLifetime`. */
  predicate Live(shot: ShotRecord, now: nat) {
    now - shot.timestamp < ShotLifetime
  }

  /** `shots.filter(shot => now - shot.timestamp < shotLifetime)`. */
  function Expire(shots: seq<ShotRecord>, now: nat): (r: seq<ShotRecord>)
    ensures forall s :: s in r ==> s in shots && Live(s, now)
    ensures forall s :: s in shots && Live(s, now) ==> s in r
    ensures SubsequenceOf(r, shots)
    ensures Distinct(shots) ==> Distinct(r)
    decreases |shots|
  {
    if shots == [] then []
    else
      var init := Expire(shots[..|shots| - 1], now);
      var last := shots[|shots| - 1];
      assert shots == shots[..|shots| - 1] + [last];
      if Live(last, now) then
        assert (init + [last])[..|init|] == init;
        init + [last]
      else init
  }

  /** Expiring twice at the same time keeps the same shots as expiring once. */
  lemma {:induction false} ExpireIdempotent(shots: seq<ShotRecord>, now: nat)
    ensures Expire(Expire(shots, now), now) == Expire(shots, now)
    decreases |shots|
  {
    if shots != [] {
      var init := shots[..|shots| - 1];
      var last := shots[|shots| - 1];
      ExpireIdempotent(init, now);
      var once := Expire(init, now);
      if Live(last, now) {
        assert (once + [last])[..|once|] == once;
      }
    }
  }

  /** The expiry filter keeps a shot 2999 ms after it was fired and drops it 3000 ms after. */
  lemma ShotLifetimeBoundary(shots: seq<ShotRecord>, shot: ShotRecord)
    requires shot in shots
    ensures shot in Expire(shots, shot.timestamp + 2999)
    ensures shot !in Expire(shots, shot.timestamp + 3000)
  {
  }
}
