// The falling-snow particle buffer of the scene: a flat buffer of
// `count * 3` coordinates, one (x, y, z) triple per particle, scattered
// once at start-up and lowered by a fixed fall speed on every frame.

module Snow {

  /** The configuration the scene uses. */
  const SnowCount: nat := 1000
  const SpreadRange: real := 25.0
  const FallSpeed: real := 0.01

  /** Index k of the flat buffer holds a y component (k == i*3 + 1 for particle i). */
  predicate IsY(k: int) {
    k % 3 == 1
  }

  // ---------------------------------------------------------------------
  // Initialisation
  // ---------------------------------------------------------------------

  /** One coordinate of the initial scatter, from a random draw in [0, 1):
      it always lies in the half-open cube side [-spread/2, spread/2). */
  function Coordinate(draw: real, spread: real): (c: real)
    requires 0.0 <= draw < 1.0 && spread > 0.0
    ensures -spread / 2.0 <= c < spread / 2.0
  {
    assert 0.0 <= draw * spread < spread by {
      assert (1.0 - draw) * spread > 0.0;
    }
    draw * spread - spread / 2.0
  }

  /** Every point of the cube side is the scatter of exactly the draw that
      maps back to it: the scatter covers the whole interval. */
  lemma CoordinateOnto(c: real, spread: real)
    requires spread > 0.0 && -spread / 2.0 <= c < spread / 2.0
    ensures var draw := (c + spread / 2.0) / spread;
      0.0 <= draw < 1.0 && Coordinate(draw, spread) == c
  {
  }

  // ---------------------------------------------------------------------
  // One frame of falling
  // ---------------------------------------------------------------------

  /** The new height of one particle after a frame: lowered by `speed`,
      and clamped to the floor 0 once it would go below it. */
  function Fall(y: real, speed: real): (r: real)
    requires speed > 0.0
    ensures r >= 0.0
    ensures r == 0.0 <==> y <= speed
    ensures r != 0.0 ==> r == y - speed
  {
    var lowered := y - speed;
    if lowered < 0.0 then 0.0 else lowered
  }

  /** The buffer after one frame, particle by particle. The x and z
      components are left alone and every y component falls. */
  function Stepped(s: seq<real>, speed: real): (r: seq<real>)
    requires speed > 0.0 && |s| % 3 == 0
    ensures |r| == |s|
    ensures forall k :: 0 <= k < |s| && !IsY(k) ==> r[k] == s[k]
    ensures forall k :: 0 <= k < |s| && IsY(k) ==> r[k] == Fall(s[k], speed)
    decreases |s|
  {
    if s == [] then []
    else
      var rest := Stepped(s[3..], speed);
      assert forall k :: 3 <= k < |s| ==> (IsY(k) <==> IsY(k - 3));
      [s[0], Fall(s[1], speed), s[2]] + rest
  }

  // ---------------------------------------------------------------------
  // Many frames
  // ---------------------------------------------------------------------

  /** The height of one particle after n frames. */
  function Fallen(y: real, speed: real, n: nat): (r: real)
    requires speed > 0.0
    ensures n > 0 ==> r >= 0.0
  {
    if n == 0 then y else Fall(Fallen(y, speed, n - 1), speed)
  }

  /** After n frames a particle stands at max(y - n*speed, 0): it falls
      at constant speed until it reaches the floor and then stays there.
      This holds from any start once a frame has run, and from the start
      for a particle that begins above the floor. */
  lemma {:induction false} FallenClosedForm(y: real, speed: real, n: nat)
    requires speed > 0.0 && (y >= 0.0 || n > 0)
    ensures Fallen(y, speed, n) == if y - n as real * speed < 0.0 then 0.0 else y - n as real * speed
  {
    if n == 0 {
    } else if n == 1 {
      assert Fallen(y, speed, 0) == y;
    } else {
      FallenClosedForm(y, speed, n - 1);
      assert (n - 1) as real * speed + speed == n as real * speed;
    }
  }

  /** Floor idempotence: a particle resting on the floor stays at exactly 0. */
  lemma {:induction false} FallenAtFloor(speed: real, n: nat)
    requires speed > 0.0
    ensures Fallen(0.0, speed, n) == 0.0
  {
    if n > 0 {
      FallenAtFloor(speed, n - 1);
    }
  }

  /** A particle at or above the floor never rises, and keeps falling
      monotonically: more frames never leave it higher. */
  lemma {:induction false} FallenNeverRises(y: real, speed: real, m: nat, n: nat)
    requires speed > 0.0 && y >= 0.0 && m <= n
    ensures 0.0 <= Fallen(y, speed, n) <= Fallen(y, speed, m) <= y
  {
    FallenClosedForm(y, speed, m);
    FallenClosedForm(y, speed, n);
    var dm, dn := m as real * speed, n as real * speed;
    assert dm <= dn by {
      assert dn - dm == (n - m) as real * speed;
    }
  }

  /** A particle starting no higher than n*speed has landed after n frames. */
  lemma FallenLands(y: real, speed: real, n: nat)
    requires speed > 0.0 && n > 0 && y <= n as real * speed
    ensures Fallen(y, speed, n) == 0.0
  {
    FallenClosedForm(y, speed, n);
  }

  /** The buffer after n frames. */
  function SteppedN(s: seq<real>, speed: real, n: nat): (r: seq<real>)
    requires speed > 0.0 && |s| % 3 == 0
    ensures |r| == |s|
  {
    if n == 0 then s else Stepped(SteppedN(s, speed, n - 1), speed)
  }

  /** After n frames every x and z component is what it was, and every y
      component is its particle's height after n frames. */
  lemma {:induction false} SteppedNAt(s: seq<real>, speed: real, n: nat)
    requires speed > 0.0 && |s| % 3 == 0
    ensures forall k :: 0 <= k < |s| && !IsY(k) ==> SteppedN(s, speed, n)[k] == s[k]
    ensures forall k :: 0 <= k < |s| && IsY(k) ==> SteppedN(s, speed, n)[k] == Fallen(s[k], speed, n)
  {
    if n > 0 {
      SteppedNAt(s, speed, n - 1);
    }
  }

  /** A particle whose y component is on the floor keeps it at exactly 0
      through any number of frames. */
  lemma {:induction false} FloorIsFinal(s: seq<real>, speed: real, n: nat, k: nat)
    requires speed > 0.0 && |s| % 3 == 0
    requires k < |s| && IsY(k) && s[k] == 0.0
    ensures SteppedN(s, speed, n)[k] == 0.0
  {
    SteppedNAt(s, speed, n);
    FallenAtFloor(speed, n);
  }

  /** The snowfall extinguishes itself: once n frames have run with every
      particle starting no higher than n*speed, all particles lie on the
      floor and a further frame changes nothing. */
  lemma FieldSettles(s: seq<real>, speed: real, n: nat)
    requires speed > 0.0 && |s| % 3 == 0 && n > 0
    requires forall k :: 0 <= k < |s| && IsY(k) ==> s[k] <= n as real * speed
    ensures forall k :: 0 <= k < |s| && IsY(k) ==> SteppedN(s, speed, n)[k] == 0.0
    ensures Stepped(SteppedN(s, speed, n), speed) == SteppedN(s, speed, n)
  {
    SteppedNAt(s, speed, n);
    forall k | 0 <= k < |s| && IsY(k)
      ensures SteppedN(s, speed, n)[k] == 0.0
    {
      FallenLands(s[k], speed, n);
    }
    var t := SteppedN(s, speed, n);
    assert Stepped(t, speed) == t by {
      forall k | 0 <= k < |t|
        ensures Stepped(t, speed)[k] == t[k]
      {
        if IsY(k) {
          assert Fall(0.0, speed) == 0.0;
        }
      }
    }
  }

  /** With the scene's configuration, a buffer whose heights start no
      higher than the top of the scatter (12.5) is completely at rest after
      1250 frames (12.5 / 0.01). */
  lemma SceneSettles(s: seq<real>)
    requires |s| == SnowCount * 3
    requires forall k :: 0 <= k < |s| && IsY(k) ==> s[k] <= SpreadRange / 2.0
    ensures forall k :: 0 <= k < |s| && IsY(k) ==> SteppedN(s, FallSpeed, 1250)[k] == 0.0
    ensures Stepped(SteppedN(s, FallSpeed, 1250), FallSpeed) == SteppedN(s, FallSpeed, 1250)
  {
    assert (1250 as nat) as real * FallSpeed == SpreadRange / 2.0;
    FieldSettles(s, FallSpeed, 1250);
  }

  // ---------------------------------------------------------------------
  // The buffer itself, updated in place
  // ---------------------------------------------------------------------

  class SnowField {
    /** The number of particles, fixed for the life of the field. */
    const count: nat
    /** The flat coordinate buffer; never replaced or resized. */
    const positions: array<real>

    ghost predicate Valid() {
      positions.Length == count * 3
    }

    /** The start-up scatter: for particle i, the draws i*3, i*3+1 and
        i*3+2 (taken in that order) become its x, y and z. */
    constructor Init(count: nat, spread: real, draws: seq<real>)
      requires spread > 0.0 && |draws| == count * 3
      requires forall k :: 0 <= k < |draws| ==> 0.0 <= draws[k] < 1.0
      ensures Valid() && this.count == count && fresh(positions)
      ensures forall k :: 0 <= k < positions.Length ==> positions[k] == Coordinate(draws[k], spread)
      ensures forall k :: 0 <= k < positions.Length ==> -spread / 2.0 <= positions[k] < spread / 2.0
    {
      var a := new real[count * 3];
      var i := 0;
      while i < count
        invariant 0 <= i <= count
        invariant forall k :: 0 <= k < i * 3 ==> a[k] == Coordinate(draws[k], spread)
      {
        a[i * 3] := Coordinate(draws[i * 3], spread);
        a[i * 3 + 1] := Coordinate(draws[i * 3 + 1], spread);
        a[i * 3 + 2] := Coordinate(draws[i * 3 + 2], spread);
        i := i + 1;
      }
      this.count := count;
      positions := a;
    }

    /** The snow part of one animation frame: each particle's y component
        is lowered by `speed` and reset to 0 if it went below the floor. */
    method Step(speed: real)
      requires Valid() && speed > 0.0
      modifies positions
      ensures positions[..] == Stepped(old(positions[..]), speed)
    {
      var i := 0;
      while i < count
        invariant 0 <= i <= count
        invariant forall k :: 0 <= k < positions.Length ==>
          positions[k] == if IsY(k) && k / 3 < i then Fall(old(positions[k]), speed) else old(positions[k])
      {
        positions[i * 3 + 1] := positions[i * 3 + 1] - speed;
        if positions[i * 3 + 1] < 0.0 {
          positions[i * 3 + 1] := 0.0;
        }
        i := i + 1;
      }
      assert positions[..] == Stepped(old(positions[..]), speed) by {
        var s := old(positions[..]);
        forall k | 0 <= k < positions.Length
          ensures positions[..][k] == Stepped(s, speed)[k]
        {
          assert s[k] == old(positions[k]);
        }
      }
    }
  }
}
