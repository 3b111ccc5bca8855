/** The procedural galaxy example: a star system is generated from its
    position by a small hash-based random number generator (a Lehmer-style
    `lehmer32`), so the same position always yields the same system.

    The generator state is a wrapping 32-bit word; the two products inside
    `lehmer32` are 64-bit. The `f64` draws (`rand_f64`) and the planet fields
    they fill are not modelled: each such draw is one step of the state. */
module Galaxy {
  import opened Pixels
  import Engines

  /** The eight star colours, as packed ARGB words. */
  const StarColours: seq<bv32> := [0xffffffff, 0xffffffd9, 0xffffffa3, 0xffc8c8ff,
                                   0xff9dcbff, 0xffff9f9f, 0xffff5e41, 0xff9d1928]

  /** What `lehmer32` adds to the state before mixing. */
  const Increment: bv32 := 0xe120fc15

  /** The initial state of a system: the low 16 bits of `x` above the low
      16 bits of `y`. */
  function Seed(x: bv32, y: bv32): bv32
  {
    ((x & 0xFFFF) << 16) | (y & 0xFFFF)
  }

  /** One step of the state, wrapping at 2^32. */
  function Advance(s: bv32): bv32
  {
    s + Increment
  }

  /** The value `lehmer32` returns for the state it has just stepped to:
      two rounds of a 64-bit product folded onto its own high half, each
      truncated to 32 bits. */
  function Mix(s: bv32): bv32
  {
    var t := (s as bv64) * 0x4a39b70d;
    var m1 := (((t >> 32) ^ t) & 0xFFFF_FFFF) as bv32;
    var t2 := (m1 as bv64) * 0x12fad5c9;
    (((t2 >> 32) ^ t2) & 0xFFFF_FFFF) as bv32
  }

  /** The mixed word read as an unsigned number. */
  function MixValue(s: bv32): int
  {
    Mix(s) as int
  }

  /** `mix` reads every state as `MixValue` does. The trigger keeps the
      mixing arithmetic out of proofs that never name `MixValue`. */
  ghost predicate IsMix(mix: bv32 -> int)
  {
    forall s {:trigger MixValue(s)} :: mix(s) == MixValue(s)
  }

  /** The 32-bit signed range the bounds of `rand_i32` live in. */
  predicate I32Bounds(min: int, max: int)
  {
    -0x8000_0000 <= min < max <= 0x7FFF_FFFF && max - min <= 0x7FFF_FFFF
  }

  /** A drawn value and the state after the draw. */
  datatype Drawn = Drawn(state: bv32, value: int)

  /** `rand_i32(min, max)` from state `s`: the next state and the drawn
      value, the mixed word reduced modulo the width of the range and moved
      up to `min`. The layout functions below take the mixing function as
      `mix`, so what they promise holds whatever the mixing; the generator
      itself reads its words through `MixValue`. */
  function Draw(mix: bv32 -> int, s: bv32, min: int, max: int): (r: Drawn)
    requires I32Bounds(min, max)
    ensures r.state == Advance(s)
    ensures min <= r.value < max
  {
    var n := Advance(s);
    Drawn(n, mix(n) % (max - min) + min)
  }

  /** The state after `n` steps that return no value of interest. */
  function Skip(s: bv32, n: nat): bv32
  {
    if n == 0 then s else Advance(Skip(s, n - 1))
  }

  /** A planet, reduced to its integer-drawn parts: whether it has a ring
      and how many moons it has. */
  datatype Planet = Planet(ring: bool, moons: nat)

  /** A generated planet and the state after it. */
  datatype PlanetDrawn = PlanetDrawn(state: bv32, planet: Planet)

  /** One planet of a full system from state `s`: eight real-valued draws
      (distance step, diameter, temperature, four surface shares,
      population), the ring draw, the moon-count draw (negative counts
      become zero), then one real-valued draw per moon. */
  function PlanetFrom(mix: bv32 -> int, s: bv32): (r: PlanetDrawn)
    ensures r.planet.moons < 5
  {
    var ring := Draw(mix, Skip(s, 8), 0, 10);
    var m := Draw(mix, ring.state, -5, 5);
    var moons := if m.value < 0 then 0 else m.value;
    PlanetDrawn(Skip(m.state, moons), Planet(ring.value == 1, moons))
  }

  /** Generated planets and the state after the last. */
  datatype PlanetsDrawn = PlanetsDrawn(state: bv32, planets: seq<Planet>)

  /** `n` planets generated one after another from state `s`. */
  function PlanetsFrom(mix: bv32 -> int, s: bv32, n: nat): PlanetsDrawn
  {
    if n == 0 then PlanetsDrawn(s, [])
    else
      var ps := PlanetsFrom(mix, s, n - 1);
      var p := PlanetFrom(mix, ps.state);
      PlanetsDrawn(p.state, ps.planets + [p.planet])
  }

  /** A generated system: the final state, whether a star is there, its
      colour and its planets. */
  datatype System = System(lehmer: bv32, starExists: bool, starColour: Pixel, planets: seq<Planet>)

  /** `StarSystem::new(x, y, full)`: the star exists when the first draw in
      [0, 20) is 1; then the diameter draw, the colour draw in [0, 8), and,
      for a full system only, the distance draw, the planet count in
      [0, 10) and the planets. */
  function Generate(mix: bv32 -> int, x: bv32, y: bv32, full: bool): System
  {
    var e := Draw(mix, Seed(x, y), 0, 20);
    if e.value != 1 then System(e.state, false, WHITE, [])
    else
      var c := Draw(mix, Advance(e.state), 0, 8);
      var colour := Unpack(StarColours[c.value]);
      if !full then System(c.state, true, colour, [])
      else
        var n := Draw(mix, Advance(c.state), 0, 10);
        var ps := PlanetsFrom(mix, n.state, n.value);
        System(ps.state, true, colour, ps.planets)
  }

  /** The seed keeps x's low half in its high half and y's low half in its
      low half. */
  lemma SeedHalves(x: bv32, y: bv32)
    ensures Seed(x, y) >> 16 == x & 0xFFFF
    ensures Seed(x, y) & 0xFFFF == y & 0xFFFF
  {
  }

  /** Only the low 16 bits of each coordinate enter the seed. */
  lemma SeedMasked(x: bv32, y: bv32)
    ensures Seed(x, y) == Seed(x & 0xFFFF, y & 0xFFFF)
  {
  }

  /** Two positions share a seed exactly when their low 16 bits agree. */
  lemma SeedInjective(x: bv32, y: bv32, a: bv32, b: bv32)
    ensures Seed(x, y) == Seed(a, b) <==> (x & 0xFFFF == a & 0xFFFF && y & 0xFFFF == b & 0xFFFF)
  {
    if x & 0xFFFF == a & 0xFFFF && y & 0xFFFF == b & 0xFFFF {
      SeedMasked(x, y);
      SeedMasked(a, b);
    } else {
      SeedHalves(x, y);
      SeedHalves(a, b);
    }
  }

  /** Positions that agree in their low 16 bits generate the same system:
      the galaxy repeats every 65536 cells in each direction. */
  lemma GeneratePeriodic(mix: bv32 -> int, x: bv32, y: bv32, a: bv32, b: bv32, full: bool)
    requires x & 0xFFFF == a & 0xFFFF && y & 0xFFFF == b & 0xFFFF
    ensures Generate(mix, x, y, full) == Generate(mix, a, b, full)
  {
    SeedInjective(x, y, a, b);
  }

  /** The star exists exactly when the first draw in [0, 20) is 1, and a
      system generated without `full` has no planets. */
  lemma StarExistence(mix: bv32 -> int, x: bv32, y: bv32, full: bool)
    ensures Generate(mix, x, y, full).starExists <==> Draw(mix, Seed(x, y), 0, 20).value == 1
    ensures !full ==> Generate(mix, x, y, full).planets == []
    ensures !Generate(mix, x, y, full).starExists ==> Generate(mix, x, y, full).starColour == WHITE
  {
  }

  /** A full system and a partial one agree on the star. */
  lemma FullAgreesOnStar(mix: bv32 -> int, x: bv32, y: bv32)
    ensures Generate(mix, x, y, true).starExists == Generate(mix, x, y, false).starExists
    ensures Generate(mix, x, y, true).starColour == Generate(mix, x, y, false).starColour
  {
  }

  /** Generating `n` planets gives `n` planets, each with fewer than five
      moons. */
  lemma {:induction false} PlanetsShape(mix: bv32 -> int, s: bv32, n: nat)
    ensures |PlanetsFrom(mix, s, n).planets| == n
    ensures forall i :: 0 <= i < n ==> PlanetsFrom(mix, s, n).planets[i].moons < 5
  {
    if n > 0 {
      PlanetsShape(mix, s, n - 1);
    }
  }

  /** A system has fewer than ten planets, each with fewer than five moons,
      and an existing star takes one of the eight star colours. */
  lemma SystemBounds(mix: bv32 -> int, x: bv32, y: bv32, full: bool)
    ensures |Generate(mix, x, y, full).planets| < 10
    ensures forall p :: p in Generate(mix, x, y, full).planets ==> p.moons < 5
    ensures Generate(mix, x, y, full).starExists ==>
              exists i :: 0 <= i < 8 && Generate(mix, x, y, full).starColour == Unpack(StarColours[i])
  {
    var e := Draw(mix, Seed(x, y), 0, 20);
    if e.value == 1 {
      var c := Draw(mix, Advance(e.state), 0, 8);
      assert Generate(mix, x, y, full).starColour == Unpack(StarColours[c.value]);
      if full {
        var n := Draw(mix, Advance(c.state), 0, 10);
        PlanetsShape(mix, n.state, n.value);
      }
    }
  }

  /** The `+=` on the state in `lehmer32`: a `u32` addition that Rust checks
      for overflow in debug builds, where it panics instead of wrapping. It
      succeeds exactly when the mathematical sum fits in 32 bits, and then
      yields a word above the state by exactly the increment, so no
      wrap-around took place. */
  function CheckedAdvance(s: bv32): (r: Engines.Option<bv32>)
    ensures r.Some? <==> s as int + Increment as int < 0x1_0000_0000
    ensures r.Some? ==> r.value > s && r.value - s == Increment
  {
    Fits(s);
    if s <= 0xFFFF_FFFF - Increment then Engines.Some(s + Increment) else Engines.None
  }

  lemma Fits(s: bv32)
    ensures s <= 0xFFFF_FFFF - Increment <==> s as int + Increment as int < 0x1_0000_0000
  {
  }

  /** The wrapping step never fails and loses no state: distinct states
      step to distinct states. */
  lemma AdvanceInjective(s: bv32, t: bv32)
    ensures Advance(s) == Advance(t) <==> s == t
  {
  }

  /** Where the checked step succeeds it agrees with the wrapping one. */
  lemma CheckedAgrees(s: bv32)
    ensures CheckedAdvance(s).Some? ==> CheckedAdvance(s).value == Advance(s)
  {
  }

  /** The increment exceeds half the range, so no two checked steps in a
      row succeed: every existing star overflows on its diameter draw, the
      second draw of the system. */
  lemma SecondStepOverflows(s: bv32)
    ensures CheckedAdvance(s).Some? ==> CheckedAdvance(Advance(s)).None?
  {
  }

  /** Even the first draw overflows for the seed of position (65535, 0). */
  lemma FirstStepOverflows()
    ensures Seed(0xFFFF, 0) == 0xFFFF_0000
    ensures CheckedAdvance(Seed(0xFFFF, 0)).None?
  {
  }

  /** The generator state and the results `StarSystem::new` stores. */
  class StarSystem {
    var lehmer: bv32
    var starExists: bool
    var starColour: Pixel
    var planets: seq<Planet>
    /** The mixing function the generator's words are read through. */
    ghost const mix: bv32 -> int

    /** `StarSystem::new`: the fields end up as `Generate` describes, so
        the system depends on nothing but its arguments. */
    constructor (x: bv32, y: bv32, generateFullSystem: bool)
      ensures mix == MixValue
      ensures System(lehmer, starExists, starColour, planets) == Generate(mix, x, y, generateFullSystem)
    {
      lehmer := Seed(x, y);
      starExists := false;
      starColour := WHITE;
      planets := [];
      mix := MixValue;
      new;
      Populate(x, y, generateFullSystem);
    }

    /** The draws of `StarSystem::new` after the fields are initialised:
        the star, then its diameter and colour, then for a full system the
        first distance, the planet count and the planets. */
    method Populate(x: bv32, y: bv32, generateFullSystem: bool)
      requires IsMix(mix)
      requires lehmer == Seed(x, y) && !starExists && starColour == WHITE && planets == []
      modifies this
      ensures System(lehmer, starExists, starColour, planets) == Generate(mix, x, y, generateFullSystem)
    {
      var e := RandI32(0, 20);
      starExists := e == 1;
      if starExists {
        RandF64();
        var c := RandI32(0, 8);
        starColour := Unpack(StarColours[c]);
        if generateFullSystem {
          RandF64();
          var n := RandI32(0, 10);
          AddPlanets(n);
        }
      }
    }

    /** The planet loop of `StarSystem::new`: `n` planets pushed in the
        order they are generated. */
    method AddPlanets(n: nat)
      requires planets == []
      requires IsMix(mix)
      modifies this
      ensures PlanetsDrawn(lehmer, planets) == PlanetsFrom(mix, old(lehmer), n)
      ensures starExists == old(starExists) && starColour == old(starColour)
    {
      var i := 0;
      while i < n
        invariant 0 <= i <= n
        invariant starExists == old(starExists) && starColour == old(starColour)
        invariant PlanetsDrawn(lehmer, planets) == PlanetsFrom(mix, old(lehmer), i)
      {
        ghost var before := PlanetsFrom(mix, old(lehmer), i);
        var p := NewPlanet();
        assert PlanetDrawn(lehmer, p) == PlanetFrom(mix, before.state);
        planets := planets + [p];
        i := i + 1;
      }
    }

    /** `lehmer32`: steps the state and returns the mix of the new state. */
    method Lehmer32() returns (r: bv32)
      modifies this
      ensures lehmer == Advance(old(lehmer)) && r == Mix(lehmer)
      ensures starExists == old(starExists) && starColour == old(starColour) && planets == old(planets)
    {
      lehmer := lehmer + Increment;
      r := Mix(lehmer);
    }

    /** `rand_i32(min, max)`: a value in [min, max), as `Draw` gives it. */
    method RandI32(min: int, max: int) returns (r: int)
      requires I32Bounds(min, max)
      requires IsMix(mix)
      modifies this
      ensures Drawn(lehmer, r) == Draw(mix, old(lehmer), min, max)
      ensures starExists == old(starExists) && starColour == old(starColour) && planets == old(planets)
    {
      var m := Lehmer32();
      assert mix(lehmer) == MixValue(lehmer);
      r := (m as int) % (max - min) + min;
    }

    /** `rand_f64`: only its step of the state is modelled. */
    method RandF64()
      modifies this
      ensures lehmer == Advance(old(lehmer))
      ensures starExists == old(starExists) && starColour == old(starColour) && planets == old(planets)
    {
      var _ := Lehmer32();
    }

    /** One pass of the planet loop in `StarSystem::new`. */
    method NewPlanet() returns (p: Planet)
      requires IsMix(mix)
      modifies this
      ensures PlanetDrawn(lehmer, p) == PlanetFrom(mix, old(lehmer))
      ensures starExists == old(starExists) && starColour == old(starColour) && planets == old(planets)
    {
      SurfaceDraws();
      var ring := RandI32(0, 10);
      var m := RandI32(-5, 5);
      var moons := if m < 0 then 0 else m;
      MoonDraws(moons);
      p := Planet(ring == 1, moons);
    }

    /** The eight real-valued draws that open a planet: distance step,
        diameter, temperature, foliage, minerals, gases, water and
        population. */
    method SurfaceDraws()
      modifies this
      ensures lehmer == Skip(old(lehmer), 8)
      ensures starExists == old(starExists) && starColour == old(starColour) && planets == old(planets)
    {
      RandF64(); // distance step
      assert lehmer == Skip(old(lehmer), 1);
      RandF64(); // diameter
      assert lehmer == Skip(old(lehmer), 2);
      RandF64(); // temperature
      assert lehmer == Skip(old(lehmer), 3);
      RandF64(); // foliage
      assert lehmer == Skip(old(lehmer), 4);
      RandF64(); // minerals
      assert lehmer == Skip(old(lehmer), 5);
      RandF64(); // gases
      assert lehmer == Skip(old(lehmer), 6);
      RandF64(); // water
      assert lehmer == Skip(old(lehmer), 7);
      RandF64(); // population
      assert lehmer == Skip(old(lehmer), 8);
    }

    /** The moon loop of one planet: one real-valued draw per moon. */
    method MoonDraws(moons: nat)
      modifies this
      ensures lehmer == Skip(old(lehmer), moons)
      ensures starExists == old(starExists) && starColour == old(starColour) && planets == old(planets)
    {
      var i := 0;
      while i < moons
        invariant 0 <= i <= moons
        invariant lehmer == Skip(old(lehmer), i)
        invariant starExists == old(starExists) && starColour == old(starColour) && planets == old(planets)
      {
        RandF64();
        i := i + 1;
      }
    }
  }
}
