/**
 The planet registry loops of the two generator scripts: for each ordinal
 `i` the sampler places a position, which is appended to `positions`, and a
 record naming the planet `planet_{i+1}` in dimension
 `dbz_space:planet_{i+1}` is appended to `planets`. The Version6 script adds
 a skin reference and a biome drawn from a 20-entry catalogue.
 */
module Registry {
  import Decimal
  import opened Sampler

  const NumPlanets := 10000
  const MinDist := 400

  const VanillaBiomes: seq<string> := [
    "minecraft:plains", "minecraft:desert", "minecraft:savanna", "minecraft:forest",
    "minecraft:taiga", "minecraft:swamp", "minecraft:jungle", "minecraft:badlands",
    "minecraft:snowy_plains", "minecraft:birch_forest"
  ]
  const BopBiomes: seq<string> := [
    "biomesoplenty:lavender_field", "biomesoplenty:maple_woods", "biomesoplenty:rainbow_hills",
    "biomesoplenty:alps", "biomesoplenty:cherry_blossom_grove", "biomesoplenty:orchard",
    "biomesoplenty:ominous_woods", "biomesoplenty:wasteland", "biomesoplenty:bayou",
    "biomesoplenty:crag"
  ]
  const AllBiomes: seq<string> := VanillaBiomes + BopBiomes

  /** The index `random.choice(all_biomes)` lands on. */
  type BiomeIndex = k: nat | k < 20

  /** A Version6 record. */
  datatype Planet = Planet(name: string, dimName: string, x: int, y: int, z: int,
                           skin: string, biome: string)

  /** A record of the worldborder script: no skin, no biome. */
  datatype BorderPlanet = BorderPlanet(name: string, dimName: string, x: int, y: int, z: int)

  const NamePrefix := "planet_"
  const DimPrefix := "dbz_space:"
  const SkinPrefix := "dbz_space:planets/skin_"

  /** `f"planet_{i+1}"`. */
  function PlanetName(i: nat): string {
    NamePrefix + Decimal.FromNat(i + 1)
  }

  /** `f"dbz_space:{name}"`. */
  function DimName(i: nat): string {
    DimPrefix + PlanetName(i)
  }

  /** `f"dbz_space:planets/skin_{i+1}"`. */
  function SkinRef(i: nat): string {
    SkinPrefix + Decimal.FromNat(i + 1)
  }

  /** The ordinal `i + 1` can be read back from the name, the dimension key and the skin reference. */
  lemma OrdinalRecoverable(i: nat)
    ensures PlanetName(i)[..|NamePrefix|] == NamePrefix
    ensures Decimal.IsDigits(PlanetName(i)[|NamePrefix|..])
    ensures Decimal.ToNat(PlanetName(i)[|NamePrefix|..]) == i + 1
    ensures DimName(i)[..|DimPrefix|] == DimPrefix && DimName(i)[|DimPrefix|..] == PlanetName(i)
    ensures SkinRef(i)[..|SkinPrefix|] == SkinPrefix && Decimal.IsDigits(SkinRef(i)[|SkinPrefix|..])
    ensures Decimal.ToNat(SkinRef(i)[|SkinPrefix|..]) == i + 1
  {
    assert PlanetName(i)[|NamePrefix|..] == Decimal.FromNat(i + 1);
    assert SkinRef(i)[|SkinPrefix|..] == Decimal.FromNat(i + 1);
    Decimal.ToNatFromNat(i + 1);
  }

  /** Different ordinals give different names, dimension keys and skin references. */
  lemma IdentitiesDistinct(i: nat, j: nat)
    requires i != j
    ensures PlanetName(i) != PlanetName(j)
    ensures DimName(i) != DimName(j)
    ensures SkinRef(i) != SkinRef(j)
  {
    OrdinalRecoverable(i);
    OrdinalRecoverable(j);
  }

  /** Positions placed one after another by the sampler, each from the ones before it with its own draws. */
  predicate SampledInOrder(positions: seq<Point>, minDist: nat, draws: nat -> nat -> Draw,
                           place: (Point, Draw) -> (int, int))
  {
    forall k :: 0 <= k < |positions| ==> positions[k] == Sample(positions[..k], minDist, draws(k), place)
  }

  /** The first sampled position is the origin and every one is at the space height. */
  lemma {:induction false} SampledPositionsAtSpaceHeight(positions: seq<Point>, minDist: nat, draws: nat -> nat -> Draw,
                                                         place: (Point, Draw) -> (int, int))
    requires SampledInOrder(positions, minDist, draws, place)
    ensures positions != [] ==> positions[0] == SpaceOrigin
    ensures forall k :: 0 <= k < |positions| ==> positions[k].y == SpaceOrigin.y
  {
    forall k | 0 <= k < |positions|
      ensures positions[k].y == SpaceOrigin.y
    {
      SampleHeight(positions[..k], minDist, draws(k), place);
    }
  }

  /** Appending the next sampled position keeps the positions sampled in order. */
  lemma SampledInOrderAppend(positions: seq<Point>, pos: Point, minDist: nat, draws: nat -> nat -> Draw,
                             place: (Point, Draw) -> (int, int))
    requires SampledInOrder(positions, minDist, draws, place)
    requires pos == Sample(positions, minDist, draws(|positions|), place)
    ensures SampledInOrder(positions + [pos], minDist, draws, place)
  {
    var ps := positions + [pos];
    forall k | 0 <= k < |ps|
      ensures ps[k] == Sample(ps[..k], minDist, draws(k), place)
    {
      if k < |positions| {
        assert ps[..k] == positions[..k];
      } else {
        assert ps[..k] == positions;
      }
    }
  }

  /** The Version6 record of planet `i`: its name, dimension key, position, skin and biome. */
  function PlanetRecord(i: nat, pos: Point, biome: BiomeIndex): Planet {
    Planet(PlanetName(i), DimName(i), pos.x, pos.y, pos.z, SkinRef(i), AllBiomes[biome])
  }

  /** Record `k` is planet `k`'s, at position `k`, with the biome drawn for it. */
  predicate PlanetRecords(planets: seq<Planet>, positions: seq<Point>, biomeChoice: nat -> BiomeIndex) {
    |planets| == |positions| &&
    forall k :: 0 <= k < |planets| ==> planets[k] == PlanetRecord(k, positions[k], biomeChoice(k))
  }

  /**
   What the Version6 registry holds: every biome is one of the catalogue's,
   and no two planets share a name, a dimension key or a skin reference.
   */
  lemma {:induction false} PlanetRecordsDistinct(planets: seq<Planet>, positions: seq<Point>, biomeChoice: nat -> BiomeIndex)
    requires PlanetRecords(planets, positions, biomeChoice)
    ensures forall i :: 0 <= i < |planets| ==> planets[i].biome in AllBiomes
    ensures forall i, j :: 0 <= i < j < |planets| ==>
      && planets[i].name != planets[j].name
      && planets[i].dimName != planets[j].dimName
      && planets[i].skin != planets[j].skin
  {
    forall i, j | 0 <= i < j < |planets|
      ensures planets[i].name != planets[j].name
      ensures planets[i].dimName != planets[j].dimName
      ensures planets[i].skin != planets[j].skin
    {
      IdentitiesDistinct(i, j);
    }
  }

  /**
   The Version6 registry loop. `draws(i)` is the random stream the sampler
   consumes for planet `i`, `biomeChoice(i)` the biome drawn for it.
   */
  method BuildPlanets(draws: nat -> nat -> Draw, place: (Point, Draw) -> (int, int),
                      biomeChoice: nat -> BiomeIndex)
    returns (planets: seq<Planet>, positions: seq<Point>)
    ensures |positions| == NumPlanets
    ensures SampledInOrder(positions, MinDist, draws, place)
    ensures PlanetRecords(planets, positions, biomeChoice)
  {
    planets, positions := [], [];
    var i := 0;
    while i < NumPlanets
      invariant 0 <= i <= NumPlanets && |positions| == i
      invariant SampledInOrder(positions, MinDist, draws, place)
      invariant PlanetRecords(planets, positions, biomeChoice)
    {
      var pos, _ := RandomPositionFarEnough(positions, MinDist, draws(i), place);
      SampledInOrderAppend(positions, pos, MinDist, draws, place);
      positions := positions + [pos];
      var name := PlanetName(i);
      var dimName := DimPrefix + name;
      var skin := SkinRef(i);
      var chosenBiome := AllBiomes[biomeChoice(i)];
      planets := planets + [Planet(name, dimName, pos.x, pos.y, pos.z, skin, chosenBiome)];
      i := i + 1;
    }
  }

  /** The worldborder record of planet `i`: its name, dimension key and position. */
  function BorderRecord(i: nat, pos: Point): BorderPlanet {
    BorderPlanet(PlanetName(i), DimName(i), pos.x, pos.y, pos.z)
  }

  predicate BorderRecords(planets: seq<BorderPlanet>, positions: seq<Point>) {
    |planets| == |positions| &&
    forall k :: 0 <= k < |planets| ==> planets[k] == BorderRecord(k, positions[k])
  }

  /** No two planets of the worldborder registry share a name or a dimension key. */
  lemma {:induction false} BorderRecordsDistinct(planets: seq<BorderPlanet>, positions: seq<Point>)
    requires BorderRecords(planets, positions)
    ensures forall i, j :: 0 <= i < j < |planets| ==>
      planets[i].name != planets[j].name && planets[i].dimName != planets[j].dimName
  {
    forall i, j | 0 <= i < j < |planets|
      ensures planets[i].name != planets[j].name && planets[i].dimName != planets[j].dimName
    {
      IdentitiesDistinct(i, j);
    }
  }

  /** The registry loop of the worldborder script: names, dimension keys and positions only. */
  method BuildBorderPlanets(draws: nat -> nat -> Draw, place: (Point, Draw) -> (int, int))
    returns (planets: seq<BorderPlanet>, positions: seq<Point>)
    ensures |positions| == NumPlanets
    ensures SampledInOrder(positions, MinDist, draws, place)
    ensures BorderRecords(planets, positions)
  {
    planets, positions := [], [];
    var i := 0;
    while i < NumPlanets
      invariant 0 <= i <= NumPlanets && |positions| == i
      invariant SampledInOrder(positions, MinDist, draws, place)
      invariant BorderRecords(planets, positions)
    {
      var pos, _ := RandomPositionFarEnough(positions, MinDist, draws(i), place);
      SampledInOrderAppend(positions, pos, MinDist, draws, place);
      positions := positions + [pos];
      var name := PlanetName(i);
      var dimName := DimPrefix + name;
      planets := planets + [BorderPlanet(name, dimName, pos.x, pos.y, pos.z)];
      i := i + 1;
    }
  }
}
