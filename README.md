# DBZ space planets: a verified model of the generator core

Two Python scripts generate a Minecraft datapack of 10000 planets in a
"space" dimension. `generate_dbz_space_planets_datapack_Version6.py` does the
most work; `generate_dbz_space_planets_with_worldborder.py` is a simpler
variant of it. This project models the logic of both scripts that is not
file templating:

- **Sampler** (`sampler.dfy`): `random_position_far_enough`, the same loop
  in both scripts. It is a chained random walk. Each candidate is one step
  from the last accepted point, at height 100. A candidate is rejected if
  its X/Z distance to any of the last 100 accepted points is below
  `min_dist`. After the 5001st candidate is drawn, the last candidate is
  returned whatever its distance.
  - The method `RandomPositionFarEnough` keeps the script's `while True`
    loop, its `attempts` counter and its inner scan with `break`
    (`ScanWindow`). It is proved against the specification function
    `Sample`.
  - Randomness is a parameter: `draws(k)` is the k-th angle/step draw of one
    call. The trigonometric step `int(last + dist*cos(angle))`,
    `int(last + dist*sin(angle))` is the function parameter `place`.
- **Registry** (`registry.dfy`, with `decimal.dfy` for `str(n)`): the loops
  that append one sampled position and one record per planet.
  - Each record holds `planet_{i+1}`, `dbz_space:planet_{i+1}` and the
    position.
  - In Version6 it also holds `dbz_space:planets/skin_{i+1}` and a biome
    from the 20-entry catalogue.
- **Sphere** (`sphere.dfy`): the blocklist loop.
  - It lists the voxels of a 32-edged cube whose half-voxel-offset centre
    lies within `r - 0.5` of the centre, where `r = 32 // 2`. The order is
    y outermost, then z, then x.
  - The method evaluates the test as the script writes it, on reals.
  - Its contract uses the exact integer test obtained by doubling every
    term. The lemma `DoubledTestExact` proves the two agree.
- **Skin** (`skin.dfy`): `extract_colored_mask`,
  `transfer_bands_and_randomize` and the masking of `randomize_palette`, on
  `array2<Pixel>` rasters indexed `[y, x]`.
  - The floating-point HSV round trip is the function parameter `recolor`.
    It is applied with the one `HsvShift` drawn per call.

Three consequences of the code's own conditions are stated by the model:
- A candidate at distance exactly `min_dist` is accepted, since only
  `d < min_dist` rejects
  (generate_dbz_space_planets_datapack_Version6.py:67).
- At most 5001 candidates are drawn, since the loop stops only once
  `attempts > 5000`
  (generate_dbz_space_planets_datapack_Version6.py:72-74).
- In a 4-edged cube the sphere test keeps only the 8 inner voxels
  (`FourCubeBall`, generate_dbz_space_planets_datapack_Version6.py:174-177).

## Model

| member | source | states |
|---|---|---|
| Decimal.FromNat | generate_dbz_space_planets_datapack_Version6.py:82 | `str(n)` is a non-empty string of decimal digits with no leading zero, one digit long exactly when `n < 10` |
| Decimal.ToNatFromNat | generate_dbz_space_planets_datapack_Version6.py:82 | reading the rendered ordinal back gives the number: `str` is inverted by `int` |
| Decimal.FromNatInjective | generate_dbz_space_planets_datapack_Version6.py:82-84 | different numbers render differently |
| Sampler.TooClose | generate_dbz_space_planets_datapack_Version6.py:66-67 | a window point rejects the candidate when the squared X/Z distance is below `min_dist²` |
| Sampler.Candidate | generate_dbz_space_planets_datapack_Version6.py:59-63 | the chained candidate a draw yields: `place` applied to `existing_positions[-1]` and the draw, at y = `SPACE_ORIGIN[1]` |
| Sampler.SearchFrom | generate_dbz_space_planets_datapack_Version6.py:56-74 | the reference retry search: from candidate `k` on, the first far-enough candidate, or candidate 5000 |
| Sampler.Sample | generate_dbz_space_planets_datapack_Version6.py:52-74 | the reference result of `random_position_far_enough`: `SPACE_ORIGIN` for an empty history, otherwise the retry search from candidate 0 |
| Sampler.Window | generate_dbz_space_planets_datapack_Version6.py:65 | `existing_positions[-100:]` is the suffix of length `min(100, len)` |
| Sampler.ScanWindow | generate_dbz_space_planets_with_worldborder.py:35-40 | the inner scan with `break` reports "too close" exactly when some window point is at squared X/Z distance below `min_dist²` |
| Sampler.RandomPositionFarEnough | generate_dbz_space_planets_datapack_Version6.py:52-74 | an empty history gives `SPACE_ORIGIN` after no draws. Otherwise between 1 and 5001 candidates are drawn. The result is the last one drawn, every earlier one was too close to the window, and the result is far enough unless all 5001 were drawn. The result equals the specification `Sample` |
| Sampler.SampleHeight | generate_dbz_space_planets_with_worldborder.py:23-32 | every sampled position, including the origin, is at y = 100 |
| Sampler.SearchHeight | generate_dbz_space_planets_datapack_Version6.py:59-63 | every candidate of the retry search is at y = 100 |
| Sampler.SampleIsFirstAccepted | generate_dbz_space_planets_datapack_Version6.py:70-74 | if candidate `k` (k ≤ 5000) is the first far-enough one, or is the 5001st after 5000 rejections, the sampler returns candidate `k` |
| Sampler.SampleFarEnoughUnlessExhausted | generate_dbz_space_planets_with_worldborder.py:41-46 | if any of the 5001 candidates is far enough, the returned position is far enough from the last 100 positions; the distance is waived only when every candidate was rejected |
| Sampler.OlderPositionsIgnored | generate_dbz_space_planets_datapack_Version6.py:65 | two histories ending in the same 100 positions give the same result: older positions are never consulted |
| Sampler.SearchWindowOnly | generate_dbz_space_planets_with_worldborder.py:36 | the retry search depends only on the window and the last position |
| Sampler.SampleChainsFromLast | generate_dbz_space_planets_with_worldborder.py:29-31 | the result is a step `place(existing_positions[-1], d)` from the most recently accepted point, for one of the first 5001 draws, not a step from the origin |
| Registry.PlanetName | generate_dbz_space_planets_datapack_Version6.py:82 | the name `planet_{i+1}` |
| Registry.DimName | generate_dbz_space_planets_datapack_Version6.py:83 | the dimension key `dbz_space:` followed by the name |
| Registry.SkinRef | generate_dbz_space_planets_datapack_Version6.py:84 | the skin reference `dbz_space:planets/skin_{i+1}` |
| Registry.OrdinalRecoverable | generate_dbz_space_planets_datapack_Version6.py:82-84 | `planet_{i+1}` and `dbz_space:planets/skin_{i+1}` carry their prefixes and a digit string that reads back as `i + 1`, and the dimension key is `dbz_space:` followed by the name |
| Registry.IdentitiesDistinct | generate_dbz_space_planets_datapack_Version6.py:82-84 | different ordinals give different names, dimension keys and skin references |
| Registry.SampledPositionsAtSpaceHeight | generate_dbz_space_planets_datapack_Version6.py:79-81 | positions placed one after another by the sampler start at `SPACE_ORIGIN` and all lie at y = 100 |
| Registry.SampledInOrderAppend | generate_dbz_space_planets_with_worldborder.py:51-52 | appending the next sampled position keeps every entry sampled from the entries before it |
| Registry.PlanetRecord | generate_dbz_space_planets_datapack_Version6.py:86-94 | the Version6 record of planet `i`: name, dimension key, the position's x/y/z, skin reference and the chosen catalogue biome |
| Registry.BuildPlanets | generate_dbz_space_planets_datapack_Version6.py:77-94 | 10000 positions, each the sampler's result on the positions before it. Record `i` holds `planet_{i+1}`, `dbz_space:planet_{i+1}`, the coordinates of position `i`, `dbz_space:planets/skin_{i+1}` and the biome drawn for it |
| Registry.PlanetRecordsDistinct | generate_dbz_space_planets_datapack_Version6.py:82-85 | in such a registry every biome is one of the 20 catalogue entries, and no two planets share a name, a dimension key or a skin |
| Registry.BorderRecord | generate_dbz_space_planets_with_worldborder.py:55-61 | the worldborder record of planet `i`: name, dimension key and the position's x/y/z |
| Registry.BuildBorderPlanets | generate_dbz_space_planets_with_worldborder.py:48-61 | 10000 positions sampled in order. Record `i` holds `planet_{i+1}`, `dbz_space:planet_{i+1}` and the coordinates of position `i` |
| Registry.BorderRecordsDistinct | generate_dbz_space_planets_with_worldborder.py:53-54 | no two planets of that registry share a name or a dimension key |
| Sphere.InSphereAsWritten | generate_dbz_space_planets_datapack_Version6.py:174-177 | the script's test on reals: `dx*dx + dy*dy + dz*dz <= (radius - 0.5)²` with half-voxel offsets |
| Sphere.SphereBlocks | generate_dbz_space_planets_datapack_Version6.py:169-178 | the blocklist holds exactly the cube voxels passing the doubled integer test `(2x-2r+1)²+(2y-2r+1)²+(2z-2r+1)² ≤ (2r-1)²`, strictly in (y, z, x) order, each once |
| Sphere.DoubledTestExact | generate_dbz_space_planets_datapack_Version6.py:174-177 | the script's real-valued test `dx²+dy²+dz² ≤ (radius-0.5)²` holds exactly when the doubled integer test does |
| Sphere.OrderedListingUnique | generate_dbz_space_planets_datapack_Version6.py:171-178 | two strictly (y, z, x)-ordered listings of the same voxels are equal, so the ball fixes the blocklist |
| Sphere.ReflectionSymmetric | generate_dbz_space_planets_datapack_Version6.py:174-177 | for an even edge, reflecting any axis `v ↦ dim-1-v` (31-v for 32) keeps a voxel in the ball |
| Sphere.PermutationSymmetric | generate_dbz_space_planets_datapack_Version6.py:174-177 | swapping any two axes keeps a voxel in the ball |
| Sphere.NoVoxelOnCubeFace | generate_dbz_space_planets_datapack_Version6.py:174-177 | for an even edge, no voxel of the ball has a coordinate 0 or `dim-1` |
| Sphere.CentreVoxelsIncluded | generate_dbz_space_planets_datapack_Version6.py:170-177 | (15,15,15) and (16,16,16) are in the 32-edged ball |
| Sphere.FourCubeBall | generate_dbz_space_planets_datapack_Version6.py:170-177 | in a 4-edged cube the test keeps exactly the 2×2×2 inner voxels |
| Skin.MaskValue | generate_dbz_space_planets_datapack_Version6.py:191-192 | one mask entry: 255 where alpha exceeds 32, else 0 |
| Skin.TransferPixel | generate_dbz_space_planets_datapack_Version6.py:224-228 | one transferred pixel: style colour at alpha 255 inside the mask, base colour at alpha 0 outside it |
| Skin.RandomizePixel | generate_dbz_space_planets_datapack_Version6.py:204-213 | one masked pixel: transparent with its colour kept when mask or alpha is below 32, else recoloured with its alpha kept |
| Skin.CopyImage | generate_dbz_space_planets_datapack_Version6.py:221 | `np.array(image)` is a fresh raster of the same size and pixels |
| Skin.ExtractColoredMask | generate_dbz_space_planets_datapack_Version6.py:185-193 | the mask has the image's height and width and is 255 exactly where alpha > 32, 0 elsewhere |
| Skin.RandomizePalette | generate_dbz_space_planets_datapack_Version6.py:195-214 | pixels with mask < 32 or alpha < 32 keep their colour and get alpha 0. Every other pixel gets `recolor(shift, rgb)` with the one shift of the call, and keeps its alpha |
| Skin.TransferBandsAndRandomize | generate_dbz_space_planets_datapack_Version6.py:216-231 | each output pixel inside the base's mask is the style colour recoloured, at alpha 255. Outside it the base colour is kept at alpha 0, so alpha > 0 exactly where base alpha > 32, and then alpha = 255 |
| Skin.PipelineIsSkinPixel | generate_dbz_space_planets_datapack_Version6.py:219-230 | mask, band transfer and palette masking, composed per pixel, give the intended skin pixel |
| Skin.SkinAlphaIsMask | generate_dbz_space_planets_datapack_Version6.py:222-228 | a skin pixel's alpha is the base's mask value: 255 where base alpha > 32, 0 elsewhere |

## Left out

- File and directory output is not modelled. This covers `os.makedirs`, the marker JSON, the dimension JSON files, the enter/exit/tick `.mcfunction` files with `make_ship_teleport_lines`, and `planet_sphere_blocks.txt`. The overworld skip cannot trigger, because every dimension key starts with `dbz_space:`. Progress `print`s are not modelled either.
- The angle, `cos`/`sin` and `int()` truncation of a candidate step are the function parameter `place`. Floating point is out of scope.
- `generate_dbz_space_planets_with_worldborder.py:30-31` calls `random.cos`/`random.sin`, which do not exist. That script would raise an `AttributeError` while placing its second planet. The model gives both scripts the Version6 step, through `place`.
- Randomness (`random.uniform`, `random.randint`, `random.choice`) is supplied as parameters.
  - The scripts draw from one shared generator. The model gives each planet its own stream `draws(i)` and its own biome `biomeChoice(i)`, so the exact interleaving of draws is not modelled.
  - The model does not use `MAX_DIST`. In the script it only bounds the step-length draw (generate_dbz_space_planets_datapack_Version6.py:58); here `Draw.dist` is unconstrained and `place` abstracts the step.
- Sampler.RandomPositionFarEnough: the distance test is the exact integer comparison `dx² + dz² < min_dist²`. The script compares the floating-point `** 0.5` against `min_dist`, and rounding on very large coordinates is not modelled.
- Image decoding, `convert('RGBA')`, the `resize((32,32), LANCZOS)` and `save` are left out. `TransferBandsAndRandomize` takes two rasters that are already 32×32.
- The `colorsys` HSV round trip, with its clamps and `int(c*255)` truncation, is the abstract function `recolor`.
- Skin.RandomizePalette: requires a mask at least as large as the image. numpy raises an `IndexError` for a smaller mask, and that error path is not modelled.
- Sphere.SphereBlocks: takes the cube edge as a parameter. The script's edge is `PLANET_DIM = 32` (`PlanetDim`), and the shape lemmas about it assume an even edge.
