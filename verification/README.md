# Engine-free voxel algorithms

This project models the engine-free algorithms of the voxel engine and proves what they promise:

- **Raycast** walks the voxels a ray crosses, from grid plane to grid plane.
- **SpotGrid** places one hash-jittered spot per grid cell, answers point queries and enumerates the spots in a box.
  **Terrace** snaps a value to steps with a ramp around each step boundary.
- **Heightmap** fills a block of terrain from a height function at any level of detail.
- **CarvePath** and **LayeredFill** are the script-facing edits with work budgets, and **IdMapJson** prints and reads the
  id map of a blocky type library. **IdMapGrammar** is the grammar of the texts that its reader accepts.
- **ShapeEdits**, **SmoothBlend** and **Blur** are the sphere, box and hemisphere edits, the smooth minimum behind the
  hemisphere, and the blur. They work on **Voxels**, one buffer channel as an exact 3D array.
- **Hash** holds the 32-bit mixers.
- **RegionSwap** replaces the region entries of a directory by converted ones.
- **SlotMap** is the handle registry, and **TaskPriority** the priority of streaming tasks, fed from that registry.

`Geometry` holds what they share. Real numbers stand for `f32`. Machine integers are unbounded integers, with
wrap-around, saturation, truncating division and checked conversions written out where the code has them. Loops that
change state are methods over arrays or fields, and each is proved against a specification with no loop order. The
sphere, box and hemisphere edits are specified voxel by voxel without the loop box, but a box still takes its distance
from the part inside the buffer and a sphere of negative radius still keeps to its inverted box. The heightmap is first
specified with its two early exits, and then compared with a rule that has none. The lemmas are about those
specifications.

A closure that answers per call (the raycast predicate, the height function) is a parameter. The raycast predicate is a
function of all states offered so far, so it may answer differently each time. Everything the file system decides
(listing order, listing errors, which renames fail, what a failed delete leaves) is a parameter of the region swap. The
square root in the shape edits is a parameter `root`; what depends on its value asks `IsSqrt(root)`. How an 8-bit SDF
channel reads and writes its cells as distances is a parameter of the blur.

## Where the code does not do what it says

For each of these a failing input is proved, and exactly when the promise holds, but for one interval of spot radii.

- The id-map printer says it escapes the minimal set for a round trip, but the reader never undoes escapes and splits on
  every comma and colon. A map survives if and only if none of its names holds `"`, `\`, `,` or `:`
  (`RoundTripExactly`, `QuotedNameComesBackChanged`).
- The 2D spot enumeration says a jittered center never leaves its cell. The 16-bit lanes reach 1, so at jitter 1 a center
  can sit on the far corner of its cell. The enumeration lists every center of each accepted rectangle
  (`PlaneEnumerationIsExact`, `FullJitterMissesCenter`), and cutting accepted rectangles lists each spot exactly once
  (`RectsTileExactly`, `FullJitterLosesSpotAtCut`), if and only if the jitter is below 1. For every seed and every spot
  radius up to 1.4139 cells the point query finds every center if and only if the jitter is below 1; for radii beyond the
  diagonal of a cell it always does (`CentersAreSpotsExactly2D`, `FullJitterMissesOwnSpot`). Between the two, one seed is
  decided: there the jitter must be below 1 for every radius up to the diagonal (`CornerSeedIsExact`). In 3D the lanes
  stay below 1 and every valid jitter is exact.
- The region swap says old data is safe until the last delete. Region entries are; an entry that is not a region but that
  the converted directory also has, such as `meta.vxrm`, is overwritten before a later rename can fail. An error keeps all
  old data if and only if the shared names hold the same content (`ErrorsKeepAllOldDataExactly`, `MetadataCanBeLost`).
- It also says that a crash leaves the backup recoverable, but every run first deletes the backup of the attempt before
  it. All failing runs keep what an earlier backup held if and only if the source holds each of its entries too and no
  converted entry of other content can replace a shared one (`RetryKeepsOldBackupExactly`). Any region can be lost by two
  failing runs, whatever is converted in between (`TwoFailedRunsLoseRegion`).
- The blur's fallback for an empty window is not dead: it is reached if and only if a window bound overflows `i32`
  (`WindowEmptyExactly`), as with the largest radius at the corner of a 16-voxel buffer (`HugeRadiusKeepsValue`).
- The two halves of a sphere for a flat direction and its opposite make the sphere if and only if the squared length of
  the direction is above 1e-16; shorter directions both become "up" (`HalvesMakeSphereExactly`).
- An SDF block inside the `i32` world obeys the heightmap's rule if and only if neither early exit disturbs it: above all
  ground the block must already hold the rule's distances, and below all ground the scale must be 0 or the block empty
  (`SdfBlockFollowsRuleExactly`, `SdfExitAboveGroundKeepsOld`, `SdfExitBelowGroundStoresZero`).
- A block of air obeys the heightmap's rule for every blocky terrain if and only if its sampled columns, its top and its
  height fit `i32` (`BlocksObeyRuleExactly`). Otherwise the block top can wrap below the ground, so that the exit fills
  air (`WrappedBlockIsFilled`), or the column height saturates below a solid voxel (`TallBlockIsCut`). Both happen at
  LOD 16 with 32768 voxels.

Three more things a caller may not expect:

- The raycast never asks about the voxel it starts in, and asks about no voxel twice, if and only if it takes no idle step
  along an axis without motion. A ray that hits nothing takes such steps from `max_distance` 1e30 on, and only then; it
  then offers its start or some other voxel again (`VoxelRaycast`, `NoVoxelRepeats`, `FreshIsNeverIdle`).
- With a viewer active, distances are capped, so a task whose squared drop distance is 99999 or more is never dropped
  (`TooFarExactly`). The first viewers to become active can make a task look further away and lower its priority
  (`FirstViewersRecedeExactly`), and from LOD 5 on distance does not change the priority at all (`Band0Bound`).
- A box edit that reaches past the buffer stores distances of the clipped box. They are those of the box itself exactly at
  the voxels that no border of the buffer is nearer to than every face of the box (`ClippedBoxDistance`).

## Model

| member | source | states |
|---|---|---|
| Raycast.VoxelRaycast | rust/voxel-core/src/edition/raycast.rs:41-214 | For every origin, direction, distance and predicate: the hit is the first accepted state and all before it were refused; consecutive states are linked and the ray is in the closed cube being left between their distances; every voxel whose interior the ray meets up to the hit (or up to the maximum distance) is the start or was offered; no voxel is offered twice and the start never if and only if each step leads one voxel further, which a walk without a hit does exactly when no axis without motion can be stepped along, and then within max·(abs dx + abs dy + abs dz) + 3 steps |
| Raycast.FirstCrossings | rust/voxel-core/src/edition/raycast.rs:57-145 | The setup, with its fix-up for an origin on a grid plane, puts every axis in step with the ray at parameter 0 |
| Raycast.CrossNearest | rust/voxel-core/src/edition/raycast.rs:151-196 | Exactly the axis with the nearest plane moves, and only if that plane is within the maximum distance; the normal is the previous minus the current position |
| Raycast.NextState | rust/voxel-core/src/edition/raycast.rs:151-205 | One iteration keeps the walk invariant and uses up exactly one remaining grid plane; when it stops instead, nothing up to the maximum distance was missed |
| Raycast.AxisStarts | rust/voxel-core/src/edition/raycast.rs:110-145 | After the fix-up each crossing is the parameter of the next plane ahead; the fix-up applies exactly to a backward ray on a plane |
| Raycast.AxisStays | rust/voxel-core/src/edition/raycast.rs:151-196 | Between entering a voxel and its next plane, the ray coordinate is within the voxel |
| Raycast.AxisAdvances | rust/voxel-core/src/edition/raycast.rs:162-164 | Adding one plane distance to the crossing and one step to the coordinate keeps them in step with the ray |
| Raycast.AxesAdvance | rust/voxel-core/src/edition/raycast.rs:151-196 | Crossing the nearest plane keeps all axes in step, and the ray stays in the cube being left and arrives in the one entered |
| Raycast.InteriorMeetsOneCube | rust/voxel-core/src/edition/raycast.rs:36-40 | A ray point inside a voxel lies in no other voxel's closed cube |
| Raycast.FollowingIsComplete | rust/voxel-core/src/edition/raycast.rs:36-40 | Any trace that follows the ray misses no voxel whose interior the ray meets |
| Raycast.PlanesBound | rust/voxel-core/src/edition/raycast.rs:89-133 | The planes of one axis within the maximum distance number at most the distance travelled along it plus one |
| Raycast.WalkBound | rust/voxel-core/src/edition/raycast.rs:151-213 | The walk's step bound over the three axes |
| Raycast.WalkingOn | rust/voxel-core/src/edition/raycast.rs:151-203 | One step keeps the whole walk invariant: linked states, no distance decreasing, Manhattan distance equal to the number of steps |
| Raycast.WalkingToTheEnd | rust/voxel-core/src/edition/raycast.rs:159-161 | When the nearest plane is beyond the maximum distance, the offered voxels are complete up to it |
| Raycast.HitIsFirstSolid | rust/voxel-core/src/edition/raycast.rs:36-38 | If acceptance depends on the voxel alone, no other voxel the ray meets up to the hit is solid, except possibly the start |
| Raycast.NoVoxelRepeats | rust/voxel-core/src/edition/raycast.rs:151-213 | On a walk that takes no idle step, which is every walk with max_distance below 1e30 or motion on all axes, no voxel is offered twice and the start voxel is never offered |
| Raycast.FreshIsNeverIdle | rust/voxel-core/src/edition/raycast.rs:151-213 | Conversely, a walk that offers no voxel twice and never its start takes no idle step |
| IdMapJson.ParseFlatJsonObjectI32 | rust/voxel-gdext/src/resources2.rs:238-264 | The reading loop returns all pairs in order or the first error, as the recursive reading of the split text does; which texts that accepts, and as what, is stated without the reader by `IdMapGrammar.TextReadsExactly` |
| IdMapGrammar.TextReadsExactly | rust/voxel-gdext/src/resources2.rs:238-264 | A text reads as the given pairs if and only if it is laid out as them: blanks anywhere around braces, commas, quoted names, colons and numbers, and nothing or blanks between any two commas; so reading does not depend on whitespace |
| IdMapGrammar.EntryReadsExactly | rust/voxel-gdext/src/resources2.rs:248-261 | An entry reads as a name and a number if and only if it is the quoted name, free of colons, a colon and a text of the number, with any blanks around each of them |
| IdMapGrammar.LaidOutReads | rust/voxel-gdext/src/resources2.rs:248-261 | Any blanks before and after the name and before and after the number leave what is read unchanged |
| IdMapGrammar.PartsReadExactly | rust/voxel-gdext/src/resources2.rs:245-262 | Entries read as the given pairs if and only if they are laid out as them in order, with only blank entries between |
| IdMapGrammar.EntryErrorsExactly | rust/voxel-gdext/src/resources2.rs:250-260 | An entry fails for its colon if and only if it has none, for its quotes if and only if what stands before the first colon is not a quoted text, blanks aside, and for its number if and only if that is and what stands after is not a number |
| IdMapGrammar.FirstBadEntryDecides | rust/voxel-gdext/src/resources2.rs:245-262 | The first entry that fails gives the error |
| IdMapGrammar.BracesExactly | rust/voxel-gdext/src/resources2.rs:239-242 | A text fails as a whole if and only if, blanks aside, it is not in braces |
| IdMapGrammar.NumberReadsExactly | rust/voxel-gdext/src/resources2.rs:257-259 | A text reads as an i32 if and only if it is an optional sign and at least one digit that stand for it |
| IdMapGrammar.LeadingZero | rust/voxel-gdext/src/resources2.rs:257-259 | A leading zero changes no number |
| IdMapGrammar.PrintedIntIsCanonical | rust/voxel-gdext/src/resources2.rs:4984 | A printed number has no plus sign and no leading zero, and a minus sign only if it is negative |
| IdMapGrammar.TrimOfPadded | rust/voxel-gdext/src/resources2.rs:251-252 | Trimming removes blanks around a text with clean ends, and nothing else |
| IdMapGrammar.BlanksAreWhiteSpace | rust/voxel-gdext/src/resources2.rs:239-252 | The trimmed characters are the 25 code points of Unicode's White_Space property |
| IdMapGrammar.TrimSplits | rust/voxel-gdext/src/resources2.rs:251-252 | Every text is its trimmed form between blanks |
| IdMapGrammar.SplitOfJoin | rust/voxel-gdext/src/resources2.rs:245 | Splitting at commas undoes joining with commas, for pieces without a comma |
| IdMapGrammar.JoinOfSplit | rust/voxel-gdext/src/resources2.rs:245 | Joining with commas undoes splitting at commas |
| IdMapGrammar.MapReadsExactly | rust/voxel-gdext/src/resources2.rs:4929-4941 | A text loads as a map if and only if it is laid out as pairs whose insertion in order gives the map |
| IdMapGrammar.LastPairWins | rust/voxel-gdext/src/resources2.rs:4938-4941 | Of several pairs with one name the last decides |
| IdMapGrammar.EscapeIsJson | rust/voxel-gdext/src/resources2.rs:4973-4980 | Undoing the escapes of quote and backslash, as section 7 of RFC 8259 defines them, gives the escaped name back |
| IdMapGrammar.PrintedEntryExample | rust/voxel-gdext/src/resources2.rs:4973-4983 | A concrete printed entry, character by character |
| IdMapGrammar.PrintedTextExample | rust/voxel-gdext/src/resources2.rs:4969-4986 | The printed text of no entry, one entry and two entries |
| IdMapGrammar.LessIsLexicographic | rust/voxel-gdext/src/resources2.rs:4967-4968 | The order of names is that of the first differing character, prefixes first |
| IdMapJson.EarlierErrorWins | rust/voxel-gdext/src/resources2.rs:245-262 | The first malformed entry decides the result whatever follows |
| IdMapJson.PrintedIntParses | rust/voxel-gdext/src/resources2.rs:257-259 | Every i32 prints to a text that parses back to it |
| IdMapJson.PrintedEntriesParse | rust/voxel-gdext/src/resources2.rs:245-262 | Without separators in the names, reading the printed entries returns the escaped names with their indices |
| IdMapJson.ParsedKeysAreClean | rust/voxel-gdext/src/resources2.rs:245-262 | No text makes the reader produce a name with a comma or a colon |
| IdMapJson.EscapedMapDiffers | rust/voxel-gdext/src/resources2.rs:4973-4980 | A map with a name that needs escapes is never equal to the map of its escaped names |
| IdMapJson.RoundTripExactly | rust/voxel-gdext/src/resources2.rs:4966-4987 | Printing and reading back gives the same map if and only if no name holds a quote, backslash, comma or colon; any size, any i32 |
| IdMapJson.SavedTextRestores | rust/voxel-gdext/src/resources2.rs:4929-4987 | The same for the text the library saves and the map it loads |
| IdMapJson.TextIsUnique | rust/voxel-gdext/src/resources2.rs:4967-4968 | Equal maps save to equal texts, whatever the hash map's order |
| IdMapJson.SortedEnumerationIsUnique | rust/voxel-gdext/src/resources2.rs:4967-4968 | A map has one enumeration sorted by name |
| IdMapJson.QuotedNameComesBackChanged | rust/voxel-gdext/src/resources2.rs:4973-4980 | A concrete map with a quote in a name does not survive |
| IdMapJson.SortByIndexIsStable | rust/voxel-gdext/src/resources2.rs:4942-4943 | The name list is ordered by index and keeps, for each index, its names in their order |
| IdMapJson.SortByIndexPermutes | rust/voxel-gdext/src/resources2.rs:4942-4943 | The sort neither drops nor repeats a name |
| IdMapJson.NameListIsOrdered | rust/voxel-gdext/src/resources2.rs:4938-4950 | The name list holds the names of the pairs, each as often, by ascending index in the loaded map |
| IdMapJson.TypeLibrary.LoadIdMapFromJson | rust/voxel-gdext/src/resources2.rs:4929-4952 | Replaces map and name list on success, the list being the read names by ascending index in the map; a malformed text changes nothing |
| IdMapJson.TypeLibrary.SerializeIdMapToJson | rust/voxel-gdext/src/resources2.rs:4966-4987 | The text is the printed form of the map's entries in name order |
| IdMapJson.TypeLibrary.SortedEntries | rust/voxel-gdext/src/resources2.rs:4967-4968 | Every name once, with its index, in name order |
| IdMapJson.PrintAll | rust/voxel-gdext/src/resources2.rs:4969-4986 | The printing loop builds the recursive printed form, commas between entries |
| IdMapJson.AppendEscaped | rust/voxel-gdext/src/resources2.rs:4975-4980 | The escaping loop appends the escaped name |
| Hash.HashFmix32 | rust/voxel-core/src/hash.rs:49-56 | The reassigning steps lose nothing: applying the inverse mixer to the result gives the input back |
| Hash.HashMurmur3One32 | rust/voxel-core/src/hash.rs:35-45 | The reassigning steps lose nothing: from the result the seed comes back given the input, and the input given the seed |
| Hash.Fmix32IsBijective | rust/voxel-core/src/hash.rs:49-56 | fmix32 has a two-sided inverse on all words |
| Hash.Murmur3IsBijectiveInSeed | rust/voxel-core/src/hash.rs:35-45 | For each input, murmur3 is a bijection of the seed, with the inverse given |
| Hash.Murmur3IsBijectiveInInput | rust/voxel-core/src/hash.rs:35-45 | For each seed, murmur3 is a bijection of the input, with the inverse given |
| Hash.Djb2IsBijective | rust/voxel-core/src/hash.rs:13-15 | djb2 is a bijection in each argument, with both inverses given |
| Hash.XorAssociates | rust/voxel-core/src/hash.rs:40 | Bitwise exclusive or, defined bit by bit, is associative |
| Hash.LongXorShiftUndone | rust/voxel-core/src/hash.rs:50 | A xor-shift by 16 or more is its own inverse |
| Hash.XorShiftUndone | rust/voxel-core/src/hash.rs:52 | A xor-shift by 11 or more is undone, both ways, by two shifts |
| Hash.MulUndone | rust/voxel-core/src/hash.rs:51 | Wrapping multiplication by an odd constant is undone by its inverse |
| Hash.ShiftIsQuotient | rust/voxel-core/src/hash.rs:50 | A right shift divides by a power of two |
| Hash.XorBits | rust/voxel-core/src/hash.rs:40 | Each bit of an exclusive or is one if and only if the two bits differ |
| Hash.KnownFmix32 | rust/voxel-core/src/hash.rs:49-56 | fmix32 of 1 is 0x514e28b7 |
| Hash.KnownMurmur3 | rust/voxel-core/src/hash.rs:35-45 | murmur3 of 1 from seed 0 is 0x26cf0576 |
| Hash.KnownDjb2 | rust/voxel-core/src/hash.rs:13-15 | djb2 of 1 from 5381 is 177572 |
| SpotGrid.SpotHash2DIsInjective | rust/voxel-gdext/src/resources3.rs:1908-1911 | Changing one coordinate of a 2D cell always changes its hash |
| SpotGrid.SpotHash3DIsInjective | rust/voxel-gdext/src/resources3.rs:1914-1920 | Changing one coordinate of a 3D cell always changes its hash |
| SpotGrid.EveryRowTakesEveryHash | rust/voxel-gdext/src/resources3.rs:1908-1911 | Every row holds a cell of every hash, at a computed place |
| SpotGrid.NewConfig | rust/voxel-gdext/src/resources3.rs:1981-1991 | A configuration is made if and only if cell size and radius are positive and the jitter is in [0, 1] |
| SpotGrid.SpotHash2DRecoversSeed | rust/voxel-gdext/src/resources3.rs:1908-1911 | From a cell of the plane and its hash the seed comes back, with the primes written out |
| SpotGrid.SpotHash3DRecoversSeed | rust/voxel-gdext/src/resources3.rs:1914-1920 | From a cell of space and its hash the seed comes back, with the primes written out |
| SpotGrid.AxisCenterIs | rust/voxel-gdext/src/resources3.rs:1945-2018 | A center is off the middle of its cell by (lane - 1/2)·jitter·cell size |
| SpotGrid.CenterFromHalves | rust/voxel-gdext/src/resources3.rs:1924-2004 | The low half of a 2D hash places the center along x and the high half along y, in steps of 1/65535 |
| SpotGrid.CenterFromTenths | rust/voxel-gdext/src/resources3.rs:1933-2018 | The low three groups of ten bits of a 3D hash place the center along x, y and z, in steps of 1/1024; the top two bits do not matter |
| SpotGrid.CenterStaysInCell | rust/voxel-gdext/src/resources3.rs:1941-1948 | A jittered center has its own cell's index unless lane and jitter are both 1 |
| SpotGrid.RangeCovers | rust/voxel-gdext/src/resources3.rs:2057-2062 | The saturating index range of an interval holds every cell whose center is in the interval |
| SpotGrid.SpotCentersInRect | rust/voxel-gdext/src/resources3.rs:2076-2115 | Errors exactly when the checked work count fails or exceeds the limit; otherwise one entry per cell of the index range with its center in the half-open rectangle, row by row; at most 65536 iterations |
| SpotGrid.VisitCells2D | rust/voxel-gdext/src/resources3.rs:2094-2113 | The loops visit each cell of the range once; their iterations equal the checked work count |
| SpotGrid.SpotCentersInAabb | rust/voxel-gdext/src/resources3.rs:2121-2169 | The same for boxes |
| SpotGrid.VisitCells | rust/voxel-gdext/src/resources3.rs:2145-2167 | The three loops visit each cell of the range once; their iterations equal the checked work count |
| SpotGrid.AcceptedExactly2D | rust/voxel-gdext/src/resources3.rs:2066-2093 | A rectangle is accepted if and only if its index range covers at most 65536 cells, and no count overflows |
| SpotGrid.AcceptedExactly3D | rust/voxel-gdext/src/resources3.rs:2066-2144 | A box is accepted if and only if its index range covers at most 65536 cells; the count overflows if and only if the product of the counts, each capped at 2^31, leaves u64 |
| SpotGrid.ProductBound | rust/voxel-gdext/src/resources3.rs:2066-2093 | An accepted 2D work count is the number of cells in the range, although the subtraction saturates |
| SpotGrid.WorkIsVolume | rust/voxel-gdext/src/resources3.rs:2066-2144 | An accepted 3D work count is the number of cells in the range, although the subtraction saturates |
| SpotGrid.JitterBelowOneCoversPlane | rust/voxel-gdext/src/resources3.rs:2051-2062 | Below jitter 1, no cell of the whole plane with its center in the rectangle is outside the index range |
| SpotGrid.FullJitterMissesCenter | rust/voxel-gdext/src/resources3.rs:2051-2062 | At jitter 1, for every seed and size, an accepted rectangle misses a center |
| SpotGrid.PlaneEnumerationIsExact | rust/voxel-gdext/src/resources3.rs:2076-2115 | All accepted rectangles list every center of the plane in them if and only if the jitter is below 1 |
| SpotGrid.SpaceEnumerationIsExact | rust/voxel-gdext/src/resources3.rs:2121-2169 | For every valid jitter, a box lists every center of space in it |
| SpotGrid.AdjacentRectsTile | rust/voxel-gdext/src/resources3.rs:2097-2100 | Below jitter 1, cutting any rectangle in two lists each spot in exactly one part |
| SpotGrid.FullJitterLosesSpotAtCut | rust/voxel-gdext/src/resources3.rs:2097-2100 | At jitter 1, for every seed and size, an accepted rectangle lists a spot that neither part of a cut lists |
| SpotGrid.RectsTileExactly | rust/voxel-gdext/src/resources3.rs:2097-2107 | Cutting accepted rectangles lists every spot exactly once, for all rectangles, cuts and cells, if and only if the jitter is below 1 |
| SpotGrid.AdjacentBoxesTile | rust/voxel-gdext/src/resources3.rs:2149-2160 | Cutting a box in two, across any axis, lists each spot in exactly one part |
| SpotGrid.CellIndexExactly | rust/voxel-gdext/src/resources3.rs:2021-2023 | The index of a coordinate is the one cell it lies in, where the outermost i32 cells reach to infinity |
| SpotGrid.FieldInCell2D | rust/voxel-gdext/src/resources3.rs:2021-2032 | At every point of a cell of the plane the field is 1 if the squared distance to the center of that cell is below the squared spot radius, and 0 if not |
| SpotGrid.FieldInCell3D | rust/voxel-gdext/src/resources3.rs:2037-2050 | The same at every point of a cell of space |
| SpotGrid.CentersAreSpots2D | rust/voxel-gdext/src/resources3.rs:2021-2032 | Below jitter 1 the 2D field is 1 at every spot center |
| SpotGrid.FullJitterMissesOwnSpot | rust/voxel-gdext/src/resources3.rs:2021-2032 | At jitter 1, for every seed and every radius up to 1.4139 cells, the field is 0 at some center |
| SpotGrid.WideSpotsReachCenters | rust/voxel-gdext/src/resources3.rs:2021-2032 | A radius beyond the diagonal of a cell makes the field 1 at every center, for any jitter |
| SpotGrid.CentersAreSpotsExactly2D | rust/voxel-gdext/src/resources3.rs:2021-2032 | For every seed and every radius up to 1.4139 cells or beyond the diagonal of a cell, the field is 1 at all centers if and only if the jitter is below 1 or the radius is beyond the diagonal |
| SpotGrid.CornerSeedMissesOwnSpot | rust/voxel-gdext/src/resources3.rs:2021-2032 | For one seed at jitter 1, a concrete center where the field is 0 for every radius up to the diagonal |
| SpotGrid.CornerSeedIsExact | rust/voxel-gdext/src/resources3.rs:2021-2032 | For that seed and every radius, the field is 1 at all centers if and only if the jitter is below 1 or the radius is beyond the diagonal |
| SpotGrid.CentersAreSpots3D | rust/voxel-gdext/src/resources3.rs:2037-2050 | The 3D field is 1 at every spot center |
| SpotGrid.QueryAgreesWithEnumeration2D | rust/voxel-gdext/src/resources3.rs:1994-2032 | For every valid jitter, the 2D field is 1 at a point if and only if a rectangle that reaches a radius around it lists the center of the point's own cell, within the radius |
| SpotGrid.QueryAgreesWithEnumeration3D | rust/voxel-gdext/src/resources3.rs:2008-2050 | For every valid jitter, the 3D field is 1 at a point if and only if a box that reaches a radius around it lists the center of the point's own cell, within the radius |
| Terrace.TerraceIsMonotone | rust/voxel-gdext/src/resources3.rs:285-310 | The terrace never decreases, for every multiplier and smoothness |
| Terrace.TerraceIsNear | rust/voxel-gdext/src/resources3.rs:282-310 | It moves a value by at most (1-s)/(2 abs m), is the identity at s = 1 and a multiple of 1/m at s = 0 |
| Terrace.HardTerraceIsNearestStep | rust/voxel-gdext/src/resources3.rs:298-302 | At s = 0 no multiple of 1/m is nearer |
| Terrace.TerraceOffIsIdentity | rust/voxel-gdext/src/resources3.rs:285-292 | Disabled, or with multiplier 0, the value is unchanged |
| Terrace.TerraceIsExact | rust/voxel-gdext/src/resources3.rs:282-310 | In steps of height one and for s > 0: flat within (1-s)/2 of the nearest integer, slope 1/s from there to the middle between two integers, ties included |
| Terrace.HardTerraceIsExact | rust/voxel-gdext/src/resources3.rs:298-302 | At s = 0 the result is n steps if and only if n is the nearest integer, at a tie the one away from zero |
| Heightmap.GenerateHeightmap | rust/voxel-core/src/generators/base.rs:163-240 | For every i32 origin and every buffer: each voxel gets its old value, the clear value or the wrapping loop's value as the two exits say, and the hint is set if and only if the bottom is above all ground or the wrapped block top below it; in the i32 world and in range, every blocky block is the terrain: matter where the top of the voxel is at most height start plus range times the sample of its column, else the old value; off the exits every SDF block is the terrain: the scaled gap between the voxel's bottom and the scaled sample |
| Heightmap.FillBlock | rust/voxel-core/src/generators/base.rs:195-237 | The loops with wrapping running coordinates give every voxel the value at its wrapped world coordinates; in the i32 world that is the terrain of the scaled samples |
| Heightmap.FillColumn | rust/voxel-core/src/generators/base.rs:198-237 | One column of either fill gets the loop's values and no other column changes |
| Heightmap.SdfColumn | rust/voxel-core/src/generators/base.rs:203-209 | Stores the scaled distance to the surface at each voxel's wrapped world height |
| Heightmap.BlockyColumn | rust/voxel-core/src/generators/base.rs:220-232 | The truncated, shifted, clamped column height fills exactly the solid voxels whose tops an i32 holds |
| Heightmap.ColumnHeightIsRule | rust/voxel-core/src/generators/base.rs:220-221 | Below the truncated, saturated and shifted height if and only if the voxel's top is not above the surface and an i32 holds it |
| Heightmap.LoopFollowsRule | rust/voxel-core/src/generators/base.rs:173-237 | When the block's coordinates fit i32, the wrapping loop and the computed block top are those of the unbounded rule |
| Heightmap.GeneratedIsTerrain | rust/voxel-core/src/generators/base.rs:195-237 | The rule is the terrain written out in world coordinates and height samples |
| Heightmap.LoopIsTerrain | rust/voxel-core/src/generators/base.rs:195-237 | When the block's coordinates fit i32, the wrapping loop gives every voxel the terrain's value |
| Heightmap.EarlyExitsFollowRule | rust/voxel-core/src/generators/base.rs:183-193 | For heights in [0, 1] and a nonnegative range, a block above all ground has no solid voxel, in one below every voxel is solid, and no block is both |
| Heightmap.BlockyBlockFollowsRule | rust/voxel-core/src/generators/base.rs:163-240 | The sufficient half of the next row for a block of any content: in the i32 world, for heights in [0, 1] and a nonnegative range, every voxel obeys the rule, early exits included |
| Heightmap.BlocksObeyRuleExactly | rust/voxel-core/src/generators/base.rs:163-240 | For every block of positive size that was air: all blocky terrains, whatever their heights in [0, 1], obey the rule at every voxel if and only if the sampled columns, the block top and the block height fit i32 |
| Heightmap.WrappedTopFillsAir | rust/voxel-core/src/generators/base.rs:188-193 | For every block whose top leaves i32, a flat terrain whose below-ground exit fills its top voxel, which the rule leaves air |
| Heightmap.TallColumnIsCut | rust/voxel-core/src/generators/base.rs:220-225 | For every block whose height alone leaves i32, a flat terrain whose solid top voxel is left out |
| Heightmap.WrappedColumnDiffers | rust/voxel-core/src/generators/base.rs:174-178 | For every block with a column outside i32, a terrain that is sampled at the wrapped column instead and differs |
| Heightmap.BlocksAgree | rust/voxel-core/src/generators/base.rs:173-178 | Blocks of any origin give the same world voxel the same value |
| Heightmap.CoarseIsAllFine | rust/voxel-core/src/generators/base.rs:195-221 | A coarse voxel is solid if and only if all 2^lod fine voxels it covers in its column are |
| Heightmap.BlockyMatchesSdf | rust/voxel-core/src/generators/base.rs:198-237 | A voxel is solid in the blocky fill if and only if the SDF one voxel up is not positive |
| Heightmap.SdfExitBelowGroundDiffers | rust/voxel-core/src/generators/base.rs:187-193 | Below all ground, the clear value of the SDF exit is what the rule says at a voxel if and only if the scale is 0 |
| Heightmap.SdfBlockFollowsRuleExactly | rust/voxel-core/src/generators/base.rs:183-193 | An SDF block obeys the rule everywhere if and only if above all ground it already held the rule's values, and below all ground the scale is 0 or the block is empty |
| Heightmap.SdfExitAboveGroundKeepsOld | rust/voxel-core/src/generators/base.rs:183-186 | A concrete block above all ground that keeps 1 where the rule says 0 |
| Heightmap.SdfExitBelowGroundStoresZero | rust/voxel-core/src/generators/base.rs:187-193 | A concrete block below all ground that stores 0 where the rule says -100 |
| Heightmap.TallBlockIsCut | rust/voxel-core/src/generators/base.rs:220-225 | At LOD 16, a concrete column of 32768 voxels whose solid top voxel is left out |
| Heightmap.WrappedBlockIsFilled | rust/voxel-core/src/generators/base.rs:188-193 | At LOD 16, a concrete block of 32768 voxels above the ground that the wrapped block top fills |
| Voxels.FillArea | rust/voxel-core/src/generators/base.rs:226-231 | Writes exactly the voxels of the box |
| ShapeEdits.DoSphere | rust/voxel-core/src/edition/ops.rs:125-198 | The clipped loop edits exactly the voxels of the buffer the sphere covers, each as the blend says; covered voxels and blend are stated on their own by the rows `SphereTouchesExactly`, `EditedIds` and `EditedDistances` |
| ShapeEdits.DoBox | rust/voxel-core/src/edition/ops.rs:201-254 | The same for a box; the loop body runs exactly the clipped volume |
| ShapeEdits.DoHemisphere | rust/voxel-core/src/edition/ops.rs:304-367 | The same for a hemisphere: every voxel of the buffer with distance at most 0 |
| ShapeEdits.EditedIds | rust/voxel-core/src/edition/ops.rs:179-194 | For any shape: only touched voxels change; a touched id is 0 after Remove, the value after Set, and after Add the value if it was air and itself if not |
| ShapeEdits.EditedDistances | rust/voxel-core/src/edition/ops.rs:387-393 | For any shape: a touched distance is the smaller of its own and the shape's after Add, the larger of its own and minus the shape's after Remove, the shape's after Set |
| ShapeEdits.SphereTouchesExactly | rust/voxel-core/src/edition/ops.rs:137-168 | A sphere touches the voxels whose centers lie in the ball; one of negative radius only a voxel whose center lies in the opposite ball, if that ball lies strictly inside the voxel |
| ShapeEdits.SphereDistance | rust/voxel-core/src/edition/ops.rs:160-174 | The sphere distance plus the radius is the distance between the two centers |
| ShapeEdits.BoxTouchesExactly | rust/voxel-core/src/edition/ops.rs:212-223 | A box touches the voxels between its corners, the high ones left out |
| ShapeEdits.HemisphereDistance | rust/voxel-core/src/edition/ops.rs:259-285 | The hemisphere distance is the smooth intersection of the sphere's and the flat face's, and the shape touches the voxels where it is not positive |
| ShapeEdits.FaceIsAlongDirection | rust/voxel-core/src/edition/ops.rs:266-283 | The distance to the flat face times the length of the direction is the dot product of direction and offset; a squared length of at most 1e-16 counts as up |
| ShapeEdits.SphereBoxCovers | rust/voxel-core/src/edition/ops.rs:137-149 | The floor/ceil bounding box, saturated and clipped, leaves out no covered voxel |
| ShapeEdits.HemisphereBoxCovers | rust/voxel-core/src/edition/ops.rs:317-329 | The padded box leaves out no voxel of the buffer with distance at most 0 |
| ShapeEdits.HemisphereIsCovered | rust/voxel-core/src/edition/ops.rs:317-333 | The same after clipping |
| ShapeEdits.HemisphereInSphere | rust/voxel-core/src/edition/ops.rs:259-285 | Every voxel a hemisphere touches, the same-radius sphere touches, for any smoothness |
| ShapeEdits.HemisphereSdfBounds | rust/voxel-core/src/edition/ops.rs:259-285 | The hemisphere distance is never below the sphere's or the plane's |
| ShapeEdits.SharpHemisphereIsHalfBall | rust/voxel-core/src/edition/ops.rs:259-285 | At smoothness 0 the touched voxels are exactly those of the ball on the side the flat direction, or up if that is too short, points away from |
| ShapeEdits.HalvesMakeSphereExactly | rust/voxel-core/src/edition/ops.rs:270-285 | At smoothness 0 the halves for n and -n touch together exactly the sphere's voxels, for all centers and radii, if and only if the squared length of n is above 1e-16 |
| ShapeEdits.EditsCommuteExactly | rust/voxel-core/src/edition/ops.rs:170-194 | Two Removes of any shapes commute on the whole buffer; two Adds do if and only if no air voxel of an id channel is claimed by both with different solid ids, so on distances always |
| ShapeEdits.EditIsIdempotent | rust/voxel-core/src/edition/ops.rs:387-393 | Repeating any edit changes nothing |
| ShapeEdits.EditMovesOneWay | rust/voxel-core/src/edition/ops.rs:387-393 | Add only lowers and Remove only raises distances; untouched voxels keep theirs |
| ShapeEdits.SdfBoxIsNearestFace | rust/voxel-core/src/edition/ops.rs:395-416 | The box distance is minus the distance from the voxel center to the nearest face plane, and at most -1/2 inside |
| ShapeEdits.ClippedBoxDistance | rust/voxel-core/src/edition/ops.rs:212-225 | The distance of the clipped box is the larger of the box's and the buffer's, and the box's own if and only if no border is nearer than every face |
| ShapeEdits.BoxEditsReachHalf | rust/voxel-core/src/edition/ops.rs:220-231 | After a box Add every covered distance is at most -1/2, after a Remove at least 1/2 |
| SmoothBlend.SmoothUnionIsDip | rust/voxel-core/src/edition/ops.rs:287-293 | The clamped blend equals a closed form of the difference of its arguments |
| SmoothBlend.SmoothUnionBounds | rust/voxel-core/src/edition/ops.rs:287-293 | Between min - k/4 and min, and symmetric |
| SmoothBlend.SmoothUnionIsMonotone | rust/voxel-core/src/edition/ops.rs:287-293 | Monotone in both arguments |
| SmoothBlend.SmoothIntersectionBounds | rust/voxel-core/src/edition/ops.rs:295-300 | Between max and max + k/4, and symmetric |
| SmoothBlend.SmoothIntersectionIsBump | rust/voxel-core/src/edition/ops.rs:287-300 | The larger argument where they are at least k apart, and b + (k + a - b)²/(4k) between |
| SmoothBlend.SmoothIntersectionIsMonotone | rust/voxel-core/src/edition/ops.rs:295-300 | Monotone in both arguments |
| Blur.DoSmooth | rust/voxel-core/src/edition/ops.rs:370-384 | On an SDF channel of any depth with nonnegative radius every voxel is written its blurred pre-edit distance; otherwise nothing changes |
| Blur.BoxBlur | rust/voxel-core/src/edition/ops.rs:448-502 | Every voxel of the destination is written the blurred distance of the source, the ones outside the sphere their own |
| Blur.BlurVoxel | rust/voxel-core/src/edition/ops.rs:464-498 | One voxel is written its blurred distance and no other changes |
| Blur.WindowSum | rust/voxel-core/src/edition/ops.rs:482-491 | The accumulators hold the sum over the window and the product of its extents |
| Blur.WindowEmptyExactly | rust/voxel-core/src/edition/ops.rs:474-497 | The count is positive if and only if the window bounds fit i32 on every axis |
| Blur.HugeRadiusKeepsValue | rust/voxel-core/src/edition/ops.rs:474-497 | A concrete voxel and radius whose window comes out empty, so the old value stays |
| Blur.BlurIsMean | rust/voxel-core/src/edition/ops.rs:464-498 | A voxel whose corner is within the radius of the center, with a window that fits, gets the value whose product with the number of voxels in the cube around it, clipped to the buffer, is their sum; every other voxel keeps its value |
| Blur.BlurredCell | rust/voxel-core/src/edition/ops.rs:464-498 | Every cell is read as a distance and written back in its own kind: a distance as it is, a raw cell through the codec |
| Blur.SumCountsEachOnce | rust/voxel-core/src/edition/ops.rs:482-491 | Changing one value changes the sum over a box by the difference if the box holds the voxel, and not at all if not |
| Blur.SumOfNothing | rust/voxel-core/src/edition/ops.rs:482-491 | The sum over a box without values is 0 |
| Blur.BlurStaysBetween | rust/voxel-core/src/edition/ops.rs:482-498 | Any bounds on the window's values bound the result |
| Blur.ConstantIsFixed | rust/voxel-core/src/edition/ops.rs:448-502 | A constant channel is a fixed point, for any radius and sphere, if and only if its cell survives being read and written, as a distance always does |
| CarvePath.CarvePath | rust/voxel-gdext/src/resources2.rs:5056-5163 | If the validators accept, exactly the voxels of some stamp become solid and steps+1 is returned, else -1 and no change; visits are at most (steps+1) times the clipped stamp volume and at most 8388608 |
| CarvePath.PlanExactly | rust/voxel-gdext/src/resources2.rs:5065-5090 | A plan starts at the cell that holds the node and has the floor of the box size as half-size; there is none if and only if the box size is negative or one of the four numbers is outside [-2^31, 2^31) |
| CarvePath.PlannedWalkEnds | rust/voxel-gdext/src/resources2.rs:5076-5135 | Shifted by the origin, a planned walk runs from the node's own cell to the target |
| CarvePath.AcceptedExactly | rust/voxel-gdext/src/resources2.rs:32-113 | A walk is accepted if and only if it has at most 65536 steps, (steps+1) times the clipped stamp volume is at most 8388608, the half-size is not negative and both end stamps fit i32 |
| CarvePath.CenterIsOnLine | rust/voxel-gdext/src/resources2.rs:5130-5135 | Each center is the exact point of the line, rounded toward the start on each axis |
| CarvePath.StampedExactly | rust/voxel-gdext/src/resources2.rs:5136-5150 | A voxel is stamped if and only if it is within the half-size below, and less than it above, the center of some stamp on all axes |
| CarvePath.PlaceStamps | rust/voxel-gdext/src/resources2.rs:5118-5150 | All boxes are computed before the buffer is touched, and every corner fits i32, so the failure branch is unreachable |
| CarvePath.StampAll | rust/voxel-gdext/src/resources2.rs:5156-5161 | The box edits together make exactly the stamped voxels solid, within the visit bound |
| CarvePath.ForwardWalk | rust/voxel-gdext/src/resources2.rs:5131-5135 | The nonnegative case of the walk along one axis |
| CarvePath.AxisWalk | rust/voxel-gdext/src/resources2.rs:5131-5135 | With truncating division and either sign: starts at 0, ends at d, stays between, moves at most 1 per step toward d, and exactly 1 on the longest axis |
| CarvePath.CenterIsBetween | rust/voxel-gdext/src/resources2.rs:5130-5135 | Every center lies between start and target on each axis |
| CarvePath.WalkIsConnected | rust/voxel-gdext/src/resources2.rs:5130-5135 | The centers begin at the start, end at the target and never jump |
| CarvePath.EndpointsProtectAllStamps | rust/voxel-gdext/src/resources2.rs:92-113 | If the two end stamps fit i32, so does every stamp |
| CarvePath.RangeCheckIsExact | rust/voxel-gdext/src/resources2.rs:92-113 | The endpoint check accepts exactly the walks whose stamps all fit |
| CarvePath.StampVisitsAreBounded | rust/voxel-gdext/src/resources2.rs:76-90 | No stamp visits more voxels than the clipped stamp volume |
| LayeredFill.GenerateLayers | rust/voxel-gdext/src/resources2.rs:3334-3390 | If accepted, each air voxel below all layers' top holds y/height + 1, all others keep their value, the total is the number of changed voxels and the loops visit pass count times volume voxels; else -1 and no change, which happens if and only if the pass count is not in 1..256 or the visits would exceed 8388608 |
| LayeredFill.RunPass | rust/voxel-gdext/src/resources2.rs:3363-3388 | One pass turns the state after n passes into the one after n + 1 and visits each voxel once |
| LayeredFill.SaturationIsHarmless | rust/voxel-gdext/src/resources2.rs:3364 | The saturated threshold selects the same rows as the unbounded product |
| LayeredFill.LayerOfPass | rust/voxel-gdext/src/resources2.rs:3363-3380 | A row first reached in a pass lies in that pass's layer |
| LayeredFill.OneMorePass | rust/voxel-gdext/src/resources2.rs:3363-3388 | One more pass turns the closed form for n passes into the one for n + 1 |
| LayeredFill.VisitChanges | rust/voxel-gdext/src/resources2.rs:3372-3384 | The count of changed voxels grows by one exactly when a visit fills air |
| LayeredFill.FillKeepsSolids | rust/voxel-gdext/src/resources2.rs:3374-3376 | No solid voxel is overwritten, and the counted voxels are exactly the ones that change |
| LayeredFill.LayersAreExact | rust/voxel-gdext/src/resources2.rs:3363-3388 | Air in the rows of layer k, counted from 0, becomes id k + 1 if k is below the pass count; everything else stays |
| LayeredFill.FlatLayersFillNothing | rust/voxel-gdext/src/resources2.rs:3363-3380 | A layer height of 0 or less fills nothing |
| RegionSwap.RegionStore.ReplaceRegionDirectory | rust/voxel-gdext/src/streams.rs:322-361 | Every directory state from the first delete up to the final one keeps all regions, all converted entries, all unshared entries and all that the first delete left in the backup under names no region takes; renames replace only shared non-region entries or regions a failed delete left in the backup, and none when all converted names are regions and the backup was cleared |
| RegionSwap.RegionNamesExactly | rust/voxel-gdext/src/streams.rs:339-340 | A name is set aside if and only if it is `lod` with any ending, anything between `r.` and `.vxr`, or `r.vxr` |
| RegionSwap.RegionNamesAreSetAside | rust/voxel-gdext/src/streams.rs:339-340 | All those names are set aside, for every filling |
| RegionSwap.RegionStore.SetRegionsAside | rust/voxel-gdext/src/streams.rs:333-346 | The first loop, state by state, under any listing and any failures |
| RegionSwap.RegionStore.LandConverted | rust/voxel-gdext/src/streams.rs:348-356 | The second loop, state by state |
| RegionSwap.SetAsideStep | rust/voxel-gdext/src/streams.rs:333-346 | After any number of entries, each old entry is unchanged in the source or, for a listed region, in the backup |
| RegionSwap.LandingStep | rust/voxel-gdext/src/streams.rs:348-356 | After any number of entries, all old regions are in the backup and each converted entry is in one place |
| RegionSwap.LandingEnds | rust/voxel-gdext/src/streams.rs:348-356 | When no error stops it, the source holds its old non-region entries plus all converted ones |
| RegionSwap.NextSetAside | rust/voxel-gdext/src/streams.rs:333-346 | What the next listed source entry does, and that it overwrites nothing but a stale backup entry |
| RegionSwap.NextLanding | rust/voxel-gdext/src/streams.rs:348-356 | What the next converted entry does, and that it overwrites nothing but a shared non-region entry |
| RegionSwap.SwapLosesNothing | rust/voxel-gdext/src/streams.rs:326-361 | Wherever an error stops the swap nothing is lost after the first delete; on success the source is exactly as promised |
| RegionSwap.ErrorsKeepAllOldDataExactly | rust/voxel-gdext/src/streams.rs:326-361 | All failing runs keep all old data if and only if shared non-region names agree |
| RegionSwap.LateErrorLosesSharedEntry | rust/voxel-gdext/src/streams.rs:348-356 | For any disagreeing shared name, a failing run that loses its old content |
| RegionSwap.MetadataCanBeLost | rust/voxel-gdext/src/streams.rs:348-356 | The metadata file as a concrete instance |
| RegionSwap.StaleBackupIsDiscarded | rust/voxel-gdext/src/streams.rs:329-361 | After a run that succeeds and cleans up, what an earlier backup held is still held anywhere if and only if the new source has it |
| RegionSwap.RetryKeepsOldBackupExactly | rust/voxel-gdext/src/streams.rs:326-356 | All failing runs keep every entry an earlier attempt set aside if and only if the source holds each of them too and no converted entry of other content can replace a shared one |
| RegionSwap.UnsecuredBackupCanBeLost | rust/voxel-gdext/src/streams.rs:329-356 | For any entry of an earlier backup that is not so secured, a failing run that loses it |
| RegionSwap.TwoFailedRunsLoseRegion | rust/voxel-gdext/src/streams.rs:248-356 | Any region is set aside by one failing run and deleted with the backup by a second one, whatever was converted in between |
| SlotMap.GenerationalSlotMap.constructor | rust/voxel-core/src/engine/voxel_engine.rs:36-44 | Empty and valid |
| SlotMap.GenerationalSlotMap.Add | rust/voxel-core/src/engine/voxel_engine.rs:47-71 | Inserts under a handle that was not live; the free list stays exactly the empty slots |
| SlotMap.GenerationalSlotMap.Remove | rust/voxel-core/src/engine/voxel_engine.rs:73-86 | Deletes the handle if it is live and says whether it was |
| SlotMap.GenerationalSlotMap.Get | rust/voxel-core/src/engine/voxel_engine.rs:92-101 | The map's value, if the handle is live |
| SlotMap.GenerationalSlotMap.Set | rust/voxel-core/src/engine/voxel_engine.rs:103-112 | A write through the mutable borrow updates exactly that handle |
| SlotMap.GenerationalSlotMap.Count | rust/voxel-core/src/engine/voxel_engine.rs:114-119 | The number of live handles |
| SlotMap.GenerationalSlotMap.Values | rust/voxel-core/src/engine/voxel_engine.rs:121-123 | The live values in slot order |
| SlotMap.AddedIsInsertion | rust/voxel-core/src/engine/voxel_engine.rs:47-71 | Adding refines map insertion under a fresh key and keeps the invariant |
| SlotMap.RemovedIsDeletion | rust/voxel-core/src/engine/voxel_engine.rs:73-86 | Removing refines map deletion and keeps the invariant |
| SlotMap.ReplacedIsUpdate | rust/voxel-core/src/engine/voxel_engine.rs:103-112 | Writing refines map update and keeps the invariant |
| SlotMap.LiveValuesCount | rust/voxel-core/src/engine/voxel_engine.rs:114-119 | The occupied slots are as many as the live handles |
| SlotMap.ValueStandsAtRank | rust/voxel-core/src/engine/voxel_engine.rs:121-123 | The value of an occupied slot stands behind those of the live handles in the slots before it |
| SlotMap.LastRemovedIsReused | rust/voxel-core/src/engine/voxel_engine.rs:47-86 | An add right after a removal takes the freed slot in the next generation and leaves every other slot and the rest of the free list as they were |
| SlotMap.FreshSlotIsLast | rust/voxel-core/src/engine/voxel_engine.rs:62-70 | Without a freed slot, an add appends a slot in generation 1 |
| SlotMap.NextStaysValid | rust/voxel-core/src/engine/voxel_engine.rs:46-124 | Every operation keeps the invariant that ties generations to removal counts and to every handle ever issued |
| SlotMap.ResolvesExactly | rust/voxel-core/src/engine/voxel_engine.rs:82-100 | An old handle resolves if and only if its slot is occupied and was removed a multiple of 2^32 times since |
| SlotMap.HandleResolvesExactly | rust/voxel-core/src/engine/voxel_engine.rs:46-124 | The same at any point of any run |
| SlotMap.HandleResolvesUntilRemoved | rust/voxel-core/src/engine/voxel_engine.rs:46-124 | Below 2^32 removals of its slot, a handle resolves if and only if it has not been removed |
| SlotMap.KeysAgreeExactly | rust/voxel-core/src/engine/voxel_engine.rs:52-55 | Two issues have the same handle if and only if they share the slot and its removal counts differ by a multiple of 2^32 |
| SlotMap.HandlesAreDistinct | rust/voxel-core/src/engine/voxel_engine.rs:46-124 | In any run, two issued handles are equal if and only if they share the slot and its removal counts differ by a multiple of 2^32; below 2^32 removals no handle is issued twice |
| SlotMap.EpochsGiveDistinctKeys | rust/voxel-core/src/engine/voxel_engine.rs:52-55 | Different issues have different keys until the generation wraps |
| SlotMap.HistoryGrows | rust/voxel-core/src/engine/voxel_engine.rs:46-124 | Over any longer run removal counts and issued handles only grow |
| SlotMap.RemovedHandleNeverReturns | rust/voxel-core/src/engine/voxel_engine.rs:46-124 | A removed handle resolves at no later point, in the same bounds |
| SlotMap.RunRefinesMap | rust/voxel-core/src/engine/voxel_engine.rs:46-124 | Every operation of every run acts on the map of live handles, and a new handle was not live |
| TaskPriority.PriorityViewersData.SetViewers | rust/voxel-core/src/engine/priority_dependency.rs:49-58 | All given viewers become active; the view distance is unchanged |
| TaskPriority.PriorityViewersData.SetViewersCount | rust/voxel-core/src/engine/priority_dependency.rs:64-71 | The given prefix becomes active |
| TaskPriority.PriorityViewersData.SetHighestViewDistance | rust/voxel-core/src/engine/priority_dependency.rs:73-75 | Only the view distance changes |
| TaskPriority.PriorityDependency.ClosestDistanceSquared | rust/voxel-core/src/engine/priority_dependency.rs:153-165 | With an active viewer, the minimum of the cap 99999 and the active viewers' squared distances; else the squared distance to the origin |
| TaskPriority.PriorityDependency.Evaluate | rust/voxel-core/src/engine/priority_dependency.rs:120-135 | The four bands are the band of the distance, the detail, the given band and the default; with an active viewer the distance is the capped minimum and band 0 at least 236 |
| TaskPriority.FoldIsMinimum | rust/voxel-core/src/engine/priority_dependency.rs:159-164 | The fold is a lower bound that is attained |
| TaskPriority.ClosestIsCappedMinimum | rust/voxel-core/src/engine/priority_dependency.rs:153-165 | The same with the cap, and never negative |
| TaskPriority.TooFarExactly | rust/voxel-core/src/engine/priority_dependency.rs:137-165 | With an active viewer a task is too far if and only if its squared drop distance is below 99999 and every active viewer is beyond it |
| TaskPriority.FloorRoot | rust/voxel-core/src/engine/priority_dependency.rs:126 | The truncated root is the n with n² <= x < (n+1)² |
| TaskPriority.Band0IsMonotone | rust/voxel-core/src/engine/priority_dependency.rs:126-128 | Truncated root, saturation, shift and clamp together never raise the band with distance |
| TaskPriority.ApproachNeverLowers | rust/voxel-core/src/engine/priority_dependency.rs:120-165 | Adding viewers or moving them closer never lowers a task's packed priority while one was active |
| TaskPriority.FirstViewersRecedeExactly | rust/voxel-core/src/engine/priority_dependency.rs:120-165 | When the first viewers become active a task looks further away if and only if the origin was closer than all of them and than the cap, and its packed priority drops if and only if that reaches a further falloff step |
| TaskPriority.Band0Bound | rust/voxel-core/src/engine/priority_dependency.rs:125-128 | With an active viewer band 0 is at least 255 - (316 >> (4+lod)), with equality at the cap, at least 236, and 255 from LOD 5 on |
| TaskPriority.Band0FallsExactly | rust/voxel-core/src/engine/priority_dependency.rs:125-128 | Band 0 has fallen by k, for k from 1 to 255, if and only if the distance reaches k << (4+lod) and an i32 holds that |
| TaskPriority.Band0VanishesExactly | rust/voxel-core/src/engine/priority_dependency.rs:125-128 | Band 0 is 0 if and only if the distance reaches 255 << (4+lod) and an i32 holds that |
| TaskPriority.BandsUnpack | rust/voxel-core/src/tasks/task_priority.rs:17-48 | The four bands come back from the packed word, which fits 32 bits |
| TaskPriority.EvaluationOrder | rust/voxel-core/src/engine/priority_dependency.rs:120-135 | Packed priorities order tasks by band 2, then finer detail, then band 0 |
| TaskPriority.LiveValuesAreContents | rust/voxel-core/src/engine/voxel_engine.rs:121-123 | The listed values are exactly those live handles resolve to |
| TaskPriority.LargestDistanceBounds | rust/voxel-core/src/engine/voxel_engine.rs:440-446 | The running maximum bounds the horizontal and the vertical distance of every viewer, and some viewer has it as one of the two |
| TaskPriority.SyncViewersTaskPriorityData | rust/voxel-core/src/engine/voxel_engine.rs:439-453 | The shared viewers become exactly the live viewers' positions in slot order, with twice their largest view distance |
| TaskPriority.SyncedTaskDropsExactly | rust/voxel-core/src/engine/voxel_engine.rs:439-453 | After a sync with a live viewer, a task is dropped if and only if its drop distance is below the cap and every live handle's viewer is beyond it |

## Left out

- `f32` rounding, NaN and infinities: real numbers stand for finite floats, so the checks that reject non-finite inputs (ray directions, blur radius, box size, terrace parameters, rectangle bounds) have nothing to reject here.
- Float-to-`i32` casts of world positions in the raycast and the wrap-around of its voxel coordinates: positions are unbounded there. The casts in shape edits, spot cells, heightmaps and priorities saturate as in the code.
- VoxelRaycast: a predicate with side effects beyond its own history is not modelled, because a call sees only the states offered so far.
- DoSphere: a negative radius is modelled as the code behaves, where the inverted bounding box, not only the distance test, decides what is covered.
- DoHemisphere: asks that `root` is the real square root, because the loop box is only known to cover the shape for that function.
- HalvesMakeSphereExactly: is about nonnegative radii, because a sphere edit of negative radius still passes its squared distance test.
- EditsCommuteExactly: is not about Set edits or mixed modes, because there the later edit is meant to win.
- GenerateHeightmap: asks for a level below 32, because a longer shift stops a debug build; running coordinates wrap as in a release build, where a debug build would stop.
- CentersAreSpotsExactly2D: leaves radii between 1.4139 cells and the diagonal of a cell undecided except for one seed, because which other seeds have a missed center there takes a search over all cells.
- BoxBlur: the count of visited cells is unbounded, because a window of 2^32 cells does not fit a buffer; window bounds wrap as in a release build, where a debug build would stop. The destination is written in the depth of the source, because the two must be the same.
- FloorRoot: is the integer part of the exact square root, because the rounding of the float square root is left out with all rounding.
- Set: stands for one write through the mutable borrow that the original hands out.
- SyncViewersTaskPriorityData: the viewer fields that do not reach the shared data (collision, visual and network flags) are not part of the viewer.
- LoadIdMapFromJson: names are sequences of characters; the conversion between engine strings and UTF-8 is not modelled.
- SortedEntries: keeps the list sorted while collecting, because the library sort it replaces is not part of this model; what it returns is unique.
- ReplaceRegionDirectory: file names are strings, so a name that is not valid UTF-8, which the code treats as empty, is not modelled; a directory that changes under the swap is not modelled either.
- Voxel buffer storage: compression, channel depths and quantization of stored distances. A channel is an exact array, either of distances or of ids.
- Locks, threads and the task runner around viewers and tasks: every operation runs alone.
- Godot classes, properties, signals, error messages and resource handling.
- Noise sampling: heights are an arbitrary function, in [0, 1] where a lemma says so.
- The 64-bit mixers, the seeded variants, random ticks, cube tables, instance library and container helpers: they would add only easy members.
