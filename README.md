# Paint-by-number pixel pipeline, modelled in Dafny

This project models the integer core of an image-segmentation and labelling
pipeline for paint-by-number pictures. The model follows the pipeline in order:

- **k-means colour quantisation:** RGBA buffer to points, random initial centroids, nearest-centroid clusters, means, and stamping the centroids back into the buffer.
- **Window "median" filter:** applied in place.
- **Particle cleaner:** flood-fills particles, repaints small ones with their major neighbour, merges narrow runs of large ones and removes single-pixel spurs.
- **Region labeller:**
  - row grouping;
  - rasterisation of a region into a binary box;
  - two-pass union-find connected-component labelling;
  - Moore-neighbourhood boundary tracing;
  - outer and inner (hole) boundaries;
  - hole validation;
  - per-colour masking with the choice of a background grey;
  - the point-membership test.
- **Edge renderer.**

It also covers:

- the flat-buffer/grid helpers;
- the binary max-heap that drives polylabel, with polylabel's degenerate-box early return.

Each JavaScript loop is modelled by a Dafny `method` with loop invariants. Each method is proved against a specification function, and the properties the code promises are proved as lemmas about those functions. The objects that the code updates in place are modelled as Dafny classes:

- `Queue`;
- `ParticleWrapper` and `ParticleRemoval`;
- the union-find `parent` array;
- `RegionLabeling`.

Grids that the stages overwrite are `array2`s. Pixels are values: `Pixel(r, g, b, a)`. JavaScript `Set`s of JSON-encoded coordinates become duplicate-free sequences kept in insertion order, because their iteration order feeds stable sorts and run detection.

Files, one module each:

- **General:** `constants.dfy`, `helper.dfy`, `sorting.dfy` (the stable `Array.prototype.sort`).
- **polylabel:** `polylabel.dfy`.
- **k-means:** `kmeans.dfy`.
- **Median filter:** `median_filter.dfy`.
- **Particle cleaner:** `neighbourhood.dfy`, `major_neighbour.dfy`, `particle_spec.dfy`, `removal_spec.dfy`, `particle_props.dfy`, `particle_removal.dfy`.
- **Region labeller:** `pixel_rows.dfy`, `binary_fill.dfy`, `components_spec.dfy`, `union_find.dfy`, `labeling_spec.dfy`, `components.dfy`, `boundary.dfy`, `region_outline.dfy`, `region_mask.dfy`, `region_checks.dfy`.
- **Edge renderer:** `edge_detection.dfy`.

## Model

| member | source | states |
|---|---|---|
| Helper.IsEqualArr | src/helper.js:68-76 | isEqualArr is the prefix test: true iff every index of a1 agrees with a2 |
| Helper.PrefixEqualIsPrefix | src/helper.js:68-76 | isEqualArr(a1, a2) holds iff a1 is a prefix of a2 |
| Helper.PrefixEqualSameLength | src/helper.js:68-76 | isEqualArr is reflexive, and is plain equality when the lengths match |
| Helper.SameColorIsEqualArr | src/helper.js:68-76 | on two pixels, isEqualArr of the channel arrays is pixel equality |
| Helper.IndexOfArr | src/helper.js:58-66 | indexOfArr returns FirstMatch: the first index whose first two components match the target, or -1 |
| Helper.FirstMatchSpec | src/helper.js:58-66 | -1 iff no entry matches; otherwise the entry at the result matches and no earlier entry does |
| Helper.GetDistance | src/helper.js:94-102 | getDistance is the sum of squared coordinate differences over p1's length |
| Helper.SqDistNonNegative | src/helper.js:94-102 | the distance is never negative and is 0 on identical vectors |
| Helper.SqDistSymmetric | src/helper.js:94-102 | the distance is symmetric for equal lengths |
| Helper.SqDistSymmetricPrefix | src/helper.js:94-102 | the distance is symmetric when both arguments are prefixes of equally long vectors |
| Helper.FlattenToDimensional | src/helper.js:137-161 | flattenToDimensional builds Dimensional(buf, w, h) |
| Helper.Dimensional | src/helper.js:137-161 | the grid has h rows of w pixels |
| Helper.DimensionalAt | src/helper.js:141-156 | channel k of pixel (i, j) is buf[4(iw+j)+k] |
| Helper.DimensionalToFlatten | src/helper.js:163-176 | dimensionalToFlatten builds Flatten(g), the row-major concatenation of the channels |
| Helper.FlattenLength | src/helper.js:163-176 | a non-ragged h × w grid flattens to 4hw numbers |
| Helper.FlattenAt | src/helper.js:163-176 | entry 4(iw+j)+k of the flat buffer is channel k of pixel (i, j) |
| Helper.RoundTrip | src/helper.js:137-176 | dimensionalToFlatten(flattenToDimensional(buf, w, h)) == buf whenever the buffer has 4wh entries |
| Helper.Round | src/kmeans.js:246 | Math.round gives the nearest integer, halves rounding up (also used by isInsidePolygon) |
| Sorting.SortBySorted | src/medianFilter.js:33-39 | the sort model orders by the key |
| Sorting.SortByPermutation | src/medianFilter.js:33-39 | the sort model is a permutation |
| Sorting.SortByStable | src/medianFilter.js:33-39 | the sort model is stable: equal keys keep their order |
| Sorting.InsertSorted | src/medianFilter.js:33-39 | inserting into a sorted sequence keeps it sorted |
| Sorting.MiddleRank | src/medianFilter.js:42 | the middle entry of the sorted window is one of the window's entries, has at most len/2 smaller keys and at most len-1-len/2 larger ones |
| Sorting.CountIfPermutation | src/medianFilter.js:33-42 | counting is invariant under permutation |
| Polylabel.Queue.constructor | src/polylabel.js:2-10 | the constructor turns any initial data into a heap with the same multiset |
| Polylabel.Queue.Push | src/polylabel.js:12-15 | push grows length by one, keeps the heap order and adds the item to the multiset |
| Polylabel.Queue.Pop | src/polylabel.js:17-29 | pop on an empty queue returns nothing and changes nothing; otherwise it returns the old root, a maximum, shrinks length by one, removes it from the multiset and keeps the heap order |
| Polylabel.Queue.Peek | src/polylabel.js:31-33 | peek returns the root, a maximum, or nothing when empty |
| Polylabel.Queue.Up | src/polylabel.js:35-48 | _up restores the heap order after a push and keeps the multiset |
| Polylabel.Queue.Down | src/polylabel.js:50-69 | _down restores the heap order below pos and keeps the multiset |
| Polylabel.RootIsMax | src/polylabel.js:17-29 | in a heap, no element is above the root |
| Polylabel.UpStep | src/polylabel.js:39-45 | one step of _up keeps its loop invariant |
| Polylabel.DownStep | src/polylabel.js:55-66 | one step of _down keeps its loop invariant |
| Polylabel.BoundingBox | src/polylabel.js:82-97 | the bounding-box loop yields the min and max of the outer ring's coordinates |
| Polylabel.BoxOfBounds | src/polylabel.js:89-97 | every ring point lies in the box, and each bound is attained |
| Polylabel.PolylabelStart | src/polylabel.js:99-110 | when min(width, height) ≤ precision the result is (minX, minY) at distance 0; otherwise the search starts from that box |
| KMeans.RandomInt | src/kmeans.js:14-20 | randomInt with a draw in [0, 1) lies in [min, max] |
| KMeans.CompareCentroids | src/kmeans.js:23-31 | compareCentroids is true iff c1 agrees with c2 on every coordinate of c1 |
| KMeans.ConvergedIsEquality | src/kmeans.js:23-50 | for centroids of equal shape, convergence is equality |
| KMeans.ShouldStop | src/kmeans.js:34-50 | the stop rule: true past MAX_ITERATIONS; false with no old centroids; otherwise true iff every centroid equals its old counterpart |
| KMeans.GetRandomCentroids | src/kmeans.js:53-74 | K centroids taken from pairwise-distinct indices below the dataset length, or failure when the draws run out |
| KMeans.NearestInIsFirstNearest | src/kmeans.js:94-109 | the chosen centroid is strictly nearer than every earlier one and no farther than every later one |
| KMeans.FirstNearestUnique | src/kmeans.js:94-109 | that first-minimum rule picks exactly one centroid |
| KMeans.NearestCentroid | src/kmeans.js:94-109 | the inner loop of pointsCluster computes the first nearest centroid |
| KMeans.PointsCluster | src/kmeans.js:77-113 | pointsCluster returns one cluster per centroid, equal to ClustersOf |
| KMeans.ClustersOfPartition | src/kmeans.js:77-113 | every point index lies in exactly one cluster, with clusters increasing, and point i is in cluster j iff j is its first nearest centroid |
| KMeans.IndexesOfSpec | src/kmeans.js:103-109 | a cluster's indices are exactly the points assigned to it, in increasing order |
| KMeans.GetPointMean | src/kmeans.js:116-130 | getPointMean computes MeanPoint, the coordinate-wise mean |
| KMeans.MeanPointBounds | src/kmeans.js:116-130 | the mean lies within any bounds that hold for all the points |
| KMeans.MeanPointOfEqual | src/kmeans.js:116-130 | the mean of equal points is that point |
| KMeans.RecalculateCentroids | src/kmeans.js:133-150 | each new centroid is its cluster's mean, or a random dataset point for an empty cluster |
| KMeans.KMeansClustering | src/kmeans.js:153-183 | empty result with iteration 0 unless the data are clusterable; otherwise between 1 and MAX_ITERATIONS+1 iterations and K clusters partitioning the points, each cluster holding exactly the points whose first nearest centroid is its own (NearestAssigned); when the loop stopped by convergence within MAX_ITERATIONS, every non-empty cluster's centroid is the mean of its points (AtFixpoint) |
| KMeans.CentroidsOfClusters | src/kmeans.js:77-113 | the clusters pointsCluster builds carry the centroids they were built from |
| KMeans.RecomputedEnd | src/kmeans.js:167-180 | after the last iteration the clusters are ClustersOf their own centroids, and at convergence each non-empty cluster's centroid is its mean |
| KMeans.GroupColorPoints | src/kmeans.js:221-234 | floor(len/4) points, point k being the RGB of buffer pixel k, alpha dropped |
| KMeans.Clamp8 | src/kmeans.js:253-259 | Uint8ClampedArray stores a value in 0..255, unchanged when already in range |
| KMeans.StampClusters | src/kmeans.js:240-250 | every index of a cluster gets the stamped centroid of the last cluster listing it |
| KMeans.SegmentImage | src/kmeans.js:237-263 | segmentImage has the input length and equals the flattened segmented buffer |
| KMeans.SegmentedBytes | src/kmeans.js:237-263 | for a point of a cluster, its four bytes are the clamped, rounded centroid channels and 255 |
| MedianFilter.BuildWindow | src/medianFilter.js:20-30 | the window loop builds Window: the (2·half+1)² neighbourhood, with BACKGROUND_COLOR off the grid |
| MedianFilter.WindowSize | src/medianFilter.js:15-30 | each window has exactly (2·floor(N/2)+1)² entries |
| MedianFilter.WindowAt | src/medianFilter.js:22-27 | window entry (r, t) is the grid pixel there, or BACKGROUND_COLOR off the grid |
| MedianFilter.MedianFilterGrid | src/medianFilter.js:12-50 | the in-place filter leaves the grid equal to Filtered: the row-major sequence of steps, each one seeing earlier writes |
| MedianFilter.MedianIsMiddle | src/medianFilter.js:33-44 | the written pixel is in the window, with at most len/2 smaller keys and at most len-1-len/2 larger ones |
| MedianFilter.StepWritesOne | src/medianFilter.js:42-44 | step (i, j) writes only pixel (i, j), with one of its window's entries |
| MedianFilter.FilterPalette | src/medianFilter.js:17-45 | the filter introduces no colour other than the grid's own and BACKGROUND_COLOR |
| MedianFilter.BackgroundFixed | src/medianFilter.js:22-44 | a grid that is all BACKGROUND_COLOR is left unchanged |
| MedianFilter.UniformWindowKeepsColour | src/medianFilter.js:22-44 | a pixel whose in-bounds window is one colour keeps that colour |
| EdgeDetection.EdgeDetect | src/edgeDetection.js:12-36 | edgeDetection returns EdgeRows: raster order over rows 1..h-1 and columns 1..w-1 |
| EdgeDetection.DetectRow | src/edgeDetection.js:18-30 | one row of edge entries |
| EdgeDetection.EdgeRowsLength | src/edgeDetection.js:17-30 | (h-1)(w-1) entries |
| EdgeDetection.EdgeRowsAt | src/edgeDetection.js:17-30 | entry (i-1)(w-1)+(j-1) is [j, i, flag] |
| EdgeDetection.FlagMeaning | src/edgeDetection.js:19-29 | the flag is 1 iff the pixel differs from its left or upper neighbour, and 0 otherwise |
| EdgeDetection.EdgeAssignment | src/edgeDetection.js:38-81 | a fresh grid of the input's size equal to EdgeImage; the input is not written |
| EdgeDetection.PaintEdges | src/edgeDetection.js:47-61 | the assignment loop paints each listed cell black, white or its original colour |
| EdgeDetection.DrawFrame | src/edgeDetection.js:67-75 | the border loops blacken columns 0 and w-1, then rows 0 and h-1 |
| EdgeDetection.EdgeImageCell | src/edgeDetection.js:39-75 | every output cell is filled; the border is black, and an inner pixel is black if it is an edge, else white when removeColor is set, else its own colour |
| Neighbourhood.Add | src/particleRemoval.js:23-25 | Set.add: the new element joins, nothing repeats, and insertion order is kept |
| Neighbourhood.AroundMembers | src/particleRemoval.js:31-83 | the neighbours offered by one visited pixel: in range, 4-adjacent, neither visited nor excluded |
| Neighbourhood.SpreadMembers | src/particleRemoval.js:31-83 | addNeighbour adds exactly the candidates next to some visited pixel that are neither visited nor excluded |
| Neighbourhood.NeighboursExactly | src/particleRemoval.js:31-83 | from an empty set, every neighbour is in range, 4-adjacent to a visited pixel and in neither set, and all such pixels are there, without repeats |
| Neighbourhood.SpreadPrefix | src/particleRemoval.js:31-83 | addNeighbour only appends, and keeps the set free of repeats |
| MajorNeighbour.MajorOf | src/particleRemoval.js:114-179 | getMajorNeighbour returns IsMajor: the last cell of the first longest run of equal colours after the stable sum-of-squares sort, with its length |
| MajorNeighbour.ScanRuns | src/particleRemoval.js:143-172 | the run scan finds the first longest run and its length |
| MajorNeighbour.MajorSpec | src/particleRemoval.js:114-179 | the functional model satisfies IsMajor |
| MajorNeighbour.MajorDeterministic | src/particleRemoval.js:114-179 | IsMajor determines neighbour and count uniquely |
| MajorNeighbour.FirstLongestUnique | src/particleRemoval.js:143-172 | ties go to the earliest run: only one run end is the first longest |
| MajorNeighbour.MajorFacts | src/particleRemoval.js:114-179 | count 0 iff the set is empty; otherwise the neighbour is a member of the set |
| MajorNeighbour.RunLenColour | src/particleRemoval.js:143-172 | a run is maximal and all its cells have one colour |
| ParticleSpec.PaintCellsAt | src/particleRemoval.js:500-504 | repainting a list of cells changes exactly those cells to the colour |
| ParticleSpec.PaintCellsChanged | src/particleRemoval.js:500-504 | only listed cells change |
| ParticleSpec.MaxRunsFlat | src/particleRemoval.js:296-367 | the contiguous runs of a row, concatenated, give the row back |
| ParticleSpec.MaxRunsConsecutive | src/particleRemoval.js:296-367 | each run is a sequence of consecutive x values |
| ParticleSpec.RoundSqrt | src/particleRemoval.js:304 | Math.round(Math.sqrt(SIZE_LIMIT)) as the integer r with (2r-1)² ≤ 4·SIZE_LIMIT < (2r+1)² |
| ParticleSpec.RoundSqrtUnique | src/particleRemoval.js:304 | that integer is unique |
| ParticleSpec.DifferingNeighbours | src/particleRemoval.js:412-450 | the neighbour set of removeExceedingRow: on-grid 4-neighbours of another colour, without repeats |
| ParticleSpec.DifferingNeighboursParts | src/particleRemoval.js:412-450 | the set lists top, bottom, left and right exactly when each exists and differs |
| RemovalSpec.RunResultIs | src/particleRemoval.js:304-367 | one run of mergeNarrowPart: repainted with its major neighbour iff it is narrow and the neighbour differs, otherwise unchanged |
| RemovalSpec.RowScanStep | src/particleRemoval.js:296-367 | one step of the contiguous-run scan keeps the scan invariant |
| RemovalSpec.ScannedRunsEnd | src/particleRemoval.js:296-370 | the runs the loop closes are all runs but the last, whose handling depends on the last step |
| RemovalSpec.SingleOutcome | src/particleRemoval.js:376-402 | a one-pixel group takes its major neighbour's colour when the neighbour exists and differs |
| RemovalSpec.SmallOutcome | src/particleRemoval.js:493-507 | a small particle is repainted with its major neighbour's colour when that neighbour exists and differs |
| ParticleProps.PermutationDistinct | src/particleRemoval.js:85-112 | a permutation of a repeat-free list has no repeats |
| ParticleProps.GroupRowsAreRowGroups | src/particleRemoval.js:85-112 | grouping visited pixels gives rows with one y each, increasing x and no repeats, on the grid |
| ParticleProps.RunChanges | src/particleRemoval.js:304-367 | a run changes only when narrow, then all of its pixels take one neighbour's colour; otherwise nothing changes |
| ParticleProps.RunRepaint | src/particleRemoval.js:346-365 | a merged run is repainted with the major neighbour's colour |
| ParticleProps.GroupAt | src/particleRemoval.js:283-404 | handling one group changes only pixels of that group |
| ParticleProps.MergeChanges | src/particleRemoval.js:283-404 | mergeNarrowPart changes only pixels of the particle |
| ParticleProps.MergePalette | src/particleRemoval.js:283-404 | mergeNarrowPart introduces no new colour |
| ParticleProps.SmallRepaint | src/particleRemoval.js:493-507 | a small particle changes iff its major neighbour exists with another colour, and then all and only its visited pixels take that colour |
| ParticleProps.SmallPalette | src/particleRemoval.js:493-507 | the small-particle repaint introduces no new colour |
| ParticleProps.ExceedAtSpec | src/particleRemoval.js:407-470 | removeExceedingRow changes at most pixel (x, y); it changes it iff it differs from both vertical or both horizontal neighbours, and then to a 4-neighbour's colour |
| ParticleProps.ExceedAtIs | src/particleRemoval.js:450-469 | the pixel takes the major differing neighbour's colour when there is one |
| ParticleProps.SpurHasNeighbour | src/particleRemoval.js:412-450 | a spur has at least one differing neighbour |
| ParticleRemoval.ParticleWrapper.constructor | src/particleRemoval.js:5-11 | a wrapper starts with three empty sets |
| ParticleRemoval.ParticleWrapper.Reset | src/particleRemoval.js:13-17 | reset empties the three sets |
| ParticleRemoval.ParticleWrapper.IsVisited | src/particleRemoval.js:19-21 | isVisited is membership in the visited set |
| ParticleRemoval.ParticleWrapper.AddVisited | src/particleRemoval.js:23-25 | addVisited adds to the visited set and leaves the others alone |
| ParticleRemoval.ParticleWrapper.AddExcluded | src/particleRemoval.js:27-29 | addExcluded adds to the excluded set and leaves the others alone |
| ParticleRemoval.ParticleWrapper.AddNeighbour | src/particleRemoval.js:31-83 | addNeighbour extends the neighbour set by Spread over all visited pixels |
| ParticleRemoval.ParticleWrapper.GroupPixelsByRow | src/particleRemoval.js:85-112 | groupPixelsByRow returns GroupRows of the visited pixels |
| ParticleRemoval.ParticleWrapper.GetMajorNeighbour | src/particleRemoval.js:114-179 | the major neighbour of the neighbour set, with large iff SIZE_LIMIT is set and exceeded |
| ParticleRemoval.ParticleRemoval.GetMajorNeighbour | src/particleRemoval.js:190-241 | the major neighbour of the given set |
| ParticleRemoval.ParticleRemoval.DetectParticle | src/particleRemoval.js:244-280 | the flood fill adds only on-grid pixels of the target colour, each 4-adjacent to an earlier new one; at most SIZE_LIMIT+1 pixels; the grid is never written; unless the size limit was passed, the start pixel is added when it has the target colour and every target-coloured 4-neighbour of a newly added pixel is visited (Closed) |
| ParticleRemoval.SpillClosed | src/particleRemoval.js:274-279 | the four recursive calls on the right, bottom, left and top neighbours together close the pixel's growth |
| ParticleRemoval.GrownJoin | src/particleRemoval.js:274-279 | the four recursive calls compose into one growth |
| ParticleRemoval.ParticleRemoval.RepaintSmall | src/particleRemoval.js:493-507 | the small-particle branch: addNeighbour, then the repaint of SmallResult |
| ParticleRemoval.ParticleRemoval.ProcessRun | src/particleRemoval.js:304-367 | one run of mergeNarrowPart has the effect of RunResult |
| ParticleRemoval.ParticleRemoval.MergeRow | src/particleRemoval.js:290-373 | one group of two or more pixels has the effect of GroupResult |
| ParticleRemoval.ParticleRemoval.MergeSingle | src/particleRemoval.js:376-402 | a one-pixel group has the effect of SingleResult |
| ParticleRemoval.ParticleRemoval.MergeNarrowPart | src/particleRemoval.js:283-404 | mergeNarrowPart has the effect of MergeResult, and its flag says whether anything was repainted |
| ParticleRemoval.ParticleRemoval.RemoveExceedingRow | src/particleRemoval.js:407-470 | removeExceedingRow leaves the grid equal to ExceedAt |
| ParticleRemoval.ParticleRemoval.IsSpur | src/particleRemoval.js:412-450 | the guard is Exceeds: differs from both vertical or both horizontal neighbours |
| ParticleRemoval.ParticleRemoval.RemoveExceedingRows | src/particleRemoval.js:479-537 | removalProcess(1) applies removeExceedingRow at every pixel in raster order |
| ParticleRemoval.ParticleRemoval.RemovalPass | src/particleRemoval.js:487-513 | one pass satisfies PassOutcome: the visited set grows from the start pixel iff it was new and the set within the limit, is closed unless the limit is passed; below SIZE_LIMIT the neighbour set becomes Spread of the visited pixels and the grid and flag become SmallResult, otherwise the neighbour set is unchanged and the grid and flag become MergeResult of the row groups; the excluded set is kept |
| ParticleRemoval.PassFromEmpty | src/particleRemoval.js:487-490 | a pass started on the empty wrapper visits the start pixel first |
| ParticleRemoval.ParticleRemoval.RemoveParticleAt | src/particleRemoval.js:483-532 | the retry loop runs 1 to MAX_REMOVALS+1 passes, each satisfying PassOutcome from the previous grid (the first from the caller's wrapper, the later ones from a reset wrapper); every pass but the last modified the grid; ending within MAX_REMOVALS passes the last pass modified nothing and the wrapper is reset; ending after MAX_REMOVALS+1 passes the wrapper is not reset and holds the last pass's visited and neighbour sets, starting with the start pixel |
| ParticleRemoval.ParticleRemoval.RemoveParticles | src/particleRemoval.js:473-546 | removalProcess(0) never introduces a colour |
| PixelRows.GroupPixelsByRow | src/regionLabeling.js:17-40 | groupPixelsByRow returns GroupRows of its input |
| PixelRows.GroupRowsSpec | src/regionLabeling.js:17-40 | the groups are a permutation of the input, each a single row sorted by x, in strictly increasing y; empty input gives [] |
| PixelRows.ConcatRuns | src/regionLabeling.js:22-36 | the runs of equal y, concatenated, give the input back |
| PixelRows.ConcatSortEach | src/regionLabeling.js:28-32 | sorting each group keeps the multiset |
| PixelRows.RunsIncreasing | src/regionLabeling.js:22-36 | on input sorted by y, the groups have strictly increasing y |
| RegionFill.FillBinaryEmptyPixels | src/regionLabeling.js:43-113 | the box offsets and a (maxY-minY+1) × (maxX-minX+1) grid whose cells are FillCell |
| RegionFill.ScanBounds | src/regionLabeling.js:51-64 | with bound [-1,-1,-1,-1] the x bounds are the tight box's |
| RegionFill.FillCellMeaning | src/regionLabeling.js:72-109 | without reverse a cell is 1 iff it is an input pixel; with reverse, iff it lies strictly between its row's leftmost and rightmost pixels and is not one; rows without pixels stay 0 |
| RegionFill.TightBoxSpec | src/regionLabeling.js:51-64 | the tight box contains every pixel and each bound is attained |
| RegionFill.TightFill | src/regionLabeling.js:51-109 | with the tight box, every pixel lands inside the grid |
| RegionFill.GroupRowsWellGrouped | src/regionLabeling.js:17-40 | grouping distinct pixels gives well-formed rows holding exactly those pixels |
| ComponentSpec.ComponentsSpec | src/regionLabeling.js:147-210 | the components of a grid: every 1-cell in exactly one list, two cells share a list iff 4-connected, lists in raster order and ordered by their first cell |
| ComponentSpec.OnesSpec | src/regionLabeling.js:149-151 | the raster scan lists exactly the 1-cells, in raster order |
| ComponentSpec.GroupSpec | src/regionLabeling.js:180-210 | grouping the 1-cells by connectivity, in raster order, is a Grouping |
| ComponentSpec.SameGroup | src/regionLabeling.js:180-210 | two cells share a group iff they are 4-connected |
| ComponentSpec.ConnectedTrans | src/regionLabeling.js:168-175 | 4-connectivity is transitive |
| ComponentSpec.ConnectedSym | src/regionLabeling.js:168-175 | 4-connectivity is symmetric |
| DisjointSets.UnionFind.constructor | src/regionLabeling.js:127 | the parent array starts empty of real labels (a placeholder entry 0 stands at index 0) |
| DisjointSets.UnionFind.Add | src/regionLabeling.js:163-167 | a new label becomes its own root |
| DisjointSets.UnionFind.Find | src/regionLabeling.js:130-137 | find returns x's root, leaves x pointing directly at it, and keeps every label's root |
| DisjointSets.UnionFind.Union | src/regionLabeling.js:139-145 | union hooks y's root under x's; every label rooted at y's old root now has x's root, and the others keep theirs |
| DisjointSets.Compress | src/regionLabeling.js:130-137 | path compression keeps the forest and its roots |
| DisjointSets.Hook | src/regionLabeling.js:139-145 | hooking one root under another keeps a forest |
| RegionComponents.ConnectedComponentLabeling | src/regionLabeling.js:116-211 | the 4-connected components of the filled grid's 1-cells, in raster order, ordered by first cell, moved by (minX, minY) |
| RegionComponents.LabelTentatively | src/regionLabeling.js:147-178 | after the first pass every 1-cell has a label whose root names its component |
| RegionComponents.LabelCell | src/regionLabeling.js:152-176 | the first-pass step at one 1-cell keeps the first-pass invariant |
| RegionComponents.Neighbours | src/regionLabeling.js:153-161 | the labels of the upper and left 1-neighbours, in that order |
| RegionComponents.OpenLabel | src/regionLabeling.js:163-167 | a cell with no labelled neighbour opens a new label |
| RegionComponents.JoinLabel | src/regionLabeling.js:168-175 | a cell takes its smallest neighbouring label and the labels are united |
| RegionComponents.UnionAll | src/regionLabeling.js:172-174 | every neighbouring label is united with the smallest |
| RegionComponents.NumberComponents | src/regionLabeling.js:180-210 | the second pass returns the shifted components, numbered in first raster appearance |
| RegionComponents.NumberRow | src/regionLabeling.js:182-206 | one row of the second pass keeps its invariant |
| RegionComponents.NumberCell | src/regionLabeling.js:183-204 | one cell of the second pass keeps its invariant |
| LabelingSpec.FirstPassSound | src/regionLabeling.js:147-178 | after the first pass, two 1-cells share a root label iff they are 4-connected |
| LabelingSpec.NewLabelStep | src/regionLabeling.js:163-167 | opening a label keeps the first-pass invariant |
| LabelingSpec.UnionStep | src/regionLabeling.js:168-175 | a union keeps the first-pass invariant |
| LabelingSpec.VisitCell | src/regionLabeling.js:183-204 | numbering one cell keeps the second-pass invariant |
| LabelingSpec.ShiftInverse | src/regionLabeling.js:197-202 | moving the components by (minX, minY) and back gives them back unchanged |
| BoundaryTrace.FindStartPixel | src/regionLabeling.js:228-238 | findStartPixel returns nothing iff there is no 1-cell, else the first 1-cell in raster order |
| BoundaryTrace.StartDirection | src/regionLabeling.js:265-281 | the start direction is the first direction leading to the backtrack pixel, or -1 |
| BoundaryTrace.DirectionFound | src/regionLabeling.js:265-281 | for an 8-adjacent backtrack pixel, the direction is found |
| BoundaryTrace.NextPixel | src/regionLabeling.js:283-305 | the clockwise scan from the start direction returns Scan |
| BoundaryTrace.ScanSpec | src/regionLabeling.js:283-305 | the scan returns the first black pixel clockwise, or nothing when none of the eight is black |
| BoundaryTrace.StepSpec | src/regionLabeling.js:262-312 | a step finds nothing iff the current pixel has no black 8-neighbour; otherwise it moves to a black 8-neighbour |
| BoundaryTrace.TraceBoundary | src/regionLabeling.js:213-313 | traceBoundary adds Traced(image, boundary) to the boundary set |
| BoundaryTrace.WalkSteps | src/regionLabeling.js:262-312 | every walked pixel is black, each step moves to an 8-neighbour, and only the last pixel may be the start |
| BoundaryTrace.WalkStops | src/regionLabeling.js:307-311 | the walk ends back at the start, at a pixel with no black neighbour, or when the step bound is reached |
| BoundaryTrace.TracedSpec | src/regionLabeling.js:213-313 | nothing is added iff the image has no 1-cell; otherwise the first point is the first 1-cell in raster order, and all points are distinct 1-cells |
| Neighbourhood.AddAllSpec | src/regionLabeling.js:260-294 | adding to the Set keeps earlier points, adds the new ones, and repeats none |
| BoundaryTrace.FirstCellUnique | src/regionLabeling.js:228-238 | the first 1-cell is unique |
| RegionOutline.ExtractOuterBoundary | src/regionLabeling.js:316-331 | extractOuterBoundary returns OuterBoundary: the trace of the filled box moved back by (minX, minY) |
| RegionOutline.OuterBoundarySpec | src/regionLabeling.js:316-331 | the boundary has distinct points, each an input pixel inside the box; it is empty iff no input pixel lies in the box; its first point is the raster-first such pixel |
| RegionOutline.TightOuterBoundary | src/regionLabeling.js:316-331 | with bound [-1,-1,-1,-1] the boundary starts at the region's first pixel and consists of distinct region pixels |
| RegionOutline.TranslateInverse | src/regionLabeling.js:327-330 | moving the traced points by (minX, minY) and back gives them back unchanged |
| RegionOutline.ExtractInnerBoundary | src/regionLabeling.js:334-354 | extractInnerBoundary returns InnerBoundaries: the outer boundary of each hole component, in component order |
| RegionOutline.InnerBoundarySpec | src/regionLabeling.js:334-354 | each inner boundary has distinct points, all in its hole; every point is not a region pixel and lies strictly between its row's ends; with the tight box it starts at the hole's first cell |
| RegionOutline.ComponentFits | src/regionLabeling.js:342-344 | each hole, grouped by row, is a well-formed input for extractOuterBoundary holding exactly the hole's cells |
| RegionOutline.ComponentOrder | src/regionLabeling.js:342-344 | a hole's first cell comes before its others in raster order |
| RegionMask.RegionLabeling.MaskImage | src/regionLabeling.js:357-386 | maskImage returns Mask(dimensionalArr); the background becomes the first free grey, or stays unchanged |
| RegionMask.ScanColours | src/regionLabeling.js:362-372 | the scan builds Mask: regions recorded pixel by pixel in raster order |
| RegionMask.MaskSpec | src/regionLabeling.js:357-386 | every pixel is listed exactly once, under its colour; colours are distinct and in first-appearance order; each list is in raster order |
| RegionMask.RecordStep | src/regionLabeling.js:364-370 | recording one pixel keeps the partition invariant |
| RegionMask.FirstFreeGrey | src/regionLabeling.js:374-383 | the grey loop returns FreeGrey |
| RegionMask.FreeGreySpec | src/regionLabeling.js:374-383 | the background is the smallest v in 0..254 whose [v,v,v,255] is absent, and there is none when all are present |
| RegionMask.IndexOfColour | src/regionLabeling.js:364-369 | the region holding a colour, or the end of the list when none does |
| RegionMask.RegionOf | src/regionLabeling.js:364-369 | the first region with that colour, with no earlier region of that colour |
| RegionChecks.ValidInnerBoundary | src/regionLabeling.js:435-482 | validInnerBoundary returns KeepValid: the boundaries whose every point has a 1 among its eight neighbours |
| RegionChecks.KeepValidSpec | src/regionLabeling.js:435-482 | a boundary is kept iff it is in the input and valid; the kept list is the input at ValidIndices, the strictly increasing positions of exactly the valid boundaries, so order and repeats are kept; all-valid input comes back unchanged |
| RegionChecks.CountColourNeighbours | src/regionLabeling.js:452-467 | the count is 0 iff the point has no in-bounds 8-neighbour equal to 1 |
| RegionChecks.ColourNeighboursSpec | src/regionLabeling.js:452-467 | the count over the first n directions is at most n, and 0 iff none of them is black |
| RegionChecks.IsInsidePolygon | src/regionLabeling.js:603-624 | true iff the rounded point lies within the first and last rows and equals a grouped pixel; for increasing rows, iff it equals a grouped pixel |
| RegionChecks.RowsSpan | src/regionLabeling.js:607-613 | every grouped pixel lies between the first and the last row |

## Left out

- Browser plumbing: DOM, canvas and UI (`logCommand`, the loading-step helpers, `generateImage`, `placePOI`, `createColorProportion`, the layer DOM in `labelRegion`, every `apply()` method, `mainAlgorithm.js`, `script.js`) have no stateable logic; `await sleep(...)` is a no-op here.
- Image acquisition: `getColorData` reads pixels from a canvas and `resizeDimensions` applies floating-point `sqrt` and `round` to DOM image sizes; `deepCloneArr` is a JSON round trip that value semantics make unnecessary.
- Randomness: the seeded generator is an external library; its draws in [0, 1) are an input sequence of the model.
- KMeans.GetRandomCentroids: returns `None` when the supplied draws run out, where the source would keep drawing.
- KMeans.RecalculateCentroids: returns `None` when an empty cluster needs a random point and the supplied draws have run out.
- KMeans.KMeansClustering: requires K > 0 (with K = 0 the source indexes `clusters[0]` of an empty array), and returns `None` when the supplied draws run out.
- KMeans.GetPointMean: means are exact reals; JavaScript double rounding is not modelled.
- polylabel geometry: `Cell`, `pointToPolygonDist`, `getSegDistSq`, `getCentroidCell`, the branch-and-bound loop and the point-of-inaccessibility step of `labelRegion` are floating-point square-root and division numerics and are not modelled; only the degenerate-box start is.
- Polylabel.Queue: holds integer priorities in place of cells ordered by their `max`; it is the max-heap the caller's comparator makes it.
- MedianFilter.MedianFilterGrid: the sort key R²+G²+B² is exact integer arithmetic, where JavaScript uses `Math.pow` on doubles (they agree on channels up to 255).
- EdgeDetection.EdgeAssignment: requires a width and height of at least 1 (with width 0 the source writes index -1 and the rows grow); unwritten cells are `None`, standing for `null`.
- BoundaryTrace.TraceBoundary: the `while (true)` loop is bounded by 8·rows·cols+1 steps, and the model does not prove that the Moore walk returns to its start within that bound; the source returns `undefined` after a successful trace and its callers read only the boundary `Set`, so the model returns that set's new contents.
- RegionOutline.ExtractInnerBoundary: requires minY ≥ 0, because the grid-based row grouping of the holes is modelled only for on-grid coordinates.
- RegionMask.RegionLabeling.MaskImage: requires a non-empty, rectangular image; the source reads `dimensionalArr[0].length` and is only called on the rectangular image of the earlier stages.
- RegionChecks.ValidInnerBoundary: on an empty binary image the model treats every point as isolated, where the source would throw on `binaryDimensionalArr[0].length`.
- RegionChecks.IsInsidePolygon: requires a non-empty first and last group, where the source would throw; coordinates are reals rounded as `Math.round` does, without NaN or infinities.
- ParticleRemoval.ParticleRemoval.RemoveExceedingRows: requires an image with at least one row; the source reads `dimensionalArr[0].length` first and throws on an empty image.
- ParticleRemoval.ParticleRemoval.RemoveParticles: requires an image with at least one row, for the same reason; it states only that removalProcess(0) introduces no colour; the effect of each pass at each pixel is stated by RemoveParticleAt through PassOutcome, but the passes are not folded into one whole-grid function of the input.
- Pixel comparison: `isEqualArr` on two pixels is pixel equality, which Helper.SameColorIsEqualArr proves equivalent.
- DisjointSets.UnionFind.constructor: the source starts from the empty array `parent = []` and labels from 1, so `parent[0]` is a hole; the model puts a self-rooted placeholder entry 0 there, which no cell label refers to, so that the parent list has no gap.
- Helper.IndexOfArr: requires a target and entries of at least two components; on shorter arrays the source compares `undefined` with `undefined`, a case its callers (pixels and coordinates) never produce.
- RegionComponents.ConnectedComponentLabeling: the result is a sequence of lists numbered from 1 in first raster appearance, where the source builds an object keyed "1".."n" whose integer keys iterate in that order.
- PixelRows.GroupPixelsByRow: requires on-grid (non-negative) coordinates; the source also sorts its argument array in place and pushes and pops a sentinel on it, side effects on the caller's array that the model (sorting a copy) does not have.
- Sets of coordinates: JavaScript `Set`s of JSON strings are repeat-free sequences in insertion order; the boundary `Set` handed to `traceBoundary` is passed in by value and returned.
