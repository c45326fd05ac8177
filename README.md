# Pixels: verified model of the image transforms and the JPixels list

This project models two small cores of the Pixels Android app in
Dafny and proves properties of the model: the contracts listed under
"## Model", with the gaps named under "## Left out".

1. **The pixel transforms of `OpenImageActivity`.**
   - `imageNegative` inverts each colour channel (255 - c) into a fresh bitmap.
   - `abstractImage` is region-growing segmentation. It scans the raster column by column. Each output pixel still 0 seeds `findPixels`, a recursive 4-connected flood fill. The flood fill admits an input pixel when the channel-sum distance `|dR|+|dG|+|dB|` to the fixed seed colour is below 100. It marks each admitted pixel red in the output and appends the triple (pixel, x, y) to a list. `averageColor` then computes the truncating mean colour of the list, and `paintBitmap` drains the list, painting that colour at each listed coordinate.
   - An Android `Bitmap` is a class holding a column-major grid of packed ARGB words (`Bitmaps.Bitmap`). `Color.red/green/blue/rgb` are shifts and masks on those words (module `Color`).
   - The `ArrayList<int[]>` is the class `OpenImage.SampleList`.
   - The flood fill is a recursive method. It terminates because the number of unvisited output cells strictly drops.
   - Its postcondition (`Region.Grown`) captures these facts:
     - marks only go from 0 to the red mark;
     - each newly marked cell is appended exactly once;
     - every appended pixel is admitted against the unchanged seed colour;
     - nothing reachable was left out.
   - It also proves that the fill appends in connected order (`Region.GrowsFrom`): each appended cell after the first is 4-adjacent to one appended before it in the same call. So the collected cells are exactly the 4-connected component of admitted, unvisited cells around the start (`Region.CollectedIffReachable`).
   - `abstractImage` keeps the invariant `OpenImage.Abstracted`. Besides disjointness, maximality and colours, it records that each region's seed is the first cell in the column-major scan that no earlier region claimed (`OpenImage.SeededFirst`). Each region is then exactly the 4-connected component of its seed among cells that no earlier region claimed and that its seed colour admits (`OpenImage.RegionIsComponent`). These two facts determine the regions from the input raster.
2. **The C++ `JPixels` class.** It is a singly linked list of (pixel, row, col) nodes with a cached `size` and running `totalRed/Green/Blue`.
   - `PixelList.Node` and `PixelList.JPixels` are classes with the source's fields; the methods make the same pointer updates.
   - A ghost node sequence `spine` and a ghost entry sequence `contents` abstract the chain.
   - `Valid()` is the class invariant. `head` starts a null-terminated chain through `spine` holding `contents`. `size` is its length, and each total is the sum of that channel over it.

Module `Sums` holds the integer sums and truncating means shared by both averaging routines.

## Model

| member | source | states |
|---|---|---|
| Color.Rgb | app/src/main/java/com/coolapps/jeron/pixels/OpenImageActivity.java:99 | `Color.rgb(r, g, b)` packs an opaque (alpha 0xFF), non-zero colour whose red, green and blue read back as given |
| Color.OpaqueIsRgb | app/src/main/java/com/coolapps/jeron/pixels/OpenImageActivity.java:95-99 | an opaque word equals `rgb` of its own three channels, so channels determine an opaque pixel |
| Color.Red | app/src/main/java/com/coolapps/jeron/pixels/OpenImageActivity.java:95 | `Color.red` is an 8-bit channel value |
| Color.Green | app/src/main/java/com/coolapps/jeron/pixels/OpenImageActivity.java:96 | `Color.green` is an 8-bit channel value |
| Color.Blue | app/src/main/java/com/coolapps/jeron/pixels/OpenImageActivity.java:97 | `Color.blue` is an 8-bit channel value |
| Color.Alpha | app/src/main/java/com/coolapps/jeron/pixels/OpenImageActivity.java:99 | the alpha channel is an 8-bit value |
| Color.Decompose | app/src/main/java/com/coolapps/jeron/pixels/OpenImageActivity.java:95-99 | a word is its alpha, red, green and blue channels packed from the high byte down |
| Bitmaps.Bitmap.GetPixel | app/src/main/java/com/coolapps/jeron/pixels/OpenImageActivity.java:94 | `getPixel(x, y)` reads the cell at column x, row y of an in-bounds coordinate |
| OpenImage.SampleList.constructor | app/src/main/java/com/coolapps/jeron/pixels/OpenImageActivity.java:131 | `new ArrayList<int[]>()` is empty |
| OpenImage.SampleList.Size | app/src/main/java/com/coolapps/jeron/pixels/OpenImageActivity.java:133 | `pixels.size()` is the number of triples, and 0 exactly when the list is empty |
| OpenImage.SampleList.Get | app/src/main/java/com/coolapps/jeron/pixels/OpenImageActivity.java:197-200 | `pixels.get(i)` is the triple at index i, an element of the list |
| Bitmaps.Bitmap.Create | app/src/main/java/com/coolapps/jeron/pixels/OpenImageActivity.java:91 | `createBitmap(w, h, ARGB_8888)` yields a w x h raster whose every pixel is 0 |
| Bitmaps.Bitmap.SetPixel | app/src/main/java/com/coolapps/jeron/pixels/OpenImageActivity.java:99 | `setPixel(x, y, c)` changes exactly the one cell (x, y) to c |
| OpenImage.SampleList.Add | app/src/main/java/com/coolapps/jeron/pixels/OpenImageActivity.java:177 | `pixels.add` appends the triple at the end of the list |
| OpenImage.SampleList.RemoveFirst | app/src/main/java/com/coolapps/jeron/pixels/OpenImageActivity.java:187 | `pixels.remove(0)` returns the first triple and leaves the rest in order |
| OpenImage.Negative | app/src/main/java/com/coolapps/jeron/pixels/OpenImageActivity.java:94-99 | each output channel is 255 minus the input channel, and the output is opaque |
| OpenImage.NegativeTwice | app/src/main/java/com/coolapps/jeron/pixels/OpenImageActivity.java:90-104 | negating twice restores R, G and B of every pixel, and restores an opaque pixel exactly |
| OpenImage.ImageNegative | app/src/main/java/com/coolapps/jeron/pixels/OpenImageActivity.java:90-101 | a fresh bitmap of the input's size whose every pixel is the negative of the input pixel at the same (x, y) |
| OpenImage.FindPixels | app/src/main/java/com/coolapps/jeron/pixels/OpenImageActivity.java:147-183 | terminates by the count of unvisited cells; returns with raster and list unchanged when (x, y) is out of bounds, already marked or too far from the seed; otherwise appends the sample at (x, y) first; in every case `Grown`: marks only go 0 to red, exactly the appended coordinates were marked, each once, each admitted against the fixed seed, and every neighbour of a marked cell is settled; and `GrowsFrom`: every sample appended after (x, y) is 4-adjacent to one appended earlier in this call |
| Region.MarkIsRed | app/src/main/java/com/coolapps/jeron/pixels/OpenImageActivity.java:170 | the visited mark is `Color.rgb(255, 0, 0)` |
| Region.DistanceZero | app/src/main/java/com/coolapps/jeron/pixels/OpenImageActivity.java:158-168 | the channel-sum distance is never negative and is 0 exactly when red, green and blue agree |
| Region.AdmitsChannels | app/src/main/java/com/coolapps/jeron/pixels/OpenImageActivity.java:168 | a pixel with the seed's channels is admitted, and an admitted pixel is within 100 of the seed on each channel |
| Region.GrowsFromNeighbours | app/src/main/java/com/coolapps/jeron/pixels/OpenImageActivity.java:177-182 | appending (x, y) and then filling from its four neighbours in turn appends in connected order from (x, y): each later cell is 4-adjacent to an earlier one |
| Region.GrowsFromJoin | app/src/main/java/com/coolapps/jeron/pixels/OpenImageActivity.java:179-182 | a fill in connected order from a neighbour of an earlier start, appended after it, keeps the connected order from that start |
| Region.GrowsFromConnected | app/src/main/java/com/coolapps/jeron/pixels/OpenImageActivity.java:177-182 | in connected append order every appended cell is joined to the start by a 4-connected path through appended cells |
| Region.CollectedReachable | app/src/main/java/com/coolapps/jeron/pixels/OpenImageActivity.java:147-183 | every collected cell is joined to the first collected one by a path of in-bounds, unvisited, admitted cells |
| Region.CollectedIffReachable | app/src/main/java/com/coolapps/jeron/pixels/OpenImageActivity.java:147-183 | a cell is collected exactly when such a path joins it to the first collected cell: the fill collects the 4-connected component |
| Region.ReachableCollected | app/src/main/java/com/coolapps/jeron/pixels/OpenImageActivity.java:179-182 | completeness: a cell joined to a collected cell by a 4-connected path of in-bounds, unvisited, admitted cells is collected too |
| Region.CollectedAdmitted | app/src/main/java/com/coolapps/jeron/pixels/OpenImageActivity.java:149-168 | soundness: every collected sample is in bounds, carries the input pixel at its coordinate, was unvisited before, and lies at distance below 100 from the seed |
| Region.GrownTrans | app/src/main/java/com/coolapps/jeron/pixels/OpenImageActivity.java:179-182 | two consecutive grown steps of the same seed compose into one grown step (the sequencing of the four recursive calls) |
| Region.FewerUnvisited | app/src/main/java/com/coolapps/jeron/pixels/OpenImageActivity.java:170 | marking an unvisited cell, then only adding marks, strictly shrinks the set of unvisited cells (the termination measure) |
| Region.DistinctConcat | app/src/main/java/com/coolapps/jeron/pixels/OpenImageActivity.java:177 | appending samples whose coordinates are new keeps the list free of duplicate coordinates |
| OpenImage.MeanColor | app/src/main/java/com/coolapps/jeron/pixels/OpenImageActivity.java:202-203 | the region's colour: each channel is the truncated mean of that channel over the region, and the colour is non-zero |
| OpenImage.AverageColor | app/src/main/java/com/coolapps/jeron/pixels/OpenImageActivity.java:193-204 | the accumulating loop returns exactly `MeanColor` of the non-empty list |
| OpenImage.MeanColorWithinRegion | app/src/main/java/com/coolapps/jeron/pixels/OpenImageActivity.java:193-204 | each channel of the average lies between that channel's minimum and maximum in the list |
| OpenImage.UniformRegionKeepsColor | app/src/main/java/com/coolapps/jeron/pixels/OpenImageActivity.java:193-204 | a list of one opaque colour averages to that colour |
| OpenImage.PaintBitmap | app/src/main/java/com/coolapps/jeron/pixels/OpenImageActivity.java:185-191 | leaves the list empty and writes the colour at exactly the listed coordinates; every other pixel is unchanged |
| OpenImage.ClaimedMembers | app/src/main/java/com/coolapps/jeron/pixels/OpenImageActivity.java:127-139 | a cell is claimed exactly when one of the regions grown so far holds it |
| OpenImage.StepCells | app/src/main/java/com/coolapps/jeron/pixels/OpenImageActivity.java:132-136 | one findPixels/paintBitmap round paints exactly the region's cells, all previously 0, with its mean, and leaves every other cell as it was |
| OpenImage.AbstractStep | app/src/main/java/com/coolapps/jeron/pixels/OpenImageActivity.java:129-136 | one round keeps the `Abstracted` invariant with the new region added and never clears a non-zero cell |
| OpenImage.StepDisjoint | app/src/main/java/com/coolapps/jeron/pixels/OpenImageActivity.java:129-132 | a region grown over cells still 0 is disjoint from every region grown before |
| OpenImage.StepColours | app/src/main/java/com/coolapps/jeron/pixels/OpenImageActivity.java:134-135 | painting the new region with its mean leaves each earlier region's cells at their means |
| OpenImage.StepBordered | app/src/main/java/com/coolapps/jeron/pixels/OpenImageActivity.java:132 | the new region is maximal, and the earlier regions stay maximal with it added |
| OpenImage.SeedStep | app/src/main/java/com/coolapps/jeron/pixels/OpenImageActivity.java:127-130 | a region seeded at a 0 cell before which the scan left no 0 cell has the first unclaimed cell in scan order as its seed |
| OpenImage.NotClaimedEarlier | app/src/main/java/com/coolapps/jeron/pixels/OpenImageActivity.java:127-139 | a cell of region k lies in no earlier region |
| OpenImage.RegionReached | app/src/main/java/com/coolapps/jeron/pixels/OpenImageActivity.java:127-139 | every cell of region k is joined to its seed by a 4-path of in-bounds cells, unclaimed by earlier regions, admitted by the seed |
| OpenImage.ReachedInRegion | app/src/main/java/com/coolapps/jeron/pixels/OpenImageActivity.java:127-139 | every cell on such a path from the seed of region k lies in region k |
| OpenImage.BorderStep | app/src/main/java/com/coolapps/jeron/pixels/OpenImageActivity.java:179-182 | an unclaimed in-bounds neighbour of region k admitted by its seed belongs to region k |
| OpenImage.RegionIsComponent | app/src/main/java/com/coolapps/jeron/pixels/OpenImageActivity.java:127-139 | region k is exactly the 4-connected component of its seed among cells unclaimed by earlier regions and admitted by the seed |
| OpenImage.AbstractedPixel | app/src/main/java/com/coolapps/jeron/pixels/OpenImageActivity.java:127-139 | under `Abstracted`, a non-zero cell lies in some region and holds that region's mean |
| OpenImage.AbstractImage | app/src/main/java/com/coolapps/jeron/pixels/OpenImageActivity.java:112-145 | a fresh bitmap of the input's size holding `Abstracted`: regions are non-empty, duplicate-free, appended in connected order from their seed (each cell 4-adjacent to an earlier one), pairwise disjoint and maximal when grown; each region's seed is the first cell in scan order not claimed by an earlier region; every pixel lies in exactly one region and holds that region's mean colour; the body proves `pixels.size() > 0` after every `findPixels` call |
| PixelList.TotalReverse | app/src/main/cpp/JPixels.cpp:130-134 | reversing a list of entries leaves each channel total unchanged |
| PixelList.TotalAppend | app/src/main/cpp/JPixels.cpp:190-192 | a channel total over a concatenation is the sum of the two totals |
| PixelList.TotalBounds | app/src/main/cpp/include/JPixels.h:31-36 | each channel total lies between 0 and 255 times the number of nodes |
| PixelList.ChainLength | app/src/main/cpp/include/JPixels.h:24-29 | a null-terminated node chain has as many nodes as entries |
| PixelList.LinkedChain | app/src/main/cpp/JPixels.cpp:114-123 | nodes linked one to the next, the last with `next == null`, form a chain holding their entries |
| PixelList.CopyNodes | app/src/main/cpp/JPixels.cpp:110-123 | the copy loop builds a chain of fresh nodes holding the input chain's entries in order |
| PixelList.Node.constructor | app/src/main/cpp/JPixels.cpp:175-179 | `new Node` with its fields set holds exactly the given pixel, row, col and next |
| PixelList.JPixels.constructor | app/src/main/cpp/JPixels.cpp:21-27 | an empty valid list: `head == null` and size and all totals 0 |
| PixelList.JPixels.FromPixel | app/src/main/cpp/include/JPixels.h:63-67 | a valid list of the one given entry with size 1 and the totals of that pixel |
| PixelList.JPixels.Copy | app/src/main/cpp/include/JPixels.h:69-72 | a valid list with input's entries, built from fresh nodes |
| PixelList.JPixels.AddPixel | app/src/main/cpp/JPixels.cpp:173-184 | prepends one entry, leaves the rest of the list, adds one to `size` and the pixel's channels to the totals, and keeps `Valid` |
| PixelList.JPixels.RemoveFront | app/src/main/cpp/JPixels.cpp:211-224 | no-op on an empty list; otherwise drops the first entry, subtracts one from `size` and that entry's channels from the totals, keeping `Valid` |
| PixelList.JPixels.Clear | app/src/main/cpp/JPixels.cpp:230-234 | leaves an empty valid list with `head == null`, size 0 and totals 0 |
| PixelList.JPixels.MergeHelper | app/src/main/cpp/JPixels.cpp:130-134 | prepends the chain's entries one by one, so the list becomes their reverse followed by the old list |
| PixelList.JPixels.Merge | app/src/main/cpp/JPixels.cpp:190-192 | the list becomes the reverse of input's entries followed by its own; size and totals are the sums of both; input is unchanged when it is another list |
| PixelList.JPixels.CopyHelper | app/src/main/cpp/JPixels.cpp:100-125 | no-op on self-assignment; otherwise the list holds input's entries in fresh nodes, with equal size and totals, and input is unchanged |
| PixelList.JPixels.Assign | app/src/main/cpp/JPixels.cpp:60-63 | `operator=` gives this list input's entries in fresh nodes and returns this list; input is unchanged; self-assignment changes nothing |
| PixelList.JPixels.Equals | app/src/main/cpp/JPixels.cpp:70-83 | true exactly when both lists hold the same entries in the same order, which also makes size and totals equal |
| PixelList.JPixels.NotEquals | app/src/main/cpp/JPixels.cpp:88-90 | true exactly when the two lists differ |
| PixelList.JPixels.GetSize | app/src/main/cpp/JPixels.cpp:143-145 | the number of entries, which is also the number of nodes |
| PixelList.JPixels.GetFrontRow | app/src/main/cpp/JPixels.cpp:151-154 | -1 on an empty list, otherwise the first entry's row |
| PixelList.JPixels.GetFrontCol | app/src/main/cpp/JPixels.cpp:160-163 | -1 on an empty list, otherwise the first entry's col |
| PixelList.JPixels.AverageColor | app/src/main/cpp/JPixels.cpp:198-204 | each channel's cached total divided by the size is the truncated mean of that channel over the entries |
| PixelList.AverageWithinList | app/src/main/cpp/JPixels.cpp:198-204 | each channel of the average lies between that channel's minimum and maximum over the list |
| PixelList.AverageOfUniform | app/src/main/cpp/JPixels.cpp:198-204 | a list whose entries all carry one pixel averages to that pixel |
| PixelList.ReverseAt | app/src/main/cpp/JPixels.cpp:130-134 | after a merge, position k holds the input's entry at position size-1-k |
| PixelList.ReverseTwice | app/src/main/cpp/JPixels.cpp:190-192 | reversing twice is the identity, so the order a merge produces determines the input's order |
| Sums.SumAppend | app/src/main/java/com/coolapps/jeron/pixels/OpenImageActivity.java:197-201 | a running total over a concatenation is the sum of the two running totals |
| Sums.MeanWithinRange | app/src/main/java/com/coolapps/jeron/pixels/OpenImageActivity.java:202-203 | a truncated mean lies between the minimum and the maximum |

## Left out

- The activity lifecycle and UI of `OpenImageActivity.java` are not modelled: `onCreate`, `onActivityResult`, the image chooser, the `MediaStore` decode and its `IOException`, and the `ImageView` updates at the end of `imageNegative` and `abstractImage` (lines 31-84, 102-103, 141-142). `MainActivity.java` is not part of this model. The transforms return the new bitmap instead of displaying it.
- Android's `Bitmap` and `Color` internals are not modelled. A bitmap is a column-major grid of packed ARGB words. `createBitmap` is taken to zero-fill a fresh ARGB_8888 bitmap.
- Pixels are the unsigned 32-bit pattern of Java's signed `int`. The pattern is 0 exactly when the Java int is 0, and it has the same channels.
- The commented-out percent-difference threshold (lines 155-156) is not modelled. It is dead code and uses floating point.
- The local `Node` class declared in `abstractImage` (lines 115-125) is never used. The `int[]{pixel, x, y}` triple is the datatype `Region.Sample`.
- OpenImage.FindPixels: the contract fixes the first sample and a connected append order (`GrowsFrom`), not the exact depth-first order of the +x, -x, +y, -y recursion (lines 179-182); a breadth-first listing of the same cells also meets it. No caller observes the order: `averageColor` sums over the list and `paintBitmap` writes one colour to distinct cells.
- The transforms assume a decoded image of positive width and height. The `bitmap` field is null until an image is chosen, and the buttons wired at lines 40-51 are not guarded, so `bitmap.getWidth()` at lines 91 and 113 would throw; `Bitmaps.Bitmap.Create` also accepts a width or height of 0, which `createBitmap` rejects.
- Java's call-stack depth is not modelled. `findPixels` recursion can overflow the stack on large regions; the model only proves termination.
- Integer overflow of the running totals is not modelled; the totals are unbounded integers. This applies to Java `int` in `averageColor` and C++ `int` in `JPixels`. `PixelList.TotalBounds` shows the totals stay within 255 times the count.
- OpenImage.AverageColor: requires a non-empty list. The Java code divides by zero otherwise, and `abstractImage` only calls it on a non-empty list.
- PixelList.JPixels.AverageColor: requires `size > 0`. The C++ code divides by zero otherwise.
- OpenImage.FindPixels: requires the input and output bitmaps to be distinct objects of the same size. That is how `abstractImage` calls it; aliasing the two is not modelled.
- `ImageLib.h` is not part of this model. Its `pixel` is a record of the three channels `red`, `green`, `blue` in 0..255, the only fields `JPixels` uses.
- Raw memory management in `JPixels` is not modelled: `new`, `delete` and the destructor. The destructor only calls `clear`, which is modelled.
- `JPixels(const pixel&, int, int)` calls `JPixels();` at JPixels.cpp:34. That builds and discards a temporary, so the fields are left uninitialised before `addPixel`. `PixelList.JPixels.FromPixel` follows the postcondition documented in JPixels.h:63-67 instead: the fields start at their initial values, then the pixel is added.
- The copy constructor (JPixels.cpp:41-43) runs `copyHelper`, whose `clear()` at line 103 reads an uninitialised `size`. `PixelList.JPixels.Copy` starts from an empty list instead, as JPixels.h:69-72 documents.
- `copyHelper` never sets `next` of the last copied node (JPixels.cpp:117-123); `new Node` leaves it uninitialised. `PixelList.CopyNodes` creates each node with `next == null`, so the copy is null-terminated as the class intends.
- `PixelList.CopyNodes` is the node-copying part of `copyHelper` (lines 110-123), separated into its own method. `PixelList.JPixels.CopyHelper` calls it after copying size and totals.
- `operator==` is `PixelList.JPixels.Equals`, `operator!=` is `NotEquals` and `operator=` is `Assign`.
