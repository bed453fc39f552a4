# ASCII-art character matcher, modelled in Dafny

This project models the core of an ASCII-art program (package `ex-3`). The program:

- pads an image with white up to power-of-two sides;
- cuts the padded image into square tiles;
- replaces every tile by the character whose glyph brightness is nearest to the tile's brightness.

The centre is `SubImgCharMatcher`. It keeps:

- a sorted, duplicate-free character list;
- a `TreeMap<Double, Character>` from normalized brightness to character;
- the raw least and greatest brightness, and the characters that first attained them;
- two static maps shared by all matchers: ink counts per character (`allBeforeNormal`) and matchers per character list (`subImgCharMatchers`).

Its constructor, `addChar`, `removeChar` and `newMaxOrMin` update this state in place.

Modules, one per concern:

- `CodeUnits`, `JavaInts`, `Wrappers`: Java `char` as a 16-bit code unit; 32-bit `int` wrap-around; `Option`.
- `Glyphs`: `getCharVal`'s ink count of a 16 x 16 glyph. The rasterizer is a parameter.
- `BrightnessIndex`: the `TreeMap` as a strictly key-ordered sequence of entries. Covers `put`, `remove`, `firstKey`, `lastKey`, `values()`, `floorKey`, `ceilingKey`, and the nearest-key choice of `getCharByImageBrightness`.
- `CharLists`: `Arrays.sort`, the binary search `findInsertionPoint`, and the list edits of `addChar` and `removeChar`.
- `MatcherSpec`: the matcher's state as a value. Each constructor, `addChar`, `removeChar` and `newMaxOrMin` transition is a function, with lemmas on what it keeps and what it does not.
- `CharMatching`: the class `CharMatcher` with the Java fields, and `Caches` holding the two static maps. Every method is proved to perform its `MatcherSpec` transition.
- `Images`, `ImageUtilities`: the image record, `equals`, `hashCode`, `findPow2`, `padImageWhite`, `splitByResolution`.
- `AsciiArtParameters`, `AsciiArtAlgorithms`, `AsciiArtShell`: the session state and its resolution changes, the tile loop of `run`, and the command parser with `executeAddRemove`'s edits.

Doubles are modelled as reals. A raw brightness `count / 256`, for an integer count of at most 256, is exact in a double as well. The normalized keys `(b - min) / (max - min)` and the distances compared in `getCharByImageBrightness` are rounded in Java and exact in the model. The Java code divides by the brightness range without checking it. Where a division by zero would give a NaN or infinite key, the model instead requires the divisor to be non-zero, through the `*Defined` predicates.

The model follows the code where the code and its documentation part ways:

- Of equally bright characters, the constructor keeps the greatest code, because `TreeMap.put` overwrites during an ascending pass. The documentation of `getCharByImageBrightness` promises the lowest code.
- `removeChar` compares a normalized key with the raw extremes.
- `removeChar` passes a normalized first or last key to `newMaxOrMin` as a raw extreme.
- A constructor cache hit leaves the extremes at 0.0 and the extreme characters at code 0.
- `darkestChar` and `brightestChar` are never updated after construction.

The `MatcherSpec` lemmas state these behaviours as they are.

## Model

| member | source | states |
|---|---|---|
| JavaInts.Wrap32 | ex-3/image/Image.java:84-90 | the result is a 32-bit int congruent to the mathematical value modulo 2^32, so it equals that value whenever it fits, as Java `int` arithmetic gives |
| Glyphs.Ink | ex-3/image_char_matching/SubImgCharMatcher.java:139-151 | the ink count of a character's 16 x 16 glyph is at most NUM_OF_BOOLEAN_VALUES = 256 |
| Glyphs.CountInkBound | ex-3/image_char_matching/SubImgCharMatcher.java:143-149 | a grid of rows of equal width has at most rows x width inked cells |
| Glyphs.GetCharVal | ex-3/image_char_matching/SubImgCharMatcher.java:139-151 | the nested counting loop returns exactly the ink count of the glyph, which lies in [0, 256] |
| BrightnessIndex.Put | ex-3/image_char_matching/SubImgCharMatcher.java:96 | `put(k, v)` keeps the keys strictly ordered; the entries afterwards are the old entries with other keys plus (k, v), so an entry at k is replaced |
| BrightnessIndex.PutHasKey | ex-3/image_char_matching/SubImgCharMatcher.java:96 | after `put(k, v)` the map contains k and every key it contained before |
| BrightnessIndex.Remove | ex-3/image_char_matching/SubImgCharMatcher.java:285 | `remove(k)` keeps the keys ordered and drops exactly the entry at k, if any |
| BrightnessIndex.FirstKey | ex-3/image_char_matching/SubImgCharMatcher.java:297 | `firstKey` is a key of the non-empty map and no greater than any key |
| BrightnessIndex.LastKey | ex-3/image_char_matching/SubImgCharMatcher.java:293 | `lastKey` is a key of the non-empty map and no less than any key |
| BrightnessIndex.Values | ex-3/image_char_matching/SubImgCharMatcher.java:256 | `values()` lists one character per entry, in ascending key order |
| BrightnessIndex.Ceiling | ex-3/image_char_matching/SubImgCharMatcher.java:161-166 | `ceilingKey(b)` is the least key >= b, with its entry; null exactly when every key is below b |
| BrightnessIndex.Floor | ex-3/image_char_matching/SubImgCharMatcher.java:161-167 | `floorKey(b)` is the greatest key <= b, with its entry; null exactly when every key is above b |
| BrightnessIndex.Nearest | ex-3/image_char_matching/SubImgCharMatcher.java:160-172 | the floor/ceiling choice picks an entry of the map whose key is nearest to b; among equally near keys it picks the greater one (the ceiling) |
| BrightnessIndex.NearestMonotone | ex-3/image_char_matching/SubImgCharMatcher.java:160-172 | a strictly brighter query never picks a smaller key |
| CharLists.InsertSorted | ex-3/image_char_matching/SubImgCharMatcher.java:65 | inserting into a sorted list gives a sorted list with one more occurrence of x |
| CharLists.SortChars | ex-3/image_char_matching/SubImgCharMatcher.java:65-68 | `Arrays.sort` yields an ascending list that is a permutation of the input, duplicates kept |
| CharLists.SortedUnique | ex-3/image_char_matching/SubImgCharMatcher.java:65 | two ascending lists with the same elements (as a multiset) are equal, so the sorted order is unique |
| CharLists.SortSortedIsIdentity | ex-3/image_char_matching/SubImgCharMatcher.java:65 | sorting an already sorted list changes nothing |
| CharLists.Search | ex-3/image_char_matching/SubImgCharMatcher.java:232-244 | the search loop from window [low, high] ends at an index in [low, high + 1] |
| CharLists.InsertionPoint | ex-3/image_char_matching/SubImgCharMatcher.java:228-245 | `findInsertionPoint` returns an index in [0, size] |
| CharLists.SearchPartitions | ex-3/image_char_matching/SubImgCharMatcher.java:232-244 | on a sorted list whose elements left of the window are below the target and right of it above, the search finds the target or stops where the smaller elements end and the larger begin |
| CharLists.SearchHalves | ex-3/image_char_matching/SubImgCharMatcher.java:233-242 | the same, for the step that continues in one half of the window when the middle element is not the target |
| CharLists.InsertionPointSpec | ex-3/image_char_matching/SubImgCharMatcher.java:228-245 | on a sorted list, elements before the result are <= the target and the rest >= it; the target is present iff it sits at the result; when absent, those before are smaller and the rest larger; on a strictly sorted list those before are smaller |
| CharLists.FindInsertionPoint | ex-3/image_char_matching/SubImgCharMatcher.java:228-245 | the while loop returns InsertionPoint; on a sorted list the target is present iff it sits there; on a strictly sorted list it splits the list into smaller and not-smaller elements |
| CharLists.AddToCharsSpec | ex-3/image_char_matching/SubImgCharMatcher.java:199-202 | `addChar`'s list edit keeps the list sorted (strictly if it was), leaves it unchanged when c is present, otherwise adds c exactly once; the elements are the old ones and c |
| CharLists.RemoveFromCharsSpec | ex-3/image_char_matching/SubImgCharMatcher.java:280-283 | `removeChar`'s list edit keeps the list sorted (strictly if it was), finds c at the insertion point iff c is present, removes one occurrence of c then and nothing otherwise; on a strictly sorted list exactly c leaves |
| CharLists.AddAllSpec | ex-3/ascii_art/Shell.java:130-143 | a run of `addChar` list edits keeps the list sorted (strictly if it was); the elements are the old ones and the added codes |
| CharLists.RemoveAllSpec | ex-3/ascii_art/Shell.java:130-136 | a run of `removeChar` list edits on a strictly sorted list keeps it strictly sorted; exactly the removed codes leave |
| MatcherSpec.Bright | ex-3/image_char_matching/SubImgCharMatcher.java:77 | a character's raw brightness `count / 256` lies in [0, 1] |
| MatcherSpec.NormKeyInjective | ex-3/image_char_matching/SubImgCharMatcher.java:96 | against a non-zero range, two brightness values get the same normalized key iff they are equal |
| MatcherSpec.NormKeyInUnitRange | ex-3/image_char_matching/SubImgCharMatcher.java:94-97 | a brightness within [min, max] normalizes into [0, 1], with min at 0 and max at 1 |
| MatcherSpec.Rebuild | ex-3/image_char_matching/SubImgCharMatcher.java:94-97 | putting the characters in turn at their normalized keys gives a key-ordered map |
| MatcherSpec.RebuildNext | ex-3/image_char_matching/SubImgCharMatcher.java:96 | one more iteration of the put loop, with the cached count, extends the rebuilt map by one put |
| MatcherSpec.RebuildConsistent | ex-3/image_char_matching/SubImgCharMatcher.java:94-97 | every entry of a rebuilt map holds one of the characters, at that character's own normalized key |
| MatcherSpec.RebuildHasKey | ex-3/image_char_matching/SubImgCharMatcher.java:94-97 | every character's normalized key is a key of the rebuilt map |
| MatcherSpec.RebuildKeepsGreatest | ex-3/image_char_matching/SubImgCharMatcher.java:94-97 | over an ascending list, of equally bright characters the map keeps the greatest code (the documentation at line 155 promises the lowest) |
| MatcherSpec.FirstArgMin | ex-3/image_char_matching/SubImgCharMatcher.java:89-92 | the darkest character's index: no character is darker, and every earlier one is strictly brighter (strict comparison, first one wins) |
| MatcherSpec.FirstArgMax | ex-3/image_char_matching/SubImgCharMatcher.java:85-88 | the brightest character's index: no character is brighter, and every earlier one is strictly darker |
| MatcherSpec.ExtremesAttained | ex-3/image_char_matching/SubImgCharMatcher.java:74-93 | the first pass ends with minBrightness/darkestChar at the first darkest character and maxBrightness/brightestChar at the first brightest |
| MatcherSpec.BuiltKeys | ex-3/image_char_matching/SubImgCharMatcher.java:73-97 | a fresh construction on a non-empty list with a spread of brightness: the extremes bound every brightness and are attained by darkestChar and brightestChar; every key lies in [0, 1]; keys 0 and 1 are present; every character's level has a key; of equally bright characters the greatest code is kept |
| MatcherSpec.Construct | ex-3/image_char_matching/SubImgCharMatcher.java:64-111 | the constructor's list is the sorted charset (a permutation of it), its map is key-ordered, and every registered map stays key-ordered |
| MatcherSpec.PlaceStep | ex-3/image_char_matching/SubImgCharMatcher.java:205-218 | the map part of `addChar` keeps the list, darkestChar and brightestChar, and leaves every map ordered |
| MatcherSpec.AddStep | ex-3/image_char_matching/SubImgCharMatcher.java:196-219 | `addChar` leaves the list edited as findInsertionPoint dictates, keeps darkestChar and brightestChar, and leaves every map ordered |
| MatcherSpec.RefitStep | ex-3/image_char_matching/SubImgCharMatcher.java:286-299 | the extreme case of `removeChar` keeps the list, darkestChar and brightestChar, and leaves every map ordered |
| MatcherSpec.RemoveStep | ex-3/image_char_matching/SubImgCharMatcher.java:279-301 | `removeChar` leaves the list edited as findInsertionPoint dictates, keeps darkestChar and brightestChar, and leaves every map ordered |
| MatcherSpec.AddInRange | ex-3/image_char_matching/SubImgCharMatcher.java:207-210 | adding a character whose brightness is within [min, max] keeps both extremes and the registered maps, and puts c at its normalized key in [0, 1], replacing any character at that key |
| MatcherSpec.AddOutOfRange | ex-3/image_char_matching/SubImgCharMatcher.java:212-218 | adding a character outside [min, max] with no map registered for the new list: the exceeded extreme becomes c's brightness, every entry sits at its key against the new extremes, c's level has key 1 (new max) or 0 (new min), and the new map is registered under the new list |
| MatcherSpec.NewExtremeKeys | ex-3/image_char_matching/SubImgCharMatcher.java:253-268 | `newMaxOrMin` with the brightness of a just-put character sets that extreme, keeps the other, and re-keys every entry against the new range, where that character's level has key 1 or 0 |
| MatcherSpec.EmptyThenInklessUndefined | ex-3/image_char_matching/SubImgCharMatcher.java:207-210 | after a construction on the empty list both extremes are 0.0, and adding a character without ink falls in that range and divides by the zero range, so AddDefined does not hold |
| MatcherSpec.AddKeepsList | ex-3/image_char_matching/SubImgCharMatcher.java:199-202 | `addChar` keeps the list sorted (strictly if it was), does not insert a present character twice, and its elements are the old ones and c |
| MatcherSpec.RemoveAbsentIsNoOp | ex-3/image_char_matching/SubImgCharMatcher.java:280-282 | `removeChar` of an absent character is defined and changes nothing |
| MatcherSpec.RemoveInterior | ex-3/image_char_matching/SubImgCharMatcher.java:283-288 | removing a listed character whose key is neither raw extreme: c leaves the list, the entry at c's key leaves the map, and extremes and registered maps stay |
| MatcherSpec.RemoveKeepsList | ex-3/image_char_matching/SubImgCharMatcher.java:280-283 | `removeChar` keeps the list sorted (strictly if it was); on a strictly sorted list exactly c leaves |
| MatcherSpec.ReplayAdds | ex-3/ascii_art/Shell.java:130-143 | a run of `addChar` calls, when every step is defined, leaves every map ordered |
| MatcherSpec.ReplayRemoves | ex-3/ascii_art/Shell.java:130-136 | a run of `removeChar` calls, when every step is defined, leaves every map ordered |
| MatcherSpec.Replay | ex-3/ascii_art/Shell.java:130-136 | a run of `addChar` or `removeChar` calls leaves every map ordered |
| MatcherSpec.ReplayAddsChars | ex-3/ascii_art/Shell.java:130-143 | the list after a run of `addChar` calls is the list after the same run of list insertions |
| MatcherSpec.ReplayRemovesChars | ex-3/ascii_art/Shell.java:130-136 | the list after a run of `removeChar` calls is the list after the same run of list deletions |
| MatcherSpec.ReplayAddMembers | ex-3/ascii_art/Shell.java:130-143 | a run of `addChar` calls keeps the list sorted (strictly if it was); its elements are the old ones and the added codes |
| MatcherSpec.ReplayRemoveMembers | ex-3/ascii_art/Shell.java:130-136 | a run of `removeChar` calls keeps a strictly sorted list strictly sorted, with exactly the old elements that were not removed |
| CharMatching.Caches.constructor | ex-3/image_char_matching/SubImgCharMatcher.java:32-37 | both static maps start empty |
| CharMatching.Caches.RetrieveOrFindCharVal | ex-3/image_char_matching/SubImgCharMatcher.java:180-190 | returns the glyph's ink count (at most 256); afterwards c is cached, a cached c is left as it was, no entry is removed or changed, and the matcher map is untouched |
| CharMatching.Caches.Put | ex-3/image_char_matching/SubImgCharMatcher.java:204 | `allBeforeNormal.put(c, count)` with c's own count keeps every cached count correct, and no key leaves |
| CharMatching.Caches.Register | ex-3/image_char_matching/SubImgCharMatcher.java:110 | `subImgCharMatchers.put(list, ...)` registers the map under the list and touches nothing else |
| CharMatching.FindExtremes | ex-3/image_char_matching/SubImgCharMatcher.java:74-93 | the first constructor loop caches every count and returns the first darkest and first brightest characters with their brightness, or the defaults on an empty list |
| CharMatching.Renormalize | ex-3/image_char_matching/SubImgCharMatcher.java:94-97 | the put loop over the cached counts builds Rebuild of the characters against [lo, hi], holding only cached characters |
| CharMatching.BuildState | ex-3/image_char_matching/SubImgCharMatcher.java:73-97 | the two constructor loops on an uncached list produce the Built state and cache every count |
| CharMatching.CharMatcher.constructor | ex-3/image_char_matching/SubImgCharMatcher.java:64-111 | the new matcher's fields and the matcher map are Construct's result; cached counts are only added |
| CharMatching.CharMatcher.HasNoChars | ex-3/image_char_matching/SubImgCharMatcher.java:127-129 | true exactly when the list is empty |
| CharMatching.CharMatcher.GetCharByImageBrightness | ex-3/image_char_matching/SubImgCharMatcher.java:160-172 | returns the character of an entry nearest to the brightness, the greater key winning a tie |
| CharMatching.CharMatcher.NewMaxOrMin | ex-3/image_char_matching/SubImgCharMatcher.java:253-271 | the fields afterwards are MaxOrMinStep's: the map rebuilt against the new range, and the new extreme stored (the minimum only if the map had an entry) |
| CharMatching.CharMatcher.AddChar | ex-3/image_char_matching/SubImgCharMatcher.java:196-219 | the fields and the matcher map afterwards are AddStep's; c's count is cached |
| CharMatching.CharMatcher.InsertAndCount | ex-3/image_char_matching/SubImgCharMatcher.java:199-204 | the list gets c at its insertion point (unless present) and c's count is fetched and cached; no other field changes |
| CharMatching.CharMatcher.InsertChar | ex-3/image_char_matching/SubImgCharMatcher.java:199-202 | the list is edited as AddToChars describes and no other field changes |
| CharMatching.CharMatcher.PlaceInIndex | ex-3/image_char_matching/SubImgCharMatcher.java:205-218 | the fields and the matcher map afterwards are PlaceStep's |
| CharMatching.CharMatcher.RemoveChar | ex-3/image_char_matching/SubImgCharMatcher.java:279-301 | the fields and the matcher map afterwards are RemoveStep's; cached counts are unchanged |
| CharMatching.CharMatcher.RefitExtremes | ex-3/image_char_matching/SubImgCharMatcher.java:286-299 | the fields and the matcher map afterwards are RefitStep's |
| Images.ColorHash | ex-3/image/Image.java:90 | a pixel's hash (its ARGB value with alpha 255) is a 32-bit int |
| Images.SameImageReflexive | ex-3/image/Image.java:59-75 | every image is equal to itself |
| Images.SameImageSymmetric | ex-3/image/Image.java:59-75 | equality of images is symmetric |
| Images.Equals | ex-3/image/Image.java:59-75 | true iff the other object is an image with the same width and height and equal pixels throughout the grid |
| Images.HashStep | ex-3/image/Image.java:85 | `11 * result + x` in int arithmetic is a 32-bit int |
| Images.RowHashes | ex-3/image/Image.java:89-91 | one hash per pixel of the row, in order |
| Images.HashRow | ex-3/image/Image.java:89-91 | the inner loop folds one row's pixel hashes onto the running result |
| Images.HashCode | ex-3/image/Image.java:83-95 | the nested loop computes the fold from 5 over width, height and every pixel hash in row-major order, as a 32-bit int |
| Images.EqualImagesHashEqually | ex-3/image/Image.java:59-95 | images that `equals` accepts have the same hash code |
| ImageUtilities.Pow2 | ex-3/image/ImageUtilities.java:65-71 | every power of two is at least 1 |
| ImageUtilities.Pow2CeilLeast | ex-3/image/ImageUtilities.java:65-71 | the least power of two that is >= size: at least size, 1 when size <= 1, and no greater than any power of two >= size |
| ImageUtilities.Pow2CeilOfPow2 | ex-3/image/ImageUtilities.java:31-32 | a power of two is its own ceiling power of two |
| ImageUtilities.Pow2CeilBelowDouble | ex-3/image/ImageUtilities.java:65-71 | the ceiling power of two is below twice the size, and fits an int for sizes up to 2^30 |
| ImageUtilities.FindPow2 | ex-3/image/ImageUtilities.java:65-71 | the doubling loop returns the least power of two >= size (1 for size <= 1), within int range |
| ImageUtilities.Padded | ex-3/image/ImageUtilities.java:37-57 | the padded image is well formed, with sides findPow2(height) and findPow2(width) |
| ImageUtilities.PaddedWindow | ex-3/image/ImageUtilities.java:42-53 | padded pixel (i + dH, j + dW) is original pixel (i, j), with dH and dW half the added rows and columns; every pixel outside that window is white |
| ImageUtilities.PadPowersOfTwo | ex-3/image/ImageUtilities.java:31-57 | an image with power-of-two sides is returned pixel for pixel unchanged |
| ImageUtilities.PadImageWhite | ex-3/image/ImageUtilities.java:37-57 | the nested fill loop produces exactly the padded image |
| ImageUtilities.Tile | ex-3/image/ImageUtilities.java:87-93 | tile (i, j) of side s is a well-formed s x s image |
| ImageUtilities.CopyTile | ex-3/image/ImageUtilities.java:87-93 | the two inner loops copy tile (i, j): its pixel (k, l) is image pixel (i*s + k, j*s + l) |
| ImageUtilities.SplitRow | ex-3/image/ImageUtilities.java:85-95 | the middle loop yields exactly res tiles of row i, tile j being the block at (i*s, j*s) |
| ImageUtilities.SplitByResolution | ex-3/image/ImageUtilities.java:81-98 | with s = width / res >= 1, returns height / s rows of exactly res tiles, tile (i, j) being the s x s block at (i*s, j*s) |
| AsciiArtParameters.ResUpSpec | ex-3/ascii_art/Parameters.java:110-117 | resUp doubles a power-of-two resolution exactly when it is below the width, otherwise keeps it, and never takes it past the padded width |
| AsciiArtParameters.ResDownSpec | ex-3/ascii_art/Parameters.java:124-131 | resDown halves exactly when res > max(1, width / height), otherwise keeps res; a resolution >= 1 stays >= 1, and a halved power of two is the next lower power |
| AsciiArtParameters.InitCharsSorted | ex-3/ascii_art/Parameters.java:14 | the initial digits are in ascending order, so sorting them changes nothing |
| AsciiArtParameters.NewDigitsMatcher | ex-3/ascii_art/Parameters.java:65 | `new SubImgCharMatcher(INIT_CHARS)` is a fresh valid matcher whose list is the digits '0'..'9', whose state and registered indexes are those the constructor gives (Construct on the digits), and which only adds cached counts |
| AsciiArtParameters.Parameters.constructor | ex-3/ascii_art/Parameters.java:58-66 | the session starts with the given image, resolution 128 and a fresh matcher on the digits, in the state and with the registered indexes Construct gives for the digits |
| AsciiArtParameters.Parameters.SetCharMatcher | ex-3/ascii_art/Parameters.java:91-102 | the matcher read back afterwards is the one set; resolution and image are unchanged |
| AsciiArtParameters.Parameters.ResUp | ex-3/ascii_art/Parameters.java:110-117 | res becomes 2 * res (int arithmetic) when below the image width, otherwise stays; image and matcher are unchanged |
| AsciiArtParameters.Parameters.ResDown | ex-3/ascii_art/Parameters.java:124-131 | res becomes res / 2 when above max(1, width / height), otherwise stays; image and matcher are unchanged |
| AsciiArtParameters.Parameters.UpdateImage | ex-3/ascii_art/Parameters.java:139-145 | the image becomes the one read from the path, or stays when reading failed; nothing else changes |
| AsciiArtAlgorithms.AsciiArtAlgorithm.constructor | ex-3/ascii_art/AsciiArtAlgorithm.java:25-27 | the algorithm keeps the given parameters |
| AsciiArtAlgorithms.AsciiArtAlgorithm.Run | ex-3/ascii_art/AsciiArtAlgorithm.java:34-48 | returns a fresh grid with paddedHeight / (paddedWidth / res) rows and res columns, whose cell (i, j) is getCharByImageBrightness of the brightness of tile (i, j); nothing else is modified |
| AsciiArtAlgorithms.AsciiArtAlgorithm.ConvertRow | ex-3/ascii_art/AsciiArtAlgorithm.java:42-45 | the inner loop sets cell (i, j) to the matcher's character for tile j's brightness, for every j, and leaves other rows alone |
| AsciiArtShell.RemainingCommand | ex-3/ascii_art/Shell.java:94-107 | "add " and "remove " hand on the rest of the command with the add or remove flag; "image" followed by at least one character hands on everything after the sixth character, and only then is the command an image change; "image" alone is the out-of-bounds case; a line with none of the three prefixes is exactly the incorrect-command case |
| AsciiArtShell.Classify | ex-3/ascii_art/Shell.java:71-83 | the six exact commands are recognised before any prefix; everything else goes to executeRemainsCommands |
| AsciiArtShell.ClassifyAdd | ex-3/ascii_art/Shell.java:95-96 | every "add " command reaches the edit parser with exactly its rest and the add flag |
| AsciiArtShell.ClassifyRemove | ex-3/ascii_art/Shell.java:98-99 | every "remove " command reaches the edit parser with exactly its rest and the remove flag |
| AsciiArtShell.Range | ex-3/ascii_art/Shell.java:130 | the loop bounds lo..hi visit hi - lo + 1 code points, the k-th being lo + k |
| AsciiArtShell.Plan | ex-3/ascii_art/Shell.java:111-155 | an argument stands for a strictly ascending, nonempty list of codes, or "remove all" (exactly for the argument "all" with remove), or no edit |
| AsciiArtShell.PlanRange | ex-3/ascii_art/Shell.java:127-136 | "x-y" edits every code point from min(x, y) to max(x, y), in ascending order, whichever end is written first |
| AsciiArtShell.PlanAll | ex-3/ascii_art/Shell.java:138-143 | "add all" edits exactly the code points 32..126 |
| AsciiArtShell.EditOne | ex-3/ascii_art/Shell.java:131-135 | one loop body performs AddStep or RemoveStep on the shared matcher |
| AsciiArtShell.ApplyRange | ex-3/ascii_art/Shell.java:130-136 | the loop over lo..hi leaves the matcher in the state of the replayed run of edits |
| AsciiArtShell.Shell.constructor | ex-3/ascii_art/Shell.java:49 | the output starts as the console |
| AsciiArtShell.Shell.ExecuteAddRemove | ex-3/ascii_art/Shell.java:111-155 | one character, "space", a range or "add all" replay their codes on the same matcher; "remove all" installs a fresh matcher on the empty set, in Construct's state for the empty set and with its registration; any other argument only reports the add or remove format error; resolution and image are untouched |
| AsciiArtShell.Shell.RunAlgorithm | ex-3/ascii_art/Shell.java:85-93 | on an empty character set only the no-chars message and no run; otherwise a fresh grid that is the picture of the parameters |
| AsciiArtShell.Shell.ExecuteRemainsCommands | ex-3/ascii_art/Shell.java:94-107 | edits as ExecuteAddRemove; "image..." replaces the image (kept when unreadable); "image" alone yields the index-out-of-bounds outcome; anything else reports the incorrect-command message and changes nothing |
| AsciiArtShell.Shell.ExecuteCommand | ex-3/ascii_art/Shell.java:71-83 | the exact commands change the resolution, select the console or the html output, or draw without changing anything; resolution changes and image changes leave the matcher's state and the registered indexes as they were; every other line is handled as executeRemainsCommands does |

## Left out

- Floating point: doubles are reals, so there is no rounding. Normalized keys such as 1/3 and the distances compared when picking a character are exact in the model and rounded in Java. The divisions the Java code performs without checking (a range of zero gives a NaN or infinite key) are excluded by the requires of ConstructDefined, AddDefined, RemoveDefined and MaxOrMinDefined.
- removeChar's `firstKey`/`lastKey` on an empty map (a NoSuchElementException) is excluded by RemoveDefined.
- Java aliasing is not modelled. That covers the list object used as a `HashMap` key and then mutated in place, and maps shared between matchers. The matcher cache maps a list value to a map value. Adopting a registered matcher copies its map.
- `Arrays.sort` sorts the caller's array in place; the model sorts a copy.
- The rasterizer `CharConverter.convertToBoolArray` is not part of this model; it is a parameter of `Caches`.
- The luma brightness of a tile (`calculateBrightnessPct`) is a parameter of `Run`, not computed.
- `java.awt.Color` is an RGB triple with an opaque alpha of 255.
- Image file reading (`Image(String)`, the default image of `Parameters`, `updateImage`'s read) is an `Option` parameter; `saveImage` is not modelled.
- Console and html output (`showChars`, every printed message, `AsciiOutput` rendering), the `run` loop and `KeyboardInput` are not modelled; messages are a `Message` tag.
- Code units are 16-bit values with no notion of surrogate pairs, as Java `char` has none.
- Getters (`getRes`, `getImage`, `getCharMatcher`, `getWidth`, `getHeight`, `getPixel`) are field reads; the Java-static `asciiOutput` is a field of `Shell`.
- BrightnessIndex.Nearest: the greater key wins a tie only for exact reals. With rounded doubles, keys 0.1 and 0.5 and the query 0.3 give distances 0.19999999999999998 below and 0.2 above, so Java returns the floor.
- MatcherSpec.AddStep: after a construction on the empty list (after "remove all" or on an empty charset), minimum and maximum are both 0.0. Adding a character with no ink ("add space", or the first code of "add all") then lies within that range and is divided by the zero range. AddDefined excludes that step (MatcherSpec.EmptyThenInklessUndefined), so those command sequences are outside the model. Java stores a NaN key there, and the next out-of-range addChar re-keys every value through newMaxOrMin.
- CharMatching.CharMatcher.GetCharByImageBrightness: follows the code (greater key on a tie, last-put character per key), not the documentation's lowest-code promise; it requires a non-empty map, where Java would throw a NullPointerException.
- ImageUtilities.FindPow2: requires size <= 2^30; above that the Java doubling overflows and the loop never ends.
- ImageUtilities.SplitByResolution: requires 1 <= res <= width; otherwise the Java tile side is 0 and the loop bound divides by zero.
- AsciiArtParameters.Parameters.ResDown: requires a positive height, where Java would divide by zero.
- AsciiArtParameters.ResUpSpec: states resUp for power-of-two resolutions up to 2^30 only; beyond that the Java doubling wraps (Parameters.ResUp models the wrap).
- AsciiArtAlgorithms.AsciiArtAlgorithm.Run: requires RunDefined (paddable image, 1 <= res <= padded width, non-empty map); outside it the Java code divides by zero or throws.
- AsciiArtShell.Shell.ExecuteCommand: requires CommandDefined, which passes each command's precondition on.
- Equal-brightness behaviour after construction is not re-proved for addChar and removeChar. Keys are taken against the raw extremes, and min and max are not renormalized after a removal or a cache hit, so there is no such invariant to state.
