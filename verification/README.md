# LDSP, modelled and proved in Dafny

This project models the algorithms inside LDSP (a low-level audio platform for phones) that combine a
short statement of what they are for with a long, stateful implementation, and proves that the one
follows from the other. `dafny verify dfyconfig.toml` checks everything.

Code that changes things step by step is modelled by methods with loops, arrays and classes; each such
method is proved equal to a function of its inputs or of the old state, and the theorems are about that
function. What the basic functions compute is stated a second time, without their names: as bytes, as printed
patterns, as values of a signal. Code made of expressions and recursion is modelled by functions. Integer widths,
wrap-around and truncation are written out where they matter. Samples, features and distances are exact reals.

| files | what is modelled | main results |
|---|---|---|
| `WarpPaths`, `Dtw`, `TwoNeighbours`, `SearchWindow`, `SearchCells`, `SearchRadius`, `FastDtw` | RapidLib's fast dynamic time warping | every windowed dynamic program returns the minimum over the warp paths it may use and the traced path attains it; every window of the recursion contains a complete path; the fast cost is finite and never below the optimum; exactly when the two-neighbour program finds it; exactly which search radii are kept |
| `OscMessage`, `OscMessageLaws`, `OscPacket`, `OscPacketLaws`, `OscSequences`, `OscBytes` | Open Sound Control packets (sections "OSC Packets" and "OSC Bundles" of the Open Sound Control 1.0 Specification) | every well-nested tree of bundles is written and read back unchanged; an accepted message is exactly what its contents would be written as, and its bytes are decided by its parts; exactly which sequences of elements the writer and the reader notice; the bytes are those of the specification |
| `OscPattern`, `OscParts`, `OscText` | address patterns (section "OSC Message Dispatching and Pattern Matching" of the same specification) | the recursive matcher decides exactly what lists that commit accept; exactly when a list loses nothing by committing; exactly when matching goes part by part, as the specification asks |
| `GlobPattern`, `GlobText`, `GlobMatch`, `GlobBraces` | file name patterns (section 2.13 of POSIX.1-2017, Shell Command Language) | a written pattern matches what its pieces stand for one after the other; backtracking to the latest star only is exact; collapsing stars keeps the language; braces expand to a lexicographic product; exactly when expansion leaves a pattern alone |
| `PcmSamples`, `PcmBuffers` | conversion between PCM bytes and floats | bytes survive a round trip unchanged, floats within one step; the 16-bit and vector paths write the same buffers as the scalar one |
| `PcmRing` | tinyalsa's memory-mapped ring | every transfer that fits moves each frame once, in order, in at most two pieces, across any number of wraps |
| `Optparse`, `OptparseLaws`, `OptparseSpelling` | option parsing that permutes `argv` | which spellings give the same option; the final order is a stable partition; when parsing the partitioned line again gives the same options |
| `SendRing` | the web socket server's send queue | under every interleaving what is delivered is a prefix of what was sent; exactly which items survive without the bound |
| `ScopeTrigger` | the oscilloscope's trigger machine | a trigger is an edge of the logged signal; one flag at a time; frames are consecutive logged samples, none ahead of the reader; exact dead times |
| `KnnClassification`, `FifoMap` | nearest-neighbour choice and vote; an insertion-ordered map | no example left out is nearer than one kept; equivalence under the moving comparator is equality of present keys |

Where the code does less than its comments or documentation say, the model follows the code, and a theorem says
when it does what they say:

- `getCost` in `dtw.cpp` looks at two of the three neighbours. Its result is the minimum over the paths whose
  moves in x alone lie on row 0 (`WarpPaths.BestIsMinimum` with `RowZero`). For given series it is the optimum if
  and only if some optimal path is of that kind (`TwoNeighbours.CostIsOptimalExactly`); for given lengths it is
  the optimum of all series if and only if the shorter one is a single point or both have two
  (`TwoNeighbours.LengthsDecide`).
- The upper left move of `expandWindow` adds the overshoot to the row instead of taking it away, and the move
  straight left is not clipped. They land on the cell they should if and only if nothing needs clipping
  (`SearchWindow.MovesThatLandInGrid`); upper left can mark a wrong cell of the grid
  (`SearchWindow.UpperLeftCanMiss`). The window holds all cells within the search radius of the projected path, as
  `searchWindow.h` says, for all grids and paths if and only if the radius is at most three
  (`SearchRadius.RadiusIsKept`).
- The writer of OSC packets says that it raises its error for an unclosed bundle and for several messages without
  a bundle. It never does for an unclosed bundle, which the reader accepts if and only if the bundle holds something
  (`OscSequences.UnclosedBundle`). Of several elements at the top it notices the messages after the first element
  and no bundle; together writer and reader accept if and only if there is one element
  (`OscSequences.SeveralElements`).
- The specification matches a pattern against an address part by part. The code lets '?' and bracket sets take a
  '/': /a?b accepts /a/b (`OscParts.QuestionTakesSlash`). A pattern without '//' whose brackets and braces close
  within their parts follows the rule if and only if it has no '?' and no set that accepts '/'
  (`OscParts.PartByPartExactly`).
- A list in an OSC pattern commits to its first choice that fits. In front of every brace-free rest of a pattern
  it loses no path if and only if no choice is a proper prefix of another (`OscPattern.ListLosesNothing`). For
  one fixed rest that condition is sufficient and not necessary: {ab,a} alone loses nothing, {ab,a}? does
  (`OscPattern.LongerFirstCanMiss`).
- The comment in `oscpkt.hh` calls its number format little endian; the code writes the most significant byte
  first, as the OSC specification asks.
- `globexp1` looks for the first '{' inside brackets too. Such a pattern is expanded, against what the bracket
  means, if and only if some '}' balances that brace (`GlobBraces.BracketBraceIsExpanded`,
  `GlobBraces.BracketBraceWitness`).
- An option that ends the line without its required argument takes the first non-option when the partitioned
  line is parsed again. `OptparseLaws.PartitionedParsesTheSame` says that this is the only difference, and
  `OptparseLaws.StarvedWitness` is such a line.
- Playback space reads as a whole boundary if and only if the ring is full and only the program's pointer has
  passed the boundary (`PcmRing.PlaybackAvailIsRoom`, `PcmRing.FullRingCanReadAsEmpty`).
- One size per sample is used for packing and another for stepping. They agree for every format but S24_3BE
  (`PcmBuffers.SizesAgree`), and a rounded period fills whole vectors in every format but S8, S24_BE and S32_BE,
  which the size table takes for 16 bits (`PcmBuffers.BlocksFit`). The header says that the big-endian formats
  do not work yet.
- The send queue has 100 slots and no check. Of n items sent to a client that had caught up, its next pass hands
  over exactly the last n mod 100, so all of them if and only if n < 100; at the very start 100 fit
  (`SendRing.OnlyTheLastArrive`).
- `updateK` leaves the number of neighbours alone when it already is the wished one
  (`KnnClassification.UpdatedKFits`); entries beyond the examples then name example 0.

`Basics` and `Rings` hold what several of these share: bytes, the search for a character, and slots of a ring.

## Model

| member | source | states |
|---|---|---|
| `WarpPaths.BestIsMinimum` | dependencies/RapidLib/src/dtw.cpp:143-165 | the recurrence of the dynamic programs is finite exactly when an allowed warp path exists, is then the total of one, and no allowed path has a smaller total |
| `WarpPaths.OptimumIsMinimum` | dependencies/RapidLib/src/dtw.cpp:143-165 | over the full grid it is the minimum over all warp paths with the three moves, always finite |
| `WarpPaths.OptimumIsBelowEveryRule` | dependencies/RapidLib/src/dtw.cpp:46-76 | neither the two-neighbour program nor any window beats the optimum |
| `WarpPaths.OptimumIsSymmetric` | dependencies/RapidLib/src/fastDTW.cpp:24-27 | exchanging the series does not change the optimum, which the swap at the top relies on |
| `WarpPaths.PathVisitsColumn` | dependencies/RapidLib/src/searchWindow.cpp:26-43 | a warp path has a cell in every column, so no window column stays unvisited |
| `Dtw.PreviousIsCheapest` | dependencies/RapidLib/src/dtw.cpp:86-114 | however ties are broken, the trace moves to a cheapest neighbour by one of the three steps |
| `Dtw.TiesApproachDiagonal` | dependencies/RapidLib/src/dtw.cpp:86-114 | the diagonal is taken if and only if it is as cheap as both others; of two equally cheap ones the trace takes the one towards the main diagonal |
| `Dtw.TraceIsWarpPath` | dependencies/RapidLib/src/dtw.cpp:79-117 | the traced sequence is a warp path from the origin, whatever the matrix holds |
| `Dtw.TraceCostsAtMostBest` | dependencies/RapidLib/src/dtw.cpp:121-129 | through a finite entry it stays on allowed cells and totals at most that entry, also for the two-neighbour matrix |
| `Dtw.TraceAttainsWindow` | dependencies/RapidLib/src/dtw.cpp:133-171 | with three neighbours the traced path attains the reported cost inside the window |
| `Dtw.GetCostCanExceedOptimum` | dependencies/RapidLib/src/dtw.cpp:68-72 | a concrete pair of series on which the two-neighbour cost is above the optimum |
| `TwoNeighbours.CostIsOptimalExactly` | dependencies/RapidLib/src/dtw.cpp:63-75 | the two-neighbour cost is the optimum if and only if some optimal path has no move in x alone above row 0 |
| `TwoNeighbours.LengthsDecide` | dependencies/RapidLib/src/dtw.cpp:46-76 | for lengths n >= m it is the optimum of all series if and only if m is 1 or both are 2 |
| `Dtw.DtwMatrix.GetCost` | dependencies/RapidLib/src/dtw.cpp:46-76 | the loops fill the matrix with the minima over paths whose moves in x alone lie on row 0, longer series first |
| `Dtw.DtwMatrix.CalculatePath` | dependencies/RapidLib/src/dtw.cpp:79-117 | the loop collects the traced path of the stored matrix |
| `Dtw.DtwMatrix.DynamicTimeWarp` | dependencies/RapidLib/src/dtw.cpp:121-129 | cost and traced path of the two-neighbour program |
| `Dtw.DtwMatrix.ConstrainedDtw` | dependencies/RapidLib/src/dtw.cpp:133-171 | the loops over window columns fill the matrix with the minima over window paths; cost and path are those of the last cell |
| `SearchWindow.MarkAllIsHull` | dependencies/RapidLib/src/searchWindow.cpp:53-71 | after any sequence of marks a column holds exactly the rows between cells it held and cells marked inside the grid |
| `SearchWindow.MovesThatLandInGrid` | dependencies/RapidLib/src/searchWindow.cpp:93-216 | clipped moves always land in the grid; straight left and upper left land in it exactly under the stated conditions, and on the cell of the clipped move if and only if nothing needs clipping |
| `SearchWindow.UpperLeftCanMiss` | dependencies/RapidLib/src/searchWindow.cpp:93-216 | a concrete cell whose upper left move marks another cell of the grid |
| `SearchWindow.ExpandEnlarges` | dependencies/RapidLib/src/searchWindow.cpp:74-219 | expansion at any radius keeps every cell and every column inside the grid |
| `SearchWindow.ExpandByOneCoversNeighbours` | dependencies/RapidLib/src/searchWindow.cpp:47-47 | expansion by one takes in all eight neighbours that lie in the grid |
| `SearchWindow.CursorDoubles` | dependencies/RapidLib/src/searchWindow.cpp:26-43 | the fine cursor stands at twice the coarse cell, for every step of the path |
| `SearchWindow.RefinedPath` | dependencies/RapidLib/src/searchWindow.cpp:26-43 | the marked blocks contain a fine warp path that follows the coarse one |
| `SearchWindow.WindowContainsWarpPath` | dependencies/RapidLib/src/searchWindow.cpp:14-50 | for odd and even sizes and every radius the window contains a warp path to the far corner |
| `SearchWindow.EveryColumnIsVisited` | dependencies/RapidLib/src/searchWindow.cpp:14-50 | every column of the window is a non-empty interval of grid rows |
| `SearchWindow.Window2D.constructor` | dependencies/RapidLib/src/searchWindow.cpp:14-50 | the object's columns are the projected and expanded window |
| `SearchWindow.Window2D.ExpandWindow` | dependencies/RapidLib/src/searchWindow.cpp:74-219 | collecting the cells and marking around each in place gives the expanded window |
| `SearchCells.ProjectionIsExact` | dependencies/RapidLib/src/searchWindow.cpp:26-43 | the marked cells are the four fine cells of each coarse cell and, at a diagonal step, the two that touch both ends, and no others |
| `SearchCells.ClippedIsFarthest` | dependencies/RapidLib/src/searchWindow.cpp:108-216 | a clipped move goes as far in its direction as radius and grid allow |
| `SearchCells.UpperLeftOvershoots` | dependencies/RapidLib/src/searchWindow.cpp:93-108 | the upper left move reaches the right column, two rows too high for every column it was clipped |
| `SearchCells.NeighboursAreExact` | dependencies/RapidLib/src/searchWindow.cpp:74-219 | a window cell marks the farthest cells of six directions, the cell straight left and the upper left one, and no others |
| `SearchRadius.RadiusIsKept` | dependencies/RapidLib/src/searchWindow.h:15-17 | for all grids, coarse paths and marked cells the window holds every grid cell within the radius, if and only if the radius is at most three |
| `SearchRadius.SmallRadiusCovers` | dependencies/RapidLib/src/searchWindow.cpp:45-49 | up to radius three expansion by one and then by the rest reaches every such cell, whatever the paths and sizes |
| `SearchRadius.LargeRadiusMisses` | dependencies/RapidLib/src/searchWindow.cpp:45-49 | for every radius above three a grid, a path and a cell within the radius that the window lacks |
| `FastDtw.Downsample` | dependencies/RapidLib/src/fastDTW.cpp:64-87 | averaging in place puts every frame midway between the two it stands for, in every coordinate, keeps the last frame of an odd series, and keeps the mean of an even one |
| `FastDtw.HalvedIsMidway` | dependencies/RapidLib/src/fastDTW.cpp:64-87 | the same of the series one level down, from which window and path of the recursion come |
| `FastDtw.HalvingKeepsSum` | dependencies/RapidLib/src/fastDTW.cpp:64-87 | whatever lies midway has half the sum of every coordinate, pair by pair |
| `FastDtw.SwapOnlyAtTheTop` | dependencies/RapidLib/src/fastDTW.cpp:24-27 | halving keeps the longer series first |
| `FastDtw.FastWindowIsComplete` | dependencies/RapidLib/src/fastDTW.cpp:40-46 | at every level the window contains a complete path and an interval in every column |
| `FastDtw.FastIsSound` | dependencies/RapidLib/src/fastDTW.cpp:20-47 | for every radius: optimum <= total of the returned path <= reported cost, finite; a series of at most two points more than the radius is warped in full; above that the path stays in its window, attains the cost, and no path of the window is cheaper |
| `FastDtw.FullFastDtw` | dependencies/RapidLib/src/fastDTW.cpp:20-47 | the recursion terminates and computes that result |
| `FastDtw.GetCost` | dependencies/RapidLib/src/fastDTW.cpp:50-54 | the public cost is finite and at least the optimum |
| `GlobPattern.Glob0` | dependencies/glob/glob.c:553-600 | the loop writes the tokens of the parsed pattern with every star after a star dropped |
| `GlobPattern.CollapseLeavesNoAdjacentStars` | dependencies/glob/glob.c:586-594 | no two stars in a row are left |
| `GlobPattern.CollapseKeepsLanguage` | dependencies/glob/glob.c:586-594 | dropping them does not change the names matched |
| `GlobText.PlainMatchesItself` | dependencies/glob/glob.c:553-600 | a pattern without '*', '?' and closed brackets matches its own characters and nothing else |
| `GlobText.StarMatchesAll` | dependencies/glob/glob.c:586-594 | a star matches every name |
| `GlobText.QuestionMatchesOne` | dependencies/glob/glob.c:582-585 | a question mark matches exactly the names of one character |
| `GlobText.PrintedMeansSpelled` | dependencies/glob/glob.c:553-600 | a pattern printed from characters, question marks, stars and bracket expressions matches exactly the names whose consecutive parts are what these stand for; a bracket stands for one character inside its items, or outside after '!' |
| `GlobText.PrintedMatches` | dependencies/glob/glob.c:553-600 | in front of any other text such a pattern matches the concatenations |
| `GlobMatch.EarlierStarIsRedundant` | dependencies/glob/glob.c:914-986 | once a later star is reached, giving an earlier one more characters gains nothing |
| `GlobMatch.Match` | dependencies/glob/glob.c:914-986 | terminates and returns true exactly when the name is in the segment's language, although only the latest star is remembered |
| `GlobMatch.SegmentsAreMatchable` | dependencies/glob/glob.c:586-600 | every run of elements of a compiled pattern meets what the matcher relies on |
| `GlobMatch.MatchPattern` | dependencies/glob/glob.c:553-600 | compiling and matching decides the language of the pattern as written: its own characters for a plain one, what the pieces stand for one after the other for a printed one |
| `GlobBraces.ScansAgree` | dependencies/glob/glob.c:335-415 | the second scan stops at the brace the first one found, and its alternatives joined by commas are the text between the braces |
| `GlobBraces.GlobExp1` | dependencies/glob/glob.c:297-312 | `glob0` is run on the expansions in order until one fails, with that code |
| `GlobBraces.GlobExp2` | dependencies/glob/glob.c:320-417 | the same for a pattern with an open brace; each rewritten pattern is strictly shorter, so the recursion ends |
| `GlobBraces.RunStopsAtFailure` | dependencies/glob/glob.c:297-312 | the calls are the first expansions in order, up to the first that fails, whose code is returned; all of them with zero otherwise |
| `GlobBraces.ExpandMeansDenote` | dependencies/glob/glob.c:320-417 | leftmost expansion of a printed word gives exactly the texts it denotes, in order; outside its groups any characters but '{' are allowed, and a rest whose first '{' nothing balances may follow and stays as it is |
| `GlobBraces.DenoteAppend` | dependencies/glob/glob.c:390-409 | adjacent groups expand as a lexicographic product |
| `GlobBraces.ProductAt` | dependencies/glob/glob.c:390-409 | where the combination of two alternatives stands in the order |
| `GlobBraces.BracesWitness` | dependencies/glob/glob.c:297-417 | {a,b}c becomes ac and bc |
| `GlobBraces.GlobExp0` | dependencies/glob/glob.c:268-290 | on every pattern the entry leaves exactly {} alone and otherwise runs the leftmost expansions in order until one fails; on a printed word, with or without an unbalanced rest, these are the denoted texts |
| `GlobBraces.ExpandIsIdentity` | dependencies/glob/glob.c:302-359 | expansion leaves a pattern alone if and only if it has no '{' or nothing balances the first one |
| `GlobBraces.BracketBraceIsExpanded` | dependencies/glob/glob.c:302-308 | a '{' inside a bracket is taken for a group if and only if some '}' balances it |
| `GlobBraces.BracketBraceWitness` | dependencies/glob/glob.c:302-308 | a concrete pattern that loses its bracket this way |
| `OscMessage.WordRoundTrip` | include/oscpkt.hh:130-150 | packing and unpacking 32-bit words are inverse to each other in both directions |
| `OscMessage.LongRoundTrip` | include/oscpkt.hh:130-150 | the same for 64-bit words |
| `OscBytes.WordOrder` | include/oscpkt.hh:142-150 | one 32-bit number is below another if and only if its bytes come first in lexicographic order: most significant byte first |
| `OscBytes.LongOrder` | include/oscpkt.hh:142-150 | the same for 64 bits |
| `OscBytes.SignedIsCongruent` | include/oscpkt.hh:142-150 | signed numbers travel in two's complement |
| `OscMessage.Build` | include/oscpkt.hh:408-434 | on any aligned block the recorded spans lie inside it, and without an error there is one for each type tag |
| `OscMessage.Message.BuildFromRawData` | include/oscpkt.hh:408-434 | the parsing loop leaves the message in the state of `Build`, every asserted bound holding |
| `OscMessage.Message.PackMessage` | include/oscpkt.hh:470-479 | appends the packed form of the message, after its size inside a bundle; `OscBytes.PackedBytes` says byte by byte what that is |
| `OscMessageLaws.PushedAllAppends` | include/oscpkt.hh:437-461 | pushing arguments appends their tags and encodings and changes nothing else |
| `OscMessageLaws.PackedIsWire` | include/oscpkt.hh:470-479 | a well-formed message is packed as its wire form |
| `OscBytes.PackedBytes` | include/oscpkt.hh:470-479 | the bytes of /a with an integer, a float and a string: size word, address, type tags, arguments, padding |
| `OscBytes.OtherBytes` | include/oscpkt.hh:437-461 | the bytes of a negative 64-bit integer and of a double |
| `OscBytes.BlobBytes` | include/oscpkt.hh:437-461 | the bytes of a blob |
| `OscBytes.OtherTags` | include/oscpkt.hh:437-461 | the letters of the other type tags; truth values have no bytes |
| `OscBytes.AddressError` | include/oscpkt.hh:408-434 | the address is refused exactly when the block does not begin with a padded string that begins with '/' |
| `OscBytes.TagsError` | include/oscpkt.hh:408-434 | after an address the type tags are refused exactly when no padded string that begins with ',' follows |
| `OscMessageLaws.EncodedSize` | include/oscpkt.hh:484-514 | an encoded argument is measured exactly, also strings and blobs with their padding |
| `OscMessageLaws.ReadBack` | include/oscpkt.hh:408-434 | parsing the wire form gives no error and the same address, type tags and argument values |
| `OscMessageLaws.WriteBack` | include/oscpkt.hh:408-514 | an accepted block whose arguments all have values is byte for byte the wire form of what was read |
| `OscMessageLaws.OnlyWrappedBlobsHaveNoValue` | include/oscpkt.hh:484-514 | an accepted argument has no value exactly when it is a blob whose length plus four wraps in 32 bits |
| `OscMessageLaws.AcceptedIsInjective` | include/oscpkt.hh:408-514 | two accepted blocks with equal address, tags and values are the same bytes |
| `OscMessageLaws.AcceptedIsItsParts` | include/oscpkt.hh:408-434 | every accepted block, wrapped blobs included, is its address, its type tags and the recorded argument bytes, each padded, without gaps or overlaps |
| `OscMessageLaws.BytesDecide` | include/oscpkt.hh:408-514 | two accepted blocks are the same bytes if and only if address, type tags and argument bytes are equal |
| `OscPacket.PacketReader.Init` | include/oscpkt.hh:556-566 | any bytes are parsed or refused; the reader ends with the messages and error of the specification parse |
| `OscPacket.PacketReader.ParseRange` | include/oscpkt.hh:577-603 | the recursion over positions equals the parse of that slice and terminates |
| `OscPacket.PacketWriter.EndBundle` | include/oscpkt.hh:636-648 | closes the innermost bundle, patching its size and filling an empty one; the open positions stay nested |
| `OscPacketLaws.WritesSized` | include/oscpkt.hh:628-656 | inside an open bundle an element appends its size and bytes and leaves the rest of the writer as it was |
| `OscPacketLaws.WritesPacket` | include/oscpkt.hh:628-656 | a whole tree leaves exactly its encoding, no open bundle and no error |
| `OscBytes.BundleBytes` | include/oscpkt.hh:628-648 | the bytes of a bundle with one message: marker, time tag, size, message |
| `OscPacketLaws.PacketRoundTrip` | include/oscpkt.hh:577-656 | what any well-nested tree wrote is accepted and read back: same messages in order, with address, tags, values and the innermost time tag |
| `OscSequences.ErrorIsRefusal` | include/oscpkt.hh:628-660 | whatever is called, the writer has an error exactly when it refused a call: closing with nothing open, adding after a closed packet, or adding a broken message |
| `OscSequences.UnclosedBundle` | include/oscpkt.hh:658-660 | an unclosed bundle raises no error; the reader accepts its bytes if and only if it holds an element |
| `OscSequences.TrailingIsRefused` | include/oscpkt.hh:408-434 | an accepted message block with anything behind it is refused |
| `OscSequences.SeveralElements` | include/oscpkt.hh:628-660 | of any elements written one after the other the writer notices exactly messages after the first, and it and the reader both accept if and only if there is one |
| `OscPattern.InternalPatternMatch` | include/oscpkt.hh:677-731 | reaches the end of the pattern exactly when the rest of the path matches it with lists that commit; recursion ends on the remaining pattern |
| `OscPattern.FirstChoiceIsSound` | include/oscpkt.hh:713-725 | committing to the first choice that fits accepts nothing that uncommitted lists refuse |
| `OscPattern.FirstChoiceIsComplete` | include/oscpkt.hh:713-725 | it accepts all that they accept when no choice is a proper prefix of another (sufficient; the exact statement is `OscPattern.ListLosesNothing`) |
| `OscPattern.BraceFreeIsPrefixFree` | include/oscpkt.hh:713-725 | patterns without lists are such patterns |
| `OscPattern.FirstChoiceCanMiss` | include/oscpkt.hh:713-725 | a concrete pattern and path where committing loses a match |
| `OscPattern.ListLosesNothing` | include/oscpkt.hh:713-725 | committing loses no path in front of any brace-free rest if and only if no choice is a proper prefix of another |
| `OscPattern.ProperPrefixLoses` | include/oscpkt.hh:713-725 | for every such pair of choices a rest of question marks, possibly none, and a path that is lost |
| `OscPattern.LongerFirstCanMiss` | include/oscpkt.hh:713-725 | a list with the longer choice first that loses nothing at the end of a pattern and loses a path before a question mark |
| `OscPattern.FullPatternMatch` | include/oscpkt.hh:738-741 | exact for committing lists, never more than uncommitted lists accept, and exactly that on prefix-free patterns |
| `OscParts.WholeIsJoined` | include/oscpkt.hh:677-731 | a plain pattern matches a path exactly when its parts match pieces of it with a '/' between each two |
| `OscParts.PartByPartIsMatched` | include/oscpkt.hh:677-731 | whatever matches part by part, as the specification asks, matches with uncommitted lists |
| `OscParts.PartByPartExactly` | include/oscpkt.hh:677-731 | a plain pattern that matches some path follows that rule, and matches only paths of as many parts, if and only if it has no '?' and no set that accepts '/' |
| `OscParts.CommitsPartByPart` | include/oscpkt.hh:738-741 | such a prefix-free pattern is decided part by part by the full match |
| `OscParts.QuestionTakesSlash` | include/oscpkt.hh:680-680 | a concrete pattern that matches a path of more parts |
| `OscText.PrintedMatches` | include/oscpkt.hh:677-731 | a pattern printed from characters, '?', '*', '//', brackets and braces matches, with lists uncommitted, exactly the paths whose consecutive parts are what these stand for |
| `OscText.CommitsToSpelling` | include/oscpkt.hh:738-741 | the full match decides the same of a prefix-free pattern |
| `Optparse.OptparseState.Permute` | include/optparse.h:171-178 | moves one token behind those up to optind and nothing else |
| `Optparse.OptparseState.OptparseLong` | include/optparse.h:346-400 | one call reports the next event, moves the tokens of the option in front of the non-options before it and leaves the rest |
| `OptparseLaws.CallIsNextEvent` | include/optparse.h:346-400 | a call consumes exactly the first event of the line and leaves the parse of what remains |
| `OptparseSpelling.LongRequired` | include/optparse.h:307-394 | `--name=value` and `--name`, `value` give the same event with that argument, and a missing argument an error |
| `OptparseSpelling.LongOptional` | include/optparse.h:307-394 | an optional argument of a long option is taken after '=' only, and a flag with one is an error |
| `OptparseSpelling.LongUnknown` | include/optparse.h:385-395 | a name that is not in the table is an error, with or without a value |
| `OptparseSpelling.ShortRequired` | include/optparse.h:220-253 | `-xvalue` and `-x`, `value` give the same event with that argument, and a missing argument an error |
| `OptparseSpelling.ShortOptional` | include/optparse.h:254-261 | an optional argument of a short option is taken only when attached |
| `OptparseSpelling.ShortUnknown` | include/optparse.h:224-230 | a letter that is not in the table is an error that names it |
| `OptparseSpelling.ShortIsFound` | include/optparse.h:284-297 | the getopt string made of the table gives each letter the argument type of its first entry |
| `OptparseSpelling.ClusterSplits` | include/optparse.h:220-238 | a flag and the rest of its cluster give the same events as the flag and a cluster of the rest, so `-ab` is `-a`, `-b` |
| `OptparseSpelling.OtherTokens` | include/optparse.h:352-370 | "--" ends the options, and a token that is a dash or does not begin with one is passed over |
| `OptparseLaws.Run` | include/optparse.h:346-400 | calling until -1 terminates, reports the events of the line and leaves options and their arguments first, the others after them, optind between |
| `OptparseLaws.ParseIsShuffle` | include/optparse.h:171-178 | both groups keep their original order and together are a permutation of the line |
| `OptparseLaws.PartitionedParsesTheSame` | include/optparse.h:346-400 | parsing the partitioned line reports the same options if and only if not both the last token was an option missing its argument and there are non-options |
| `OptparseLaws.StarvedWitness` | include/optparse.h:346-400 | a concrete line on which the two parses differ |
| `PcmSamples.OrAdds` | core/tinyalsaAudio.cpp:612-616 | setting bits above all those of a number adds them |
| `PcmSamples.EncodeDecode` | core/tinyalsaAudio.cpp:1665-1695 | bytes of width one to four in either order are restored from their signed value |
| `PcmSamples.DecodeEncode` | core/tinyalsaAudio.cpp:1665-1695 | every value in range is restored from its bytes |
| `PcmSamples.BytesOfSample` | core/tinyalsaAudio.cpp:1665-1695 | which byte of a sample holds which digit to the base 256, in both byte orders |
| `PcmSamples.SignExtension` | core/tinyalsaAudio.cpp:1221-1225 | comparing with the maximum and or-ing the mask is two's complement at every width |
| `PcmSamples.QuantizeNormalize` | core/tinyalsaAudio.cpp:1064-1100 | an integer sample scaled to a float and back is itself |
| `PcmSamples.NormalizeQuantize` | core/tinyalsaAudio.cpp:1064-1100 | a float played and captured is within one step in [-1, 1], saturates outside, is never louder and keeps its sign |
| `PcmSamples.QuantizeIsMonotone` | core/tinyalsaAudio.cpp:1064-1100 | a greater float never becomes a smaller sample |
| `PcmSamples.ClampThenTruncate` | core/tinyalsaAudio.cpp:698-717 | clamping before truncation gives the scalar code's sample |
| `PcmSamples.TruncateThenSaturate` | core/tinyalsaAudio.cpp:811-822 | truncating to 32 bits and narrowing with saturation gives the scalar code's 16-bit sample |
| `PcmSamples.RawFloatRaw` | core/tinyalsaAudio.cpp:1215-1247 | raw to float to raw is the identity on whole buffers |
| `PcmSamples.FloatRawFloat` | core/tinyalsaAudio.cpp:1064-1100 | float to raw to float rounds every sample of a buffer separately |
| `PcmSamples.RawAt` | core/tinyalsaAudio.cpp:1064-1100 | which bytes of a buffer belong to which sample |
| `PcmBuffers.SizesAgree` | core/tinyalsaAudio.cpp:565-572 | used and occupied bytes agree for every format but one |
| `PcmBuffers.BlocksFit` | core/tinyalsaAudio.cpp:577-587 | a rounded period fills whole vectors in every format but three |
| `PcmBuffers.MaskAbove` | core/tinyalsaAudio.cpp:612-616 | the loop sets exactly the bits beyond the format |
| `PcmBuffers.AudioStruct.constructor` | core/tinyalsaAudio.cpp:558-616 | the derived fields and buffer sizes are consistent exactly when the two sample sizes agree and the buffer was sized for at least one channel |
| `PcmBuffers.AudioStruct.FromFloatToRawInt` | core/tinyalsaAudio.cpp:1064-1100 | the scalar loop fills the raw buffer with the bytes of every sample |
| `PcmBuffers.AudioStruct.FromRawToFloatInt` | core/tinyalsaAudio.cpp:1215-1247 | the scalar loop fills the float buffer with the value of every sample |
| `PcmBuffers.AudioStruct.FromFloatToRaw` | core/tinyalsaAudio.cpp:1156-1203 | scalar or vector, 16-bit or generic, either byte order of CPU and format: the same bytes |
| `PcmBuffers.AudioStruct.FromRawToFloat` | core/tinyalsaAudio.cpp:1294-1335 | the same for capture |
| `PcmBuffers.AudioStruct.FromFloatToRawIntLanes` | core/tinyalsaAudio.cpp:698-738 | four lanes at a time the raw buffer ends up as in the scalar loop, every access inside it |
| `PcmBuffers.AudioStruct.FromRawToFloatIntLanes` | core/tinyalsaAudio.cpp:868-934 | four lanes at a time the float buffer ends up as in the scalar loop |
| `PcmBuffers.AudioStruct.FromFloatToRaw16Lanes` | core/tinyalsaAudio.cpp:794-847 | eight lanes at a time, the same |
| `PcmBuffers.AudioStruct.FromRawToFloat16Lanes` | core/tinyalsaAudio.cpp:990-1043 | eight lanes at a time, the same |
| `PcmBuffers.AudioStruct.ByteSplitLanes` | core/tinyalsaAudio.cpp:1579-1617 | writing byte i of all lanes at once lays out each lane's sample |
| `PcmRing.Boundary` | dependencies/tinyalsa/pcm.c:967-970 | the ring size times the largest power of two that fits, leaving room for one more ring exactly when two rings fit in an int |
| `PcmRing.PlaybackAvailIsRoom` | dependencies/tinyalsa/pcm.c:1049-1061 | the reported space is the true one if and only if the pointers are not a full ring apart across the boundary |
| `PcmRing.CaptureAvailIsReady` | dependencies/tinyalsa/pcm.c:1063-1069 | the reported number of captured frames is always the true one |
| `PcmRing.FullRingCanReadAsEmpty` | dependencies/tinyalsa/pcm.c:1055-1058 | a full ring for every size and boundary that reads as having a boundary of free space |
| `PcmRing.NotOverwritten` | dependencies/tinyalsa/pcm.c:1103-1115 | a contiguous piece that fits does not touch a frame that is still waiting |
| `PcmRing.Pcm.ApplForward` | dependencies/tinyalsa/pcm.c:1080-1089 | the program's pointer advances by the frames, whether or not it wraps |
| `PcmRing.Pcm.Begin` | dependencies/tinyalsa/pcm.c:1091-1115 | the slot of the next frame and as many frames as fit, are available and lie in one piece |
| `PcmRing.Pcm.TransferAreas` | dependencies/tinyalsa/pcm.c:420-442 | a transfer within the true space terminates, moves every frame once and in order in at most two pieces, and the ring still holds the stream, whatever the card does meanwhile |
| `SendRing.StepKeepsInv` | libraries/WSServer/WSServer.cpp:101-126 | every atomic step of either thread keeps the ring's invariant while fewer items than slots wait |
| `SendRing.DeliveredIsPrefixOfSent` | libraries/WSServer/WSServer.cpp:159-174 | in every bounded run the delivered items are a prefix of the sent ones, and all of them exactly when the indices meet |
| `SendRing.PassMakesProgress` | libraries/WSServer/WSServer.cpp:159-174 | a pass keeps its goal under every step of either thread, every load brings it one item nearer in order, and it ends exactly when everything sent before it began is delivered |
| `SendRing.PassDeliversItsGoal` | libraries/WSServer/WSServer.cpp:159-174 | in every bounded run, between looking and leaving a pass delivers exactly what was sent before it looked, whatever steps of the sender fall in between |
| `SendRing.ReachedByRun` | libraries/WSServer/WSServer.cpp:101-174 | what a sequence of steps reaches continues any run of the machine |
| `SendRing.ClientCanGoOn` | libraries/WSServer/WSServer.cpp:161-174 | whatever the sending thread does, some step of the client is enabled |
| `SendRing.OnlyTheLastArrive` | libraries/WSServer/WSServer.cpp:101-174 | of any n items sent to a client that had caught up the run of the senders' atomic steps and the next pass delivers exactly the last n modulo the slots, so all of them if and only if n is below the number of slots (at the very start, at most that number) |
| `SendRing.HandedTakesTwoSteps` | libraries/WSServer/WSServer.cpp:170-174 | what a pass hands over is what the client's atomic steps deliver |
| `SendRing.WholeLapsAreInvisible` | libraries/WSServer/WSServer.cpp:116-123 | after any n items sent to a client that had caught up the next pass leaves at once exactly when n is a multiple of the slots |
| `SendRing.Packed` | libraries/WSServer/WSServer.cpp:101-114 | data of up to 230400 bytes is kept, longer data is cut to that many |
| `SendRing.WsServer.Send` | libraries/WSServer/WSServer.cpp:101-126 | one call stores the item, cut to the limit, and advances the index |
| `SendRing.WsServer.ClientPass` | libraries/WSServer/WSServer.cpp:159-174 | one undisturbed pass from any indices hands over the slots up to the write index; with fewer items waiting than slots these are exactly the waiting items, in order |
| `ScopeTrigger.DelaysAreExact` | libraries/Scope/Scope.cpp:508-561 | from a trigger to its frame and from the frame to being primed the signal does not matter, and both delays are exact |
| `ScopeTrigger.TraceFollowsMachine` | libraries/Scope/Scope.cpp:475-565 | recording triggers and frames does not change the machine's turns |
| `ScopeTrigger.DeadTime` | libraries/Scope/Scope.cpp:478-561 | after a trigger the machine is primed again exactly after collecting, half a frame and the hold-off |
| `ScopeTrigger.SilentMachine` | libraries/Scope/Scope.cpp:495-505 | without a hit only the automatic mode triggers, after a frame, the hold-off and two samples |
| `ScopeTrigger.HitTriggers` | libraries/Scope/Scope.cpp:478-491 | a hit starts collecting at once, in every mode |
| `ScopeTrigger.RatioIsTruncated` | libraries/Scope/Scope.cpp:711-711 | the offset in samples is the quotient without its fraction |
| `Rings.SlotMoves` | libraries/Scope/Scope.cpp:523-524 | the index arithmetic with one added ring length is right before and after wrapping |
| `ScopeTrigger.Scope.Log` | libraries/Scope/Scope.cpp:381-392 | the newest sample enters the ring, which then holds the last lap of everything logged |
| `ScopeTrigger.Scope.Triggered` | libraries/Scope/Scope.cpp:451-470 | outside custom mode a hit at the current sample is, in values of the logged signal: below the level before and not below it now, the other way round, or either, as the direction says |
| `ScopeTrigger.Scope.CopyFrame` | libraries/Scope/Scope.cpp:522-535 | every row is the frame's consecutive ring samples, copied in one piece or two |
| `ScopeTrigger.Scope.Look` | libraries/Scope/Scope.cpp:475-565 | one turn follows the machine with exactly one flag up; an emitted frame begins half a frame before the shifted trigger and contains no sample ahead of the reader |
| `ScopeTrigger.Scope.TriggerTimeDomain` | libraries/Scope/Scope.cpp:472-567 | while the program goes on logging, every sample is looked at once; which of them hit is said in values of the logged signal, with the direction, or in custom mode by the slot of the pending request; the hits decide the machine's turns, how many frames are sent and where each begins, and every frame shows the samples from there that the ring held when it was copied |
| `ScopeTrigger.Scope.RisingSignal` | libraries/Scope/Scope.cpp:451-470 | a signal that never falls has no falling edge and at most one rising one |
| `ScopeTrigger.Scope.Request` | libraries/Scope/Scope.cpp:442-449 | a request is taken exactly in custom mode, while primed and none is pending, and asks for the sample now being logged, shifted by the offset |
| `ScopeTrigger.Scope.RequestNamesItsSample` | libraries/Scope/Scope.cpp:444-468 | less than a lap away the requested slot is that of the requested sample alone |
| `KnnClassification.UpdatedKFits` | dependencies/RapidLib/src/knnClassification.cpp:59-62 | the number fits the examples unless it already was the wished one with too few of them |
| `KnnClassification.Nearest` | dependencies/RapidLib/src/knnClassification.cpp:110-148 | k different examples with their distances, and none of the others is strictly nearer than any of them; with fewer than k examples, all of them followed by entries that name example 0 |
| `KnnClassification.CountVotes` | dependencies/RapidLib/src/knnClassification.cpp:150-165 | every label that occurs, once, with the number of its votes, in the order of the labels |
| `KnnClassification.Winner` | dependencies/RapidLib/src/knnClassification.cpp:168-180 | the smallest label among those with most votes, zero without votes |
| `KnnClassification.Round` | dependencies/RapidLib/src/knnClassification.cpp:156-156 | the nearest integer, halves away from zero |
| `KnnClassification.Classify` | dependencies/RapidLib/src/knnClassification.cpp:97-181 | the winner among the rounded outputs of the chosen entries |
| `FifoMap.LessIsStrictWeakOrder` | libraries/JSON/fifo_map.hpp:63-83 | the comparator is a strict weak order in which absent keys are equivalent and above all present ones |
| `FifoMap.FindIsExact` | libraries/JSON/fifo_map.hpp:63-83 | finding by equivalence gives the equal key, and the end exactly for absent keys |
| `FifoMap.FifoMap.Insert` | libraries/JSON/fifo_map.hpp:312-316 | a new key goes to the end of the iteration, a present one changes nothing |
| `FifoMap.FifoMap.Erase` | libraries/JSON/fifo_map.hpp:400-410 | takes out exactly the key's entry and its timestamp; the others keep their order |

## Left out

- Floating point: samples, coordinates, distances and thresholds are reals, so NaN, infinities of the inputs and rounding (also of the 32-bit full scale) are not modelled.
- Dynamic time warping: the point distance is an abstract non-negative symmetric function, and all frames have one dimension (the distance throws otherwise); 32-bit coordinates and radii next to the greatest int are not wrapped, and the EMSCRIPTEN build without the swap is not modelled.
- Dtw.DtwMatrix.DynamicTimeWarp: takes the longer series first, as its only caller in the recursion does; otherwise the matrix is too small for the trace.
- GlobBraces.ExpandMeansDenote: inside a group brackets are closed and hold no braces; every other text is covered by the first clause of `GlobBraces.GlobExp0` and by `GlobBraces.ExpandIsIdentity`.
- GlobText.PrintedMeansSpelled: for brackets that are closed and whose items are read as written; `GlobMatch.MatchPattern` decides the others by the parse.
- glob: directory walking, tilde expansion, sorting, the GLOB_LIMIT counters, buffer lengths, and cutting a compiled buffer at '/' (a '/' inside a set cuts the set); ranges compare code points, as in the Bionic build.
- OscText.PrintedMatches: for brackets and braces that are closed, single stars and double slashes; `OscPattern.InternalPatternMatch` decides the others by the elements.
- OSC: the partial matcher, the error codes and chaining of `ArgReader`, printing, sockets, and packing a message that was itself built from raw bytes; bytes are unsigned, pointers are positions and storage is aligned to four.
- OscPacketLaws.PacketRoundTrip: one top-level element whose packet is shorter than 2^32 bytes; `OscSequences.SeveralElements` says what happens to more than one.
- OscParts.PartByPartExactly: for patterns without '//', which has no meaning in version 1.0 of the specification, and whose brackets and braces close within their parts.
- OscMessageLaws.WriteBack: asks for values of all arguments, which excludes blobs whose length plus four wraps; `OscMessageLaws.OnlyWrappedBlobsHaveNoValue` shows that nothing else is excluded, and `OscMessageLaws.AcceptedIsItsParts` covers those too.
- OscMessageLaws.AcceptedIsInjective: asks for the same; `OscMessageLaws.BytesDecide` does without.
- OptparseSpelling.ShortIsFound: for tables without the letter ':', which separates the letters of the getopt string.
- OptparseLaws.Run: excludes an unknown letter after a valid flag in one cluster, where the source keeps its position for the next option.
- Optparse.OptparseState.OptparseLong: excludes the state after such a letter, in which the position lies outside the cluster.
- optparse: `optparse` called directly, `permute` switched off, `optparse_arg`, `longindex`, the error text and the fixed size of the short option string.
- PcmBuffers.AudioStruct.FromFloatToRaw: leaves out S24_3BE, whose two sizes differ (`PcmBuffers.SizesAgree`), and vector builds of the three formats whose periods do not fill blocks (`PcmBuffers.BlocksFit`), where the source writes beyond its buffers.
- PcmBuffers.AudioStruct.FromRawToFloat: leaves out the same.
- PCM: the float formats (byte copies and swaps), the channel count of zero with a scalar build, and the arithmetic of sizes beyond 32 bits.
- PcmRing.Pcm.TransferAreas: for a transfer within the true space of a ring of which three fit in an int; the exactly full ring across the boundary is described by `PcmRing.PlaybackAvailIsRoom`.
- PCM ring: opening, starting, waiting, overruns, the kernel's own calls (the card's pointer wraps at the boundary and advances by any amount that does not overtake the program), and `pcm_mmap_transfer` around the copying loop.
- SendRing.DeliveredIsPrefixOfSent: assumes fewer than 100 waiting items, which the source takes for granted from the size of the ring; `SendRing.OnlyTheLastArrive` says what happens otherwise to a client that had caught up; stores to a slot are atomic, and handing an item to the sockets is not modelled.
- ScopeTrigger.Scope.Log: leaves out the moments at which the ring's writer overtakes its reader, which the source does not check.
- Oscilloscope: changes of settings while it runs or between runs (the ring holds zeros at the start), down-sampling and the busy flags that drop samples, and the frequency domain.
- ScopeTrigger.Scope.constructor: the offset is at most four frames to the right, beyond which the source indexes before the buffer.
- KnnClassification.Classify: leaves out no examples with k above zero, where the source indexes outside its examples.
- Nearest neighbours: the Euclidean distance itself (any non-negative distances) and training.
- The insertion-ordered map: hints, ranges, swap and assignment.
- Not modelled at all: the Arduino queue, MIDI parsing, filters, oscillators, granular synthesis, neural networks, sensors, mixer paths, files, sockets and threads beyond those above.
