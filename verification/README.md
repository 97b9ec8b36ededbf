# Alacritree, verified

A Dafny model of the parts of alacritree that hold real state or arithmetic, with
proofs of what they promise:

- **Colour glyphs** (`ColorGlyphs`, `ColorGlyphCache`, `ColorGlyphAgreement`,
  `ColorGlyphHistory`, `Resample`): an LRU cache of rasterized glyphs with a byte
  budget, a memo of the font that owns each character, and invalidation when the
  cell is resized. The class is proved to compute one specification function; that
  function is proved to answer, over whole runs, what a lookup without any cache
  answers, exactly when the fonts satisfy two stated conditions, and, asked as the
  terminal asks, to hold exactly the most recently shown glyphs that fit. Fitting and
  bilinear resampling are over exact real numbers; resampling is proved to reproduce
  every surface that is straight along both axes.
- **Clipboard images** (`Digest`, `ClipboardImage`, `PasteRuns`): the FNV-1a digest
  as arithmetic modulo 2^64, the content-addressed directory it names files in, and
  runs of pastes and delayed sweeps in any interleaving.
- **Sessions** (`Walks`, `Sessions`, `SessionDrops`, `DisplayOrder`, `StableSort`):
  one flat list interleaving many workspaces, reordered by neighbour swaps, and the
  two ways its order is displayed.
- **Closing** (`SessionRing`, `RingRepeats`, `CloseLandings`, `Neighbours`,
  `AppState`, `ReturnHistory`, `CloseSessions`, `CloseOutcomes`, `AlacritreeApp`): which
  session takes over, which tabs go back to another after any run, where the view goes
  under each policy, and the application object that carries it out.
- **The sidebar's cursor** (`SidebarFocus`, `FilterEpisodes`, `PaneListings`, `Snapshots`,
  `SnapshotRows`, `SnapshotNodes`, `Shadows`, `CursorLandings`, `ClosedTabs`, `FollowedCloses`,
  `TabCloseCases`): the rows a workspace lists, the tree built from all of them, and
  the repair of the cursor over two such trees, which under `sidebar_focus = "follow"`
  has the last word. The main theorem runs from any projects, sessions, listed panes,
  active entries, tabs to return to and policy to the row the cursor lands on when the
  tab under it closes, and to the session the terminal then shows. A second one follows
  the cursor over any run of passes under a filter.
- **Built-in glyphs** (`Canvas`, `LineTables`, `Lines`, `TileTables`, `Tiles`): the
  pixel buffer, the light and heavy line characters, quadrants and sextants, in
  cells of every size. Pixel arithmetic is on exact integers: a bound that the
  program computes as half of an integer in floating point and truncates is written
  as that truncation.
- **Activity** (`Estimates`, `ScanRoots`, `Activities`, `ActivityRuns`): the
  refreshes and scans behind the status row, and their time estimate as a
  scheduling bound.
- **Key bindings** (`Escapes`, `Bindings`): the escape decoder, and how configured
  bindings replace the defaults.

Code that works in place is a class or a method with loops, proved against a
specification function; the properties are lemmas about that function, or about
whole runs of it. `Options` and `Seqs` hold shared helpers.

Modelling choices a reader should know:

- Fonts are functions from a path and a face to file contents, cmap and raster. A
  lookup's `cells` argument is not part of the cache key in the program, so the
  agreement theorem speaks of the widths that callers ask for.
- A directory is a map from names to a modification time and contents. A sweep
  reads the time of the file in use when it runs, not when it is queued, so a run is
  any interleaving of pastes and sweeps.
- Session order, ranks of panes, projects, gone checkouts and the outcome of
  spawning a shell are parameters, arbitrary unless a contract says otherwise. So is
  the row a reconciler pass offers to follow, limited to what is open, which
  `CursorLandings.SnapshotsOfferWhatIsOpen` proves of the program's own choice.
- The comment at `alacritree/src/app.rs:4164-4167` says a path that two projects list
  changes no answer of the ring. It can: `RingRepeats.SecondListingChangesTheLanding`
  gives the sessions and the order, and `RingRepeats.SecondListingMattersExactlyWhen`
  says when it does.
- The comment at `alacritree/src/app.rs:4094-4096` says a close that moves both the
  active entry and the cursor cannot point them at different siblings. With a
  multiplexer's panes it can: `TabCloseCases.PanesPartCursorAndTerminal` gives the
  sessions and closes two of their tabs, and
  `ClosedTabs.CursorAndTerminalAgreeExactlyWhen` says when it cannot, whichever tab is
  active or returns where. Under follow the terminal goes to whatever session the
  cursor lands on, or is left alone with; on a pane's row nothing is offered and the
  two stay apart (`FollowedCloses.TerminalFollowsTheCursor`).
- The comments at `alacritree/src/sidebar_focus.rs:206-215` leave a row that the filter
  hides parked, and give it back once it is visible again. Not when the row that the
  cursor waits on meanwhile leaves the tree: then the parked row is forgotten.
  `FilterEpisodes.WaitingCanBeDisturbed` gives the trees, on which the row itself is in
  the model throughout, and `FilterEpisodes.CursorComesBackExactlyWhen` says when the
  cursor does come back.
- Two things happen between a close and the pass that repairs the cursor, both by
  default: a tasks or scratchpad tab puts the cursor on the tab it returns to, and
  emptying the workspace on screen opens a shell there. The theorems take the cursor
  and the sessions as the close leaves them.
- A session attached to a pane is closed by detaching it: its pane keeps running, and
  its row comes back unattached in the same place while its multiplexer lists it in
  that workspace. A listing is a sequence of panes, each once, with the workspace it
  would be listed under; the rank of a pane is its place in it.
- Unescaping follows the standard library's number parser, which also accepts one
  leading plus sign.

## Model

| member | source | states |
|---|---|---|
| ColorGlyphCache.ColorGlyphCache.constructor | alacritree/src/color_glyph.rs:73-88 | a new cache is empty, with its budget in megabytes |
| ColorGlyphCache.ColorGlyphCache.Get | alacritree/src/color_glyph.rs:95-154 | cache and result are exactly those of the lookup specification, whose uncached answer is the first claiming face's picture (`ColorGlyphs.UncachedDraws`); the byte count stays the sum over the entries, entries and ticks keep the same keys with distinct ticks, and no subtraction saturates |
| ColorGlyphCache.ColorGlyphCache.Render | alacritree/src/color_glyph.rs:138-153 | a drawn glyph is cached as the most recent and room is made; a missing one is remembered as missing |
| ColorGlyphCache.ColorGlyphCache.ClaimingIndex | alacritree/src/color_glyph.rs:157-174 | the index of a face whose file has the character while no face before it in the chain does; none exactly when no face has it |
| ColorGlyphCache.ColorGlyphCache.Coldest | alacritree/src/color_glyph.rs:246-252 | the character with the lowest tick, which is the coldest in recency order and never the one to keep |
| ColorGlyphCache.ColorGlyphCache.EvictToBudget | alacritree/src/color_glyph.rs:244-260 | evicts from the cold end until the bytes fit or one glyph is left, and terminates |
| ColorGlyphCache.ColorGlyphCache.Load | alacritree/src/color_glyph.rs:272-282 | a path is mapped only if it is not remembered, is remembered afterwards, and is always answered with what the file holds; other entries stay |
| ColorGlyphs.ClaimingIsFirst | alacritree/src/color_glyph.rs:157-174 | the specified index is i if and only if face i claims the character and none before it does, and nothing if and only if no face claims it |
| ColorGlyphs.UncachedDraws | alacritree/src/color_glyph.rs:95-174 | what a lookup without a cache draws: nothing in an empty cell or when no face claims the character; otherwise the raster of the first face that claims it, at one cell of width or more |
| ColorGlyphs.TotalIsTextureBytes | alacritree/src/color_glyph.rs:138-153 | the byte count is the size of the pictures kept, four bytes a pixel |
| ColorGlyphs.EvictedIsFit | alacritree/src/color_glyph.rs:244-260 | evicting glyph by glyph leaves exactly the suffix of the recency order that one cut would |
| ColorGlyphs.FitIsSuffix | alacritree/src/color_glyph.rs:244-260 | what survives is a suffix of the recency order and never loses the glyph just inserted |
| ColorGlyphs.FitFits | alacritree/src/color_glyph.rs:244-260 | what survives is within the budget, or is one glyph alone |
| ColorGlyphs.LongerSuffixOverflows | alacritree/src/color_glyph.rs:244-260 | no longer suffix of the recency order fits, so nothing is dropped that could have stayed |
| ColorGlyphs.LookupIsWellFormed | alacritree/src/color_glyph.rs:95-154 | every lookup keeps entries, memo and recency order consistent with one another |
| ColorGlyphAgreement.LookupAgrees | alacritree/src/color_glyph.rs:95-174 | on a coherent cache one lookup answers like no cache at all and leaves a coherent cache; coherent means that every recorded index is of a face that claims the character while none before it does |
| ColorGlyphAgreement.RunAgrees | alacritree/src/color_glyph.rs:95-174 | so does every run of lookups, with any cell sizes and any evictions |
| ColorGlyphAgreement.CacheAgreesExactlyWhen | alacritree/src/color_glyph.rs:95-174 | all runs agree with the uncached lookup if and only if whether a character has artwork does not depend on the cell size and its width in cells does not change its picture |
| ColorGlyphAgreement.TerminalCacheAgreesExactlyWhen | alacritree/src/color_glyph.rs:95-174 | with one width per character, the cell size condition alone is necessary and sufficient |
| ColorGlyphAgreement.ArtworkAtOneSizeIsMissed | alacritree/src/color_glyph.rs:123-145 | fonts and a run of two lookups on which the memo, kept across a resize, misses a glyph |
| ColorGlyphHistory.TerminalCacheHoldsTheLatest | alacritree/src/color_glyph.rs:95-154 | with one width per character, as the terminal asks, over every run of lookups, resizes included, the cache holds exactly the most recently shown glyphs since the last resize: the longest suffix of that history within the budget, or its last glyph alone, whatever was evicted on the way |
| ColorGlyphHistory.MonochromeIsRemembered | alacritree/src/color_glyph.rs:123-145 | a character answered with nothing once, in a cell that is not empty, is answered with nothing after any further run, at any cell size and width |
| ColorGlyphHistory.PictureIsRemembered | alacritree/src/color_glyph.rs:116-119 | after any further run at the same cell during which it was not evicted, a cached glyph is what its character is answered with, at any width |
| Resample.FittedFillsTheBox | alacritree/src/color_glyph.rs:206-223 | a fitted raster is at least 1x1, inside the box, fills one of its sides, is centred to a pixel, and is within half a pixel of the source's aspect unless a side would vanish |
| Resample.ScaleRgba | alacritree/src/color_glyph.rs:286-322 | every byte of the output is the sample at its pixel and channel, which `Resample.RampsAreReproduced` shows to be bilinear; equal sizes return the input |
| Resample.AxisStaysInside | alacritree/src/color_glyph.rs:296-305 | the two source coordinates read along an axis exist and the weight is a fraction |
| Resample.TexelIsInside | alacritree/src/color_glyph.rs:307-310 | the byte read for a texel and channel lies in the buffer |
| Resample.SampleStaysWithin | alacritree/src/color_glyph.rs:307-318 | an output channel lies between the least and the greatest source value of that channel |
| Resample.RampsAreReproduced | alacritree/src/color_glyph.rs:295-320 | a channel whose bytes are a * x + b * y + t * x * y + c comes out, in every byte of the result, as that function at the centre of the destination pixel in source pixels, held between the outermost centres, to within half a level; whatever the sizes |
| Resample.SampleMirrors | alacritree/src/color_glyph.rs:295-320 | mirroring the source mirrors the result, so samples sit at pixel centres and both edges are treated alike |
| Resample.SampleTransposes | alacritree/src/color_glyph.rs:295-320 | transposing the source transposes the result, so both axes follow one rule |
| Resample.EqualSizesAreTheIdentity | alacritree/src/color_glyph.rs:287-289 | at equal sizes the general path would be the identity too, so the shortcut changes nothing |
| Digest.StableDigest | alacritree/src/digest.rs:7-14 | the loop computes the FNV-1a fold modulo 2^64 |
| Digest.XorBit | alacritree/src/digest.rs:10 | a bit of an exclusive or is set exactly when it is set in one of the two words |
| Digest.DigestsAreStable | alacritree/src/digest.rs:20-26 | the digests of nothing and of the letter a are the two that the repository pins |
| Digest.StepIsBijective | alacritree/src/digest.rs:9-12 | each step is a bijection of the 64-bit hash for a fixed byte, with an explicit inverse |
| Digest.FoldIsBijective | alacritree/src/digest.rs:7-14 | so is a whole run of bytes |
| Digest.StepSeparatesBytes | alacritree/src/digest.rs:9-12 | from one hash, different bytes lead to different hashes |
| Digest.CommonSuffixKeepsCollisions | alacritree/src/digest.rs:7-14 | appending the same bytes neither makes nor removes a collision |
| Digest.OneByteChangesTheDigest | alacritree/src/digest.rs:7-14 | inputs that differ in exactly one byte never collide |
| ClipboardImage.GeneratedNameShape | alacritree/src/clipboard_image.rs:303-307 | a name is recognised exactly when it is clipboard-, sixteen characters out of 0-9, a-f and A-F, and .png |
| ClipboardImage.FileNameIsGenerated | alacritree/src/clipboard_image.rs:56-58 | every stored name is one the sweep recognises |
| ClipboardImage.FileNameSpellsTheDigest | alacritree/src/clipboard_image.rs:56-58 | the sixteen digits of a stored name, none upper-case, read as the image's digest |
| ClipboardImage.FileNameCarriesTheDigest | alacritree/src/clipboard_image.rs:56-58 | two images share a name exactly when they share a digest |
| ClipboardImage.OneByteChangesTheName | alacritree/src/clipboard_image.rs:56-58 | images of one length that differ in one byte get different files |
| ClipboardImage.ImageDir.Reusable | alacritree/src/clipboard_image.rs:163-174 | true exactly for a file of the right length, whose timestamp it then refreshes |
| ClipboardImage.ImageDir.Store | alacritree/src/clipboard_image.rs:67-78 | returns the content-addressed path and changes that one entry |
| ClipboardImage.ImageDir.ApplyCap | alacritree/src/clipboard_image.rs:243-297 | deletes only generated names other than the one in use and strictly older than it, keeps at most max(keep, 1) - 1 of those, and deletes none newer than one it keeps |
| PasteRuns.RecentPastesSurvive | alacritree/src/clipboard_image.rs:67-85 | from a directory whose generated files are older than the run, in any interleaving of pastes and delayed sweeps, the max(keep, 1) most recently pasted names are present, and nothing generated is there that was not pasted or left by earlier runs |
| PasteRuns.SweptDirectoryHoldsTheNewest | alacritree/src/clipboard_image.rs:232-297 | after the sweep for the latest paste the directory holds exactly max(keep, 1) generated files, or all there ever were: of the pasted names the most recent, then the newest of what earlier runs left |
| PasteRuns.HoldsNewestFromEmpty | alacritree/src/clipboard_image.rs:232-297 | from a directory without generated files these are exactly the max(keep, 1) most recently pasted distinct names |
| PasteRuns.PastingKeepsTheMostRecent | alacritree/src/clipboard_image.rs:67-85 | so it is after any sequence of paste-then-sweep; pasting an old image again moves it to the front |
| PasteRuns.LatestPasteSurvives | alacritree/src/clipboard_image.rs:232-297 | even when the clock stands still, no sweep deletes the path the latest paste returned |
| PasteRuns.ForeignFilesAreUntouched | alacritree/src/clipboard_image.rs:303-307 | over any run a file with another kind of name keeps its contents and time |
| PasteRuns.StepKeepsContentAddressed | alacritree/src/clipboard_image.rs:67-78 | every generated file always holds bytes its name was made from |
| PasteRuns.StoredPathHoldsTheImage | alacritree/src/clipboard_image.rs:163-174 | the returned path holds the image, or one of the same size and digest that differs in more than one byte |
| Walks.WalkSwaps | alacritree/src/app.rs:3950-3966 | the loop produces the specified neighbour swaps |
| Walks.WalkMoves | alacritree/src/app.rs:3950-3966 | applying them takes the element out of its slot and reinserts it at the position, leaves every slot outside the indices alone and permutes the list |
| Sessions.MoveTargetPutsBefore | alacritree/src/app.rs:3918-3927 | the slot arithmetic puts the row right before the row dropped on, or last, and answers nothing exactly when that is the identity |
| Sessions.PutBeforeLands | alacritree/src/app.rs:3918-3927 | the reference meaning of a drop: the row is followed by the one it was dropped on and the others keep their order |
| Sessions.ReorderMovesOneRow | alacritree/src/app.rs:1870-1878 | a reorder moves one row among its workspace's rows and leaves every other slot of the list as it is |
| SessionDrops.DropWithinAWorkspace | alacritree/src/app.rs:1896-1915 | a drop in the same workspace puts the row right before the one it was dropped on; the list changes exactly if that moves it; other rows and slots stay |
| SessionDrops.DropAcrossWorkspaces | alacritree/src/app.rs:1896-1915 | a drop of a shell in another workspace inserts the row there, removes it where it was, and changes no third workspace |
| SessionDrops.OthersAreNotDropped | alacritree/src/app.rs:1727-1746 | a session attached to a pane is not dropped anywhere, and a scratchpad, tasks tab or diff not into another workspace |
| SessionDrops.OtherRowsStay | alacritree/src/app.rs:1870-1878 | reordering one workspace leaves every other one's rows alone |
| DisplayOrder.WorkspaceDisplayIndices | alacritree/src/app.rs:1818-1831 | the loop and stable sort compute the specified display order |
| DisplayOrder.DisplayIndicesShowDisplayedIds | alacritree/src/app.rs:1818-1831 | sorting positions shows the sessions as sorting the sessions would |
| DisplayOrder.ListedWorkspaceRows | alacritree/src/app.rs:3105-3148 | the rows gathered for the sidebar are those the specification lists |
| DisplayOrder.RowsFollowTheRings | alacritree/src/app.rs:4021-4035 | the sessions in a workspace's rows are in exactly the order the rings give, unlisted panes included, if and only if it is not a lone shell below the listing threshold |
| SessionRing.SearchIsNearest | alacritree/src/app.rs:4178-4189 | the search answers the nearest survivor after the removed span, else the nearest before it, else nothing, exactly when there is none |
| SessionRing.LandingIsNearest | alacritree/src/app.rs:4168-4192 | the landing prefers the project's entries and is the global search exactly when the project has none outside the span |
| SessionRing.NoLandingExactlyWhen | alacritree/src/app.rs:4168-4192 | there is no landing exactly when no removed id is in the ring or nothing outside the span survives |
| SessionRing.ContiguousRemovalLands | alacritree/src/app.rs:4168-4192 | for a contiguous removal there is none exactly when nothing survives at all |
| SessionRing.LandingSurvives | alacritree/src/app.rs:4168-4192 | a landing is never a removed session |
| CloseLandings.CloseLanding | alacritree/src/app.rs:4097-4119 | the loop answers the first sibling, or under follow the successor, else the predecessor |
| CloseLandings.CloseLandingMatchesTheRing | alacritree/src/app.rs:4097-4119 | for one removal under follow, the session that takes over is the one that a ring of the workspace's own list would land on |
| Neighbours.SameNeighboursExactlyWhen | alacritree/src/app.rs:4094-4096 | two orders of the same sessions give every session the same successor, or for the last the same predecessor, if and only if they are one order or hold two at most |
| Neighbours.RingAgreesExactlyWhen | alacritree/src/app.rs:2101-2118 | over the program's global ring, which is in display order and goes on through the other workspaces, the follow rule picks what the ring lands on for every tab of a workspace that the order lists once if and only if nothing follows the workspace in the ring, nothing comes before it either if it has one tab, and its list is in display order or has two tabs at most |
| RingRepeats.SecondListingMattersExactlyWhen | alacritree/src/app.rs:4163-4192 | for the ring of any order that lists one workspace twice and any removal, leaving the second listing out keeps the answer if and only if, in the group that decides, the search does not come to that listing or gets back to the same session; both are stated by where the span and the listings lie and where survivors stand |
| RingRepeats.UnlistedRemovalLandsNowhere | alacritree/src/app.rs:4173-4176 | a removal the ring does not hold lands nowhere, listed twice or not |
| RingRepeats.SecondListingChangesTheLanding | alacritree/src/app.rs:4163-4167 | sessions 1, 2 and 3 in /a, /b and /c, with /a listed by two projects: closing 3 lands on 1, and on 2 if /a is listed once |
| AppState.RemoveOneIsConsistent | alacritree/src/app/session_list.rs:95-125 | a removal takes exactly that session out, and every active entry still names an open session of its own workspace |
| AppState.RemoveEachIsConsistent | alacritree/src/app/session_list.rs:95-125 | the same for any list of ids |
| AppState.RemovedInOrder | alacritree/src/app/session_list.rs:95-125 | several sessions are removed one after the other in the order given, each hand-over seeing the one before |
| AppState.RemovalHandsOver | alacritree/src/app/session_list.rs:90-125 | no other entry changes; the active tab's entry goes to the tab it took over from, if returning is on and that is open, else under follow to the session that a ring of the workspace's own list lands on, else to the first one left |
| AppState.SetActiveIsConsistent | alacritree/src/app/session_list.rs:60-70 | making an open session active keeps the entries consistent |
| ReturnHistory.EntriesAreHistory | alacritree/src/app/session_list.rs:60-88 | over any run of tabs opening, being activated, moving and closing, in any order and under any settings: a tab has another to return to if and only if it is an open scratchpad or tasks tab, and that other is the one active in its workspace just before the tab was last brought up over another |
| ReturnHistory.ClosingGoesBackExactlyWhen | alacritree/src/app/session_list.rs:72-125 | after any run, closing a workspace's active tab goes back to the tab it was last brought up over if returning is on, it is a scratchpad or tasks tab, and that other is still open there; otherwise the entry goes where the sibling rule says |
| ReturnHistory.ShellsNeverGoBack | alacritree/src/app/session_list.rs:64-69 | after any run, closing an active shell or diff hands the entry to the sibling, whatever was active before it |
| ReturnHistory.CursorGoesBackExactlyWhen | alacritree/src/app.rs:1560-1575 | after any run, a close takes the sidebar's cursor along exactly when it is on the row of a closed tab that goes back, and then to the tab gone back to |
| AppState.MovedToIsConsistent | alacritree/src/app/session_list.rs:130-163 | re-homing a session keeps the entries consistent, and the view follows it when it was on screen |
| AppState.MoveRepairsEntries | alacritree/src/app/session_list.rs:127-163 | what the workspaces a session leaves and joins show afterwards, that no third entry changes, and when the view follows |
| AppState.DropIsConsistent | alacritree/src/app.rs:1896-1915 | so does every drop |
| AppState.DropMovesWhatMayGo | alacritree/src/app.rs:1727-1746 | a drop leaves the state alone for a session attached to a pane, and into another workspace for all but shells; within its workspace it changes the order alone; else the session is held by the other workspace and no longer by its own, with entries and view as for any move |
| CloseOutcomes.VerdictIsSound | alacritree/src/app.rs:4127-4142 | a verdict that moves the view names a session or workspace that outlived the removal, or home |
| CloseOutcomes.CloseStrandsExactlyWhen | alacritree/src/app.rs:1549-1643 | closing from a live view, except after a failed spawn, the view ends on a live workspace or home once the reconciler has run, if and only if it is not the respawn policy emptying the workspace on screen with a spawn that fails and no row offered to follow |
| CloseOutcomes.DeletedWorkspaceIsLeft | alacritree/src/app.rs:1573-1619 | a deletion that empties the workspace on screen never ends in it or opens a shell in it, under every policy |
| CloseOutcomes.FailedSpawnMovesExactlyWhen | alacritree/src/app.rs:4080-4085 | after removing a session that never got a shell, view and active entries stay if and only if follow is off, no row is offered, or the row offered is on screen already |
| CloseOutcomes.QuietCloseMovesExactlyWhen | alacritree/src/app/focus.rs:91-117 | what a close that decides nothing does: that, and otherwise the offered row is shown and active; the sessions are those the removal left |
| CloseOutcomes.CloseElsewhereMovesExactlyWhen | alacritree/src/app.rs:1559-1562 | the same after closing tabs of another workspace, or some of this one, under every policy |
| CloseOutcomes.ClosingElsewhereCanMoveTheView | alacritree/src/app.rs:1559-1562 | with /a on screen and the cursor on the middle of three tabs in /b, closing that tab takes the terminal to /b under follow, and not otherwise |
| CloseOutcomes.NavigateShowsTheMainOrHome | alacritree/src/app.rs:4136-4141 | under navigate the view goes to the row offered to follow, and nothing is opened; without one to the main checkout if it is live and nothing was deleted, else home, as `CloseOutcomes.ShownWorkspace` says |
| CloseOutcomes.ShownWorkspace | alacritree/src/app.rs:1503-1532 | a workspace brought on screen shows the tab that was active there, or else the first one displayed there, or a fresh shell if it is empty and one can be opened; no other session or entry changes |
| CloseOutcomes.WorktreeIsShownExactlyWhen | alacritree/src/app.rs:1477-1496 | a worktree is shown unless its directory is gone and nothing runs in it; then nothing changes |
| CloseOutcomes.OfferIsShown | alacritree/src/app/focus.rs:136-153 | an offered workspace is shown with the tab active there, or the first of its list when none is; an offered tab in its own workspace; no other entry changes |
| CloseOutcomes.RespawnStaysInPlaceExactlyWhen | alacritree/src/app.rs:1604-1609 | under respawn the workspace holds a fresh active shell exactly when one could be spawned; the view stays there unless a row is offered to follow, which is then shown |
| CloseOutcomes.RingPolicyShowsTheLanding | alacritree/src/app.rs:1595-1603 | under a ring policy, emptying the workspace on screen shows the session the ring lands on, and it is active, when no row is offered to follow |
| AlacritreeApp.AlacritreeApp.WorkspaceReorderIndices | alacritree/src/app.rs:1803-1810 | the slots of the workspace's sessions whose place no multiplexer owns |
| AlacritreeApp.AlacritreeApp.ReorderSessionWithinWorkspace | alacritree/src/app.rs:1870-1878 | the list becomes the specified reordering, nothing else changes |
| AlacritreeApp.AlacritreeApp.MoveSessionToKey | alacritree/src/app.rs:1727-1746 | moves a session that may leave, with active entries and view, and says whether it did |
| AlacritreeApp.AlacritreeApp.ApplySessionMove | alacritree/src/app.rs:1884-1893 | the move and then the walk, or nothing at all |
| AlacritreeApp.AlacritreeApp.ApplySessionDrop | alacritree/src/app.rs:1896-1915 | the whole state after a drop is the specified one |
| AlacritreeApp.AlacritreeApp.MakeActive | alacritree/src/app/session_list.rs:60-70 | sets the entry and the tab it returns to, the transition of whose runs `ReturnHistory.EntriesAreHistory` speaks |
| AlacritreeApp.AlacritreeApp.RemoveOneSession | alacritree/src/app/session_list.rs:95-125 | one removal with its hand-over of the active entry |
| AlacritreeApp.AlacritreeApp.EnsureActiveSession | alacritree/src/app.rs:1503-1518 | adopts or spawns a session for the workspace on screen unless its checkout is gone |
| AlacritreeApp.AlacritreeApp.AdoptActiveSession | alacritree/src/app.rs:1524-1532 | the first session drawn for the workspace becomes active |
| AlacritreeApp.AlacritreeApp.ApplyCloseFallback | alacritree/src/app.rs:1625-1643 | each verdict acted on as specified |
| AlacritreeApp.AlacritreeApp.CloseSessions | alacritree/src/app.rs:1549-1621 | the state after a close, the verdict it defers, and the cursor, taken to the tab that the closed one under it returns to, are the specified ones |
| AlacritreeApp.AlacritreeApp.Reconcile | alacritree/src/app/focus.rs:91-127 | a pass over the trees before and after drops an anchor the user has navigated away from, and does no more unless rows changed or a verdict was deferred; then cursor and anchor are those of the repair, the transition that `FilterEpisodes` runs, under follow the offered row is shown, or else the verdict settled, and what was written is recorded |
| AlacritreeApp.AlacritreeApp.FollowTo | alacritree/src/app/focus.rs:136-153 | a session's row or a workspace's active or first session is shown |
| SidebarFocus.ClimbFrom | alacritree/src/sidebar_focus.rs:153-164 | the walk up finds an ancestor that is drawn while no nearer one is, and the first drawn row exactly when no ancestor is drawn |
| SidebarFocus.RepairedCursorIsOnScreen | alacritree/src/sidebar_focus.rs:196-266 | after a repair the cursor is on a row on screen unless there is none, and an anchor is a hidden row of the model |
| SidebarFocus.RemovedRowIsReplaced | alacritree/src/sidebar_focus.rs:101-164 | the cursor's row was the i-th on display under its parent, or among the top rows, and is gone: the cursor goes to the i-th row there now, or the last when there are fewer, or the parent when there is none, and offers it; where that is not on display, to the nearest ancestor that is, offering nothing |
| FilterEpisodes.PassKeepsExactlyWhen | alacritree/src/sidebar_focus.rs:196-266 | one pass under a filter, with the row chosen still in the model: drawn, the cursor is on it with nothing left to come back to; hidden, the cursor is elsewhere on screen and waits for it; if and only if the row is drawn or the row the cursor waited on did not leave the model |
| FilterEpisodes.CursorComesBackExactlyWhen | alacritree/src/sidebar_focus.rs:196-266 | over any run of passes under a filter without navigation, that holds after every pass if and only if no pass that leaves the row hidden takes away the row the cursor waits on |
| FilterEpisodes.HiddenRowWaits | alacritree/src/sidebar_focus.rs:153-164 | when its row is hidden, the cursor waits on the nearest ancestor drawn, or on the first row when none is |
| FilterEpisodes.DeepestRowIsKept | alacritree/src/sidebar_focus.rs:237-244 | when the row waited on is hidden too, the row to come back to stays the one first chosen |
| FilterEpisodes.StrayCursorGoesFirst | alacritree/src/sidebar_focus.rs:245-251 | a cursor on a row that neither tree has goes to the first row |
| FilterEpisodes.NavigationForgetsExactlyWhen | alacritree/src/app/focus.rs:91-127 | with a hidden row drawn again, the cursor goes back to it if and only if since the last pass the user neither moved the cursor nor showed another workspace or tab; otherwise it stays, and the row is forgotten |
| FilterEpisodes.WaitingCanBeDisturbed | alacritree/src/sidebar_focus.rs:245-262 | session 5 hidden, its project dropped while it runs, and all shown again: the cursor ends on home and the session is forgotten, though it was in the model throughout |
| SidebarFocus.OnlyARemovalOffers | alacritree/src/sidebar_focus.rs:224-266 | hiding a row never moves the terminal: something is offered only when the cursor's row was on screen and no node has it any more, and then the cursor is on the offered session's row, or the offered workspace's, on screen |
| SidebarFocus.RepairIsStable | alacritree/src/sidebar_focus.rs:196-266 | a second pass over the same tree offers nothing, and moves nothing unless a row stands in it twice |
| SidebarFocus.OfferIsOpen | alacritree/src/sidebar_focus.rs:168-189 | what a repair offers is an open session or a workspace with one, for a tree whose session rows are open sessions |
| PaneListings.RowsAfterAClose | alacritree/src/app.rs:3105-3148 | what a workspace lists once one of its tabs has closed: the tab's own pane in its place, while that is listed there and held by no other session; nothing, when a lone shell is left below the threshold; else the rows before without the tab's |
| PaneListings.RowsDifferFromEachOther | alacritree/src/app.rs:3105-3148 | no row is listed twice in a workspace |
| Snapshots.ListVisibleRows | alacritree/src/sidebar_nav.rs:73-86 | the rows on display, project by project, those of collapsed ones left out |
| Snapshots.BuildSnapshot | alacritree/src/sidebar_model.rs:264-343 | the loops build the specified tree, drawing a node if and only if the display has its row next, and detaching the sessions of workspaces without a node |
| Snapshots.SkipProjectedRows | alacritree/src/sidebar_model.rs:228-245 | a worktree being deleted takes its own row and the rows under it out of step |
| SnapshotRows.AllRowsAreMet | alacritree/src/sidebar_model.rs:341 | every row on display has been met when the tree is built, in order, a skipped worktree's included |
| SnapshotRows.SnapshotSeats | alacritree/src/sidebar_model.rs:264-343 | for all projects, sessions and listings: home, and a worktree whose first project is expanded and that is not being deleted, is drawn with exactly the rows listed for it, in order; each of its sessions, listed or not, is met under it first; and it has a session under it if and only if one is open there |
| SnapshotNodes.WorkspaceAddsEachOnce | alacritree/src/sidebar_model.rs:200-226 | a workspace adds one node for each row listed for it, in order, then an undrawn one for each of its sessions that the listing leaves out, and no other |
| SnapshotNodes.EverySessionIsModelled | alacritree/src/sidebar_model.rs:246-343 | whatever is displayed, listed, collapsed or being deleted, every running session has a node in the tree |
| Shadows.SnapshotHides | alacritree/src/sidebar_model.rs:264-343 | a worktree that a collapsed project lists first and an expanded one later is met first under the collapsed one, undrawn and with nothing drawn under it, while that project's row is drawn |
| CursorLandings.SnapshotsOfferWhatIsOpen | alacritree/src/sidebar_focus.rs:168-189 | in every tree so built, filtered or not, each session row is an open session under its own workspace or nowhere, and a repair offers only what is open |
| ClosedTabs.SessionsAtThePass | alacritree/src/app.rs:1576-1621 | what a close leaves for the next pass: the other sessions, and one fresh shell in the workspace if it was emptied on screen under respawn, or is home emptied while not following and so shown again; at most a shell elsewhere besides |
| ClosedTabs.ClosedTabLands | alacritree/src/sidebar_focus.rs:196-266 | for every sidebar and every tab it shows, and every state and policy: closing the tab under the cursor leaves cursor, anchor and offer exactly so. A tab that returns to another takes the cursor there and offers nothing; if that is a lone shell below the threshold the cursor climbs to the workspace's row, anchored to it. Otherwise it lands on: a shell opened in the emptied workspace, or the pane listed above the tab; the tab's own pane, where that returns; the row displayed next, or before the last; the workspace's row, when nothing is listed. There the session is offered, nothing on a pane, and the workspace when one session is left in it. In a worktree that a collapsed project lists first it climbs to that project's row, and nothing is offered |
| FollowedCloses.ClosingAShellTab | alacritree/src/app.rs:4021-4035 | in a workspace of shells under the first project that lists it: of two tabs, unless single rows are listed, closing either lands on the workspace's row, anchored to the tab returned to or else offering the workspace; otherwise on the tab returned to, offering nothing, or on the shell opened in place of the last one, or on the next tab of the list, or for the last the one before, offering it |
| FollowedCloses.TerminalFollowsTheCursor | alacritree/src/app/focus.rs:91-153 | under follow, once the pass is over: where a session is offered, the cursor is on its row and the terminal shows it; where the workspace is, the terminal shows the one session left there; and where nothing is, the terminal is on the tab returned to, the view unmoved, or on the shell that was opened |
| FollowedCloses.OpenedOrAPane | alacritree/src/app.rs:1604-1611 | beside a shell opened in the emptied workspace the cursor lands on that shell or on a pane |
| TabCloseCases.TasksTabReturns | alacritree/src/app.rs:1560-1575 | shells 1, 2, 3 and the tasks tab 4, active over 2: closing 4 leaves cursor and terminal on 2, offering nothing, though 3 is the row beside it |
| TabCloseCases.LoneTabIsTakenOver | alacritree/src/app.rs:1604-1611 | a lone listed tab of home, attached to a listed pane or not, closed under respawn: cursor and offer go to the new shell, also where the row of its own pane would be the landing |
| ClosedTabs.CursorAndTerminalAgreeExactlyWhen | alacritree/src/app.rs:4094-4096 | in a workspace on display under the first project that lists it, the cursor and the active entry go to one tab for every close, whichever tabs are active or return where and under every policy, if and only if it has one session at most, or: no tab's own pane would return in its place, no pane is listed below a session, and its list is in display order or has two sessions |
| ClosedTabs.AgreesExactlyWhen | alacritree/src/app.rs:4094-4096 | for one close: they do if and only if the tab returns to another, or no sibling is left, or the sibling that takes over is displayed next to the tab, its own pane not returning, or is a lone shell below the threshold |
| Neighbours.ShellsAgree | alacritree/src/app.rs:1818-1831 | without a multiplexer's panes a workspace's list is in display order |
| TabCloseCases.PanesPartCursorAndTerminal | alacritree/src/app.rs:4094-4096 | home with session 1 attached to a listed pane and shells 2 and 3: closing 3 sends the cursor to 1 and the active entry to 2, and closing 1 sends the cursor to its pane, where nothing is offered, and the entry to 2, under every policy and in every state where these tabs return nowhere |
| Canvas.Canvas.constructor | alacritree/src/builtin_font.rs:961-964 | a canvas starts blank |
| Canvas.Canvas.DrawRect | alacritree/src/builtin_font.rs:1009-1018 | fills exactly the pixels of the clipped rectangle and no other, provided no row's slice starts past its end |
| Canvas.Canvas.DrawHLine | alacritree/src/builtin_font.rs:999-1002 | fills the centred rows of the stroke along its span |
| Canvas.Canvas.DrawVLine | alacritree/src/builtin_font.rs:1004-1007 | fills the centred columns of the stroke along its span |
| Canvas.BandIsCentred | alacritree/src/builtin_font.rs:978-988 | a stroke of weight k takes exactly min(k, side) rows or columns, within a pixel of the middle |
| LineTables.ArmsOfNamed | alacritree/src/builtin_font.rs:298-354 | for every non-empty combination of arm weights, the character Unicode names after it has exactly those arms |
| LineTables.NamedArmsOf | alacritree/src/builtin_font.rs:298-354 | every line character is the one named after its arms |
| Lines.DrawLines | alacritree/src/builtin_font.rs:299-381 | the canvas shows exactly the specified ink, and no rectangle starts beyond its end; `Lines.LinesAreThisThick` and `Lines.NothingElseIsInked` say where the ink is |
| Lines.LinesAreThisThick | alacritree/src/builtin_font.rs:1184-1186 | in every column of U+2500 exactly the middle n rows are inked, where n is 1 below width 4 and else the n with 8n - 4 <= width < 8n + 4, and of U+2501 exactly the middle 2n; all of them, where the cell has no more; the same for the columns of U+2502 and U+2503 |
| Lines.NothingElseIsInked | alacritree/src/builtin_font.rs:299-381 | a pixel inked lies in the middle band of the thicker arm along one axis, and on a side without an arm no further out than the band that crosses there |
| Lines.LightInsideHeavy | alacritree/src/builtin_font.rs:978-988 | the light band lies inside the heavy one |
| Lines.RowIsUnbroken | alacritree/src/builtin_font.rs:356-376 | the thinner of two opposite horizontal arms is inked over all columns, in every cell |
| Lines.ColumnIsUnbroken | alacritree/src/builtin_font.rs:356-380 | the same for vertical arms over all rows |
| Lines.CornerIsJoined | alacritree/src/builtin_font.rs:362-380 | from any edge an arm reaches, ink runs without a gap to the other arm and along it to its edge |
| Lines.SideArmsMeetExactlyWhen | alacritree/src/builtin_font.rs:362-376 | facing arms of one weight are inked on both sides of the seam in every cell if and only if it is at least two wide |
| Lines.EndArmsMeetExactlyWhen | alacritree/src/builtin_font.rs:362-380 | the same for stacked cells at least two high |
| Lines.SideSeamsAgreeExactlyWhen | alacritree/src/builtin_font.rs:299-381 | both sides of every seam show the very same rows if and only if the cell is at least four wide |
| Lines.EndSeamsAgreeExactlyWhen | alacritree/src/builtin_font.rs:299-381 | and the same columns between stacked cells if and only if a heavy stroke leaves both ends of the height free |
| Lines.LinesLookDifferentExactlyWhen | alacritree/src/builtin_font.rs:298-381 | all eighty line characters are drawn differently from one another if and only if both of these hold |
| TileTables.QuadrantLightsItsPattern | alacritree/src/builtin_font.rs:604-627 | the quadrant tables agree with the tiles in each character's Unicode name |
| TileTables.SextantLightsItsPattern | alacritree/src/builtin_font.rs:647-712 | sextant U+1FB00+n lights pattern n+1, with 21 and 42 skipped |
| Tiles.DrawQuadrants | alacritree/src/builtin_font.rs:600-637 | the canvas shows exactly the lit quadrant tiles |
| Tiles.DrawSextants | alacritree/src/builtin_font.rs:642-720 | the canvas shows exactly the lit sextant tiles |
| Tiles.QuadrantsTile | alacritree/src/builtin_font.rs:601-636 | in every cell each pixel lies in exactly one of the four painted tiles |
| Tiles.SextantsTile | alacritree/src/builtin_font.rs:643-719 | in every cell each pixel lies in exactly one of the six painted tiles |
| Tiles.TilesAreEven | alacritree/src/builtin_font.rs:643-645 | columns and rows of tiles differ by a pixel at most, the rows exactly when the cell is over a pixel high |
| Tiles.QuadrantShowsItsPattern | alacritree/src/builtin_font.rs:600-637 | a pixel is filled exactly when its tile is in the character's pattern |
| Tiles.SextantShowsItsPattern | alacritree/src/builtin_font.rs:642-720 | the same for sextants |
| Tiles.OppositeQuadrants | alacritree/src/builtin_font.rs:600-637 | characters with opposite patterns fill exactly each other's blanks |
| Tiles.DiagonalsAreOpposite | alacritree/src/builtin_font.rs:600-637 | in particular U+259A and U+259E |
| Tiles.OppositeSextants | alacritree/src/builtin_font.rs:642-720 | sextants counted from either end of their block are complements |
| Tiles.QuadrantsLookDifferentExactlyWhen | alacritree/src/builtin_font.rs:600-637 | all quadrants are drawn differently if and only if the cell is at least two by two |
| Tiles.SextantsLookDifferentExactlyWhen | alacritree/src/builtin_font.rs:642-720 | all sextants are drawn differently if and only if the cell is at least two by three |
| Estimates.EstimateIsMissingExactlyWhen | alacritree/src/activity.rs:201-210 | there is no estimate exactly when no pending step was ever timed |
| Estimates.EstimateIsBetween | alacritree/src/activity.rs:201-210 | the estimate lies between the longest known step and the sum of the known steps |
| Estimates.EstimateIsTheLeast | alacritree/src/activity.rs:201-210 | the estimate is the least whole time that is no shorter than any pending step's recorded time and in which four lanes hold the total of them |
| Estimates.EstimateBoundsEverySchedule | alacritree/src/activity.rs:198-210 | no assignment of the pending steps to four lanes ends before the estimate |
| Estimates.DispatchEndsWithinTwice | crates/alacritree_gh/src/lib.rs:191-213 | workers that take the steps in order from one queue end within twice the estimate, also when some are under way and have less of their time left |
| Estimates.DispatchExists | crates/alacritree_gh/src/lib.rs:191-213 | such a dispatch exists for every list of steps |
| ScanRoots.RootsFollowTheirHistories | alacritree/src/activity.rs:130-152 | after any events the roots are distinct and each is in the state its own events give it |
| ScanRoots.OnlyItsOwnEventsMatter | alacritree/src/activity.rs:130-152 | a root's state does not depend on events about other roots |
| ScanRoots.FirstResultWins | alacritree/src/activity.rs:138-144 | once answered, a root keeps that answer whatever follows |
| ScanRoots.TotalIsJoinedLessDeparted | alacritree/src/activity.rs:146-152 | the total is the roots registered less those that left unfinished |
| ScanRoots.AllAnsweredExactlyWhen | alacritree/src/activity.rs:175-175 | a scan has nothing left to wait for exactly when no root's history is open |
| Activities.Activities.ScanStarted | alacritree/src/activity.rs:130-136 | registers a root of the running scan once |
| Activities.Activities.ScanFinished | alacritree/src/activity.rs:138-144 | records a root's first result |
| Activities.Activities.ScanLeft | alacritree/src/activity.rs:148-152 | drops an unanswered root |
| Activities.Activities.Tick | alacritree/src/activity.rs:156-191 | folds the readers' finished steps into the timings, then ends a settled refresh and a fully answered scan, as specified |
| Activities.PrOutcome | alacritree/src/activity.rs:216-243 | the loops gather exactly the specified reports and judge them |
| Activities.Activities.FailedStatus | alacritree/src/activity.rs:316-328 | the failure line shows the failure's counts and its first error, which always exists |
| ActivityRuns.PrEndsWellExactlyWhen | alacritree/src/activity.rs:216-243 | a refresh ends well exactly when every batch did, and with nothing to check exactly when no batch declared a step or panicked |
| ActivityRuns.FailuresAreBlamed | alacritree/src/activity.rs:216-243 | a failed refresh names exactly the steps that ended in an error, those left by a batch that crashed, as a crash, or was given up, as a time-out, and the lookup of a batch that crashed before any; the total counts every step, and one for each such lookup |
| ActivityRuns.RefreshEndsExactlyWhen | alacritree/src/activity.rs:109-174 | a refresh ends at the first tick after it was settled and at none before, its ending read from every batch that joined it, which is the last result unless a scan ends at that tick too |
| ActivityRuns.TickTimes | alacritree/src/activity.rs:156-174 | every tick times the newly finished steps, also the one that ends the refresh |
| ActivityRuns.EventsChange | alacritree/src/activity.rs:88-152 | a trigger joins what is running, and only ticks and the report that checks are off change the last result |
| ActivityRuns.TickingTwiceIsTickingOnce | alacritree/src/activity.rs:156-191 | a second tick on unchanged reports changes nothing, timings included |
| ActivityRuns.FoldReadersTimes | alacritree/src/activity.rs:157-167 | a name's timing after a fold is the success newly reported by the last reader that has one, counting only the first ended step of the name in each reader, and else what it was |
| ActivityRuns.FailuresInReports | alacritree/src/activity.rs:236-242 | failures are exactly the erroneous reports, the first one first |
| ActivityRuns.RunsAreSound | alacritree/src/activity.rs:88-191 | over any run roots stay distinct and a failure shown has between one and total failures |
| ActivityRuns.TimingsWereReported | alacritree/src/activity.rs:157-166 | every timing in the table was reported as a success by some reader at some tick |
| ActivityRuns.ScanEndsExactlyWhen | alacritree/src/activity.rs:172-190 | a scan ends at the first tick when no root is pending, fails exactly when some first answer is an error, and totals the roots registered less those that left |
| Escapes.Unescape | alacritree/src/bindings.rs:1431-1469 | the loop computes the decoding specified |
| Escapes.DecodeUndoesSpelling | alacritree/src/bindings.rs:1431-1469 | for any string and any spelling of each character, decoding the spellings gives the string back |
| Escapes.EveryCharacterHasSpellings | alacritree/src/bindings.rs:1431-1469 | plain, doubled, two-digit and four-digit spellings exist for every character in their range, digits in either case |
| Escapes.NumberExactlyWhen | alacritree/src/bindings.rs:1449-1455 | digits parse exactly when they are all hexadecimal and at least one, after at most one plus sign |
| Escapes.NumericEscapes | alacritree/src/bindings.rs:1447-1461 | a numeric escape takes two digits after x and four after u, or those left where the text ends, and yields their character, or vanishes when they are no number or name a surrogate |
| Escapes.UnknownEscapesStay | alacritree/src/bindings.rs:1462-1466 | an unknown escape and a final backslash stay as they are |
| Escapes.PlainTextIsKept | alacritree/src/bindings.rs:1434-1438 | decoding is the identity on text without a backslash |
| Escapes.DecodeShortens | alacritree/src/bindings.rs:1431-1469 | decoding never lengthens a text, and keeps its length exactly when it changes nothing |
| Escapes.DecodeFits | alacritree/src/bindings.rs:1432-1432 | nor does its UTF-8 size grow, so the room reserved suffices |
| Bindings.OneTriggerExactlyWhen | alacritree/src/bindings.rs:128-136 | a press fires at most one set of modifiers if and only if it does not carry both Control and Command |
| Bindings.ExactModifiersFire | alacritree/src/bindings.rs:128-136 | where Control raises Command and none is named, exactly the press's own modifiers fire |
| Bindings.SplitThenJoin | alacritree/src/bindings.rs:1371 | splitting at bars loses nothing and leaves no bar in a piece |
| Bindings.JoinThenSplit | alacritree/src/bindings.rs:1371 | pieces without a bar come back from being joined with bars |
| Bindings.ParseMods | alacritree/src/bindings.rs:1369-1391 | each modifier is raised exactly when some trimmed piece names it; off macOS nothing is bound exactly when one names Command |
| Bindings.EverySetCanBeWritten | alacritree/src/bindings.rs:1369-1391 | every set of modifiers has a spelling that means exactly it; off macOS, exactly those without Command |
| Bindings.TrimTakesTheBlanks | alacritree/src/bindings.rs:1372 | trimming takes the white space around a name and no more |
| Bindings.SpacedNamesMean | alacritree/src/bindings.rs:1369-1391 | any names between bars, in any order and spacing, raise exactly the modifiers named Alt or Option, Control or Ctrl, Shift, and Super, Command or Meta; off macOS one of the last three binds nothing |
| Bindings.ParseBindings | alacritree/src/bindings.rs:737-782 | the user's bindings in order, then the defaults whose trigger no user binding has |
| Bindings.EntryBindsExactlyWhen | alacritree/src/bindings.rs:739-768 | an entry binds if and only if it has no mode, its key is known and its modifiers are none or can be had; it sends its text decoded, or without one does the action it names, or without either runs its command |
| Bindings.SpelledTextIsSent | alacritree/src/bindings.rs:739-768 | however the text is spelled, an entry sends the text itself, whatever action or command it names besides |
| Bindings.EntriesBindInOrder | alacritree/src/bindings.rs:737-768 | entries are bound one by one, independently and in order |
| Bindings.StaysExactlyWhen | alacritree/src/bindings.rs:769-781 | a default that a press fires is kept exactly when the press fires none of the user's bindings |
| Bindings.MergeNeverMixes | alacritree/src/bindings.rs:769-781 | what a press runs is all the user's or all defaults |
| Bindings.OffMacPressesRunOneSide | alacritree/src/bindings.rs:737-782 | off macOS, for every configuration, that holds and each binding run has exactly the press's Alt, Control and Shift |
| Bindings.SomeUserMixesExactlyWhen | alacritree/src/bindings.rs:737-782 | on macOS, some configuration makes a press run the user's bindings and defaults together if and only if the press carries both Control and Command, fires a default, and its key has a name |

## Left out

- RingRepeats.SecondListingMattersExactlyWhen: one workspace is listed twice; others may be too, but dropping several second listings at once is not treated.
- AlacritreeApp.AlacritreeApp.Reconcile: the trees are parameters, which `ClosedTabs.ClosedTabLands` fills in for a close of the tab under the cursor; a worktree deletion's part in the second one is `Snapshots.BuildSnapshot`'s skipped path.
- ClosedTabs.ClosedTabLands: one tab is closed, by the user or for a failed spawn; several close at once only when a worktree is deleted, and where the cursor lands then is not treated. The id a spawn yields is taken to be new. The display before and after is unfiltered, and one listing of panes holds for both; which rows a filter keeps is not modelled, and the lemmas of SidebarFocus hold for every tree.
- ClosedTabs.CursorAndTerminalAgreeExactlyWhen: a worktree that a collapsed project lists first is not treated; its tabs send the cursor to that project's row.
- SnapshotRows.AllRowsAreMet: for the unfiltered display; a filtered one is a parameter of `Snapshots.BuildSnapshot`.
- CloseOutcomes.RespawnStaysInPlaceExactlyWhen: the id a spawn yields is taken to be new.
- ClipboardImage.ImageDir.Store: input and output always succeed, so temporary files, permissions, symbolic links and a directory standing on the name are not modelled; writing is one step.
- ClipboardImage.ImageDir.ApplyCap: entries that vanish or cannot be read during a sweep are not modelled.
- Resample.ScaleRgba: weights and sums are exact reals, so 32-bit rounding is not modelled.
- ColorGlyphHistory.TerminalCacheHoldsTheLatest: a caller that asks for one character with different widths is covered only while its picture does not depend on the width (`ColorGlyphHistory.CacheHoldsTheLatest`).
- ColorGlyphCache.ColorGlyphCache.Get: the tick counter and the byte count are unbounded; the texture upload is a value.
- Canvas.Canvas.DrawRect: positions are whole pixels, which is what every caller in scope passes.
- Activities.Activities.Tick: the clock and the readers' snapshots are parameters; a tick may see two different snapshots, one for the fold and one for how a refresh ended.
- Activities.Activities.FailedStatus: only the failure arm of the status row; the texts of the other arms are formatting.
- Estimates.DispatchEndsWithinTwice: a panic or a cancellation that stops the workers early is not modelled.
- Bindings.ParseBindings: the tables of key names, action names and default bindings are parameters, the last one naming no Command off macOS.
- Session spawning, shells, multiplexers, projects and the main checkout of a worktree: results are parameters.
- Dashes, double lines, arcs, diagonals, block elements, shades and powerline glyphs: the curves depend on floating-point rounding and the rest would repeat the rectangles proved here.
- Painting, themes, dialogs, the frame loop, search and the other side panels: no property that can be stated in closed form.
- The colour tables, named actions, Git navigation and the command palette: finite tables and short filters.
