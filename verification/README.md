# BearDrive, modelled and proved

BearDrive is a sync engine: every device keeps an append-only journal of
operations, every device replays all journals to one state, and a set of rules
decides what leaves the disk. This project models the components that carry
those promises and proves them for all inputs, all runs and all interleavings.

`dafny verify dfyconfig.toml` checks everything.

## What is modelled

- **Ignore rules.** Lines and paths are bytes. `Runes` is how Go reads bytes as
  runes, and which bytes read alike. `IgnoreRule` gives rule text a token
  semantics: what a line means, and which runes its regular expression matches.
  `IgnoreCompile` is the compiler with its byte comparisons and prefilters,
  `IgnoreExact` where those and the expression part, `IgnoreGlobs` what a line
  of names and wildcards matches, in terms of paths alone. `IgnoreVerdict` is
  last-match-wins over a file of rules and the floor of vouched rules,
  `IgnoreEscape` the escaping of literal names, `IgnorePrune` the condition
  under which a directory may be left out, and `IgnoreFilter` the filter object
  with its nested mounts.
- **Scope.** `ScopeFile` reads and writes the managed block of the rule file,
  `ScopeRules` is what the block means to the filter; `ScopeNames` cleans the
  folder names it accepts.
- **The walk.** `Walk` decides about every entry of a tree, `WalkLaws` is which
  files leave the machine, `Explain` and `ExplainLaws` collapse what does not sync into counted lines.
- **Journal.** `Journal` is the order of operations, `Replay` the sort and the
  fold, `Utf8`, `JournalLines` and `JournalWire` the bytes on disk: paths that
  are not UTF-8, one line an operation, appends cut anywhere by a crash.
  `JournalReplay` follows an operation from its append to the replayed state.
- **Merge.** `Merge` is the three-way merge, `MergeLaws` what it promises, and
  `MergeDevices` what two devices that merge separately agree on.
- **Watcher.** `WatchQueue` is the event queue, `WatchRuns` every interleaving
  over it, `WatchLaws` what the queue must and must not do without being asked,
  `Echo` the judgment that drops an event as the program's own echo.
- **Content.** `BlobStore`, `Chunks`, `ChunkFetch` and `ChunkPush` are the
  content-addressed store and delta sync, with any number of devices pushing
  and any call failing.
- **Small protocols.** `Cas` (append by compare-and-swap), `GrantIndex` and
  `Grants` (pending sign-ins in one process and across processes), `Migrate`,
  `MigrateImport` and `MigrateLaws` (export and import of a project).

## Where the code does not do what its comments say

- **Merge symmetry** (`internal/syncer/merge.go:29-31`). The result depends on
  which side is named first exactly when both edits start at one line of the
  base: `MergeLaws.MergeSymmetricIff`, with an example in
  `MergeLaws.MergeOrderShows`. Two devices then store different bytes:
  `MergeDevices.DevicesAgreeIff`, and in the example `MergeDevices.DevicesDiverge`.
- **A file of one newline, and a removed final newline**
  (`internal/syncer/merge.go:126-143`). Merging an edit with an untouched copy
  does not always give the edit: `MergeLaws.MergeWithBaseIff`.
- **Matching** (`internal/syncer/ignore.go:202-228`). The comparisons that stand
  in for a rule's expression see bytes, the expression sees runes, where any
  byte that is not UTF-8 is a U+FFFD. They agree on every path exactly when the
  text compared holds no U+FFFD: `IgnoreExact.MatchIsExactIff`.
- **Escaping a name** (`internal/syncer/ignore.go:230-231`). The rule for a name
  without a slash also matches that name in every directory, and a name that is
  not UTF-8 has no rule: `IgnoreEscape.EscapeIsExact`.
- **A scope of a folder** (`cmd/bdrive/scopefile.go:32-38`). A folder name that is
  not UTF-8 is accepted and its line is no rule, so nothing under it syncs:
  `ScopeNames.CleanedDirsFit`, `ScopeNames.BadNameAccepted`, `ScopeRules.ScopeMeaning`.
- **Pruning** (`internal/syncer/ignore.go:472-477`). A rule that ends in an
  escaped slash prunes a directory whose files sync:
  `IgnoreFilter.EscapedSlashPrunesTooMuch`; the exact condition is
  `IgnorePrune.PruneSafeIff`.
- **The order of operations** (`internal/journal/journal.go:290-316`) does not
  read the link, so replay is independent of order exactly when the winning
  puts of a path agree on it: `Replay.ConvergenceIff`.
- **A torn append** (`internal/journal/journal.go:399-431`) glues the next line
  to itself, and the first operation of the next append is lost:
  `JournalWire.TornJournal` says that an append keeps its operations exactly
  when the file ends a line, `JournalWire.OneByteTears` that it need not.
- **An approval** (`internal/webapp/authcli.go:300-320`) can be overwritten by a
  poll that puts back what it read before: `Grants.ApprovalCanBeLost`. It stands
  exactly when no such copy is out: `Grants.ApprovalSurvivesIff`.

## Assumptions

Functions the program takes from libraries are parameters with the laws the
lemmas require: a hash (that the bytes in question collide with nothing), a
chunker (that it partitions its input within its bounds), JSON and base64 (that
they invert, put no newline in a line, decode nothing from beginnings of lines
with a line glued to them, and keep a manifest within a length linear in its
chunks). The disk, the network, failures and crashes are
arguments, nondeterministic choices or events. Random identifiers are fresh.
Time appears only as values in records.

## Model

| member | source | states |
|---|---|---|
| IgnoreCompile.Compile | internal/syncer/ignore.go:288-402 | the loops compile a line to the specified pattern, whose meaning on paths GlobMatches states, and to none for blanks, comments, rules without a body and rules whose literal text is not UTF-8 |
| IgnoreCompile.Fields | internal/syncer/ignore.go:315-402 | from a body, the pass over it builds the expression and fills the literal fields as specified |
| IgnoreCompile.RunInTokens | internal/syncer/ignore.go:315-402 | in a rule that compiles each whole stretch of literal bytes is UTF-8, and its runes stand in the expression where it stands in the body, first if first and last if last |
| IgnoreCompile.MatchesExpression | internal/syncer/ignore.go:202-228 | on a newline-free path a compiled pattern says yes only if its expression does, and answers as its expression does if the path is UTF-8 or the bytes it compares hold no U+FFFD |
| IgnoreExact.MatchIsExactIff | internal/syncer/ignore.go:202-228 | a compiled pattern answers as its expression on every newline-free path whatever exactly when the bytes it compares hold no U+FFFD |
| IgnoreCompile.PrefilterSound | internal/syncer/ignore.go:202-228 | a path whose runes the expression matches contains the bytes of the remembered literal, after a slash or at its start when the literal opens the rule, so the prefilter never refuses a match |
| IgnoreCompile.SegmentSound | internal/syncer/ignore.go:202-228 | for a body without wildcards the byte comparisons imply a match of the expression, and the other way too unless a U+FFFD is compared with a byte that is not UTF-8 |
| IgnoreGlobs.GlobMatches | internal/syncer/ignore.go:202-402 | any line made of escaped UTF-8 names, `**`, `*` and `?`, anchored or not, for directories or not, negated or not, compiles to a pattern that matches a newline-free UTF-8 path exactly when a stretch of the path that begins and ends where the line says is those names in order with, between them, anything for `**`, anything without a slash for `*`, and one rune that is no slash for `?` |
| IgnoreGlobs.WildcardBetween | internal/syncer/ignore.go:315-402 | an anchored line of two names with one wildcard between them matches exactly the first name, a stretch the wildcard allows, the second name, and what lies beneath such a path |
| IgnoreGlobs.PaddingIsDropped | internal/syncer/ignore.go:288-314 | unescaped space around a line changes nothing |
| IgnoreGlobs.NoRule | internal/syncer/ignore.go:288-314 | padding alone, and a line whose first other byte is a hash, is no rule |
| IgnoreVerdict.IgnoredBy | internal/syncer/ignore.go:483-490 | the loop over compiled patterns gives the verdict of the last that matches |
| IgnoreVerdict.LastLineDecides | internal/syncer/ignore.go:149-157 | a path is ignored exactly when some line is a rule that excludes it and no later line is a rule that matches it |
| IgnoreVerdict.IgnoredIsExcluded | internal/syncer/ignore.go:479-490 | that verdict is the one the rules' expressions give on the runes of the path, wherever no pattern reads a byte differently |
| IgnoreVerdict.CompileRules | internal/syncer/ignore.go:149-157 | a rule file compiles to the patterns of its lines that are rules, in order |
| IgnoreVerdict.VouchedFloor | internal/syncer/ignore.go:181-191 | the floor keeps every line but the negations that no synced path matches |
| IgnoreVerdict.VouchedAre | internal/syncer/ignore.go:181-191 | a line is in the floor exactly unless it is a negated rule that matches no synced path |
| IgnoreVerdict.VouchedFloorSafe | internal/syncer/ignore.go:159-191 | the floor gives the same verdict as the original on every path already synced, and excludes at least what the original excludes everywhere else |
| IgnoreEscape.EscapeIgnore | internal/syncer/ignore.go:236-263 | computes the escape that the lemmas below are about |
| IgnoreEscape.PlainNameUntouched | internal/syncer/ignore.go:236-263 | a name without special bytes is written as it is |
| IgnoreEscape.PiecesOfEscape | internal/syncer/ignore.go:236-263 | an escaped name is read back as its own bytes, no wildcard among them |
| IgnoreEscape.EscapedRule | internal/syncer/ignore.go:236-263 | the escaped name compiles exactly when it is UTF-8, to one rule that is not negated, compares the name itself and is anchored exactly when it has a slash |
| IgnoreEscape.EscapedScopeRule | cmd/bdrive/scopefile.go:32-38 | a scope line compiles exactly when its folder name is UTF-8, to the negated, anchored rule of that name for directories |
| IgnoreEscape.EscapeIsExact | internal/syncer/ignore.go:230-263 | the line for a path compiles exactly when the path is UTF-8, and matches that path, what lies under it and nothing else exactly when the path has a slash in it and is UTF-8 |
| IgnorePrune.PruneSafeIff | internal/syncer/ignore.go:472-477 | for every compiled line: matching "d/" implies matching everything below d, for every d, exactly when the line is for directories only or its body does not end in an (escaped) slash |
| IgnorePrune.SafeForward | internal/syncer/ignore.go:472-477 | a pattern whose body does not end in a slash matches what lies below a directory it matches with a slash |
| IgnoreFilter.PrunedIsSkipped | internal/syncer/ignore.go:472-477 | PruneDir of a directory implies Skip and SkipUp of every path beneath it, unless a rule ends in an escaped slash |
| IgnoreFilter.SafeTextPrunes | internal/syncer/ignore.go:472-477 | the same from the text of the rule file: if no line's body ends in a slash, nothing beneath a pruned directory syncs |
| IgnoreFilter.EscapedSlashPrunesTooMuch | internal/syncer/ignore.go:472-477 | a rule that is the name a and an escaped slash prunes the directory a while a/x syncs |
| IgnoreFilter.Filter.Skip | internal/syncer/ignore.go:405-421 | says yes exactly for a path that is not the rule file and lies under a mount, is ignored by the rules, or is in no pattern of a nonempty include list, whatever the filter remembered of mounts before |
| IgnoreFilter.Filter.SkipUp | internal/syncer/ignore.go:453-461 | says yes exactly when Skip does or the rules this device accepted ignore a path that is not the rule file |
| IgnoreFilter.Filter.PruneDir | internal/syncer/ignore.go:472-477 | says yes exactly when no rule is negated, there is no include list, and the rules ignore the name with a slash |
| IgnoreFilter.Filter.UnderMountOnDisk | internal/syncer/ignore.go:77-98 | finds a mount among the ancestors exactly when there is one, and its caches stay true |
| ScopeFile.UnescapeEscape | cmd/bdrive/scopefile.go:42-51 | unescaping undoes escaping for every name |
| ScopeFile.ScopeBlock | cmd/bdrive/scopefile.go:65-84 | the scan finds the first complete pair of markers and refuses a second |
| ScopeFile.TwoBlocksIff | cmd/bdrive/scopefile.go:65-84 | a file is refused exactly when one pair of markers follows another, and has no block exactly when it has no pair |
| ScopeFile.ReadScopeDirs | cmd/bdrive/scopefile.go:87-107 | reads the names of the block's negated lines |
| ScopeFile.WriteScopeDirs | cmd/bdrive/scopefile.go:111-143 | the new text, or a refusal for two blocks |
| ScopeFile.ScopeRoundTrip | cmd/bdrive/scopefile.go:87-143 | what a write leaves reads back as the names written, and every other line survives in order, leading blank lines aside |
| ScopeRules.ScopeMeaning | cmd/bdrive/scopefile.go:22-38 | after a write a file syncs exactly when it is the rule file or lies under a named folder whose name is UTF-8, unless a rule outside the block matches it: then the last such rule decides |
| ScopeRules.FolderRulesVerdict | cmd/bdrive/scopefile.go:32-38 | the rules of the block exclude exactly what lies under none of the folders whose names are UTF-8 |
| ScopeFile.MarkersProper | cmd/bdrive/scopefile.go:22-29 | the two marker lines are comments, unpadded and different, as the lemmas require |
| ScopeNames.CleanScopeDirs | cmd/bdrive/scopefile.go:164-186 | the first occurrences of the cleaned names, or a refusal if one is refused |
| ScopeNames.CleanNameAccepted | cmd/bdrive/scopefile.go:164-186 | a clean name is accepted as it is: no space around it, no control character, and no segment empty, a dot or climbing |
| ScopeNames.CleanedDirsFit | cmd/bdrive/scopefile.go:164-186 | the accepted names are distinct and stay inside the project, and the line of each is a rule exactly when the name is UTF-8 |
| ScopeNames.BadNameAccepted | cmd/bdrive/scopefile.go:164-186 | a name of one byte that is not UTF-8 is accepted although its line is no rule |
| Walk.WalkListing | internal/syncer/walk.go:74-167 | on every tree, whatever bytes its names are made of, the walk visits and judges as specified while it mutates the filter |
| Walk.PruningLosesNothing | internal/syncer/walk.go:125-160 | the pruned walk reports the same syncing files in the same order as a walk that enters every directory |
| Walk.ClosedSkips | internal/syncer/walk.go:125-160 | no file beneath a reserved, pruned or nested directory syncs |
| Walk.VisitsShape | internal/syncer/walk.go:109-166 | directories come before what they hold, no path comes twice, and nothing beneath an unentered directory is visited |
| WalkLaws.WalkSyncsIff | internal/syncer/walk.go:74-167 | a regular file syncs, and a symbolic link syncs as a link, exactly when it is in the tree, its path is one the program carries, and, the rule file aside, it is in no nested mount, ignored neither by the live rules nor by the accepted ones, and in the include list if there is one; unless a rule ends in an escaped slash |
| WalkLaws.SyncedMayLeave | internal/syncer/walk.go:74-167 | whatever the rules, no path but the rule file syncs that the live rules or the accepted rules ignore |
| WalkLaws.DirectoriesAre | internal/syncer/walk.go:125-160 | a directory the walk comes to is left out exactly when its name is reserved or it is pruned, is a mount of its own exactly when it is one otherwise, and is entered in every other case |
| Explain.Explain | internal/syncer/explain.go:34-111 | the loops and the sorts compute the synced list and the collapsed list as specified, each in order of path |
| Explain.Ancestors | internal/syncer/explain.go:128-134 | every directory above a path, each once |
| Explain.NotSyncedFiles | internal/syncer/explain.go:116-126 | sums the list |
| ExplainLaws.CollapseConserves | internal/syncer/explain.go:86-126 | NotSyncedFiles of the collapsed list is the files skipped plus the files in pruned directories |
| ExplainLaws.CollapseHidesNothing | internal/syncer/explain.go:86-107 | in the list Explain returns no collapsed directory holds a file that syncs or a mount of its own, every such mount has a line, and every skipped file is on a line |
| ExplainLaws.CollapseIsTopmost | internal/syncer/explain.go:54-107 | the list holds exactly one kind of line for each topmost directory of which nothing syncs, with the number of files it leaves out, and one for each skipped file in none of these |
| ExplainLaws.ExplainConserves | internal/syncer/explain.go:34-126 | in every tree each file is counted once in Explain's results: synced, not synced, or in a mount of its own |
| Journal.TiedAgree | internal/journal/journal.go:290-316 | two operations tie exactly when they agree on all that Less reads |
| Journal.LessTrans | internal/journal/journal.go:290-316 | the order is transitive |
| Journal.LessAsymmetric | internal/journal/journal.go:290-316 | the order is asymmetric |
| Journal.LessIsLexicographic | internal/journal/journal.go:290-316 | one operation is below another exactly when in the first of lamport, time, device, num, kind, path, blob, size and mode in which they differ it is below |
| Journal.BytesLessIff | internal/journal/journal.go:290-316 | byte strings are ordered by the first byte that differs, a proper prefix first |
| Journal.LamportDecides | internal/journal/journal.go:290-316 | a lower Lamport clock is below whatever the other fields say, and at equal clocks a lower time |
| Replay.Sort | internal/journal/journal.go:318-320 | sorts the array in place to the stable sort of its contents |
| Replay.SortedIsStableSort | internal/journal/journal.go:318-320 | the result is in order, a permutation, and keeps tied operations in their order |
| Replay.Replay | internal/journal/journal.go:334-347 | the loop computes the fold of the sorted operations: a put whose Lamport clock is above every other writer's of its path leaves exactly its blob, size, mode and link there, such a delete leaves nothing, and no path appears that was not put |
| Replay.ReplayShowsLastWriter | internal/journal/journal.go:334-347 | a path is mapped exactly when its greatest put or delete is a put, and to that put's state |
| Replay.HighestClockWins | internal/journal/journal.go:290-347 | the same of any list of operations, in any order |
| Replay.NothingElseShows | internal/journal/journal.go:334-347 | every path in the replayed state was put |
| Replay.Convergence | internal/journal/journal.go:334-347 | devices with the same operations in any order and multiplicity replay to the same map, if tied winners agree on their link |
| Replay.ConvergenceIff | internal/journal/journal.go:290-347 | independence of order holds exactly under that hypothesis |
| Utf8.LossyIdempotent | internal/journal/journal.go:141-157 | lossy is idempotent |
| Utf8.LossyValid | internal/journal/journal.go:141-157 | lossy always yields UTF-8 (section 4 of RFC 3629) |
| Utf8.LossyFixesIff | internal/journal/journal.go:141-157 | lossy leaves a string alone exactly when it is UTF-8 |
| Runes.LossyReadsSame | internal/journal/journal.go:141-157 | the lossy string reads as the same runes, and is their UTF-8 encoding |
| Utf8.LossyOf | internal/journal/journal.go:141-157 | the loop computes it |
| JournalWire.PathRoundTrip | internal/journal/journal.go:92-135 | a path arrives as it left, whatever bytes it is made of |
| JournalWire.ReadersAgree | internal/journal/journal.go:120-135 | whatever path_raw says, the decoded path is lossy-equal to the path field and nothing else changes |
| JournalWire.Parse | internal/journal/journal.go:359-384 | the loop computes the specified operations: the decoded puts and deletes, paths resolved, line by line |
| JournalWire.LineYields | internal/journal/journal.go:359-384 | a line that decodes to a put or a delete yields that one operation with its path resolved, and any other line nothing |
| JournalWire.PlainReadsBack | internal/journal/journal.go:92-135 | an operation whose strings are UTF-8 is read back with every field as it was |
| JournalReplay.AppendedDeleteHides | internal/journal/journal.go:334-431 | after a delete whose Lamport clock is above that of all that is written of its path is appended to a file that ends a line, reading and replaying the file shows nothing at the path |
| JournalReplay.AppendedPutShows | internal/journal/journal.go:334-431 | after such a put, its blob, size, mode and link |
| JournalWire.Marshal | internal/journal/journal.go:399-410 | the loop computes the specified bytes |
| JournalWire.JournalFile.Append | internal/journal/journal.go:413-431 | an append cut at any byte adds that prefix and changes nothing before it |
| JournalWire.JournalRoundTrip | internal/journal/journal.go:359-431 | appending to a file that is empty or ends a line adds exactly the operations written, and leaves such a file |
| JournalLines.AppendKeepsIff | internal/journal/journal.go:359-431 | for any bytes: an append adds exactly its records when the file ends a line, otherwise only if the tail reads as nothing and does not spoil the line glued to it |
| JournalLines.RunAppendKeepsIff | internal/journal/journal.go:359-431 | after any run of appends, each cut anywhere, one more adds exactly its records exactly when the file ends a line |
| JournalLines.TornTailSwallows | internal/journal/journal.go:399-431 | after any run that leaves a torn tail, the next append loses its first record and whatever the tail read as |
| JournalWire.TornJournal | internal/journal/journal.go:359-431 | for the journal, after any run of appends each cut anywhere: an append adds exactly its operations exactly when the file ends a line, and otherwise its first operation is lost |
| JournalWire.OneByteTears | internal/journal/journal.go:413-431 | there is a torn file: one append of which one byte was written |
| JournalLines.TornRunReads | internal/journal/journal.go:359-431 | over any run of appends, each cut anywhere, Parse returns in order every record whose line is whole and began on a fresh line |
| JournalWire.TornRun | internal/journal/journal.go:359-431 | over any such run a reader of the journal finds in order exactly the operations whose line is whole and began on a fresh line, and besides them at most what the unfinished last line reads as |
| Merge.MergeText | internal/syncer/merge.go:32-71 | the loops (trim, sort, splice) compute the specified merge, which MergeAcceptsIff and MergeReplacesBoth characterise, and its refusal |
| Merge.ChangedRegions | internal/syncer/merge.go:88-102 | the changed region between the common prefix and suffix |
| Merge.RegionFacts | internal/syncer/merge.go:88-102 | the region begins where the sides first differ or one ends, both sides have the same lines outside it, and it is as short as that leaves it |
| Merge.RegionApplies | internal/syncer/merge.go:88-102 | replacing that region in the base gives the side |
| MergeLaws.TightRegion | internal/syncer/merge.go:88-102 | lines x replaced by lines that begin and end differently, between a common beginning and a common end: the region is exactly x and its replacement |
| MergeLaws.MergeAcceptsIff | internal/syncer/merge.go:32-71 | two edits are merged exactly when a side is unchanged, or one region ends where the other begins or before, and they are not both insertions at one line |
| MergeLaws.FilesMergeIff | internal/syncer/merge.go:32-145 | the same of whole files |
| MergeLaws.EditsApartMerge | internal/syncer/merge.go:32-123 | a base with two such replacements in different places, one by each side, merges to both of them, whichever side is named first and whatever lies between |
| MergeLaws.MergeReplacesBoth | internal/syncer/merge.go:32-71 | regions that start at different lines: if one ends where the other begins or before, the merge is the base with both spans replaced, every other line once and in order, whichever side is named first; otherwise it is refused |
| MergeLaws.MergeAtSameStart | internal/syncer/merge.go:52-70 | regions that start at one line: the side named first goes first |
| MergeLaws.MergeSymmetricIff | internal/syncer/merge.go:29-71 | the merge is symmetric exactly when the regions do not start at one line without overlapping |
| MergeLaws.MergeWithBaseIff | internal/syncer/merge.go:32-71 | merging an edit with the untouched base gives the edit exactly when no lone newline or removed final newline is involved |
| MergeLaws.LinesRoundTrip | internal/syncer/merge.go:126-145 | splitting and joining gives the file back exactly when it is not a single newline |
| MergeLaws.MergeOrderShows | internal/syncer/merge.go:52-70 | files of any five bytes where the order of the arguments shows and a replaced line comes back |
| MergeDevices.CommonAncestor | internal/syncer/merge.go:213-228 | the loop computes the specified ancestor |
| MergeDevices.AncestorGreatest | internal/syncer/merge.go:213-228 | it is a version both sides could have started from, and none is greater |
| MergeDevices.AncestorIs | internal/syncer/merge.go:213-228 | a put of the path with content, below both sides and below none of the others like it; there is none only if no such put is known |
| MergeDevices.AncestorAgrees | internal/syncer/merge.go:213-228 | its blob depends on the set of operations alone |
| MergeDevices.TryMerge | internal/syncer/merge.go:174-208 | the bytes stored, or the refusal |
| MergeDevices.MergeStoredIff | internal/syncer/merge.go:174-208 | a merge is stored exactly when both sides are puts of different blobs of at most 4 MiB, they have an ancestor, all three are text the store holds, and the edits can be merged |
| MergeDevices.DevicesAgreeIff | internal/syncer/merge.go:174-228 | two devices with the same operations in any order store the same merge exactly when the edits do not start at one base line |
| MergeDevices.DevicesDiverge | internal/syncer/merge.go:174-228 | that example through tryMerge: the two devices store different text |
| WatchQueue.Queue.AddEvent | internal/daemon/daemon.go:1179-1208 | the new state: stamped, coalesced by path, capped, or turned into a full scan |
| WatchQueue.Queue.Take | internal/daemon/daemon.go:1256-1264 | hands out and empties one folder with the current fence |
| WatchQueue.Queue.Snapshot | internal/daemon/daemon.go:1270-1281 | the first locked half of suppress |
| WatchQueue.Judge | internal/daemon/daemon.go:1282-1290 | the unlocked middle |
| WatchQueue.Queue.Drop | internal/daemon/daemon.go:1291-1303 | the second locked half |
| WatchRuns.NothingIsLost | internal/daemon/daemon.go:1175-1303 | in every interleaving the queue keeps unique paths, at most 4096 events and batches that never overlap, and each recorded event is waiting, delivered, covered by a full scan, or dropped by a suppression that judged an event carrying it |
| WatchRuns.FinishRemoves | internal/daemon/daemon.go:1282-1303 | a suppression removes exactly the unchanged events it judged droppable |
| WatchRuns.LateEventSurvives | internal/daemon/daemon.go:1270-1303 | an event that arrives or is renewed during the unlocked check is not dropped |
| WatchLaws.NoticeIsQueued | internal/daemon/daemon.go:1179-1208 | a notification for a folder that owes no scan and has room, or an event of that path, is queued with its own stamp and all that was queued for the path; no other event changes and no scan is asked for |
| WatchLaws.ScanOnlyWhenDue | internal/daemon/daemon.go:1179-1208 | only a notification makes a folder owe a full scan: one of no folder, or one of a new path at 4096 events |
| WatchLaws.NoNeedlessScan | internal/daemon/daemon.go:1175-1303 | in every run a folder with at most 4096 notifications neither owes nor is handed out as a full scan, unless a notification was of no folder |
| WatchLaws.TakeHandsOutAll | internal/daemon/daemon.go:1256-1264 | a take hands out what the folder holds and leaves it empty, and no other folder changes |
| WatchLaws.SuppressionRemoves | internal/daemon/daemon.go:1270-1303 | a suppression that nothing interrupts removes exactly the events up to its bound that it is told not to keep |
| Echo.Keep | internal/daemon/daemon.go:1502-1535 | the verdict on one event |
| Echo.KnownDirectory | internal/daemon/daemon.go:1466-1501 | a directory is known exactly when its walk did not fail, it holds a file, and its files are as cached, none missing |
| Echo.DroppedSettledIff | internal/daemon/daemon.go:1440-1535 | for a dropped event disk and cache agree at its path and beneath exactly when the cache does not hold both the path and something beneath it |
| Echo.DroppedMeansSettled | internal/daemon/daemon.go:1440-1535 | with no cached path under another, a dropped event leaves nothing to sync there, and is not the rule file's |
| Echo.NestedCacheHidesALoss | internal/daemon/daemon.go:1449-1465 | without that hypothesis a dropped event can hide a missing file |
| Echo.EchoesAreDropped | internal/daemon/daemon.go:1449-1535 | an event that is no removal, on a file or link that is as cached or on a directory of such files, is dropped |
| Echo.RemovalDroppedIff | internal/daemon/daemon.go:1508-1520 | a removal or a rename is dropped exactly when nothing at or beneath its path is on the disk or in the cache and the disk can be asked |
| Echo.UnsyncedMeansSettled | internal/daemon/daemon.go:1270-1535 | over every run, with disk and cache changing from one judgment to the next, an event that no batch and no full scan accounts for was dropped when its path was settled |
| BlobStore.BlobPathInjective | internal/store/store.go:56-66 | a hash has its own path, which no other string resolves to |
| BlobStore.BlobStore.OpenBlob | internal/store/store.go:118-120 | what opens is named by a hash and holds the bytes of that hash |
| BlobStore.BlobStore.PutBlobReader | internal/store/store.go:77-103 | files bytes under their own hash, overwrites nothing, and stores nothing on failure |
| Chunks.ChunkSpans | internal/syncer/chunks.go:67-89 | the loop computes the spans |
| Chunks.SpansLocate | internal/syncer/chunks.go:58-89 | each span is where its chunk lies in the file |
| Chunks.ManifestReads | internal/syncer/chunks.go:30-55 | the manifest of any blob that may be pulled fits the bound on reading one, and is read back |
| ChunkFetch.FetchChunked | internal/syncer/chunks.go:175-248 | each outcome, exactly when it occurs, and what the store then holds: a missing manifest or one of more than 100 MiB sends the caller to the whole blob, a bad one is an error; every chunk of the basis is used; and if the manifest is served, each chunk is served or in the basis and the disk works, the fetch succeeds and files the pushed bytes |
| ChunkFetch.ReadManifest | internal/syncer/chunks.go:175-197 | the checks on a manifest, with the sum in 64 bits |
| ChunkFetch.PlanAnswers | internal/syncer/chunks.go:175-197 | the plan from the remote's answer: to be pulled whole, in error, or the chunks of the manifest |
| ChunkFetch.AssembledIff | internal/syncer/chunks.go:216-236 | a file is assembled exactly when each chunk is in the basis or served with its length and hash, from pieces of those hashes in order |
| ChunkFetch.NeverWrongBytes | internal/syncer/chunks.go:168-174 | over any run of writes, whatever a remote served for them, what the store holds under the hash of given bytes is those bytes |
| ChunkFetch.FetchUndoesPush | internal/syncer/chunks.go:106-248 | with the manifest push stores, fetch plans and rebuilds the bytes, whichever chunks come from the local basis |
| ChunkPush.PushChunked | internal/syncer/chunks.go:106-161 | against a remote others write to and any call failing, success leaves the blob or its manifest with all chunks, and only true content is sent; when every chunk is sent or known to be there, it succeeds exactly when the manifest is stored or else the whole blob is |
| ChunkPush.ManifestImpliesChunks | internal/syncer/chunks.go:91-161 | in every run of any number of devices a manifest an honest device stored has all its chunks |
| ChunkPush.SuccessMeansAvailable | internal/syncer/chunks.go:106-161 | in every run a push that reports success leaves the whole blob or the manifest with all chunks, from then on |
| ChunkPush.PushCompletes | internal/syncer/chunks.go:106-161 | from any state of the world a push whose chunks are stored ends well once the blob arrives, whether its manifest is stored, lost or refused |
| ChunkPush.HeldIsSkipped | internal/syncer/chunks.go:117-131 | a chunk the remote confirms is not sent |
| ChunkPush.ContentVerified | internal/webapp/store.go:938-949 | what sits under a content address hashes to it |
| ChunkPush.PushedCanBePulled | internal/syncer/chunks.go:106-248 | after a reported success any device gets the bytes back, whole or through the manifest |
| Cas.Directory.GetVersioned | internal/remote/local_cas.go:41-59 | the bytes and the version they are at |
| Cas.Directory.PutIf | internal/remote/local_cas.go:61-97 | writes exactly when the object is still at the expected version |
| Cas.AppendConditional | internal/webapp/upload.go:876-899 | each attempt that others beat is followed by another, up to five; the line ends the object exactly when some attempt is not beaten, its read, line and write work, and all before it were beaten; and the object only grows |
| Cas.QuietAttemptAppends | internal/webapp/upload.go:876-899 | if nobody adds during one of the five attempts and nothing of its own fails until then, the call writes its line behind all that was there |
| Cas.UndisturbedAppends | internal/webapp/upload.go:876-899 | in any run a call that reads, writes and hears with nobody in between is acknowledged, and its line ends the object |
| Cas.BeatenReadsAgain | internal/webapp/upload.go:876-899 | a call beaten before its fifth attempt changes nothing and reads again |
| Cas.OnlyGrows | internal/webapp/upload.go:876-899 | over any run the object only grows by suffixes |
| Cas.NoLostUpdate | internal/remote/local_cas.go:41-97 | over any run the object is its start followed by the written lines, no call's twice and each acknowledged call's once |
| Cas.AcknowledgedFirst | internal/webapp/upload.go:876-899 | a call acknowledged before another began stands before it in the object |
| Cas.AcksCanCross | internal/webapp/upload.go:876-899 | calls that overlap can be acknowledged in the other order |
| GrantIndex.Index.AtGrantCap | internal/webapp/authcli.go:139-152 | true exactly when a nonempty address holds 256 or more |
| GrantIndex.Index.EvictHeaviest | internal/webapp/authcli.go:157-175 | evicts one grant of an address that holds the most |
| GrantIndex.Index.Reserve | internal/webapp/authcli.go:220-231 | the locked half: keeps at most 512 grants and 256 an address, says yes exactly when the address is below its own cap and then records the grant, evicts one exactly when the index is full, and leaves every other unexpired grant |
| GrantIndex.Index.NewGrant | internal/webapp/authcli.go:216-262 | with others running while the grant is saved: succeeds exactly when the address is not capped and the save works, and a failed save leaves no reservation |
| GrantIndex.FairShareIsSpared | internal/webapp/authcli.go:125-175 | an address that holds less than its equal share of a full index loses nothing to an eviction, however the others spread |
| Grants.Pending.TakeGranted | internal/webapp/authcli.go:300-320 | consumes an approved grant and puts another back |
| Grants.Pending.Consume | internal/webapp/authcli.go:265-279 | whatever is found under the code is consumed |
| Grants.Pending.ApproveDevice | internal/webapp/authcli.go:359-366 | approves a pending device and nothing else |
| Grants.TokensNeedApprovals | internal/webapp/authcli.go:265-366 | in every interleaving across processes, for each grant and account, tokens never exceed written approvals, and a browser code is redeemed at most once |
| Grants.TokensNeedSuccesses | internal/webapp/authcli.go:265-366 | with a store that reports every write it makes, tokens never exceed the approvals that were reported as done |
| Grants.ApprovedPollIssues | internal/webapp/authcli.go:300-320 | in any state a poll of an approved grant issues exactly one token, of the user who approved, and a second poll or exchange gets none |
| Grants.WaitingPollReturns | internal/webapp/authcli.go:300-320 | a poll of an unapproved grant issues nothing and puts it back as it was |
| Grants.SignInCompletes | internal/webapp/authcli.go:265-366 | a sign-in from start to token, by device or by code: one token when approved or with the proof, none before or without |
| Grants.ApprovalSurvivesIff | internal/webapp/authcli.go:300-366 | a written approval stands until it is consumed or removed, whatever else any process does, exactly when at that moment no poll holds a copy it is about to put back |
| Grants.ApprovalCanBeLost | internal/webapp/authcli.go:300-320 | a run in which a written approval is overwritten |
| Migrate.ExportStore | cmd/bdrive/migrate.go:193-243 | the archive holds every object of the layout once, and no other |
| Migrate.LayoutIs | cmd/bdrive/migrate.go:193-243 | which keys are journals, blobs, chunks and manifests |
| Migrate.CarriedAre | cmd/bdrive/migrate.go:193-243 | an export carries the objects under keys of these four forms and no other |
| MigrateImport.ImportStore | cmd/bdrive/migrate.go:269-421 | what is written, and exactly when it says done |
| MigrateImport.IngestedFits | cmd/bdrive/migrate.go:269-386 | what is imported is inside the layout and hashes to its content addresses, and the bookkeeping covers every journal and manifest |
| MigrateLaws.StrictImportIsComplete | cmd/bdrive/migrate.go:387-421 | strict success: every blob in the replay of the imported journals has content, and every decodable manifest all its chunks |
| MigrateLaws.ImportUndoesExport | cmd/bdrive/migrate.go:193-421 | an archive of an export in any order imports to the same objects, and is accepted exactly when each object is, there is a journal and, if strict, the store is complete |
| MigrateLaws.ExportCarries | cmd/bdrive/migrate.go:193-243 | what an export writes is such an archive |

## Left out

- The sync cycle itself (scan, pull, push, materialize, conflict copies) and the daemon's worker loop around the queue.
- What a scope means for files with a newline in their path (IgnorePrune, ScopeRules): SafePath refuses those before the filter is asked.
- Go's limits on the size of a regular expression.
- A filter without a root directory, paths with empty or climbing segments in the mount lookup, and a mount that appears or vanishes during a cycle.
- Walks restricted to watcher targets, their error callbacks, and directories that cannot be read.
- The rules of SafePath and ReservedPath beyond control characters and reserved directory names: the rest is one parameter.
- The algorithms of Go's sorts: the model sorts by insertion, to the same result.
- Go's regexp engine, replaced by a token semantics of the expressions the compiler emits.
- The watcher's clean-up of root paths, its wake-up channel, and 64-bit wrap-around of its sequence number.
- Changes to the disk while one watcher event is being judged.
- The byte counts that pushes and imports report for progress.
- A remote that removes objects or overwrites manifests.
- Grants.TokensNeedApprovals: counts approvals whose row was written, also when the store reported a failure; TokensNeedSuccesses is about those it reported.
- Expiry times, PKCE and the pages of a sign-in: a grant may vanish at any time, and a proof is a boolean.
- Tar and gzip framing, object sizes declared by the archive, and the name and project checks before an import.
- HTTP, S3 and GCS backends, web pages, other commands, secret scanning and telemetry.
