# Edge runtime: verified models

This project models the parts of the edge runtime whose behaviour is hardest to see from the code, and proves
properties of them with Dafny 4.11. `dafny verify dfyconfig.toml` checks the whole project.

| files | part of the runtime |
|---|---|
| `VfsTree`, `VfsBuilder`, `VfsRuns`, `VfsLookup`, `VfsMeaning`, `VfsCircular`, `VfsTermination`, `VfsFind` | the virtual file system packed into a bundle: sorted directories, content offsets, symbolic links, lookup |
| `Lexical`, `Patterns`, `Exports`, `PackageResolver`, `ExportsMeaning`, `Containment`, `PackageBoundary`, `Splicing` | package resolution: exports patterns, JSON targets, where targets resolve to |
| `Drain` | graceful shutdown of the HTTP server: the three counters of the drain loop under interleaving |
| `Fetcher` | the remote module fetcher: redirect chains, the HTTP cache, offline replay |
| `Upgrade` | the WebSocket upgrade parser, fed in chunks |
| `Ipc`, `Bytes` | JSON messages over a byte stream, and the vectorised newline search |
| `Loader`, `LoaderRuns`, `ModuleLoader` | the CommonJS loader: two caches, active loads, rollback on throw |
| `CjsTranslator`, `CjsEmitter` | CommonJS to ES module translation: the re-export worklist and the emitted text |
| `ExternalMemory` | the accounting allocator, sequential and with interleaved threads |
| `CpuTimer` | the timer registry and its message queue |
| `NpmCache`, `Decimal` | npm cache folder names and base32 (section 6 of RFC 4648) |

Code that updates state in place is modelled by classes and loops, each proved against a specification function;
the properties are proved about those functions. Concurrent code is modelled as a state machine, one event for each
step that other threads can see. Answers of the file system, the network, the URL parser, `httparse`, the source
analyser and the npm resolver are parameters.

Places where a natural claim is false of the code are stated as results: a concrete run or input on which it fails,
and the condition under which it holds. That condition is exact, except where "## Left out" says that it is only
sufficient.

## Model

| member | source | states |
|---|---|---|
| VfsTree.BinarySearch | crates/sb_fs/virtual_fs.rs:128-145 | in a strictly sorted directory the search finds exactly the entry a plain scan finds, or the one place where the name keeps the order |
| VfsTree.PlacedSorted | crates/sb_fs/virtual_fs.rs:132-150 | inserting or replacing at the search result keeps a directory strictly sorted |
| VfsTree.PlacedChild | crates/sb_fs/virtual_fs.rs:132-150 | inserting or replacing changes what one name finds and nothing else |
| VfsTree.Place | crates/sb_fs/virtual_fs.rs:123-220 | the descent shared by the three insertions: it succeeds exactly when no file or link is in the way, keeps every directory sorted, and as a path map adds the directories and the leaf and changes no other path |
| VfsBuilding.VfsBuilder.AddDir | crates/sb_fs/virtual_fs.rs:123-155 | the sorted tree stays exactly the path map of the model, also when the path is outside the root or blocked |
| VfsBuilding.VfsBuilder.AddFile | crates/sb_fs/virtual_fs.rs:157-193 | the same, with the digest recorded before anything can fail and the running offset moved only when it equals the file's offset |
| VfsBuilding.VfsBuilder.AddSymlink | crates/sb_fs/virtual_fs.rs:195-220 | the same, with the target stored relative to the root |
| VfsBuilding.Build | crates/sb_fs/virtual_fs.rs:123-220 | after any sequence of calls the tree is sorted and is the path map that the calls describe |
| VfsRuns.CallIff | crates/sb_fs/virtual_fs.rs:123-220 | a call succeeds if and only if its path, and a link's target, are in the root, only directories lie above its path, and nothing is at it (for a directory: nothing else than one); its path then holds what it adds, all paths above are directories and all others are as before, and a failed call changes no path |
| VfsRuns.EntriesSurvive | crates/sb_fs/virtual_fs.rs:123-220 | in any run, failed calls included, an entry, once stored, is unchanged at the end |
| VfsRuns.AddedIsFound | crates/sb_fs/virtual_fs.rs:123-220 | what every successful call of any run stored is there at the end: its directory, file bytes or link target at its path, and directories at all paths above it in the root |
| VfsRuns.FoundWasAdded | crates/sb_fs/virtual_fs.rs:123-220 | and nothing else is: everything below the root was stored by a successful call, at its own path or as a directory above it |
| VfsRuns.LinkOrigin | crates/sb_fs/virtual_fs.rs:195-220 | every link of the final map is the one some call added at that path |
| VfsRuns.CanonicalOpsGiveCanonicalTargets | crates/sb_fs/virtual_fs.rs:76-121 | targets canonicalised before they are added give a tree in which no link lies on or at a link target |
| VfsRuns.PackingStep | crates/sb_fs/virtual_fs.rs:157-193 | one file keeps contents disjoint and the offset equal to the distinct bytes, unless it reuses a digest left by a failed call, and then two contents overlap |
| VfsRuns.PackKnown | crates/sb_fs/virtual_fs.rs:168-193 | the offset-equality test adds nothing for a content stored before, except that an empty one may pass it harmlessly |
| VfsRuns.PackingOfRun | crates/sb_fs/virtual_fs.rs:157-193 | over any run, failed calls included, contents are pairwise disjoint if and only if no call reused a stale digest |
| VfsRuns.FilesArePacked | crates/sb_fs/virtual_fs.rs:157-193 | after successful calls equal contents share an offset, different contents are disjoint, and the running offset is the total length of distinct contents |
| VfsRuns.RejectedFileBreaksPacking | crates/sb_fs/virtual_fs.rs:157-193 | a rejected call followed by two good ones: two different files get the same offset (the program's own callers pass only children of a directory that was accepted, so they cause no rejection for being outside the root) |
| VfsLookup.ResolvedIsCanonical | crates/sb_fs/virtual_fs.rs:401-494 | a resolved path holds no link, has only directories on its way and resolves to itself: canonicalising is idempotent |
| VfsLookup.AllPathsResolve | crates/sb_fs/virtual_fs.rs:401-494 | if link targets are well-founded, every path resolves within one more link |
| VfsLookup.SelfNestedLinkNeverEnds | crates/sb_fs/virtual_fs.rs:401-494 | a link whose target lies below itself is followed without end, whatever was seen: only links at the end of a path are recorded |
| VfsLookup.FollowSeenAgrees | crates/sb_fs/virtual_fs.rs:401-494 | the lookup that threads the set of seen paths answers what the path means, or reports circular links |
| VfsLookup.AnswerAgrees | crates/sb_fs/virtual_fs.rs:397-399 | the same without a bound on links: `find_entry` answers the meaning, reports circular links, or does not end where the links of the path never end |
| VfsLookup.MoreDepth | crates/sb_fs/virtual_fs.rs:401-494 | the meaning of a path does not depend on how many links may be followed |
| VfsMeaning.EntryMeansItself | crates/sb_fs/virtual_fs.rs:430-494 | a file or directory means itself |
| VfsMeaning.LinkMeansItsTarget | crates/sb_fs/virtual_fs.rs:401-424 | a link means what its target means, endless or not |
| VfsMeaning.LookedUpWhereItLeads | crates/sb_fs/virtual_fs.rs:430-494 | a longer path means what its last name means in the directory where the shorter path leads, through any links |
| VfsMeaning.NothingBelow | crates/sb_fs/virtual_fs.rs:430-494 | nothing is found below a file or below what is not there |
| VfsMeaning.EndlessBelow | crates/sb_fs/virtual_fs.rs:401-494 | below a path whose links never end nothing ends; with the other laws this determines the meaning of every path |
| VfsCircular.FollowCircular | crates/sb_fs/virtual_fs.rs:401-424 | when the links of a path end, circular links are reported if and only if a path that ends at a link is asked twice on the way or was seen before; otherwise the answer is the meaning and exactly those paths were recorded |
| VfsCircular.CircularIff | crates/sb_fs/virtual_fs.rs:397-424 | for `find_entry`: a wrong report if and only if such a path is asked twice |
| VfsCircular.DirectTargetsEnd | crates/sb_fs/virtual_fs.rs:401-424 | if no link lies on the way to a link target every lookup ends, cycles included, and links that never end are always reported |
| VfsTermination.Outlasts | crates/sb_fs/virtual_fs.rs:401-494 | a lookup that ends follows more links than any lookup it asks for on the way |
| VfsTermination.DeepNest | crates/sb_fs/virtual_fs.rs:401-494 | a lookup that does not end within a number of links asks for lookups nested that deep |
| VfsTermination.NeverEndsIff | crates/sb_fs/virtual_fs.rs:397-494 | a lookup never ends if and only if it comes to a call that is asked again inside itself for the same path with the same seen set, and if and only if it has not ended after as many links as there are different calls over the link targets |
| VfsLookup.CircularWithoutACycle | crates/sb_fs/virtual_fs.rs:401-424 | the report is wrong for a tree without a cycle in which one link is passed twice |
| VfsLookup.CanonicalLookup | crates/sb_fs/virtual_fs.rs:401-494 | with canonical targets lookup never reports circular links and is exactly the meaning of the path |
| VfsFind.FindNoFollowInner | crates/sb_fs/virtual_fs.rs:430-494 | the loop with binary search computes the specified walk and the entry at its end |
| VfsFind.FindInner | crates/sb_fs/virtual_fs.rs:401-424 | the loop computes the specified lookup, circular links included, and its entry is never a link |
| VfsFind.FileBackedVfs.FindEntry | crates/sb_fs/virtual_fs.rs:397-399 | for every path on which it ends: the entry where the path leads below the root, and exactly when each of the two errors is returned |
| VfsFind.FileBackedVfs.Canonicalize | crates/sb_fs/virtual_fs.rs:764-767 | the answer is where the path leads and canonicalises to itself, and exactly when each error is returned |
| VfsFind.FileBackedVfs.OpenFile | crates/sb_fs/virtual_fs.rs:718-725 | a fresh handle on the file the path leads to, or the error for a directory, a missing path or circular links |
| VfsFind.FileHandle.ReadToEnd | crates/sb_fs/virtual_fs.rs:556-574 | a fresh handle reads exactly the file's bytes |
| VfsFind.ReadBack | crates/sb_fs/virtual_fs.rs:769-773 | building by any calls, then opening and reading a file that a successful call added gives back its bytes |
| VfsFind.AddedDirectoryIsAnswered | crates/sb_fs/virtual_fs.rs:397-399 | a directory that was added is found as one |
| VfsFind.CanonicalizeBuilt | crates/sb_fs/virtual_fs.rs:764-767 | on a tree built with canonical targets canonicalising ends, is idempotent and never reports circular links |
| Lexical.CheckedHasNoDots | crates/node/resolution.rs:656 | a text in which the invalid-segment expression finds nothing has no "." or ".." between slashes |
| Lexical.CleanWithoutDots | crates/node/path.rs:15-19 | without dots, cleaning a path only drops empty segments |
| Patterns.CandidateIffMatches | crates/node/resolution.rs:921-949 | the loop's tests hold exactly for keys with one star that become the request when a non-empty text replaces it, and that text is what the loop cuts out |
| Patterns.NoTies | crates/node/resolution.rs:921-949 | two distinct matching keys cannot tie |
| Patterns.CompareIsSpecificity | crates/node/resolution.rs:1540-1580 | on matching keys the comparison is the order by length before the star, then total length |
| Patterns.BestOfIsBest | crates/node/resolution.rs:921-953 | the key the loop keeps matches, and every other matching key is less specific |
| Patterns.OrderDoesNotMatter | crates/node/resolution.rs:921-953 | the choice does not depend on the order in which keys are iterated |
| Patterns.SelectPattern | crates/node/resolution.rs:919-953 | the loop over best match and capture computes that key and its capture |
| PackageResolver.ResolvePackageTarget | crates/node/resolution.rs:756-878 | the recursion with its loops over the last error and the conditions gives, for an array, the first decisive outcome or else the last one, and for an object the first one that is not nothing |
| PackageResolver.PackageExportsResolve | crates/node/resolution.rs:881-988 | an exact key without star or trailing slash, else the best pattern with its capture, else not exported |
| ExportsMeaning.TargetIsMeaning | crates/node/resolution.rs:751-876 | whatever JSON a target is, the code answers its one meaning: a safe "./" string is the file with its names below the package directory and the capture for its star, an array is its first alternative that does not give way or else its last, an object its first selected field that means something; neither the file system nor the referrer matters |
| ExportsMeaning.ExportsIsMeaning | crates/node/resolution.rs:878-985 | a request answers what its target means and nothing else, its target being that of a literal key or else of the one most specific pattern that fits |
| ExportsMeaning.ExactFile | crates/node/resolution.rs:889-921 | a literal key with a safe string target gives that file |
| ExportsMeaning.PatternFile | crates/node/resolution.rs:923-980 | the most specific pattern with a safe string target gives that file with the captured text for the star |
| ExportsMeaning.NotExportedIff | crates/node/resolution.rs:909-985 | a request is reported as not exported if and only if it has no target or one that means nothing |
| ExportsMeaning.PackageIsMeaning | crates/node/resolution.rs:990-1107 | a bare specifier answers what its subpath means in the package itself, if that names itself and has exports, or else in the package found for the name |
| ExportsMeaning.NameIsMeaning | crates/node/resolution.rs:659-706 | a name under a pattern of "imports" is a node URL, what it means as a bare specifier from the package, or failing that a builtin |
| PackageResolver.ParseNpmPkgName | crates/node/resolution.rs:1489-1538 | the name ends at a slash or at the end and has no slash, one if scoped; with the subpath after its dot it is the specifier; it is refused if and only if it is empty, has no such name, or the name has a forbidden character |
| Exports.ParsedIsUnique | crates/node/resolution.rs:1489-1538 | those facts determine the outcome: a specifier has at most one such name |
| PackageResolver.LegacyMainResolve | crates/node/resolution.rs:1164-1258 | the loops over guesses return the first one that is a file |
| ExportsMeaning.LegacyMainIff | crates/node/resolution.rs:1164-1258 | the main entry is the first that is a file of main, main.js, main/index.js and index.js, and there is none if and only if none of them is a file |
| Splicing.SpliceTarget | crates/node/resolution.rs:790-830 | splicing a non-empty nested array into its parent never changes the outcome, including which error is reported |
| Splicing.EmptyArrayIff | crates/node/resolution.rs:790-830 | removing an empty nested array changes nothing if and only if something follows it, nothing precedes it, an earlier item decides, or the item before it resolves to nothing |
| Containment.ReplaceInPath | crates/node/resolution.rs:745-750 | replacing the first star in the text of a path replaces it in the first segment that has one |
| Containment.DotsAriseIff | crates/node/resolution.rs:710-752 | substituting a checked capture creates a "." or ".." segment if and only if it starts with a slash after such text, or ends with a slash before it |
| Containment.CheckedTarget | crates/node/resolution.rs:710-731 | a checked target resolves to its own segments below the package directory, so the prefix test cannot fail |
| Containment.TargetUnderIff | crates/node/resolution.rs:633-753 | the path of a string target of exports is the package directory and segments without dots if and only if the capture completes no dots beside the star |
| Containment.TargetUnderPackage | crates/node/resolution.rs:756-878 | whatever JSON a target is, it resolves into the package directory, without dots, when the capture starts and ends inside a segment |
| Containment.ExportsUnderPackage | crates/node/resolution.rs:881-988 | so does every request through exports, exact or by pattern |
| Containment.UnderIsInside | crates/node/resolution.rs:719-731 | without dots after the directory, the cleaned path lies in it |
| PackageBoundary.StarClimb | crates/node/resolution.rs:745-750 | how many levels the star segment climbs: by a leading slash after "..", and by a capture of slashes before ".." if nothing normal precedes it |
| PackageBoundary.TargetInsideIff | crates/node/resolution.rs:633-753 | a string target of exports resolves into the package directory if and only if its star segment climbs no further than the segments before it, or what follows leads back by the directory's own names |
| PackageBoundary.SlashLeavesPackage | crates/node/resolution.rs:881-988 | with one exports pattern and the target "./..*", a request with a second slash resolves, and into the package if and only if its first name is that of the package directory |
| Drain.StepKeepsInv | crates/base/src/server.rs:157-234 | every step keeps the counters equal to what they count and the values read so far meaningful |
| Drain.RunKeepsInv | crates/base/src/server.rs:496-645 | so does every interleaving of accepting, serving, dropping and draining |
| Drain.DrainIsSound | crates/base/src/server.rs:625-645 | without dropped response channels handled never exceeds received, and after the loop exits no connection is active and every received request was handled once |
| Drain.HandledIsOver | crates/base/src/server.rs:157-234 | no request is counted as handled before it is over |
| Drain.ExitIsFinal | crates/base/src/server.rs:625-645 | nothing after the exit undoes it |
| Drain.ExitIsSoundIff | crates/base/src/server.rs:625-645 | with dropped channels the exit is sound if and only if no request had been counted twice |
| Drain.SettledCount | crates/base/src/server.rs:157-234 | once no connection is live and every watcher has fired, the handled count exceeds the received count by one for each dropped response channel |
| Drain.SettledExitIff | crates/base/src/server.rs:625-645 | a pass of the drain loop over such a server exits if and only if no response channel was dropped |
| Drain.DroppedChannelHangs | crates/base/src/server.rs:625-645 | with a dropped channel no run from there ever exits: the drain loop turns for ever |
| Drain.DrainCanFinish | crates/base/src/server.rs:496-645 | from every reachable state without a dropped channel some continuation exits, with every received request handled once: no interleaving is a dead end |
| Drain.BodyDropHandles | crates/base/src/server.rs:157-234 | once the response body is dropped the watcher may fire at once, while the connection goes on |
| Drain.DroppedChannelHidesARequest | crates/base/src/server.rs:181-194 | a run in which a twice-counted request lets the loop exit with another one unhandled |
| Fetcher.LargerLimit | crates/sb_core/file_fetcher.rs:232-257 | a larger redirect limit never loses a cached file |
| Fetcher.ChainEndsAtItsFile | crates/sb_core/file_fetcher.rs:232-257 | a cached chain ends at an entry that is no redirect and names it |
| Fetcher.CachedIff | crates/sb_core/file_fetcher.rs:232-257 | reading the cache gives what stands at the end of the cached redirects, and too many redirects if and only if there are more than the limit |
| Fetcher.UnwrittenKept | crates/sb_core/file_fetcher.rs:308-442 | a fetch changes the entries of no URL it did not write |
| Fetcher.RedirectReplays | crates/sb_core/file_fetcher.rs:405-416 | the loop-erasure step: a redirect replays whether its entry survived or was overwritten by a later visit |
| Fetcher.FetchThenReplay | crates/sb_core/file_fetcher.rs:308-442 | after a successful fetch the cached chain from every URL it wrote, and from its start, gives the same file, even if URLs were revisited |
| Fetcher.ReplayIff | crates/sb_core/file_fetcher.rs:417-423 | for a downloaded file the cache replays the fetch if and only if the final response carried no location header |
| Fetcher.AsksIff | crates/sb_core/file_fetcher.rs:321-345 | for each cache setting, a cached file is returned without a request if and only if the setting allows it there, and otherwise the network is asked, or with cached-only nothing is |
| Fetcher.OnlyIsOffline | crates/sb_core/file_fetcher.rs:336-345 | with cached-only no request is made, nothing is written, and the answer is that of the cache |
| Fetcher.RefusedAtOnce | crates/sb_core/file_fetcher.rs:315-322 | a URL that is not permitted, or one redirect too many, is refused before anything is asked |
| Fetcher.ReloadAllAsks | crates/sb_core/file_fetcher.rs:445-449 | with reload-all every fetch asks the network and no file comes from the cache unasked |
| Fetcher.ReloadAllResult | crates/sb_core/file_fetcher.rs:308-442 | with reload-all the result is what the network answers at the end of its redirects, whatever is cached |
| Fetcher.FetchedIsTheAnswer | crates/sb_core/file_fetcher.rs:417-423 | a downloaded file is decoded from the body the server answered for its specifier, and that body and those headers are cached |
| Fetcher.RevalidatedIsCached | crates/sb_core/file_fetcher.rs:401-404 | a file that was not modified is the one cached for a URL of which the server said so |
| Fetcher.WrittenArePermitted | crates/sb_core/file_fetcher.rs:319-322 | only permitted URLs are written, through any redirects |
| Fetcher.NowGrows | crates/sb_core/file_fetcher.rs:381-442 | a fetch makes at most two requests for each redirect allowed and two more |
| Fetcher.AskRetriesOnce | crates/sb_core/file_fetcher.rs:360-379 | one request, and exactly one more if the first failed in transit or on the server |
| Fetcher.RefusedLocation | crates/sb_core/file_fetcher.rs:247-250 | a live redirect whose text import resolution refuses is followed all the same, and reading it back from the cache is an error |
| Fetcher.BareLocationIsFetchedOnce | crates/sb_core/util/http_util.rs:23-46 | a location such as "b.ts", without the prefix an import specifier needs: the fetch succeeds and its replay fails |
| Fetcher.FileFetcher.Fetch | crates/sb_core/file_fetcher.rs:308-442 | the fetch on the stored cache is the specified one, in result, cache and number of requests |
| Fetcher.FileFetcher.FetchThenFetchOffline | crates/sb_core/file_fetcher.rs:232-257 | a live fetch and then an offline one with the same limit give the same file |
| Upgrade.FindNewline | crates/sb_core/upgrade.rs:124-131 | the loop finds the first newline |
| Upgrade.ScanIsStable | crates/sb_core/upgrade.rs:105-121 | once the header scanner has an answer, more bytes do not change it |
| Upgrade.ScanDecides | crates/sb_core/upgrade.rs:105-121 | with a blank line ahead the scanner does not ask for more |
| Upgrade.VerdictExtends | crates/sb_core/upgrade.rs:166-228 | a verdict, once reached, stands: more bytes only grow the leftover |
| Upgrade.ChunkingDoesNotMatter | crates/sb_core/upgrade.rs:166-228 | every split of the same bytes into writes gives the same verdict, headers and bytes after them |
| Upgrade.ResponseUpgrades | crates/sb_core/upgrade.rs:105-121 | a response with at most sixteen header lines, each read by the grammar, upgrades with those headers in order and leaves what follows the blank line |
| Upgrade.ResponseIsRefused | crates/sb_core/upgrade.rs:105-121 | one with a refused line among the first seventeen, or with more than sixteen lines, has invalid headers |
| Upgrade.StatusIsRefused | crates/sb_core/upgrade.rs:150-164 | one has an invalid status if and only if its status line lacks the prefix |
| Upgrade.EndIsSeen | crates/sb_core/upgrade.rs:205-228 | the end of the headers is seen when the last header line and the blank line end alike |
| Upgrade.HeaderlessResponse | crates/sb_core/upgrade.rs:166-228 | a response without headers is not recognised at its blank line: the bytes after it are held back until they contain an end of headers themselves |
| Upgrade.WebSocketUpgrade.Write | crates/sb_core/upgrade.rs:166-228 | the answer of a write is the verdict on everything fed so far, whichever state or path gave it |
| Upgrade.WebSocketUpgrade.WriteInitial | crates/sb_core/upgrade.rs:170-191 | the one-packet fast path answers as the header path would, and a success there leaves the state initial |
| Upgrade.FeedAll | crates/sb_core/upgrade.rs:166-228 | feeding chunks to the parser until it answers: the answer with the unfed chunks appended is the verdict on the whole stream |
| Ipc.LaneFindsFirst | crates/node/ops/ipc.rs:339-388 | the lowest set bit of a comparison lane, divided by eight, is the first matching byte |
| Ipc.NeonMemchr | crates/node/ops/ipc.rs:339-388 | alignment prologue, two lanes a block and tail return the first matching index, for every input and start address |
| Ipc.FramesAreTheStream | crates/node/ops/ipc.rs:277-324 | cutting after each newline loses nothing, and only the last frame may lack one |
| Ipc.IpcJsonStream.ReadMsgInternal | crates/node/ops/ipc.rs:277-324 | one frame is consumed, parsed in place when it is in one read and buffered otherwise |
| Ipc.IpcJsonStream.ReadMsg | crates/node/ops/ipc.rs:223-246 | a call delivers the value of the first frame whatever the reads, and leaves the carry-over buffer empty |
| Ipc.ReadAll | crates/node/ops/ipc.rs:223-246 | when every frame parses, the messages are the values of the frames in order and then the null value of the end |
| Ipc.ReadLoop | crates/node/polyfills/internal/child_process.ts:1096-1108 | the channel's read loop delivers the frames before the first that is JSON null or does not parse, and takes null for the end of the stream |
| Ipc.AllDeliveredIff | crates/node/polyfills/internal/child_process.ts:1096-1108 | every message sent is delivered if and only if each parses to something other than null |
| Loader.StepKeepsInv | crates/node/polyfills/01_require.js:654-746 | every call, return and throw keeps the caches, active loads, children lists and log consistent |
| Loader.DirnameIff | crates/node/polyfills/01_require.js:268-275 | the directory of a file is the one text that, with a slash and a slashless name, is the file; a name alone is in "" |
| LoaderRuns.ReachableStates | crates/node/polyfills/01_require.js:654-746 | in every reachable state the cached modules not yet loaded are exactly the active ones, no file is active twice, relative entries lead to cached modules, a body starts again only after its load threw and never after it finished, and the require depth counts the active requires |
| LoaderRuns.FastPathIsSlowPath | crates/node/polyfills/01_require.js:654-674 | after any run in which resolution depends on the directory of the requiring file and the request, a load gives the same result and state with and without the relative-resolve fast path |
| LoaderRuns.LoadAnswers | crates/node/polyfills/01_require.js:654-715 | after any such run, what a load answers and changes, by the bodies that ran: the exports of a file whose body finished, the partial exports of one whose body runs, otherwise a native module or a new module in both caches and among the parent's children; node: names and failed resolution change nothing |
| LoaderRuns.LoadedIsReturned | crates/node/polyfills/01_require.js:654-699 | with deterministic resolution, a module that finished loading is the one every later load of its file returns, through either path |
| LoaderRuns.ThrownLoadRollsBack | crates/node/polyfills/01_require.js:719-737 | from a body's start to its throw, whatever it loads: its file leaves both caches and the parent's children, every module cached before is cached as before, and every new one has finished loading |
| CommonJs.ModuleLoader.Load | crates/node/polyfills/01_require.js:654-715 | the operation on the stored caches is the specified step, also when outside edits left stale entries |
| CommonJs.ModuleLoader.Returned | crates/node/polyfills/01_require.js:890-916 | the end of a load marks its module loaded and ends its frame |
| CommonJs.ModuleLoader.Failed | crates/node/polyfills/01_require.js:719-737 | the `finally` block is the specified rollback |
| CommonJs.ModuleLoader.Require | crates/node/polyfills/01_require.js:920-938 | an empty id is refused with the state unchanged, and other requests are loads counted by the require depth |
| CjsTranslator.ConsultedIsUnique | crates/node/analyze.rs:116-178 | the modules consulted, each string being resolved once for the module that asks for it first in queue order, are determined |
| CjsTranslator.ConsultedAreReached | crates/node/analyze.rs:116-178 | they are exactly the modules reached when every string leads where its first asker resolves it |
| CjsTranslator.AllConsultedIff | crates/node/analyze.rs:116-178 | every module reached through re-exports was consulted if and only if the consulted ones are closed under re-exports |
| CjsTranslator.CollectExports | crates/node/analyze.rs:94-178 | the worklist ends on cyclic graphs over finitely many strings, consults those modules and collects exactly their names, all of them offered; they are all that is offered if and only if every name a reached module contributes is contributed by a consulted one, and always when requests agree |
| CjsTranslator.DisagreeingRequestsLoseNames | crates/node/analyze.rs:116-178 | a string that resolves differently from a second module loses the names behind it |
| CjsEmitter.EscapeReadsBackIff | crates/node/analyze.rs:503-505 | an escaped name between quotes reads back as the name if and only if it has no line break |
| CjsEmitter.EmitExports | crates/node/analyze.rs:192-203 | the loop emits the specified statements and counts the temporaries |
| CjsEmitter.ModuleExports | crates/node/analyze.rs:192-203 | run on any value of `mod`, the emitted module is a valid program if and only if no name has a line break and no plain name clashes, and then it exports each name but "default", in order, with the property of `mod` of that name |
| CjsEmitter.EachNameOnce | crates/node/analyze.rs:192-203 | names without line breaks: each but "default" is exported once, under its own spelling |
| CjsEmitter.TempNamesDiffer | crates/node/analyze.rs:416-450 | temporaries have distinct names |
| CjsEmitter.ModuleDeclaresDistinctIff | crates/node/analyze.rs:416-450 | the module declares distinct identifiers if and only if no plain export name is one the fixed lines or the temporaries declare |
| CjsEmitter.RequireIsDeclaredTwice | crates/node/analyze.rs:343-414 | an export named "require", which is not among the reserved words, is declared twice |
| ExternalMemory.StepConserves | crates/sb_core/external_memory.rs:47-113 | live bytes and residue together move by the signed size change, granted or refused |
| ExternalMemory.StepBalances | crates/sb_core/external_memory.rs:88-113 | the word moves by the signed size change modulo its size, in particular for the wrapping addition in reallocate, and when a call is granted |
| ExternalMemory.RunIsExact | crates/sb_core/external_memory.rs:47-113 | over sequential runs without overflow the count is live bytes plus a non-negative residue of refused calls, and live bytes never exceed the limit |
| ExternalMemory.RunIsCounted | crates/sb_core/external_memory.rs:47-113 | over every sequential run the count and the words carried out of it during the run are live bytes plus residue |
| ExternalMemory.CountIff | crates/sb_core/external_memory.rs:47-113 | over every sequential run the count is live bytes plus residue if and only if the carries out of the word during the run cancel, equivalently if their sum fits a word, and live bytes are within the limit if and only if count plus carried words less residue is |
| ExternalMemory.SumCanBeNegative | crates/sb_core/external_memory.rs:88-113 | a run of requests of four gigabytes or less whose refused shrinks make that sum negative |
| ExternalMemory.OverflowBreaksTheBound | crates/sb_core/external_memory.rs:47-59 | under any limit below four gigabytes, a run of four-gigabyte requests is refused until the word wraps around, and then one is granted |
| ExternalMemory.CustomAllocator.Allocate | crates/sb_core/external_memory.rs:47-78 | the operation on the counter is the specified one; a refused call is not subtracted back |
| ExternalMemory.CustomAllocator.Free | crates/sb_core/external_memory.rs:80-85 | the same for free |
| ExternalMemory.CustomAllocator.Reallocate | crates/sb_core/external_memory.rs:88-113 | the same for reallocate; a grant keeps the common prefix of the bytes, a refusal keeps the block |
| SharedMemory.InterleavingBound | crates/sb_core/external_memory.rs:47-113 | however additions and later loads of threads interleave, live bytes exceed the limit by no more than what shrinks in flight or refused gave back |
| SharedMemory.InterleavingKeepsBound | crates/sb_core/external_memory.rs:47-113 | so they are within the limit whenever no shrink is in flight and none was refused |
| SharedMemory.GrantIsBoundedIff | crates/sb_core/external_memory.rs:47-113 | a grant leaves them within the limit if and only if the count, less residue and what is then in flight, is |
| SharedMemory.ShrinkBreaksTheBound | crates/sb_core/external_memory.rs:88-113 | a run that reaches that excess: 16 bytes live under a limit of 10, after a refused shrink of 6 |
| CpuTimer.RemoveAtFront | crates/cpu_timer/src/lib.rs:224-263 | a Remove that is taken finds its timer registered the first time, with no user handle but perhaps one being dropped |
| CpuTimer.ReferenceCount | crates/cpu_timer/src/lib.rs:66-76 | over every run, overlapping drops included: until its Remove is processed a timer has one reference besides its user handles |
| CpuTimer.WhatIsSent | crates/cpu_timer/src/lib.rs:66-137 | over every run: Add is sent once, a Remove if and only if some drop looked at the count with one user handle left, and a second Remove if and only if one was processed before its handle was released |
| CpuTimer.LeakIff | crates/cpu_timer/src/lib.rs:66-76 | over every run: once the queue is drained an unused timer is still registered if and only if no drop looked with one user handle left |
| CpuTimer.LiveIsRegistered | crates/cpu_timer/src/lib.rs:224-263 | over every run: a timer with a handle not being dropped, whose Add was processed, is registered |
| CpuTimer.TimerLifetime | crates/cpu_timer/src/lib.rs:84-137 | with atomic drops: Add is queued once and before Remove, which is queued at most once, exactly when no user handle is left; a used timer whose Add was processed is registered, and an unused one with a drained queue is gone |
| CpuTimer.AlarmIsDelivered | crates/cpu_timer/src/lib.rs:224-263 | an alarm of a registered timer in use is delivered |
| CpuTimer.DeliveredExactly | crates/cpu_timer/src/lib.rs:224-263 | over every run exactly the alarms processed after a timer's registration and before its first removal are delivered |
| CpuTimer.OverlappingDropsLeak | crates/cpu_timer/src/lib.rs:66-76 | two overlapping drops leave an unused timer registered for ever |
| CpuTimer.EarlyRemovalSendsTwice | crates/cpu_timer/src/lib.rs:66-76 | a Remove taken before the dropping handle is released is sent twice |
| Base32.RoundTrip | crates/npm/cache_dir.rs:163-176 | base32 without padding decodes to the bytes encoded, for every length |
| Base32.GroupIsNumber | crates/npm/cache_dir.rs:163-171 | eight groups of five bits, read as one number, are the five bytes |
| Base32.LettersAreTheAlphabet | crates/npm/cache_dir.rs:163-171 | the letters are the alphabet of section 6 of RFC 4648, lower-cased |
| NpmCache.NameRoundTrip | crates/npm/cache_dir.rs:163-176 | an encoded mixed-case name decodes to the name and has no slash |
| NpmCache.VersionPartRoundTrip | crates/npm/cache_dir.rs:48-59 | the version folder reads back as version and copy index |
| NpmCache.ResolveFolderId | crates/npm/cache_dir.rs:91-156 | the parser that rewrites its local text step by step computes the specified reading |
| NpmCache.FolderRoundTrip | crates/npm/cache_dir.rs:48-84 | any URL at or below the folder of a package id is read back as that id, scoped or not, lower- or mixed-case, with any copy index |
| NpmCache.FoldersAreDistinct | crates/npm/cache_dir.rs:48-84 | distinct ids have distinct folders, neither inside the other |
| NpmCache.NameFolderIsLower | crates/npm/cache_dir.rs:70-84 | name folders are lower-case, that of a lower-case name being the name itself |
| NpmCache.DistinctIgnoringCase | crates/npm/cache_dir.rs:70-84 | different names have different folders even where case is ignored |
| NpmCache.ReadIff | crates/npm/cache_dir.rs:91-156 | for any text, the reader answers an id if and only if the text does not leave the registry folder and, with its first component decoded, is that id's name and version part and anything below |
| NpmCache.UnderscoreIff | crates/npm/cache_dir.rs:70-84 | a lower-case unscoped name reads back if and only if it does not start with an underscore |

## Left out

- Virtual file system: reading host directories, partial reads and seeking (the position is ignored by reads and `SeekFrom::End` has the opposite sign, so only whole reads from a fresh handle are stated), and 64-bit overflow of offsets. The descent through `&mut` references is modelled by rebuilding the tree.
- VfsCircular.DirectTargetsEnd: sufficient for a lookup to end, not necessary; VfsTermination.NeverEndsIff is the exact condition.
- CpuTimer.TimerLifetime: the atomic case; for overlapping drops CpuTimer.WhatIsSent and CpuTimer.LeakIff state exactly what holds.
- Containment: the package directory has no '*', because the replacement acts on the whole path text; strings are ASCII and paths use slashes.
- Package resolution: Types mode, the `imports` pattern branch (its ranges are inclusive), conditions passed through `resolve`, bin entries, and the search for the closest package.json. Termination of target, package and exports recursion is the functions' own termination measure.
- Drain: deadlines, signals and HTTP/2 streams; atomics are sequentially consistent.
- Fetcher: in-memory files, data, blob and file URLs, cache write errors and the URL logic of `ReloadSome`; cache semantics of headers is a parameter. A file revalidated by NotModified is replayed with up to ten more redirects, because that arm reads the cache with a limit of its own.
- Fetcher.FetchThenReplay: assumes that each redirect taken is what its location header resolves to as an import specifier, and that the final response is no redirect; Fetcher.RefusedLocation and Fetcher.ReplayIff say what happens otherwise. The two ways of resolving a location are parameters.
- Fetcher.ReplayIff: the same assumption on redirects.
- Upgrade: the grammar of one header line and header-name checks are a parameter. The search for the end of the headers starts after the status line, so a response without headers waits (Upgrade.HeaderlessResponse).
- Ipc: recovery after a parse error, cancellation, a target disconnected or killed during the read loop, and the write side. A JSON null cannot be told from the end of the stream (Ipc.AllDeliveredIff).
- CommonJs.ModuleLoader.Load: the exports object and its circular-access proxy, `mainModule`, `_pathCache` and the stat cache are not modelled; resolution is a parameter, and file names have no doubled or trailing slashes.
- CjsTranslator: resolution of a re-export and source analysis are parameters; the set of emitted names is given in its iteration order.
- CjsEmitter: the reserved words are a parameter; identifiers are ASCII.
- ExternalMemory: requests above the largest size of a byte vector (2^63 - 1), which would panic if granted.
- SharedMemory: atomics are sequentially consistent and the word does not overflow; the waker and the time at which memory returns to the system.
- CpuTimer: timer system calls and signal delivery before the queue.
- NpmCache: non-ASCII names, percent-encoding and making the URL relative to the registry; versions are given by a printer and parser that are inverse, without '_' or '/'.
- V8, TLS, the inspector, worker pools, the command line and telemetry: calls into code without visible semantics.
