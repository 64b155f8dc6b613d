# The native half of dart:io: event handlers, directories, paths, ELF images

A model of the state-heavy algorithms in `runtime/bin`, with the operating
system as an abstract environment. `dafny verify dfyconfig.toml` checks all of
it.

| files | what they model |
|---|---|
| `Basics`, `PathSpec`, `PathCleaner` | `File::CleanUnixPath` against a stack of path components |
| `FileTree`, `WalkFrames` | a finite file system with arbitrary, possibly cyclic links; the recursive reference walk |
| `WalkMeaning`, `WalkErrors`, `WalkTruth`, `WalkRepeats`, `WalkExamples` | what a listing says about the file system, when that is true, and what it says twice |
| `PathBuffer`, `LinkChains`, `Listing`, `AsyncListing` | the pausable listing: one shared path buffer, the shared chains of followed links, the explicit stack, bounded responses |
| `ListingProtocol`, `ListingClient` | the items of a response as they are written and read; the Dart client of a listing |
| `LinkedTree`, `RecursiveDelete` | resolving paths over links; recursive deletion in a mutable tree with links |
| `Ring`, `Scheduler`, `Descriptor` | the circular list, the token scheduler as values, the scheduler on the heap |
| `Heap`, `Timers` | the priority queue, the timeout queue and the armed timer |
| `Sockets`, `Poller`, `Kqueue` | the descriptors and messages of an event handler; the epoll and kqueue handlers and what the kernel has registered |
| `ElfImage` | placing ELF segments, after the "Program Header" section of chapter 5 of the System V ABI (gABI) |
| `UriDecoding` | percent-decoding, section 2.1 of RFC 3986 |
| `EdgeTrigger` | edge triggering simulated by two threads on Fuchsia |

Each imperative part is a class or method proved against functions on values,
and the promises are lemmas about those functions. System calls of a deletion
may fail by a nondeterministic choice (`faulty`); what the kernel says to a
registration is an arbitrary sequence (`answers`); hash maps are maps; the
listening-socket registry is an oracle that says "last socket" only when no port
is left; the bytes available on a Fuchsia socket, the time and the messages
received are parameters. The root of a listing ends in a separator, which both
callers see to (`sdk/lib/io/directory_impl.dart:259`, line 280).

## What turned out not to hold

- Cancelling a timer. `PriorityQueue::RemoveAt` moves the last entry to the
  place removed and bubbles it down, never up. `Timers.CancelRightExactly`
  gives the exact condition under which the timer stays right, and
  `Timers.CancellingCanMissTheEarliest` a run in which it does not;
  `Timers.RunRightExactly` is about runs with any number of cancellations. That no
  port is told before its deadline holds in any case. A deadline of 0 leaves the
  timer disarmed.
- Paths of exactly PATH_MAX characters. `PathBuffer::Add` reports success
  although the last character was dropped.
  - Deleting: if the path given is that long and names a file without its last
    character, that other file is removed and success reported. This is the only
    failing case (`RecursiveDelete.Delete` has both directions,
    `RecursiveDelete.MisreadBreaks` and `RecursiveDelete.RemovesAnother` show
    it). For paths below the one given nothing outside the subtree is touched
    and success still means that all of it is gone.
  - Listing: such an entry is reported without its last character, so a report
    can be false, and two can be the same (`WalkExamples.LosesTheLast`).
    `WalkTruth.TrueExactly` and `WalkRepeats.RepeatsExactly` say for which file
    systems that happens, in both directions. A directory of such a path can be
    confused with another one, and then the source reads a length that was never
    set (`WalkExamples.LosesItsWay`); `WalkMeaning.DefinedExactly` says exactly
    when, and `WalkMeaning.ShortKeepsItsWay` gives simple conditions under which
    it does not.
- kqueue registrations. One call adds both filters and may be refused between
  them, so a descriptor that is not tracked can keep a READ filter, and a tracked
  one have more filters than its mask (`Kqueue.StaleFilter`).
  `Kqueue.FiltersExactly` says when the filters are exact, in both directions,
  and `Kqueue.NeverBoth` for which descriptors always. A descriptor with such a
  filter can still be told events, and the assertion about its port holds.
- Tokens. With epoll a descriptor with one port is never told without a token
  (`Poller.RunsFunded`). With kqueue it is when both its filters fire together
  (`Kqueue.BothFire`); `Kqueue.EachEventCosts` says for each event whether the
  tokens stay at zero or above.
- `CleanUnixPath` is documented (`runtime/bin/file.h:308`) to return -1 when the
  output does not fit. The code returns -1 when the input does not fit, also
  where the output would, and never for the empty path and the root.
  `PathCleaner.AgreesExactly` says for every input and size whether the two
  agree; `PathCleaner.RefusesTooMuch` is an input where they do not.
- `MapFilePiece` maps from the page of the piece in the file, but computes the
  address within it from the offset in the ELF data alone. The address is right
  exactly when that data starts at a page boundary, which `Load` checks.

## Model

| member | source | states |
|---|---|---|
| `PathCleaner.CleanUnixPath` | runtime/bin/file.cc:670-741 | For every NUL-free input and every size: -1 exactly when the input is at least as long as the size and is neither empty nor the root; otherwise the length of the component-stack normal form, which from size 2 on the buffer holds with a terminator inside the size. Nothing past the size is touched but the root separator and its terminator. The write index never passes the read index (`Positions`) |
| `PathCleaner.AgreesExactly` | runtime/bin/file.h:305-309 | For every input and size, code and documentation agree if and only if the buffer holds the input or not even the result; for the empty path and the root, if and only if the size is at least 2 |
| `PathCleaner.RefusesTooMuch` | runtime/bin/file.cc:667-669 | A concrete input, `a/..` with size 2: the result `.` fits and -1 is returned |
| `PathSpec.CleanNoLonger` | runtime/bin/file.cc:670-741 | Cleaning makes no path longer but the empty one |
| `PathCleaner.CleanUp` | runtime/bin/file.cc:696-719 | Each of the three cases of `..` keeps the loop's relation between the text written, the stack it renders and the input still to be read |
| `PathCleaner.BackUp` | runtime/bin/file.cc:700-706 | Walking the write index back over one component leaves exactly the rendering of the stack without it, and never goes behind the leading `..` run |
| `PathCleaner.WriteName` | runtime/bin/file.cc:721-729 | An ordinary component is written after a separator where one is needed; running out of room happens only when the input is too long |
| `PathSpec.NormalShape` | runtime/bin/file.cc:688-719 | The normal form of every path has no empty and no `.` component, `..` only as a leading run, and no `..` at all when rooted |
| `PathSpec.CleanIdempotent` | runtime/bin/file.cc:670-741 | Cleaning twice is cleaning once |
| `PathSpec.CleanCompositional` | runtime/bin/file.cc:670-741 | Cleaning a prefix first changes nothing, if and only if the prefix is not empty |
| `PathSpec.CleanPreservesMeaning` | runtime/bin/file.cc:670-741 | In every link-free tree a path that resolves names the same file after cleaning |
| `PathSpec.RenderIsNormal` | runtime/bin/file.cc:733-740 | Reading back the text of any normal form gives that normal form: render and normalise are inverse |
| `FileTree.PathOfEntry` | runtime/bin/directory_linux.cc:108-127 | A directory's text and the name of an entry, looked up, give that entry; a separator after it changes nothing |
| `FileTree.CutNames` | runtime/bin/directory_linux.cc:56-68 | A directory's own text still names that directory when its separator is the one character that the buffer loses |
| `FileTree.GoIntoDescends` | runtime/bin/directory_linux.cc:161-192 | Entering a directory leaves fewer links to follow, or as many and a lower directory: the measure that ends every walk, however links cycle |
| `FileTree.WalkDir` | runtime/bin/directory_linux.cc:83-222 | The reference walk of a directory, paths of any length included; its termination over cyclic links is part of what is verified; it ends with the removal of its entry |
| `FileTree.WalkFrom` | runtime/bin/directory_linux.cc:115-222 | The reference walk from any position of a directory, pre-order in readdir order; ends with the removal of its entry |
| `WalkFrames.DepthBound` | runtime/bin/directory_linux.cc:161-192 | In every reachable state at most (links + 1) * (height + 1) directories are open |
| `WalkFrames.ReadStep` | runtime/bin/directory_linux.cc:119-207 | What is left to do in a directory is the step of its next entry, the whole walk below it if it is entered, and the rest; or only that step and the removal, where the path does not fit |
| `WalkFrames.TooLongStep` | runtime/bin/directory_linux.cc:124-127 | A path longer than the buffer is one error and the end of its directory |
| `WalkFrames.OpenWorks` | runtime/bin/directory_linux.cc:88-114 | Opening a directory takes nothing off what is left to do |
| `WalkFrames.OpenFails` | runtime/bin/directory_linux.cc:93-107 | A directory that cannot be opened is one error and its removal |
| `WalkFrames.EndStep` | runtime/bin/directory_linux.cc:215-222 | At the end of a directory there is an error exactly if readdir failed, then the removal |
| `WalkFrames.DoneOnceAndLast` | runtime/bin/directory.cc:533-541 | The done marker comes exactly once, and last |
| `WalkTruth.ListedTruthfully` | runtime/bin/directory_linux.cc:128-222 | Every step of a listing is true of its path looked up afresh: file, directory or link, and an error only for what cannot be listed or does not fit; a report whose path has PATH_MAX - 1 characters is true of that path or of one with one more character |
| `WalkTruth.ReportIsTrue` | runtime/bin/directory_linux.cc:128-207 | A report is false if and only if its entry is listed by its d_type, has a path of exactly PATH_MAX characters, and that path without its last character names nothing or something of another kind |
| `WalkTruth.TrueExactly` | runtime/bin/directory_linux.cc:83-222 | Everything a listing says is true if and only if it comes to no such entry |
| `WalkMeaning.ReportedAs` | runtime/bin/directory_linux.cc:141-192 | Every report is about an entry that the listing came to, of the kind that the links followed on the way make it: with `follow_links`, what is reported as a link is broken or was followed on the way already, and any other link is reported as what it points at |
| `WalkMeaning.DefinedExactly` | runtime/bin/directory_linux.cc:108-117 | The walk is defined throughout if and only if the listing comes to no directory that is to be entered, has a path of exactly PATH_MAX characters, and without the last one opens as another; only there is the stored length used that was never set |
| `WalkMeaning.ShortKeepsItsWay` | runtime/bin/directory_linux.cc:108-117 | Enough for that: the listing is not recursive, or no entry it comes to has a path of exactly PATH_MAX characters |
| `WalkExamples.LosesTheLast` | runtime/bin/directory_linux.cc:56-68 | A concrete directory: two files whose paths fill the buffer are both reported under a path that names neither |
| `WalkExamples.LosesItsWay` | runtime/bin/directory_linux.cc:108-114 | A concrete directory for which the walk is not defined: a path that fills the buffer opens another directory, whose stored length is never set |
| `WalkMeaning.ListedExactly` | runtime/bin/directory_linux.cc:83-222 | The reports of a listing, and the places where it loses its way, are exactly those of the entries that can be reached from the root through readable directories, past no path that is too long or leads astray, over links only on request and never over one followed on the way already: each with the path of its entry, cut to the buffer, and the kind that the links followed on the way make it |
| `WalkErrors.ErrorsExactly` | runtime/bin/directory_linux.cc:83-222 | The errors of a listing are exactly these, each with its path cut to the buffer: the root is not there; a directory that is entered does not open; an entry is met whose path is too long, which ends its directory; an entry is met whose path fills the buffer and, cut, names nothing, or is to be entered and does not open; and all of a directory was read when readdir failed |
| `WalkRepeats.RepeatsExactly` | runtime/bin/directory_linux.cc:83-222 | A path is reported twice if and only if two different entries that are come to and reported have paths of which the buffer holds just that path |
| `WalkRepeats.EachOnce` | runtime/bin/directory_linux.cc:83-222 | No path but one of exactly PATH_MAX - 1 characters is reported twice |
| `WalkMeaning.EverythingListed` | runtime/bin/directory_linux.cc:83-222 | Completeness below any directory, however it was reached: every entry that can be reached makes its step |
| `PathBuffers.CStringUpToNul` | runtime/bin/directory_linux.cc:43-45 | A C string ends at its first NUL |
| `PathBuffers.PathBuffer.Format` | runtime/bin/directory_linux.cc:58 | snprintf at the current length: the text that then stands in the buffer, cut to leave room for the terminator |
| `PathBuffers.PathBuffer.Add` | runtime/bin/directory_linux.cc:56-68 | Success exactly when the length stays within PATH_MAX, and the text in every case, the one included where the name exactly fills the buffer and its last character is lost |
| `PathBuffers.PathBuffer.Reset` | runtime/bin/directory_linux.cc:70-73 | The text is cut back to its first characters |
| `LinkChains.ReachableIsLive` | runtime/bin/directory_linux.cc:163-172 | Nothing that an entry on the stack can reach through its chain has been deleted |
| `LinkChains.OwnedByTopOnly` | runtime/bin/directory_linux.cc:232-237 | The node that the top entry is about to delete is the head of no other entry |
| `LinkChains.ResetTop` | runtime/bin/directory_linux.cc:232-241 | Resetting deletes an owned node once, and keeps the ownership of all others |
| `LinkChains.FollowTop` | runtime/bin/directory_linux.cc:186 | Following a link adds one node owned by the top entry |
| `Listing.DirectoryListing.constructor` | runtime/bin/directory.h:93-106 | The listing is in error exactly if the root path is longer than the buffer; otherwise all there is to do is the reference walk |
| `Listing.DirectoryListing.ResetLink` | runtime/bin/directory_linux.cc:232-241 | The top entry shares the chain below it again; a node it owned moves from the live to the deleted ones, and no other does |
| `Listing.DirectoryListing.Seen` | runtime/bin/directory_linux.cc:163-172 | The scan of the chain finds a link exactly when it was followed to get here |
| `Listing.DirectoryListing.Classify` | runtime/bin/directory_linux.cc:128-207 | How an entry is reported, given its type or an lstat of the text in the buffer, agrees with the reference, and a followed link to a directory joins the chain |
| `Listing.DirectoryListing.FollowLink` | runtime/bin/directory_linux.cc:186 | One node is allocated, and it heads the chain of the entry |
| `Listing.DirectoryListing.ReadEntry` | runtime/bin/directory_linux.cc:122-207 | One readdir result is one step of the reference walk, whether its path fits, just fits or does not |
| `Listing.DirectoryListing.Open` | runtime/bin/directory_linux.cc:88-114 | The directory is opened under its own text, with the separator added below the root, which always fits; or reported as an error and finished |
| `Listing.DirectoryListing.Rewind` | runtime/bin/directory_linux.cc:115-117 | The shared buffer is cut back to the directory's own text and the chain to that of its parent; no deleted node is forgotten and every node is accounted for |
| `Listing.DirectoryListing.Next` | runtime/bin/directory_linux.cc:83-222 | Returns the next step of the reference walk with exactly its text in the shared buffer, after steps that report nothing; every link node allocated so far is live or deleted |
| `Listing.DirectoryListing.Push` | runtime/bin/directory.cc:524-528 | Entering a directory puts its whole walk in front of what is left |
| `Listing.DirectoryListing.Drop` | runtime/bin/directory.h:118-123 | Pop with the destructor: the entries below are untouched and no node is lost or deleted twice |
| `Listing.DirectoryListing.PopAll` | runtime/bin/directory.h:127-131 | From any state, paused or stopped: no node remains, and every node ever allocated has been deleted |
| `Listing.DirectoryListing.Advance` | runtime/bin/directory.cc:516-546 | One turn of ListNext takes exactly one reported step off the reference walk, and no link node is lost |
| `AsyncListing.AsyncDirectoryListing.constructor` | runtime/bin/directory.h:167-175 | Unless the root path does not fit, all that will come is the reference walk of the named directory and the done marker |
| `AsyncListing.ListStartRequest` | runtime/bin/directory.cc:288-318 | A listing is handed out exactly if the root path fits |
| `AsyncListing.AsyncDirectoryListing.Respond` | runtime/bin/directory.cc:379-425 | Two slots for one event, never past the array, from which the client reads back exactly that event; and whether another one fits |
| `AsyncListing.AsyncDirectoryListing.ListNext` | runtime/bin/directory.cc:516-546 | The events written are exactly those taken off what is to come |
| `AsyncListing.AsyncDirectoryListing.List` | runtime/bin/directory.cc:548-556 | Terminates; fills the response with the next events; stops early only when the walk is over |
| `AsyncListing.AsyncDirectoryListing.ListNextRequest` | runtime/bin/directory.cc:320-339 | The same for a response of any even size; a finished listing gives an empty one |
| `AsyncListing.Drain` | runtime/bin/directory.cc:320-339 | From any paused state, joining the responses gives all that was to come |
| `AsyncListing.ListAll` | runtime/bin/directory.cc:320-339 | Pausing is invisible: for every even positive size the client reads from the responses joined exactly the events of the reference walk, with their kinds and paths, and the done marker; and all responses but the last are full |
| `ListingProtocol.ReadEncoded` | runtime/bin/directory.h:159-165 | Whatever events are written, a reader with the codes of the Dart side (sdk/lib/io/directory_impl.dart:304-308) reads back exactly those, up to the done marker |
| `ListingProtocol.VisibleIsSent` | runtime/bin/directory.cc:516-546 | A walk that keeps its way is told by items that the client knows, and the done marker comes last |
| `WalkFrames.VisibleExactly` | runtime/bin/directory.cc:516-546 | Exactly the files, directories, links and errors of a walk are told to the client |
| `ListingClient.AsyncDirectoryLister.Take` | sdk/lib/io/directory_impl.dart:397-419 | The loop over one response: the stream is given what the pairs say, up to the done marker, which stops it |
| `ListingClient.ReadAll` | sdk/lib/io/directory_impl.dart:380-424 | From any paused state the client reads all that is to come, in order, and terminates; the one response it has asked for too many is empty |
| `ListingClient.Listen` | sdk/lib/io/directory_impl.dart:344-360 | The whole listing as the Dart client sees it, for every even positive response size: it terminates, the stream is given exactly the events of the reference walk in order and then ends; an entity is given if and only if an entry is come to that is listed so, and an error if and only if a directory that is entered fails so |
| `AsyncListing.StopAfter` | runtime/bin/directory.cc:341-358 | Any number of requests of any sizes and then a stop: every link node allocated on the way has been deleted, and the responses are the first part of what was to come |
| `RecursiveDelete.Delete` | runtime/bin/directory_linux.cc:483-500 | For every tree with links and every path: nothing outside the subtree that the path names changes, link targets included, and on success all of it is gone, unless the path fills the buffer and names a file without its last character. Without system errors it does so if and only if the path is not misread in that way, and it succeeds if the path keeps its way and there is room for every path and for a separator and `..` after each directory |
| `RecursiveDelete.MisreadBreaks` | runtime/bin/directory_linux.cc:56-68 | In every misread case the promise is broken: another file is gone and success is reported |
| `RecursiveDelete.RemovesAnother` | runtime/bin/directory_linux.cc:483-500 | A concrete run: with room for three characters, deleting `/ab` removes `/a`, keeps `/ab` and reports success |
| `RecursiveDelete.DeleteRecursively` | runtime/bin/directory_linux.cc:257-369 | The same at any level of the recursion, with the text the caller left in the buffer still in front; lstat keeps the deletion from opening a link. On a cut path exactly the file it names goes, if it names one |
| `RecursiveDelete.DeleteContents` | runtime/bin/directory_linux.cc:288-369 | After the loop the directory is removed only if it is empty, so success means that nothing below it is left |
| `RecursiveDelete.RemoveEmpty` | runtime/bin/directory_linux.cc:305-312 | The directory goes only if it is empty by then, and with it all that was at and below it |
| `RecursiveDelete.DeleteNext` | runtime/bin/directory_linux.cc:290-362 | After each entry the buffer holds the directory's own text again |
| `RecursiveDelete.DeleteEntry` | runtime/bin/directory_linux.cc:314-357 | An entry of any type, known or asked for, is deleted without changing anything outside its directory; if its path fits, exactly that entry |
| `RecursiveDelete.AskType` | runtime/bin/directory_linux.cc:330-342 | lstat of the entry's own path gives its type, and the buffer is restored |
| `RecursiveDelete.DeleteFile` | runtime/bin/directory_linux.cc:245-248 | At most one file of the directory goes; if the path fits, the named one |
| `LinkedTree.UnlinkKeeps` | runtime/bin/directory_linux.cc:310-312 | Removing a file, a link or an empty directory leaves a tree, without that entry and otherwise the same |
| `RecursiveDelete.DeleteDir` | runtime/bin/directory_linux.cc:250-255 | `.` and `..` are passed over; of any other entry only what is at and below it goes |
| `RecursiveDelete.NameLands` | runtime/bin/directory_linux.cc:314-329 | In a tree with links a name under a real directory's text leads to that directory's own entry |
| `RecursiveDelete.CutLands` | runtime/bin/directory_linux.cc:245-248 | A file named by a real directory's text and a cut name is still an entry of that directory |
| `RecursiveDelete.RemovalLands` | runtime/bin/directory_linux.cc:305-312 | What rmdir can remove under a real directory's text is that directory |
| `LinkedTree.WalkMonotone` | runtime/bin/directory_linux.cc:257-369 | Where a path leads in a tree from which files have gone, it led before |
| `LinkedTree.WalkAppend` | runtime/bin/directory_linux.cc:257-369 | A path of two parts is the second part taken from where the first leads, links followed |
| `Ring.CircularLinkedList.Add` | runtime/bin/eventhandler.h:120-136 | Appends to the sequence from the head on, and says whether it was empty; next and prev stay inverse |
| `Ring.CircularLinkedList.RemoveHead` | runtime/bin/eventhandler.h:138-153 | Drops the first |
| `Ring.CircularLinkedList.Remove` | runtime/bin/eventhandler.h:155-183 | Drops the first occurrence and keeps the order of the rest |
| `Ring.CircularLinkedList.Rotate` | runtime/bin/eventhandler.h:195-200 | Moves the first to the end |
| `Ring.CircularLinkedList.RemoveAll` | runtime/bin/eventhandler.h:185-189 | Terminates with an empty ring |
| `Ring.CircularLinkedList.Tour` | runtime/bin/eventhandler.h:451-460 | Rotating until the root recurs terminates, meets every element once in order, and leaves the ring as it was |
| `Ring.CircularLinkedList.Unlink` | runtime/bin/eventhandler.h:168-171 | Joining the neighbours of any node of a ring of several leaves a ring of the others, in order |
| `Scheduler.RunsConserve` | runtime/bin/eventhandler.h:421-571 | Over every run of set-mask, close, notify-one, notify-all and return-token: the ring holds, without duplicates, exactly the ports that are reading and have tokens; and for each registered port tokens plus messages sent minus tokens returned is the initial amount |
| `Scheduler.TokenBoundExact` | runtime/bin/eventhandler.h:268-272 | On any run the upper bound asserted of a returned token holds if and only if the port has returned no more than it was sent |
| `Scheduler.ExecKeeps` | runtime/bin/eventhandler.h:421-571 | Every operation keeps the ring equal to the ready ports |
| `Scheduler.ExecBalances` | runtime/bin/eventhandler.h:510-564 | Every operation keeps the books balanced |
| `Scheduler.RoundServesAll` | runtime/bin/eventhandler.h:510-530 | With n ready readers, n notifications in a row serve n distinct ports in ring order |
| `Scheduler.FairAtEveryPrefix` | runtime/bin/eventhandler.h:510-530 | From equal tokens no reader is ever ahead of another by more than one notification |
| `Scheduler.AllTokensSpent` | runtime/bin/eventhandler.h:510-571 | Exactly the sum of all tokens of ready readers is delivered before Mask becomes 0 |
| `Scheduler.ServedIsSpent` | runtime/bin/eventhandler.h:510-530 | A port's notifications are the tokens it has spent |
| `Scheduler.NotifyKeeps` | runtime/bin/eventhandler.h:510-530 | A notification keeps the ring right, and there is a port to notify exactly when Mask is not 0 |
| `Scheduler.ExecExactly` | runtime/bin/eventhandler.h:421-571 | Every operation does to each port, also to those it is not about, exactly what it means for that port's registration, reading flag, messages sent and tokens returned |
| `Scheduler.RunsExactly` | runtime/bin/eventhandler.h:421-571 | At every point of every run a port is registered, reads and has tokens exactly as the operations, read in turn, say; it reads if and only if its last set-mask asked for it |
| `Scheduler.ReadyExactly` | runtime/bin/eventhandler.h:421-445 | A port is in the ring after an operation if and only if it then reads and has been sent less than it started with and gave back; after a set-mask of 0 it is not |
| `Scheduler.NobodyOvertakes` | runtime/bin/eventhandler.h:421-571 | While a port stays in the ring no operation puts another one before it, and each notification brings it one place on |
| `Scheduler.NobodyStarves` | runtime/bin/eventhandler.h:421-571 | In every run, whatever else happens meanwhile, a port that stays ready is notified by the time there have been more notifications than there were ports before it |
| `Descriptor.DescriptorInfoMultiple.SetPortAndMask` | runtime/bin/eventhandler.h:421-445 | On the heap: the entry of the port gets the flag asked for and keeps its tokens, or is new with the initial amount; no other entry changes; the ring is that of the scheduler, and after a mask of 0 the port is not in it |
| `Descriptor.DescriptorInfoMultiple.RemovePort` | runtime/bin/eventhandler.h:474-496 | The entry leaves map and ring, and exactly it is deleted; an unknown port changes nothing |
| `Descriptor.DescriptorInfoMultiple.RemoveAllPorts` | runtime/bin/eventhandler.h:498-508 | Every entry is deleted exactly once; the final sweep of the ring finds nothing |
| `Descriptor.DescriptorInfoMultiple.NextNotifyDartPort` | runtime/bin/eventhandler.h:510-530 | The head of the ring is told, loses a token, and leaves or goes to the end |
| `Descriptor.DescriptorInfoMultiple.NotifyAllDartPorts` | runtime/bin/eventhandler.h:532-550 | Every registered port is posted to once and loses a token, in whatever order the map is walked; the ring keeps the order of those still ready |
| `Descriptor.DescriptorInfoMultiple.ReturnTokens` | runtime/bin/eventhandler.h:552-564 | The port gets its tokens back and joins the ring if that makes it ready |
| `Descriptor.DescriptorInfoMultiple.Mask` | runtime/bin/eventhandler.h:566-571 | Not 0 exactly when a reader is ready |
| `Descriptor.DescriptorInfoMultiple.CheckReaders` | runtime/bin/eventhandler.h:447-471 | The debug check always ends with 0 and leaves everything as it was |
| `Descriptor.DescriptorInfoMultiple.WalkRing` | runtime/bin/eventhandler.h:449-460 | Every reader in the ring passes the assertion that it is ready |
| `Heap.UpOrders` | runtime/platform/priority_queue.h:168-178 | Bubbling up repairs a heap in which only one entry may be before its parent |
| `Heap.DownRepairs` | runtime/platform/priority_queue.h:180-209 | Bubbling down repairs every edge but the one above its start, and touches nothing before it |
| `Heap.InsertOrders` | runtime/platform/priority_queue.h:49-60 | Inserting keeps the order |
| `Heap.ChangeOrders` | runtime/platform/priority_queue.h:96-120 | Changing a priority keeps the order, whichever way it goes |
| `Heap.RemoveOrdersExactly` | runtime/platform/priority_queue.h:150-166 | Removing keeps the order if and only if the last entry is not before the parent of the place it is moved to: RemoveAt never bubbles up |
| `Heap.InsertContents` | runtime/platform/priority_queue.h:49-60 | Inserting adds exactly the entry |
| `Heap.ChangeContents` | runtime/platform/priority_queue.h:96-120 | Changing replaces exactly the entry |
| `Heap.RemoveContents` | runtime/platform/priority_queue.h:150-166 | Removing takes out exactly the entry |
| `Heap.FirstIsLeast` | runtime/platform/priority_queue.h:65-68 | In an ordered heap nothing is before the first entry |
| `Timers.PriorityQueue.Insert` | runtime/platform/priority_queue.h:49-60 | In place, with the map of places kept: does what the heap of values does |
| `Timers.PriorityQueue.BubbleUp` | runtime/platform/priority_queue.h:168-178 | In place: the heap of values bubbled up |
| `Timers.PriorityQueue.BubbleDown` | runtime/platform/priority_queue.h:180-209 | In place: the heap of values bubbled down |
| `Timers.PriorityQueue.RemoveAt` | runtime/platform/priority_queue.h:150-166 | In place: the heap of values with the entry removed; map and heap still name each other |
| `Timers.PriorityQueue.RemoveByValue` | runtime/platform/priority_queue.h:79-89 | Finds the value exactly if it is there, and removes that entry |
| `Timers.PriorityQueue.InsertOrChangePriority` | runtime/platform/priority_queue.h:96-120 | Inserts a new value or changes the priority of an old one |
| `Timers.ArmedForFirst` | runtime/bin/eventhandler_linux.cc:287-297 | The timer is armed for the first entry's deadline to the millisecond; a deadline of 0 leaves it disarmed |
| `Timers.UpdateOrdersExactly` | runtime/bin/eventhandler.h:86-92 | A timer message keeps the queue ordered unless it cancels a deadline whose place the last one may not take; then it never does |
| `Timers.CancelRightExactly` | runtime/bin/eventhandler.h:86-92 | After a cancellation in an ordered queue the timer is armed for the earliest deadline at every later point, whatever requests and timeouts follow, if and only if the last entry is not before the parent of the cancelled one |
| `Timers.RunRightExactly` | runtime/bin/eventhandler.h:86-92 | Over a whole run of requests, cancellations and timeouts: the timer is armed for the earliest deadline at every point, and through whatever requests and timeouts come instead from there on, if and only if every cancellation was safe when it was made |
| `Timers.UpdateMeans` | runtime/bin/eventhandler.h:86-92 | The queue as a map from ports to deadlines: a message sets the deadline of its port, or takes the port out if it is negative, and changes no other |
| `Timers.ExpireMeans` | runtime/bin/eventhandler_linux.cc:363-365 | A timeout takes out exactly the port of the first entry |
| `Timers.RunMeans` | runtime/bin/eventhandler.h:86-92 | Over any run of requests, cancellations and timeouts the queue is the map that the moves, read in turn, make of the one it began with: each deadline asked for last, not cancelled and not yet told |
| `Timers.MoveOrders` | runtime/bin/eventhandler.h:86-92 | A request, cancellation or timeout keeps the queue ordered if and only if it is no unsafe cancellation |
| `Timers.FaultComesOut` | runtime/platform/priority_queue.h:150-166 | Any entry before its parent can be made to show: postponing the first entry often enough arms the timer for a deadline while an earlier one is pending |
| `Timers.CancellingCanMissTheEarliest` | runtime/platform/priority_queue.h:150-166 | A concrete run: two cancellations and a timeout after seven requests, the timer is armed for 5 while 4 is pending |
| `Timers.BuiltInTurn` | runtime/platform/priority_queue.h:49-60 | The queue of that run is the one that asking for its deadlines in turn builds |
| `Timers.TimeoutTimer.UpdateTimerFd` | runtime/bin/eventhandler_linux.cc:287-297 | The timer is armed for the first entry, or disarmed |
| `Timers.UpdateTimeout` | runtime/bin/eventhandler.h:86-92 | In place: a negative deadline takes the port out of the map of deadlines, any other is set, and no other port changes; the queue is that of the reference |
| `Timers.TimeoutTimer.HandleMessage` | runtime/bin/eventhandler_linux.cc:204-206 | A timer message: the same, and the timer is set for the first entry |
| `Timers.TimeoutTimer.HandleEvent` | runtime/bin/eventhandler_linux.cc:359-367 | A firing tells exactly one port, never before its deadline, and removes exactly its entry, a minimal one if the queue is ordered; the map of deadlines loses that port and no other |
| `Sockets.ActedOk` | runtime/bin/eventhandler_linux.cc:216-282 | Whatever happens to a descriptor keeps it well-formed and its books balanced, and a close that deletes it leaves Mask 0, as asserted |
| `Sockets.TellOk` | runtime/bin/eventhandler_linux.cc:379-382 | A descriptor with a mask has a port to tell |
| `Sockets.Asked` | runtime/bin/eventhandler_linux.cc:272-279 | The mask of a descriptor after a set-mask command, for one port and for a listening socket; a listener that asks for nothing is not in the ring |
| `Sockets.ListeningMask` | runtime/bin/eventhandler_linux.cc:145-148 | A listening socket is never asked to watch anything but input, so it is never modified, as asserted |
| `Sockets.TokensWithinBound` | runtime/bin/eventhandler.h:268-272 | For a listening socket whose books balance, the upper bound asserted of a returned token holds if and only if the port has returned no more than it was sent |
| `Sockets.ListenersExactly` | runtime/bin/eventhandler_linux.cc:216-282 | What each command and event makes of the ports of a listening socket: reading flags, tokens and registrations, for the port it is about and all others |
| `Sockets.SingleRuns` | runtime/bin/eventhandler.h:304-372 | Over every run a descriptor with one port has the port and events last asked for, and 16 tokens plus those returned less one for each time it was told |
| `Sockets.PortsExactly` | runtime/bin/eventhandler_linux.cc:216-282 | A descriptor has exactly the ports that have set a mask and have not closed |
| `Sockets.AsksForMore` | runtime/bin/eventhandler_linux.cc:138-150 | Only a returned token or a set-mask command can make a descriptor one to watch, or to watch for something else |
| `Poller.HandlerRuns` | runtime/bin/eventhandler_linux.cc:353-389 | Over every run of batches and messages, whatever the kernel answers to each ADD: a descriptor is registered if and only if it has a mask and its last ADD was accepted, then with the interest of that mask; and the books of every listening socket balance, a refused ADD counting as a message to each of its ports |
| `Poller.WatchesAsAsked` | runtime/bin/eventhandler_linux.cc:272-279 | After a set-mask command the kernel watches exactly the events asked for, while there are tokens, unless it refused |
| `Poller.PollPosts` | runtime/bin/eventhandler_linux.cc:329-383 | What an event posts, by its bits alone: an error with input is posted as an error to every port of the descriptor; input, output or a hangup without an error to the one port whose turn it is, with just those bits; anything else to nobody; a timeout to the port of the first deadline. No event registers anything |
| `Poller.ChangeDoes` | runtime/bin/eventhandler_linux.cc:53-71 | Whatever happens to a descriptor: there is an ADD if and only if its mask is new and not 0; if that is refused, exactly its ports are posted a close, and charged for it |
| `Poller.CommandDoes` | runtime/bin/eventhandler_linux.cc:216-282 | What each command leaves of its descriptor, which descriptors it touches, and what it posts: a close is confirmed to its port, and only a refused ADD posts anything else |
| `Poller.RunsFunded` | runtime/bin/eventhandler_linux.cc:353-389 | Over every run in which the kernel reports only on what is registered, a descriptor with one port is never told without a token: at most 16 messages are out that it has not returned |
| `Poller.RunMoves` | runtime/bin/eventhandler_linux.cc:198-285 | Over every run the timeout queue is what the timer messages and timeouts, in turn, make of it, whatever happens to the descriptors; and the handler is shut down if and only if a message read said so |
| `Poller.SettleOk` | runtime/bin/eventhandler_linux.cc:138-150 | Each way in which the registration follows a changed mask keeps it right, refusals included, and changes nothing for other descriptors |
| `Poller.CommandKeeps` | runtime/bin/eventhandler_linux.cc:216-282 | Every command keeps all registrations right; a closed descriptor is gone from map and poller |
| `Poller.PollAllKeeps` | runtime/bin/eventhandler_linux.cc:353-389 | Every batch of events keeps all registrations right |
| `Poller.DeliverAllKeeps` | runtime/bin/eventhandler_linux.cc:198-285 | Every sequence of messages keeps all registrations right |
| `Poller.EventHandler.AddToEpollInstance` | runtime/bin/eventhandler_linux.cc:53-71 | In place: registered with the interest of the mask; or, if refused, every port told of a close |
| `Poller.EventHandler.UpdateEpollInstance` | runtime/bin/eventhandler_linux.cc:138-150 | In place: the three mask transitions of the reference; the assertion that a listening socket is never modified holds |
| `Poller.EventHandler.GetDescriptorInfo` | runtime/bin/eventhandler_linux.cc:152-172 | In place: the descriptor of the file, or a new unregistered one of the right kind |
| `Poller.EventHandler.HandleCommand` | runtime/bin/eventhandler_linux.cc:216-282 | In place: the state of the reference after the command, the posts included, for every answer of the kernel, with its assertions |
| `Poller.EventHandler.HandleMessage` | runtime/bin/eventhandler_linux.cc:204-283 | In place: the state of the reference; refused exactly when an assertion about its sender fails |
| `Poller.EventHandler.HandleInterruptFd` | runtime/bin/eventhandler_linux.cc:198-285 | In place: all messages in turn, up to the first that is refused |
| `Poller.EventHandler.HandleIo` | runtime/bin/eventhandler_linux.cc:368-382 | An event on a registered descriptor: what is posted, with which mask and to which ports, by the bits of the event; never to the illegal port |
| `Poller.EventHandler.HandleEvents` | runtime/bin/eventhandler_linux.cc:353-389 | A whole batch of distinct descriptors, interrupts last: no deleted descriptor is met; for each event in turn exactly what its bits say is posted, to the ports whose turn it was when the batch was fetched; and the new state is exactly that of the reference, for every answer of the kernel |
| `Kqueue.HandlerRuns` | runtime/bin/eventhandler_macos.cc:379-411 | Over every run of timeouts, batches and messages, whatever the kernel answers: a descriptor is tracked if and only if it has a mask and its last add worked, and it has exactly the filters of that mask and, besides, the READ filter of an add of both that was refused between them |
| `Kqueue.FiltersExactly` | runtime/bin/eventhandler_macos.cc:57-94 | In any state of a run the filters are exactly those the flag and the mask stand for, if and only if no add of both was refused between them since they were last removed, or the READ filter is wanted |
| `Kqueue.NeverBoth` | runtime/bin/eventhandler_macos.cc:57-94 | A descriptor never asked to watch both always has exactly its filters |
| `Kqueue.WatchesAsAsked` | runtime/bin/eventhandler_macos.cc:277-286 | After a set-mask command that was not refused the kernel has exactly the filters asked for, while there are tokens, and besides at most the READ filter of an add that was refused in between |
| `Kqueue.HearPosts` | runtime/bin/eventhandler_macos.cc:328-405 | What an event posts, by its filter and flags alone: an end of file with an error is posted as an error to every port; anything else to the one port whose turn it is, with the in, out and close bits of the event |
| `Kqueue.ChangeDoes` | runtime/bin/eventhandler_macos.cc:57-94 | Whatever happens to a descriptor: which kevent calls are made, and if an add is refused, exactly its ports are posted a close, and charged for it |
| `Kqueue.CommandDoes` | runtime/bin/eventhandler_macos.cc:220-290 | What each command leaves of its descriptor, which descriptors it touches, and what it posts |
| `Kqueue.EachEventCosts` | runtime/bin/eventhandler_macos.cc:391-404 | Every event takes a token of a descriptor with one port, also when there is none left: it stays at zero or above if and only if there was one |
| `Kqueue.BothFire` | runtime/bin/eventhandler_macos.cc:379-411 | Two filters that fire together take two tokens of a descriptor that has one |
| `Kqueue.RunMoves` | runtime/bin/eventhandler_macos.cc:206-291 | Over every run the timeout queue is what the timer messages and timeouts, in turn, make of it; and the handler is shut down if and only if a message read said so |
| `Kqueue.StaleFilter` | runtime/bin/eventhandler_macos.cc:57-94 | A concrete run: refused between two filters, a descriptor that is not tracked keeps its READ filter; asked for output only, it then has both |
| `Kqueue.AddFilters` | runtime/bin/eventhandler_macos.cc:60-86 | One call with a change per filter: what the kernel then has, for each answer |
| `Kqueue.SettleOk` | runtime/bin/eventhandler_macos.cc:147-159 | Each way in which the filters follow a changed mask keeps them as stated, refusals included |
| `Kqueue.CommandKeeps` | runtime/bin/eventhandler_macos.cc:220-290 | Every command keeps the filters of all descriptors as stated; closing drops what is left |
| `Kqueue.KqueueHandler.RemoveFromKqueue` | runtime/bin/eventhandler_macos.cc:42-53 | In place: only tracked descriptors lose their filters |
| `Kqueue.KqueueHandler.AddToKqueue` | runtime/bin/eventhandler_macos.cc:57-94 | In place: the filters of the mask and tracked; or refused with all ports told, and the READ filter added before the refusal kept |
| `Kqueue.KqueueHandler.UpdateKQueueInstance` | runtime/bin/eventhandler_macos.cc:147-159 | In place: the three mask transitions of the reference |
| `Kqueue.KqueueHandler.GetDescriptorInfo` | runtime/bin/eventhandler_macos.cc:161-182 | In place: the descriptor of the file, or a new untracked one of the right kind |
| `Kqueue.KqueueHandler.HandleCommand` | runtime/bin/eventhandler_macos.cc:220-290 | In place: the state of the reference after the command, for every answer of the kernel; the mask is 0 at deletion, as asserted |
| `Kqueue.KqueueHandler.HandleInterruptFd` | runtime/bin/eventhandler_macos.cc:206-291 | In place: all messages in turn, up to the first that is refused |
| `Kqueue.KqueueHandler.HandleKevent` | runtime/bin/eventhandler_macos.cc:391-404 | One event: GetEvents never reaches its unreachable case; what is posted, with which mask and to which ports, by the filter and flags of the event; never to the illegal port |
| `Kqueue.KqueueHandler.HandleTimeout` | runtime/bin/eventhandler_macos.cc:422-431 | A port is told exactly when its deadline has come, and its entry removed |
| `Kqueue.KqueueHandler.HandleEvents` | runtime/bin/eventhandler_macos.cc:379-411 | A batch of distinct filters, several of one descriptor included, interrupts last: for each event in turn exactly what its filter and flags say is posted, to the ports whose turn it was when it was fetched; and the new state is exactly that of the reference |
| `ElfImage.Map` | runtime/bin/elf_loader.cc:84-130 | Copies what the file has and zeroes the rest of the range, nothing else; fails exactly when the position is past the end |
| `ElfImage.TotalMemory` | runtime/bin/elf_loader.cc:391-403 | The largest end of a segment, which some segment has; fails exactly if an alignment is not a power of two |
| `ElfImage.LoadSegments` | runtime/bin/elf_loader.cc:389-480 | Succeeds exactly when every check does, and then every address of the image holds the byte of the last segment that covers it, zeros past the end of the file and elsewhere |
| `ElfImage.PagesInsideImage` | runtime/bin/elf_loader.cc:404-428 | Every page-rounded mapping lies inside the reserved image and starts at a page boundary |
| `ElfImage.DisjointSegmentsHold` | runtime/bin/elf_loader.cc:411-466 | With disjoint page ranges byte memory_offset + k of every segment is file byte file_offset + k |
| `ElfImage.SegmentHolds` | runtime/bin/elf_loader.cc:411-466 | A segment holds its part of the file wherever no later segment covers it |
| `ElfImage.PagesHold` | runtime/bin/elf_loader.cc:411-466 | The same from the page boundary before the segment on |
| `ElfImage.RestIsZero` | runtime/bin/elf_loader.cc:404-428 | What no segment covers is zero |
| `ElfImage.RoundUpLeast` | runtime/bin/elf_loader.cc:404-405 | The least multiple of the page size that is not below |
| `ElfImage.PowersExactly` | runtime/bin/elf_loader.cc:391-403 | The alignments accepted are exactly the powers of two |
| `ElfImage.MapFilePiece` | runtime/bin/elf_loader.cc:539-556 | The mapping holds the pages around the piece, and the address returned is that of its first byte if and only if the ELF data starts at a page boundary, which Load checks |
| `UriDecoding.UriDecode` | runtime/bin/file.cc:1440-1473 | Accepts, and decodes, exactly as the left-to-right reference does; never reads past the terminator |
| `UriDecoding.DecodeFrom` | runtime/bin/file.cc:1459-1472 | The loop is right although its room check keeps using the index of the first `%` |
| `UriDecoding.HexCharPairToByte` | runtime/bin/file.cc:1481-1499 | Succeeds exactly on two hex digits, with their value |
| `UriDecoding.HexExactly` | runtime/bin/file.cc:1481-1499 | The hex digits are exactly those of `0123456789abcdef` and `0123456789ABCDEF`, each with its place as value |
| `UriDecoding.EveryByteEscapes` | runtime/bin/file.cc:1481-1499 | Every byte has an escape that decodes to it |
| `UriDecoding.DecodesEveryEncoding` | runtime/bin/file.cc:1440-1473 | However a text is percent-encoded (section 2.1 of RFC 3986), decoding gives it back, two characters shorter for each escape |
| `UriDecoding.AcceptsOnlyEncodings` | runtime/bin/file.cc:1464-1468 | Whatever is accepted is such an encoding of the result |
| `UriDecoding.EscapedInOneWay` | runtime/bin/file.cc:1459-1471 | A text can be read as an encoding in one way only |
| `EdgeTrigger.EdgeTriggered` | runtime/bin/eventhandler_fuchsia.cc:78-365 | On every interleaving: between two out events there is a Write, close is told at most once, and after an in event with bytes or with a close there is none before an Accept or a Read that drains or fails |
| `EdgeTrigger.NothingWithheld` | runtime/bin/eventhandler_fuchsia.cc:281-365 | An event that the port reports is withheld exactly while an earlier one of its kind is unanswered; errors never are |
| `EdgeTrigger.FlagsRemember` | runtime/bin/eventhandler_fuchsia.cc:78-365 | At every point of every run each flag says exactly whether an event of its kind is due |
| `EdgeTrigger.CountsExactly` | runtime/bin/eventhandler_fuchsia.cc:78-162 | At every point of every run the count of available bytes is what the last query said, an error as one byte, less what was read since, and not below zero; before any query it starts from what was there |
| `EdgeTrigger.IOHandle.Read` | runtime/bin/eventhandler_fuchsia.cc:78-108 | The count of available bytes goes down by what was read, and not below zero; in events are due again exactly if the read failed or the count is then zero |
| `EdgeTrigger.IOHandle.Write` | runtime/bin/eventhandler_fuchsia.cc:110-128 | Out events are due again |
| `EdgeTrigger.IOHandle.Accept` | runtime/bin/eventhandler_fuchsia.cc:130-147 | In events are due again |
| `EdgeTrigger.IOHandle.ToggleEvents` | runtime/bin/eventhandler_fuchsia.cc:281-365 | The events let through and the flags after them |
| `EdgeTrigger.IOHandle.AvailableBytes` | runtime/bin/eventhandler_fuchsia.cc:149-162 | An error counts as one byte |

## Left out

- PathCleaner.CleanUnixPath: the array must have room for the root and its terminator when the input is rooted, since the source writes those without looking at the size.
- Listing.DirectoryListing.Next: a walk that comes to a directory whose path has exactly PATH_MAX characters and which, without the last one, opens as another directory (`Astray`). There the source goes on with a length that was never set.
- Listing.DirectoryListing.Advance: the same walks.
- Listing.DirectoryListing.ReadEntry: the same walks.
- AsyncListing.AsyncDirectoryListing.constructor: the same walks (`KeepsItsWay` excludes them and no others).
- AsyncListing.ListStartRequest: the same walks.
- AsyncListing.ListAll: the same walks.
- ListingClient.Listen: the same walks; pausing and cancelling the stream, and making entities and exceptions from the items.
- AsyncListing.AsyncDirectoryListing.List: the branch for a listing in error, which no request reaches, since such a listing is not handed out.
- AsyncListing.AsyncDirectoryListing.ListNextRequest: the source always uses 128 slots; the model takes any even positive size.
- Listing.DirectoryListing.Open: openat and fdopendir are one step; a failing fdopendir after a successful open is not separate.
- Listing.DirectoryListing.Push: the entries of the stack are records in a sequence, not objects linked by `parent_`; their order is the link, and aliasing between entries is not modelled. The link nodes are objects.
- RecursiveDelete.Delete: readdir returns the entries that were there when the directory was opened; nobody else changes the tree meanwhile; a working directory that is deleted on the way counts as gone.
- RecursiveDelete.Delete: deletion without `recursive`, a single system call.
- Poller.EventHandler.HandleCommand: the shutdown calls, closing the file and reference counts of sockets.
- Kqueue.KqueueHandler.HandleCommand: the same.
- Poller.EventHandler.HandleEvents: events of a batch are of distinct registered descriptors, as epoll gives them.
- Kqueue.KqueueHandler.HandleEvents: events of a batch are of distinct filters that the kernel has, as kevent gives them; the timeout passed to kevent.
- Timers.PriorityQueue.Insert: growing and shrinking of the array.
- Descriptor.DescriptorInfoMultiple.NextNotifyDartPort: the debug assertions on which event bits are passed to it.
- ElfImage.LoadSegments: sums that wrap around a 64-bit word, mappings of real files, page protection, the Fuchsia and Windows special cases.
- UriDecoding.UriDecode: what a decoded `%00` does to the C string.
- EdgeTrigger.IOHandle.Read: subscribing to the port, and packets in flight; the handler thread's masks are arbitrary.
- The synchronous listing, the macOS, Windows and Fuchsia walks, which repeat the Linux one.
- The Windows event handler, and the request and native-function marshalling in `file.cc` and `directory.cc`.
- SimpleHashMap, ReferenceCounted, VirtualMemory and the listening-socket registry.
- The other parts of the ELF loader (headers, sections, symbols), which are checks and copies.
