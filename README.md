# notibeast, modelled in Dafny

notibeast watches a directory tree with Linux inotify and pushes every
filesystem event to websocket subscribers as JSON. This project models its
core and proves properties of that model:

- **The recursive watcher** (`RecursiveINotify`, `watch_tree.dfy`). It keeps
  one inotify watch per directory of the tree in two maps (descriptor →
  directory and directory → descriptor). It also keeps the set of directories
  moved out of the tree whose watch removal is pending, and the set of
  relative paths with a pending unmount. `WatchTree.HandleEvent` turns each
  raw event into the event it publishes, if any, and updates the four
  containers: it watches new subtrees, starts and completes the teardown of
  subtrees moved away, and tracks unmounts.
- **The inotify wrapper** (`INotifySource`, `inotify_source.dfy`). It splits
  a read buffer into kernel records and hands them on in order. It drains
  the non-blocking descriptor until it runs dry. It adds and removes watches,
  with their error paths. The `Notifier` class stands for the inotify
  instance: it hands out fresh descriptors, refuses a given set of paths, and
  logs every removal.
- **The record decoder** (`NotifyEvents`, `notify_event.dfy`). It reads the
  16-byte little-endian header of `struct inotify_event` and the NUL-padded
  name. It is proved against the kernel's layout of a record
  (`DecodeEncode`).
- **The mask renderer** (`MaskRender`, `mask_render.dfy`, flags in
  `inotify_flags.dfy`). `strMask` names the set flags in a fixed priority
  order, keeps the transposed spelling `IN_MODFIY`, and prints left-over bits
  in hexadecimal. It is proved equal to a reference rendering: the set flags
  in table order, then the left-over bits.
- **The websocket session** (`WebSocketSession`, `websocket_session.dfy`).
  The outbound queue keeps at most one write in flight and delivers in FIFO
  order. Join and leave are calls on the shared state. An already-parsed
  JSON command is dispatched to at most one subscribe call.
- **The HTTP helpers** (`HttpSession`, `http_session.dfy`). `mime_type` looks
  up the extension case-insensitively. `path_cat` joins a root and a request
  path. `handle_request` always answers with the same 400 response.

Paths are sequences of components (`Paths`, `paths.dfy`). "q is p or lies
below p", which the source tests with `fs::relative` not starting with `..`,
is "p is a prefix of q". The filesystem is a parameter: a recursive listing
is a sequence of entries, and the paths inotify refuses are a set given to
the `Notifier`. Errors that the source throws are returned as `Outcome` or
`Result` values.

Behaviour of the code that is easy to misread, and that the model keeps:

- When adding a watch fails during a (re-)enumeration, `monitorDirRecursively`
  stops: the watches added before it stay and the rest are not added. The
  failing directory's siblings are not visited.
- The start directory of an enumeration is watched even if its path matches
  a skip pattern. Only the listed descendants are filtered. So a directory
  that matches a pattern and is created at run time gets a watch.
- An event whose descriptor is unknown is always dropped, `IN_IGNORED`
  included.
- A write error on a websocket session only stops the writes. Leaving the
  shared state happens in the destructor, not on the error.

## Model

| member | source | states |
|---|---|---|
| RecursiveINotify.MakeRecursive | notify/recursive_i_notify.cpp:27-33 | the published event keeps the raw event's mask, cookie and name, and carries the given relative path |
| RecursiveINotify.KeptSpec | notify/recursive_i_notify.cpp:113-123 | no kept path matches a skip pattern, every listed directory that matches none is kept, and every kept path is a listed directory |
| RecursiveINotify.KeptBelow | notify/recursive_i_notify.cpp:113-123 | every kept directory comes from a listing below the start directory, so it lies strictly below it |
| RecursiveINotify.SkippedSubtreeNotListed | notify/recursive_i_notify.cpp:116-120 | nothing inside a directory that matches a skip pattern is watched, except the start directory itself |
| RecursiveINotify.ChildrenBelow | notify/recursive_i_notify.cpp:111-123 | every directory an enumeration watches lies under the root |
| Paths.PatternInherited | notify/recursive_i_notify.cpp:116-118 | a pattern found in a directory's path string is found in the path string of each of its descendants |
| RecursiveINotify.FirstRefused | notify/recursive_i_notify.cpp:124-130 | the index of the first directory whose watch is refused: all before it are accepted, and it is refused or is the end |
| RecursiveINotify.FwdSpec | notify/recursive_i_notify.cpp:124-130 | the loop's descriptor-map writes give the i-th directory the i-th fresh descriptor and use no other descriptor |
| RecursiveINotify.BwdSpec | notify/recursive_i_notify.cpp:124-130 | the loop's path-map writes record every directory, each with a descriptor that was given to that directory |
| RecursiveINotify.AllRecorded | notify/recursive_i_notify.cpp:128-129 | after all writes, each directory's descriptor leads back to the directory |
| RecursiveINotify.MapsStep | notify/recursive_i_notify.cpp:128-129 | one loop step extends both maps by exactly the next pair |
| RecursiveINotify.SweepPartial | notify/recursive_i_notify.cpp:209-221 | a sweep stopped by a failing removal leaves maps whose reverse entries still point back |
| RecursiveINotify.SweepComplete | notify/recursive_i_notify.cpp:205-227 | a finished sweep plus the final erase leaves exactly the entries outside the subtree, and inverse maps stay inverse |
| RecursiveINotify.OutsideW | notify/recursive_i_notify.cpp:209-225 | the descriptor-map entries outside a subtree, with their values unchanged |
| RecursiveINotify.OutsideP | notify/recursive_i_notify.cpp:209-225 | the path-map entries outside a subtree, with their values unchanged |
| RecursiveINotify.SweepSubtree | notify/recursive_i_notify.cpp:209-221 | every other descriptor in the subtree is passed to removeWatch exactly once and dropped from both maps, in any order; a failing removal stops the loop, and the loop fails exactly when one of those descriptors is no longer live; the live set loses exactly the descriptors removed |
| RecursiveINotify.SafeRelativePath | notify/recursive_i_notify.cpp:37-66 | the lexical relative path when there is one; otherwise, for a path that no longer exists and starts with the base, the rest after the base and one separator; otherwise an error |
| RecursiveINotify.FallbackInvertsJoin | notify/recursive_i_notify.cpp:48-58 | the string fallback undoes joining the base, a '/' and a relative path |
| RecursiveINotify.MovedFromWatchAsWritten | notify/recursive_i_notify.cpp:197-203 | the lookup as written succeeds exactly when the moved directory has a watch, and otherwise fails the assertion |
| RecursiveINotify.MovedFromWatch | notify/recursive_i_notify.cpp:197-203 | the intended lookup: the moved directory's descriptor if it has a watch, and nothing otherwise |
| RecursiveINotify.SkippedDirMovedOut | notify/recursive_i_notify.cpp:197-203 | a skipped directory moved out of the root has no watch: the lookup as written fails and the intended one finds nothing |
| RecursiveINotify.SubtreeWatches | notify/recursive_i_notify.cpp:209-221 | the descriptors whose directory lies in a subtree |
| RecursiveINotify.ForgetWatches | notify/recursive_i_notify.cpp:205-227 | the intended teardown: exactly the given descriptors and the reverse entries pointing at them are forgotten, the rest kept, and consistent maps stay consistent |
| RecursiveINotify.ForgetWatchesAgrees | notify/recursive_i_notify.cpp:205-227 | with no watch added since the move-out, the intended teardown equals the one the source performs |
| RecursiveINotify.MovedBackLosesWatch | notify/recursive_i_notify.cpp:205-227 | a directory moved out and back before the watcher handles the move-out has a new watch when its old descriptor's IN_IGNORED arrives, and the teardown as written forgets it |
| RecursiveINotify.MovedBackKeepsWatch | notify/recursive_i_notify.cpp:205-227 | on the same input the intended teardown keeps the new watch and leaves inverse maps |
| RecursiveINotify.WatchTree.constructor | notify/recursive_i_notify.cpp:99-106 | a watcher starts with empty maps and sets over a fresh notifier |
| RecursiveINotify.WatchTree.MonitorDirRecursively | notify/recursive_i_notify.cpp:109-132 | the maps gain the start directory and the kept listed directories, in order, with fresh descriptors, up to the first refused one, whose error is returned; exactly those descriptors become live; the maps stay consistent, and inverse when the directories were new (both under the fresh descriptors `Notifier.MonitorPath` hands out; see Left out) |
| RecursiveINotify.WatchTree.ListChildren | notify/recursive_i_notify.cpp:111-123 | the listing loop yields the start directory followed by the kept directories in listing order |
| RecursiveINotify.WatchTree.WatchChildren | notify/recursive_i_notify.cpp:124-130 | the watch loop writes each accepted directory into both maps with the next descriptor and stops at the first refused one |
| RecursiveINotify.WatchTree.WatchAt | notify/recursive_i_notify.cpp:124-130 | one turn of the loop: a refused directory stops it with nothing changed; otherwise both maps grow by the next pair of the loop's writes and one descriptor becomes live |
| RecursiveINotify.WatchedStep | notify/recursive_i_notify.cpp:124-130 | after one more accepted directory the maps are the loop's writes one step further, the live descriptors are the consecutive range one longer, and directories not yet reached are still absent from the reverse map |
| RecursiveINotify.WatchTree.Watch | notify/recursive_i_notify.cpp:125-129 | one directory: a fresh descriptor written into both maps, or the add-watch error with nothing changed |
| RecursiveINotify.WatchTree.EnterMovedFrom | notify/recursive_i_notify.cpp:197-203 | a watched directory moved out is added to the ignored set and its descriptor is passed to removeWatch; the outcome is removeWatch's |
| RecursiveINotify.WatchTree.CompleteMovedFrom | notify/recursive_i_notify.cpp:205-227 | the directory leaves the ignored set; every other descriptor in its subtree is removed exactly once; both maps keep exactly the entries outside the subtree; it fails exactly when another descriptor of the subtree is no longer live, and on success exactly those descriptors stop being live |
| RecursiveINotify.WatchTree.PublishUnlessIgnored | notify/recursive_i_notify.cpp:188-194 | an event is published, with its root-relative path, exactly when its directory is not in a subtree moved out |
| RecursiveINotify.WatchTree.HandleEvent | notify/recursive_i_notify.cpp:134-195 | per case: overflow published with an empty path and nothing changed; unknown descriptor dropped with the watcher unchanged; moved-out directory starts its teardown (its watch removed, failing exactly when it is no longer live) and its subtree is suppressed; unmount recorded and published for the root only; created or moved-in directory watched, with no removal; IN_IGNORED ends an unmount, or completes a teardown in which every other descriptor of the subtree is removed exactly once, failing exactly when one of them is no longer live; the descriptor an IN_IGNORED reports is no longer live; any other event changes nothing and is published unless ignored |
| RecursiveINotify.WatchTree.OnMovedFromDir | notify/recursive_i_notify.cpp:158-160 | the moved directory's watch is removed, failing exactly when it is no longer live; the directory and everything below it are suppressed from then on, and the event itself is published unless its own directory is ignored |
| RecursiveINotify.WatchTree.OnUnmount | notify/recursive_i_notify.cpp:162-169 | the relative path is recorded, and the event continues to publishing only for the root |
| RecursiveINotify.WatchTree.OnNewSubtree | notify/recursive_i_notify.cpp:171-173 | the new directory's subtree is enumerated and watched before the event is published |
| RecursiveINotify.WatchTree.OnIgnored | notify/recursive_i_notify.cpp:175-187 | a recorded unmount is cleared and published for the root only, with no map cleanup; otherwise the teardown removes every other descriptor of the subtree exactly once and fails exactly when one of them is no longer live; on success the event is published without the ignore check |
| RecursiveINotify.NewWatchTree | notify/recursive_i_notify.cpp:74-91 | construction watches the root and its kept listed directories, or fails with the first refused one; the new notifier refuses the given paths and holds exactly the descriptors handed out |
| INotifySource.DecodeBatch | notify/i_notify.cpp:59-68 | the inner loop yields one event per record, in buffer order, advancing by header size plus len |
| INotifySource.RecordsOfEncodeAll | notify/i_notify.cpp:59-68 | a buffer the kernel lays out, with any padding, is well formed and decodes to exactly its events in order |
| INotifySource.HandleEvents | notify/i_notify.cpp:31-70 | the read loop delivers the events of every batch until a read returns 0 or EAGAIN, and stops with an error at any other read failure |
| INotifySource.DrainOfBatches | notify/i_notify.cpp:43-57 | reads of whole batches followed by EAGAIN deliver all batches concatenated, with no error |
| INotifySource.DrainStopsAtError | notify/i_notify.cpp:45-51 | a read failing with an errno other than EAGAIN reports that errno, after the events read before it |
| INotifySource.Notifier.MonitorPath | notify/i_notify.cpp:151-161 | add-watch returns a fresh descriptor, or fails for a refused path with nothing changed |
| INotifySource.Notifier.Dropped | notify/i_notify.cpp:163-172 | a watch the kernel dropped by itself is no longer live, so removing it afterwards fails |
| INotifySource.Notifier.RemoveWatch | notify/i_notify.cpp:163-172 | remove-watch is logged, and fails exactly when the descriptor names no live watch |
| NotifyEvents.I32At | notify/notify_event.cpp:17-18 | the wd field, read as two's complement, lies in the signed 32-bit range |
| NotifyEvents.UpToNul | notify/notify_event.cpp:10-11 | the name is the prefix of the name bytes before the first NUL |
| NotifyEvents.BytesToString | notify/notify_event.cpp:10-11 | each name byte becomes the character with that code |
| NotifyEvents.RecordSize | notify/i_notify.cpp:61-62 | a record spans at least the header and ends within the buffer |
| NotifyEvents.MakeName | notify/notify_event.cpp:7-13 | len 0 gives the empty name; otherwise the name is the bytes before the first NUL of the name area, which it stops at, and is shorter than len |
| NotifyEvents.U32RoundTrip | notify/notify_event.cpp:17-20 | reading back the little-endian bytes of an unsigned 32-bit value gives the value |
| NotifyEvents.I32RoundTrip | notify/notify_event.cpp:17-18 | reading back the bytes of a signed 32-bit value gives the value |
| NotifyEvents.HeaderRoundTrip | notify/notify_event.cpp:17-20 | wd, mask, cookie and len are read back from the header the kernel writes |
| NotifyEvents.UpToNulOfTerminated | notify/notify_event.cpp:10-11 | a NUL-terminated, padded name area yields exactly the name bytes |
| NotifyEvents.BytesToStringOfBytes | notify/notify_event.cpp:10-11 | converting a name's bytes back gives the name |
| NotifyEvents.DecodeEncode | notify/notify_event.cpp:17-22 | decoding the record the kernel writes for an event gives back that event: wd, mask and cookie verbatim, and the name, empty when len is 0 |
| InotifyFlags.Clear | notify/i_notify_helper.cpp:8-39 | clearing a set bit gives a strictly smaller mask, so the renderer's recursion terminates |
| InotifyFlags.ClearBit | notify/i_notify_helper.cpp:8-39 | clearing a bit leaves it clear and every other bit as it was |
| MaskRender.TableWellFormed | notify/i_notify_helper.cpp:8-39 | no bit and no name is listed twice in the priority table, and every name starts with 'I' |
| MaskRender.FirstSet | notify/i_notify_helper.cpp:8-40 | the flag the if-chain picks is set in the mask; when none is picked, no listed flag is set |
| MaskRender.HexDigits | notify/i_notify_helper.cpp:43-44 | lower-case hexadecimal digits without leading zeros |
| MaskRender.HexRoundTrip | notify/i_notify_helper.cpp:43-44 | the hexadecimal digits read back as the rendered value |
| MaskRender.RenderIsJoinedParts | notify/i_notify_helper.cpp:5-48 | the renderer equals the reference: the names of the set flags in table order, then the left-over bits in hexadecimal, joined by '|' |
| MaskRender.StrMaskIsJoinedTokens | notify/i_notify_helper.cpp:5-48 | strMask is its tokens joined by '|' |
| MaskRender.StrMaskOfZero | notify/i_notify_helper.cpp:42-47 | strMask(0) is the empty string |
| MaskRender.StrMaskUnnamed | notify/i_notify_helper.cpp:42-45 | a non-zero mask with no named bit renders as "Undetected mask: 0x" and its hexadecimal digits |
| MaskRender.PartNamedIffSet | notify/i_notify_helper.cpp:8-47 | a flag's name is among the tokens exactly when its bit is set, and no token repeats |
| MaskRender.FlagNamedIffSet | notify/i_notify_helper.cpp:8-40 | for the real table: each flag's name appears in strMask's tokens exactly when its bit is set, at most once |
| MaskRender.SingleFlag | notify/i_notify_helper.cpp:8-47 | a mask with one listed bit renders as that flag's name alone |
| MaskRender.StrMaskOfModify | notify/i_notify_helper.cpp:22-23 | IN_MODIFY renders as "IN_MODFIY" |
| WebSocketSession.ToU64 | beast/websocket_session.cpp:169-170 | the int64 mask passed as uint64 keeps its 64 bits, and a non-negative mask keeps its value |
| WebSocketSession.FromU64 | beast/websocket_session.cpp:169-170 | the same 64 bits read back as a signed value |
| WebSocketSession.ToU64RoundTrip | beast/websocket_session.cpp:169-170 | the signed-to-unsigned conversion loses nothing |
| WebSocketSession.ToU64Injective | beast/websocket_session.cpp:169-170 | different int64 masks subscribe with different uint64 masks |
| WebSocketSession.DispatchOf | beast/websocket_session.cpp:146-176 | a subscription happens exactly for an object whose "command" is "subscribe" and whose "mask" is an int64, with that mask converted; anything that is not an object is rejected |
| WebSocketSession.SubscribeRoundTrip | beast/websocket_session.cpp:163-170 | the message {"command":"subscribe","mask":m} subscribes with m, which can be read back |
| WebSocketSession.OtherFieldsIgnored | beast/websocket_session.cpp:155-170 | fields other than "command" and "mask" do not change the dispatch |
| WebSocketSession.OnlySubscribeReadsMask | beast/websocket_session.cpp:163-171 | without a "subscribe" command nothing is subscribed and the mask field plays no part |
| WebSocketSession.UnreadableMaskRejected | beast/websocket_session.cpp:164-174 | a present, non-null mask that is not an int64 is rejected: the exception is caught and nothing is subscribed |
| WebSocketSession.Session.constructor | beast/websocket_session.cpp:17-24 | a session starts with an empty queue and no write in flight |
| WebSocketSession.Session.OnAccept | beast/websocket_session.cpp:48-66 | the session joins the shared state exactly when the accept had no error |
| WebSocketSession.Session.Close | beast/websocket_session.cpp:26-34 | destruction always leaves the shared state |
| WebSocketSession.Session.OnSend | beast/websocket_session.cpp:109-125 | the message is always appended; a write is started, for that message, only when the queue was empty; FIFO and one-write-in-flight are kept |
| WebSocketSession.Session.OnWrite | beast/websocket_session.cpp:127-144 | an error leaves the queue as it is and starts nothing; a success drops exactly the front message and starts a write for the next one, if any |
| WebSocketSession.Session.ProcessMessage | beast/websocket_session.cpp:146-176 | the only effect of a message is at most one subscribe call, with the dispatched mask |
| HttpSession.LowerChar | beast/http_session.cpp:24 | ASCII lower-casing: upper-case letters move by 32, every other character is kept |
| HttpSession.Lower | beast/http_session.cpp:24 | a string lower-cased character by character |
| HttpSession.LastDot | beast/http_session.cpp:25-30 | the position of the last '.', and none exactly when there is no '.' |
| HttpSession.Extension | beast/http_session.cpp:25-30 | the suffix from the last '.', dot included, which holds no other dot; empty exactly when there is no '.' |
| HttpSession.Lookup | beast/http_session.cpp:31-52 | the type of the first entry whose extension matches, or "application/text" when none matches |
| HttpSession.LookupSkips | beast/http_session.cpp:31-52 | the lookup returns the type of the first entry that matches |
| HttpSession.LookupMisses | beast/http_session.cpp:31-52 | with no matching entry the lookup returns "application/text" |
| HttpSession.ExtensionOfLower | beast/http_session.cpp:24-30 | the extension of the lower-cased path is the lower-cased extension |
| HttpSession.MimeTypeIgnoresCase | beast/http_session.cpp:22-53 | paths that differ only in the case of ASCII letters get the same type |
| HttpSession.TableWellFormed | beast/http_session.cpp:31-51 | the listed extensions are lower-case extensions, pairwise different |
| HttpSession.ListedExtension | beast/http_session.cpp:31-51 | a path ending in a listed extension, in any case, gets that entry's type |
| HttpSession.JpegSpellings | beast/http_session.cpp:42-44 | .jpe, .jpeg and .jpg, in any case, give image/jpeg |
| HttpSession.NoExtension | beast/http_session.cpp:25-52 | a path without a '.' gets "application/text" |
| HttpSession.UnlistedExtension | beast/http_session.cpp:31-52 | a path whose extension matches no entry gets "application/text" |
| HttpSession.TrimSlash | beast/http_session.cpp:74-76 | at most one trailing '/' is dropped, and one is dropped exactly when the base ends with '/' |
| HttpSession.PathCat | beast/http_session.cpp:57-80 | an empty base gives the path unchanged; otherwise the base without one trailing '/', followed by the path verbatim |
| HttpSession.BadRequest | beast/http_session.cpp:95-104 | status 400, the request's version and keep-alive flag, content type text/html, the given body and its length |
| HttpSession.HandleRequest | beast/http_session.cpp:89-107 | every request is answered 400 with body "HTTP-methods are not supported", as text/html with its length, keeping the request's version and keep-alive flag |
| HttpSession.HandleRequestIgnoresContent | beast/http_session.cpp:95-106 | the response depends only on the request's version and keep-alive flag |

## Left out

- The `INotify` thread, its poll/eventfd loop and its destructor (notify/i_notify.cpp:75-149): concurrency and system calls. The watcher sees the notifier only through `MonitorPath`, `RemoveWatch` and the events handed to `HandleEvent`.
- Real filesystem queries. The recursive directory iterator is a listing parameter whose entries lie strictly below the listed directory. `fs::exists` and the success of `fs::relative` are parameters of `SafeRelativePath`. Symlink resolution is not modelled: "below" is component-prefix logic.
- The 4096-byte read buffer: a batch is any well-formed buffer.
- Notifier.MonitorPath: always returns a fresh descriptor. The kernel instead returns the existing descriptor when the directory's inode is already watched, and the model does not capture that reuse.
  - Consequence: `WatchTree.Valid`'s `Consistent`, the consistent maps left by `MonitorDirRecursively`, and the `Inverse` results of `HandleEvent` and `CompleteMovedFrom` hold only under fresh descriptors.
  - Example: `/r`, `/r/a` and `/r/a/c` are watched, then `mv /r/a /r/b`. The IN_MOVED_TO is handled before the IN_IGNORED of `/r/a`'s descriptor. There the source's `inotify_add_watch` of `/r/b/c` returns `/r/a/c`'s existing descriptor. Lines 128-129 of notify/recursive_i_notify.cpp point that descriptor at `/r/b/c` and leave the reverse entry of `/r/a/c` behind. The later sweep skips that descriptor, so the stale reverse entry leaks.
  - The model instead gives `/r/b/c` a new descriptor, and its sweep removes the old one, a removal the source never makes.
- The try/catch around `handleEvent`: a throwing step returns an error `Outcome`, and the state changed before the throw stays changed. Partial-rollback semantics are not modelled.
- Logging, `strMask` used only in log lines, `logFiltered`/`logSubscribing`, command-line parsing, the factory and interface glue, listener, service and the HTTP read/write handlers.
- JSON parsing and serialisation: `ProcessMessage` takes the parse result (or its absence). Objects are maps, so duplicate keys are not modelled, and floating-point numbers carry no value.
- The shared state's `join`/`leave`/`subscribe` bodies, which are not part of this model: they are a log of calls. The asynchronous read loop, `net::post` and closing the socket in the destructor are left out too.
- The MSVC branch of `path_cat`, and the `Server` header value, which is a parameter of `HandleRequest`.
- HandleEvent: does not check the `assert(ne.wd == -1)` made on an overflow event; the model publishes the overflow whatever its descriptor.
- HandleEvent: the relative path is computed lexically from the prefix, so the model assumes it can always be computed. The source drops the event when `fs::relative` fails for a path that still exists, for example a watched `/r/x/y` after `chmod 000 /r/x`. The throwing `fs::exists` of the fallback (notify/recursive_i_notify.cpp:49-50) then throws, and the caller's catch (notify/recursive_i_notify.cpp:82-87) discards the event. The model publishes it with the lexical path. `SafeRelativePath` models that branch on its own, with `fs::exists` and the success of `fs::relative` as parameters.
- HandleEvent: the source runs one chain of whole-mask tests. The model dispatches to one method per case (`OnMovedFromDir`, `OnUnmount`, `OnNewSubtree`, `OnIgnored`); the cases exclude each other, so the behaviour is the same.
- HandleEvent: uses the corrected `MovedFromWatch` lookup (see Findings), so a moved-out directory without a watch changes nothing instead of failing the assertion.
- CompleteMovedFrom: the `assert(erased == 1)` checks are not modelled. They hold while the maps are each other's inverse. That is preserved only while every enumeration watches directories not yet watched (`WatchTree.NewDirs`); a directory moved out and back in before the watcher handles the move-out breaks it (see Findings).
- CompleteMovedFrom: keeps the path-keyed sweep as written. The intended `ForgetWatches` needs the set of descriptors taken at the move-out, which the watcher does not keep, so `WatchTree` does not use it; it is stated and proved on its own.
- Notifier.RemoveWatch: the kernel drops a watch when it queues the IN_IGNORED, while the model drops it (`Notifier.Dropped`) only when `HandleEvent` reads that event. A `removeWatch` of that descriptor in between passes in the model and throws in the source.
- SweepSubtree: the `unordered_map` iteration order is not modelled. Each step picks an arbitrary remaining descriptor, so the contract holds for every order.
- SafeRelativePath: requires that the path be longer than the base in the fallback case. For an equal-length path the source calls `remove_prefix` beyond the string's size, which is undefined behaviour.

## Findings

| source | as written | input that shows it | evidently intended | confidence | as-written member | corrected member |
|---|---|---|---|---|---|---|
| notify/recursive_i_notify.cpp:205-227 | `completeMovedFrom` tears down by path: it forgets every descriptor whose directory lies in the moved path's subtree, and the reverse entries of those paths | `/r` (descriptor 1) and `/r/a` (descriptor 2) watched, `/s` a directory outside the tree on the same filesystem; `mv /r/a /s/a && mv /s/a /r/a`, both renames done before the watcher handles the IN_MOVED_FROM. Its `removeWatch(2)` (:202) then queues IN_IGNORED(2) behind the IN_MOVED_TO, so the move-in watches `/r/a` as descriptor 3; then IN_IGNORED(2) | only the watches of the subtree that was moved away are torn down; `/r/a`, back in the tree, keeps descriptor 3 | not executed | RecursiveINotify.MovedBackLosesWatch | RecursiveINotify.MovedBackKeepsWatch |
| notify/recursive_i_notify.cpp:197-203 | `enterMovedFrom` asserts that the moved directory has a watch, then dereferences the lookup | root `/r` watched with skip pattern `ignore.d`, `/r/ignore.d` present at start (so never watched), then `/r/ignore.d` moved out of `/r`: `IN_MOVED_FROM\|IN_ISDIR` for name `ignore.d` on `/r` | a directory with no watch has nothing to tear down; the event is handled like any other | not executed | RecursiveINotify.MovedFromWatchAsWritten | RecursiveINotify.MovedFromWatch |
