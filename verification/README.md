# YulaOS userland: a Dafny model

This project models the parts of YulaOS that carry the hardest invariants, and proves what they
promise for every input and every run. Each part takes the form of the code it models: classes with
mutable fields and arrays, loops with invariants, and specification functions on plain values that
the methods are proved against.

| files | models |
|---|---|
| `Yfs*.dfy` | the YulaFS image tool: bitmap allocator, block map with direct to triple indirect pointers, directories, format, import, export |
| `Ax*.dfy` | the axwm window manager: node pool, tiling trees, rectangles, views, focus, drag and resize, every event |
| `NetHashMap.dfy`, `NetIndex.dfy`, `NetDns.dfy`, `NetIcmp.dfy`, `NetArp.dfy` | networkd: open-addressing hash map, the DNS and ping engines over it, the ARP cache |
| `NetSpsc.dfy`, `NetArena.dfy` | networkd: the two-thread queue with its wake-up pipe, the arena allocator |
| `NetDnsNames.dfy`, `NetDnsWire.dfy` | networkd: DNS names, queries and responses on the wire |
| `Ged*.dfy` | geditor: gap buffer, incremental line index, undo history |
| `Flux*.dfy` | the compositor protocol: byte rings, frame extraction, ordered transmission with partial writes |
| `LauncherSort.dfy` | the launcher's iterative quicksort |
| `Uld*.dfy` | the ELF linker: layout, symbols, relocation |
| `Machine.dfy` | 16- and 32-bit words, wrapping, little-endian bytes |

How the parts are read:

- A ghost field holds the abstract value where the code keeps none: the owner of every disk block, the
  tree a node pool draws, the map a hash table holds, the bytes in a ring. `Valid()` ties it to the
  real fields, and every method says what becomes of it.
- 32-bit counters wrap explicitly (`Wrap`). Where a product, a sum or a size is left unbounded, the
  list at the end says so.
- The hash function, the kernel's answers, the pipe's answers, time, entropy and the success of each
  allocation are parameters: the results hold for all of them.
- axwm does not keep its trees and its views in step under every event. `AxWm.Wm.Breaks` names the four
  kinds of events that part them, and `AxWm.Wm.HandleEvent` proves that these and no others do. One event
  lies behind all four: a commit of the bar while it has no view and a slot is free (`Strays`), which takes
  the bar in as a window. From the start, and after any run without one, the state is calm, and no event
  breaks anything in a calm state (`AxSessions.Run`). Whether a run has one can be told from the events
  alone (`AxSessions.Orderly`). The compositor sends a map of the bar first
  (`programs/flux/flux_client_pump.c:500-512`), but a map that finds all 64 slots taken is dropped; the runs
  of `AxRuns` start there.
- Where the code does not have a property, there is a concrete input or run, and the exact condition:

| property | input or run | exact condition |
|---|---|---|
| an arena block accepted fits | `NetArena.WrapIsAccepted` | `NetArena.AcceptsExactly`, `NetArena.Arena.Alloc` |
| a rewind restores the checkpoint | `NetArena.RewindToNowhere` (empty arena) | `NetArena.RewindToNowhere`, `NetArena.RewindRestores` |
| a prune leaves nothing expired | `NetArp.PruneNeedsOrder` | `NetArp.PruneExactly` |
| the request index stays exact when a put fails | `NetIndex.FailedPuts` | `NetIndex.FailedPushPut`, `NetIndex.FailedMovePut` |
| the tiling trees hold exactly the tiled views | `AxRuns.BarAfterFullTable`, `AxRuns.BarUnmapped`, `AxRuns.BarToggled`, `AxRuns.FocusLeftBehind` | `AxWm.Wm.HandleEvent`, `AxSessions.Run` |
| a relocation stays in its section | `Uld.PatchesHeaders` | `UldObjects.RangeTest`, `UldObjects.FixInside` |
| an imported file can be exported | `YfsTransfer.HiddenInputs` | `YfsTransfer.RoundTrip` |

`dafny verify dfyconfig.toml` checks the whole project.

## Model

| member | source | states |
|---|---|---|
| `YfsTree.PathsAreIndices` | tools/yulafs_tool.c:194-289 | Splitting a logical block number into its pointer path (direct, single, double or triple indirect) and weighing the digits again gives the number back, for every number below the maximum |
| `YfsTree.IndicesArePaths` | tools/yulafs_tool.c:194-289 | Every well-formed pointer path of any level belongs to exactly one logical block number, so the four ranges tile without gap or overlap |
| `YfsTree.BlocksAreDisjoint` | tools/yulafs_tool.c:194-289 | Two logical blocks, of the same or of different inodes, that map to the same disk block are the same logical block of the same inode |
| `YfsTree.DataIsNoTable` | tools/yulafs_tool.c:194-289 | No data block of any inode is a pointer table of any inode |
| `YfsTree.LookupFrame` | tools/yulafs_tool.c:202-286 | Filling one empty pointer slot anywhere in the trees keeps every mapped block where it is, keeps every other unmapped block unmapped, and what becomes mapped reads as zeros |
| `YfsAlloc.FirstFreeBlock` | tools/yulafs_tool.c:122-139 | The first zero bit always stands for a block below the block count that nobody owns, although the scan never compares with the block count: used blocks are as many as bits before it |
| `YfsAlloc.ScanFindsBlock` | tools/yulafs_tool.c:116-142 | While the free count is positive the block scan meets a zero bit |
| `YfsAlloc.ScanFindsInode` | tools/yulafs_tool.c:144-171 | While the free count is positive some inode number below the limit is unused, so the inode scan ends with a hit |
| `YfsAlloc.Conservation` | tools/yulafs_tool.c:116-171 | In every state that satisfies the image invariant, set bits plus free count equal the capacity, for data blocks and for inodes |
| `YfsImage.Image.AllocBlock` | tools/yulafs_tool.c:116-142 | Succeeds exactly when the free count is positive; the block was owned by nobody, is now zero and owned, count and bitmap follow, every other block is untouched, the invariant holds and the superblock block is current |
| `YfsImage.Image.AllocInode` | tools/yulafs_tool.c:144-171 | Succeeds exactly when the free count is positive; the number was unused and is not 0, only its bit and the superblock change, the invariant holds |
| `YfsImage.Image.InodeWrite` | tools/yulafs_tool.c:183-192 | Replaces one inode and nothing else on the disk |
| `YfsImage.Image.InodeRead` | tools/yulafs_tool.c:173-181 | Reads the inode, whose root pointers agree with the owner map |
| `YfsImage.Image.TableEntry` | tools/yulafs_tool.c:208-216 | One step through a pointer table: the pointer found, or a fresh zero block hung into the empty slot, with every other mapping of every inode kept |
| `YfsImage.Image.RootEntry` | tools/yulafs_tool.c:195-207 | The first step, through the inode itself: the root pointer found, or a fresh zero block put there, with every other block number of this inode mapped as before |
| `YfsImage.Image.ResolveBlock` | tools/yulafs_tool.c:194-289 | For every block number: the block that now maps it (non-zero when allocating), no other block number of this or any other inode moved, nothing stored changed, a block that was mapped stays where it was and a new one reads as zeros; without allocation nothing changes; a panic leaves a consistent image and means no free block, or a number past the maximum |
| `YfsImage.Image.DirFind` | tools/yulafs_tool.c:291-317 | Answers from the name map that the entry blocks spell out, 0 for an absent name, and changes nothing |
| `YfsImage.Image.DirAdd` | tools/yulafs_tool.c:357-388 | Adds exactly one name to one directory; every other directory and every file keeps its content; a panic only for lack of blocks or a full directory, and then no name changed |
| `YfsImage.Image.PathResolve` | tools/yulafs_tool.c:319-355 | The loop over components computes the recursive reading of the path: found, not found, or component too long; a found inode is in use |
| `YfsPath.PathsKept` | tools/yulafs_tool.c:319-355 | Adding a name to a directory changes no path that resolved before; a path that now resolves differently resolves to the new entry |
| `YfsPath.HiddenName` | tools/yulafs_tool.c:319-355 | A name that is empty or contains a slash is never reached by any path, so adding one changes no resolution at all |
| `YfsImage.Image.WriteData` | tools/yulafs_tool.c:531-549 | The write loop stores the data block by block through the block map: afterwards byte b of the inode is byte b of the data, and every other file keeps its content |
| `YfsImage.Image.Import` | tools/yulafs_tool.c:483-559 | On success every path in the image exports what it did before unless it leads to the imported inode; the imported bytes come back under the path if the name is plain, and while every file is entered once some path leads to it if and only if the name is plain; a panic changes no name and no other file |
| `YfsImage.Image.Export` | tools/yulafs_tool.c:561-595 | Writes exactly the bytes of the file, zeros for unmapped blocks, or fails as the path demands; changes nothing |
| `YfsTransfer.ExportAfterImport` | tools/yulafs_tool.c:483-595 | Export after import returns the imported bytes, for /name, /bin/name and /home/name alike |
| `YfsTransfer.OtherExportsKept` | tools/yulafs_tool.c:483-595 | After an import every path exports the same as before or leads to the imported inode |
| `YfsTransfer.HiddenImport` | tools/yulafs_tool.c:495-510 | Importing, for the first time or again, under an empty name or one with a slash stores a file that no path exports, and every path leads where it did |
| `YfsTransfer.HiddenInputs` | tools/yulafs_tool.c:495-510 | Two such destinations: /bin/ and /a/b |
| `YfsTransfer.RoundTrip` | tools/yulafs_tool.c:483-595 | Import then export returns the bytes, and any path leads to the imported file at all, if and only if the name is plain |
| `YfsTransfer.NamedOnceKept` | tools/yulafs_tool.c:505-556 | If every file is entered once, it still is after any import |
| `YfsImage.Image.DirInitDots` | tools/yulafs_tool.c:390-408 | An empty directory gets one block with its own and its parent entry; it succeeds exactly while a block is free; the invariant holds |
| `YfsImage.Image.DirEnsure` | tools/yulafs_tool.c:410-426 | An existing name changes nothing; a missing one becomes a directory with its two dot entries, entered in the parent |
| `YfsImage.Image.FormatRoot` | tools/yulafs_tool.c:428-473 | The image invariant is established from arbitrary old contents: bitmaps, counts, tables and the root directory agree, and blocks and inodes for the rest are left |
| `YfsImage.Image.Format` | tools/yulafs_tool.c:428-481 | Succeeds if and only if the image has 1024 blocks (4 MB); it then satisfies the invariant, holds the root with bin, home and dev, and enters every file once; a smaller image is untouched |
| `AxTree.SplitDrawn` | programs/axwm/axwm_layout.c:107-148 | The three slots that an insertion writes draw the tree with one leaf split in two, all parent and child links included |
| `AxTree.RelabelDrawn` | programs/axwm/axwm_layout.c:113-137 | Writing another view into a leaf draws the tree with that leaf renamed |
| `AxTree.UnlinkedDrawn` | programs/axwm/axwm_layout.c:75-105 | Rewriting one link down and one link up draws the tree without the leaf and its parent, at any depth |
| `AxTree.Neighbours` | programs/axwm/axwm_layout.c:81-89 | Parent, sibling and grandparent read from the pool are those of the tree |
| `AxPool.TreeCount` | programs/axwm/axwm_layout.c:7-23 | A tree uses one slot less than twice its views |
| `AxPool.RoomForTwo` | programs/axwm/axwm_layout.c:7-23 | With 64 view slots and one view still to be placed, the pool of 128 always has two free slots, so no insertion is ever lost |
| `AxShape.SplitShape` | programs/axwm/axwm_layout.c:107-148 | Whatever slots are used, an insertion turns the place of one view into a split of that view and the new one |
| `AxShape.RelabelShape` | programs/axwm/axwm_layout.c:113-137 | Whatever slots are used, giving a leaf to another view puts that view where the old one stood |
| `AxShape.WithoutShape` | programs/axwm/axwm_layout.c:75-105 | Whatever slots are used, a removal gives the place of the pair to the sibling |
| `AxShape.ComesAndGoes` | programs/axwm/axwm_layout.c:75-148 | A view that comes and goes leaves the arrangement of all others as it was |
| `AxLayout.LayoutState.AllocNode` | programs/axwm/axwm_layout.c:7-23 | First free slot, reset to a leaf; refuses only when all are used |
| `AxLayout.LayoutState.FindLeaf` | programs/axwm/axwm_layout.c:38-49 | Finds the leaf of a view on a workspace, or says there is none |
| `AxLayout.LayoutState.RemoveView` | programs/axwm/axwm_layout.c:75-105 | The pool invariant holds again, only this workspace changed, its views are those before minus this one, and its arrangement is the old one with the view gone |
| `AxLayout.LayoutState.InsertSplit` | programs/axwm/axwm_layout.c:107-148 | The pool invariant holds again and only this workspace changed: beside a view that has a leaf the new one stands in the given direction; a view without a leaf takes over some leaf first; a bare workspace gets the new view alone; without free slots nothing changes |
| `AxLayout.LayoutState.Place` | programs/axwm/axwm_events.c:51-80 | Bare workspace: the view alone; else beside the preferred view or some view; never without a slot |
| `AxRects.SplitInside` | programs/axwm/axwm_layout.c:239-277 | The two halves of a rectangle lie in it and do not meet |
| `AxRects.SpotsInside` | programs/axwm/axwm_layout.c:186-279 | Every rectangle with an area lies in the tiled area |
| `AxRects.SpotsApart` | programs/axwm/axwm_layout.c:186-279 | No two rectangles with an area meet |
| `AxRects.SpotsAreViews` | programs/axwm/axwm_layout.c:186-279 | Every view of the tree gets exactly one rectangle |
| `AxRects.StackFits` | programs/axwm/axwm_layout.c:186-279 | The explicit stack of the traversal never outgrows the number of tree nodes |
| `AxWm.Wm.FindView` | programs/axwm/axwm_views.c:7-13 | The first slot with the mapped view of a surface, or that there is none |
| `AxWm.Wm.AllocView` | programs/axwm/axwm_views.c:15-39 | First unmapped slot, as a tiled view of the active workspace; refuses only when all are mapped |
| `AxWm.Wm.FocusView` | programs/axwm/axwm_views.c:106-120 | Focus moves exactly to visible views that are not the bar; what is tiled where stays |
| `AxWm.Wm.PickNextFocus` | programs/axwm/axwm_events.c:3-15 | The next view that can take the focus, going round from a slot and coming back to it last; -1 only if no view can |
| `AxWm.Wm.FocusNext` | programs/axwm/axwm_actions.c:3-18 | Focus goes to the nearest view in the given direction, going round; unchanged only if no view can take it |
| `AxWm.Wm.ApplyLayout` | programs/axwm/axwm_layout.c:150-282 | The views of other workspaces are hidden and those of the active one shown, exactly; its tiled views take their leaves' rectangles and nothing else moves; while the trees are exact every leaf's view is at its rectangle (position exactly, size at least the minimum); runs in any state of the views |
| `AxSteps.AllAtSpots` | programs/axwm/axwm_layout.c:186-236 | While the trees are exact every leaf of the active workspace has its view at its rectangle after the traversal |
| `AxWm.Wm.Tile` | programs/axwm/axwm_layout.c:186-279 | The loop with its explicit stack of 128 entries places every leaf as the recursive division of the area says, without overflow |
| `AxWm.Wm.SwitchWorkspace` | programs/axwm/axwm_actions.c:20-51 | The workspace is active, its views and no others are shown, the focus is on its first view or on none, and no view changed workspace, floating state or slot |
| `AxWm.Wm.MoveFocusedToWs` | programs/axwm/axwm_actions.c:53-108 | Exactly the focused view changes workspace; a tiled one leaves its tree and comes to the other, all other arrangements kept; invariant kept |
| `AxWm.Wm.ToggleFloating` | programs/axwm/axwm_actions.c:110-142 | Exactly the focused view changes; its leaf goes, or comes back beside some view of its workspace; the trees stay exact if and only if the focused view is not the bar |
| `AxWm.Wm.CloseFocused` | programs/axwm/axwm_actions.c:157-172 | Only the focus moves, to the next view going round |
| `AxWm.Wm.StopDrag` | programs/axwm/axwm_drag.c:3-34 | No drag is active; the view of a resize ends at the corner of the rectangle it came to, and nothing else changed |
| `AxWm.Wm.StartDrag` | programs/axwm/axwm_drag.c:36-118 | A visible view that is not the bar floats from now on, its leaf gone and all other arrangements kept; a move starts where the view is, a resize from its rectangle; any other view changes nothing |
| `AxWm.Wm.OnDrag` | programs/axwm/axwm_events.c:272-353 | The drag goes on exactly while its button and the super key are down and its view is there and floats; the view follows the pointer, or the rectangle of the resize |
| `AxDrag.StretchHolds` | programs/axwm/axwm_events.c:291-332 | A resize never falls below the minimum; an edge that is not held stays; an edge held alone follows the pointer while the minimum allows, and its opposite edge stays |
| `AxWm.Wm.OnMap` | programs/axwm/axwm_events.c:17-106 | A new surface takes the first free slot and, unless it is the bar, one leaf beside the focused tile, and the focus; a known one only its place; the bar is marked; a background surface changes nothing; only with all 64 slots taken is a surface dropped; the trees stay exact if and only if the bar's view was not tiled and the slot is not the one the focus was left on |
| `AxWm.Wm.OnUnmap` | programs/axwm/axwm_events.c:108-149 | Exactly the view of this surface is gone from its slot, and, unless it is the bar's, from every tree and from the focus, all other arrangements kept; the trees stay exact if and only if it was not a tiled view of the bar's surface |
| `AxWm.Wm.OnCommit` | programs/axwm/axwm_events.c:151-233 | A commit of an unknown surface, the bar's too, enters it as a tiled view with the focus; of a known one, changes no tree; the trees stay exact if and only if no tiled view is marked as the bar and the slot is not the one the focus was left on |
| `AxWm.Wm.OnPointer` | programs/axwm/axwm_events.c:249-393 | At most one view starts to float, the grabbed one, its leaf gone, moved or resized by the edges under the pointer; an active drag follows the pointer; else no tree changes |
| `AxWm.Wm.OnKey` | programs/axwm/axwm_events.c:395-475 | Each key does what its action says, and no other key touches slots or trees; only toggling the bar makes the trees inexact |
| `AxWm.Wm.HandleEvent` | programs/axwm/axwm_events.c:477-496 | From every state with exact trees, every event leaves them exact if and only if it is not one of the four kinds named by `Breaks`; from a calm state (also: every view of the bar marked, focus on a window or none, one slot per surface) none is, and the state is calm again if and only if the event is not a commit of the bar while it has no view and a slot is free |
| `AxWm.Wm.CalmIsSafe` | programs/axwm/axwm_events.c:17-496 | In a calm state no event of any kind parts views and trees |
| `AxSessions.Run` | programs/axwm/axwm_main.c:48-95 | Any sequence of events from a calm state, judged by the events alone: while no event before the last is a stray commit of the bar, the trees are exact, and the state is calm if and only if the last event is none either |
| `AxSessions.Session` | programs/axwm/axwm_main.c:22-95 | The same from the start, for every list of events |
| `AxSessions.KnownStep` | programs/axwm/axwm_views.c:15-52 | The account of surfaces with a slot, kept from the events alone, is the table's |
| `AxSessions.KnownSize` | programs/axwm/axwm_views.c:15-52 | With one slot for each surface all slots are taken exactly when 64 surfaces are known |
| `AxSessions.NoBarCommits` | programs/axwm/axwm_events.c:151-233 | A run without commits of the bar has no stray commit, so its trees are exact throughout |
| `AxCalm.ReportedSettles` | programs/axwm/axwm_events.c:17-233 | What a map or commit leaves is settled if and only if it did not take in the bar as a window |
| `AxWm.Wm.WorkspaceIsExact` | programs/axwm/axwm_layout.c:7-148 | What the invariant says of a workspace: one proper tree drawn from its root with consistent links, whose leaves are exactly the mapped, tiled views of that workspace, once each |
| `AxWm.Wm.SpotsAreSound` | programs/axwm/axwm_layout.c:150-282 | In every state the rectangles of the active workspace lie in the tiled area and do not meet |
| `AxRuns.BarAfterFullTable` | programs/axwm/axwm_events.c:17-227 | A run from the start, with the bar's map as its first event, that ends with a stale leaf: 64 windows, the map dropped, one window gone, two commits of the bar |
| `AxRuns.BarUnmapped` | programs/axwm/axwm_events.c:113-119 | The same with the bar's unmap instead of its second commit: its slot is emptied, its leaf stays |
| `AxRuns.BarToggled` | programs/axwm/axwm_actions.c:110-142 | The same, then toggled, marked by the next commit and toggled again: a leaf for the bar |
| `AxRuns.FocusLeftBehind` | programs/axwm/axwm_events.c:113-119 | The same, then toggled, marked and unmapped with the focus on it: the next window takes its slot and gets no leaf |
| `NetHashMap.ProbeFinds` | programs/networkd/net_hash_map.h:175-198 | For any hash function, where the probe for a key ends decides membership: the key is there exactly if the map has it, with its value |
| `NetHashMap.HasEmpty` | programs/networkd/net_hash_map.h:241-261 | A table with fewer keys than slots has an empty slot, so every probe ends |
| `NetHashMap.Relocated` | programs/networkd/net_hash_map.h:275-310 | During repair after an erase, re-inserting a key of the cluster puts it back where it was or into the current hole |
| `NetHashMap.ClusterDone` | programs/networkd/net_hash_map.h:291-310 | When the repair reaches an empty slot, every key is reachable from its home slot again |
| `NetHashMap.HashMap.FindSlot` | programs/networkd/net_hash_map.h:241-261 | Ends at the key or at the first empty slot after its home; fails only on a table without either |
| `NetHashMap.HashMap.Get` | programs/networkd/net_hash_map.h:175-198 | Map lookup |
| `NetHashMap.HashMap.Reserve` | programs/networkd/net_hash_map.h:94-138 | Growing re-hashes every key and keeps the map; without memory nothing changes |
| `NetHashMap.HashMap.Put` | programs/networkd/net_hash_map.h:140-173 | Map update for every non-zero key; fails only for key 0 or for lack of memory, and never needs memory while the load stays below 7/10 |
| `NetHashMap.HashMap.Erase` | programs/networkd/net_hash_map.h:200-230 | Map removal, reporting whether the key was there; nothing else is lost |
| `NetHashMap.HashMap.ShiftCluster` | programs/networkd/net_hash_map.h:291-310 | The repair loop ends and restores reachability of every key without changing the map |
| `NetIndex.IndexAfterRemove` | programs/networkd/dns_client.cpp:162-193 | Erasing the key of the removed operation and re-pointing the moved one keeps the index exact through swap-remove |
| `NetIndex.FailedPushPut` | programs/networkd/ipv4_icmp.cpp:127-159 | A push whose put fails leaves the index exact if and only if the key is 0 |
| `NetIndex.FailedMovePut` | programs/networkd/ipv4_icmp.cpp:161-198 | A swap-remove whose re-pointing put fails leaves the index exact if and only if no key other than 0 moved |
| `NetIndex.FailedPuts` | programs/networkd/ipv4_icmp.cpp:127-198 | Both at an input: key 7 pushed onto nothing, and key 7 moved to the place of key 0 |
| `NetIndex.KeptAfterDrop` | programs/networkd/dns_client.cpp:207-271 | Closing a gap with the last element loses no element that is still to be visited |
| `NetIndexOps.RemoveAt` | programs/networkd/dns_client.cpp:181-192 | Erase then re-point: after erasing a present key the put fits in the table as it is, so it cannot fail and allocates nothing |
| `NetDns.RespKeyInjective` | programs/networkd/dns_client.cpp:78-87 | Different address, port or transaction never share a response key |
| `NetDns.Matched` | programs/networkd/dns_client.cpp:273-324 | A response key is indexed exactly if some pending operation awaits that response, and the index leads to it |
| `NetDns.DnsClient.CompleteOp` | programs/networkd/dns_client.cpp:162-193 | The operation leaves the vector by swap-remove and both indexes, and yields its one result (or loses it for lack of memory); both tables keep their arrays; invariant and balance of requests kept |
| `NetDns.DnsClient.SubmitResolve` | programs/networkd/dns_client.cpp:89-160 | With memory, accepts exactly if the name length, the number of operations and both keys allow it; a refused request changes no vector and no index |
| `NetDns.DnsClient.Step` | programs/networkd/dns_client.cpp:207-271 | In one pass exactly the overdue operations fail and every other one is advanced once, although the loop removes while it iterates; with memory nothing is lost, and what left the pending operations is in the new results, once each |
| `NetDns.OneResultEach` | programs/networkd/dns_client.cpp:162-193 | From the balance of requests: with nothing lost, what left the pending operations came to the results, once each |
| `NetDns.DnsClient.UdpHandler` | programs/networkd/dns_client.cpp:273-324 | A packet is taken exactly if it comes from port 53 and its first two bytes are the id of a query pending with that server and port, and then exactly one such query completes, with what the parser reads from the packet |
| `NetDns.DnsClient.Deliver` | programs/networkd/dns_client.cpp:273-324 | The bytes of any success response to a pending query yield, as that query's one result, the first address record of the response |
| `NetDns.DnsClient.PollResult` | programs/networkd/dns_client.cpp:326-334 | Hands out each result once |
| `NetIcmp.ReplyFinds` | programs/networkd/ipv4_icmp.cpp:86-121 | A reply with a non-zero key finds its pending request through the index; key 0 is never indexed |
| `NetIcmp.Ipv4Icmp.SubmitPing` | programs/networkd/ipv4_icmp.cpp:127-159 | Accepted exactly if memory is there and the key is not indexed; the index stays exact unless its put failed |
| `NetIcmp.Ipv4Icmp.CompleteOp` | programs/networkd/ipv4_icmp.cpp:161-198 | The request leaves by swap-remove and yields its one result or loses it; the index stays exact unless a put failed |
| `NetIcmp.Ipv4Icmp.Step` | programs/networkd/ipv4_icmp.cpp:200-257 | In one pass exactly the overdue and unsendable requests fail and every other one is kept or sent once; with memory nothing is lost, and what left the pending requests is in the new results, once each |
| `NetIcmp.Ipv4Icmp.HandleReply` | programs/networkd/ipv4_icmp.cpp:86-121 | A reply completes at most one request, one with its key and address; while the index is exact, every awaited non-zero key is completed |
| `NetIcmp.Ipv4Icmp.PollResult` | programs/networkd/ipv4_icmp.cpp:259-267 | Hands out each result once |
| `NetArp.PruneIsComplete` | programs/networkd/arp.cpp:177-198 | On a list ordered by age, stopping at the first fresh entry from the tail removes every expired entry and no other |
| `NetArp.PruneExactly` | programs/networkd/arp.cpp:177-198 | For every list: no expired entry is left if and only if no expired entry stood in front of a fresh one |
| `NetArp.PruneNeedsOrder` | programs/networkd/arp.cpp:177-198 | Without the order an expired entry survives: a concrete list |
| `NetArp.OrderKept` | programs/networkd/arp.cpp:75-175 | Lookup, upsert, prune and eviction keep the list ordered by age on the wrapping clock, and make no entry older |
| `NetArp.ArpCache.Unlink` | programs/networkd/arp.cpp:37-56 | The doubly linked list is the old one without the entry, links consistent at both ends |
| `NetArp.ArpCache.PushHead` | programs/networkd/arp.cpp:58-73 | The doubly linked list is the old one behind the entry |
| `NetArp.ArpCache.Touch` | programs/networkd/arp.cpp:75-84 | The entry moves to the front with its new time; table, list and count still hold the same entries |
| `NetArp.ArpCache.EvictLru` | programs/networkd/arp.cpp:86-102 | The least recently used entry leaves list, table and count together |
| `NetArp.ArpCache.Lookup` | programs/networkd/arp.cpp:112-132 | Finds exactly the entries that are there and not expired; an expired one is dropped, a fresh one becomes most recent |
| `NetArp.ArpCache.Upsert` | programs/networkd/arp.cpp:134-175 | Known addresses are refreshed at the front; a new one goes to the front, replacing the least recently used one when 1024 are there; address 0 into a full cache evicts one entry and stores none |
| `NetArp.ArpCache.Prune` | programs/networkd/arp.cpp:177-198 | The linked-list loop removes exactly what the early stop says, keeping list, table and count in step; nothing expired is left if and only if no expired entry stood in front of a fresh one |
| `NetArp.ArpCache.Serve` | programs/networkd/arp.cpp:112-198 | One request at a time: the order by age holds after each, and a sweep leaves nothing expired |
| `NetArp.ArpCache.Run` | programs/networkd/arp.cpp:104-198 | Any run of lookups, upserts and sweeps from the empty cache, on a clock that starts anywhere and wraps: the list is always ordered by age and every sweep leaves nothing expired, as long as no entry can get 2^32 milliseconds old |
| `NetSpsc.FullMeansFull` | programs/networkd/net_spsc.h:17-30 | With wrapping 32-bit counters the full test is true exactly when as many items are queued as there are slots |
| `NetSpsc.EmptyMeansEmpty` | programs/networkd/net_spsc.h:32-43 | With wrapping counters the empty test is true exactly when nothing is queued |
| `NetSpsc.NoRace` | programs/networkd/net_spsc.h:17-43 | A slot is never read while it is being written |
| `NetSpsc.Keeps` | programs/networkd/net_spsc.h:17-43 | Every step of producer or consumer keeps the queue and wake-up invariant |
| `NetSpsc.Reachable` | programs/networkd/net_channel.h:22-29 | The invariant holds in every state of every interleaving |
| `NetSpsc.QueueIsFifo` | programs/networkd/net_spsc.h:17-43 | In every state of every interleaving, what was popped is a prefix of what was pushed and at most the capacity lies between |
| `NetSpsc.NoLostWake` | programs/networkd/ipc_server.cpp:308-323 | A consumer that waits in poll while an item is queued has a wake byte in the pipe, or the producer is just about to write one |
| `NetArena.BumpOk` | programs/networkd/arena.cpp:161-195 | A block taken behind what the last region uses meets no live block and lies past the header |
| `NetArena.CountersFit` | programs/networkd/arena.cpp:137-138 | Page-aligned regions that do not overlap commit less than 2^32 bytes, so the 32-bit counters never wrap |
| `NetArena.NeededIs` | programs/networkd/arena.cpp:161-166 | For every region, size and alignment: whatever wraps on the way, the padding is exact and only the final sum is cut to 32 bits |
| `NetArena.AcceptsExactly` | programs/networkd/arena.cpp:161-184 | For every region, size and alignment: a block fits if and only if the 32-bit test passes and the unwrapped end of the block stays below 2^32 |
| `NetArena.SmallAlignments` | programs/networkd/arena.cpp:155-168 | For alignments up to a page, size plus alignment of 2^32 or more never fits |
| `NetArena.WrapIsAccepted` | programs/networkd/arena.cpp:155-168 | Two concrete requests whose sums wrap pass the test without room, one of them only because of the padding |
| `NetArena.Arena.NextSize` | programs/networkd/arena.cpp:106-122 | The doubling ends; its result covers the request and the last region |
| `NetArena.Arena.EnsureRegion` | programs/networkd/arena.cpp:98-140 | The last region has room, or is a new one; counters equal the sums over the regions |
| `NetArena.Arena.Alloc` | programs/networkd/arena.cpp:142-196 | For every 32-bit size and alignment: a zero size or an alignment that is no power of two is refused; zero changes no live block; the arena is sound afterwards if and only if a block taken ends, unwrapped, below 2^32, which size plus alignment below 2^32 ensures, and for alignments up to a page is; then the block is aligned, inside a region, past its header, and meets no live block |
| `NetArena.Arena.Take` | programs/networkd/arena.cpp:155-195 | One try in one region: refused exactly as the 32-bit test says, else the block is behind what the region uses |
| `NetArena.Arena.MakeCheckpoint` | programs/networkd/arena.cpp:198-203 | The last region and what it uses, or nowhere |
| `NetArena.Arena.Rewind` | programs/networkd/arena.cpp:205-261 | The regions are those of the checkpoint, counters are their sums again (no saturating branch is taken), and exactly the blocks inside them survive |
| `NetArena.Arena.Reset` | programs/networkd/arena.cpp:263-297 | One empty region is left, or none; counters agree |
| `NetArena.RewindRestores` | programs/networkd/arena.cpp:198-261 | After any number of allocations, rewinding to a checkpoint restores regions, counters and live blocks exactly |
| `NetArena.RewindToNowhere` | programs/networkd/arena.cpp:205-209 | A checkpoint of an empty arena is restored if and only if nothing has been mapped since; bytes in use return to zero either way |
| `NetArena.SinceGrows` | programs/networkd/arena.cpp:142-203 | Allocation after a checkpoint keeps it restorable |
| `NetArena.Nested` | programs/networkd/arena.cpp:198-261 | Checkpoints nest: an earlier one stays restorable while a later one is taken, and after rewinding to the later one |
| `NetDnsNames.JoinedSplit` | programs/networkd/dns_wire.cpp:64-119 | Splitting a name at dots and joining it again gives the name back |
| `NetDnsNames.SplitJoined` | programs/networkd/dns_wire.cpp:64-119 | Joining labels without dots and splitting gives the labels back |
| `NetDnsNames.DecodeWire` | programs/networkd/dns_wire.cpp:64-119 | Reading length-prefixed labels up to the root returns the labels that were written, whatever follows (section 3.1 of RFC 1035) |
| `NetDnsNames.WireLength` | programs/networkd/dns_wire.cpp:64-119 | Without its root byte a written name is one byte longer than its text |
| `NetDnsWire.EncodeName` | programs/networkd/dns_wire.cpp:64-119 | Succeeds exactly on names of labels of 1 to 63 bytes that fit, and appends their wire form |
| `NetDnsWire.BuildQuery` | programs/networkd/dns_wire.cpp:167-232 | Succeeds exactly on such names of 1 to 127 bytes that fit, with name length plus 18 bytes: header, one question, type A, class IN (section 4.1.2 of RFC 1035) |
| `NetDnsWire.SkipName` | programs/networkd/dns_wire.cpp:121-163 | The loop computes the recursive reading of a name: where it ends, or malformed |
| `NetDnsWire.SkipsName` | programs/networkd/dns_wire.cpp:121-163 | Skipping any well-formed name, whether it ends at the root or with a compression pointer, lands right behind it (section 4.1.4 of RFC 1035) |
| `NetDnsWire.SkipLandsOnType` | programs/networkd/dns_wire.cpp:121-232 | In a query that was built, skipping the name lands exactly on the type field, and decoding it returns the labels |
| `NetDnsWire.ParseResponse` | programs/networkd/dns_wire.cpp:234-306 | The loops compute the recursive reading of a packet, for every byte string; the address comes in network order |
| `NetDnsWire.ParseFindsFirst` | programs/networkd/dns_wire.cpp:234-306 | Parsing the bytes of any well-formed response yields its first address record of type A and class IN, or that it has none |
| `GedBuffer.GapBuf.MoveGap` | programs/geditor/gapbuf.c:45-65 | The gap is at the clamped position and the text is unchanged |
| `GedBuffer.GapBuf.EnsureGap` | programs/geditor/gapbuf.c:67-104 | The gap is large enough and the text is unchanged; the growth loop ends |
| `GedBuffer.GapBuf.InsertAt` | programs/geditor/gapbuf.c:106-117 | The text is the old one with the string at the clamped position |
| `GedBuffer.GapBuf.DeleteRange` | programs/geditor/gapbuf.c:119-136 | The text is the old one without the clamped range |
| `GedBuffer.GapBuf.CopyRange` | programs/geditor/gapbuf.c:138-164 | Exactly the clamped range of the text, from both sides of the gap |
| `GedBuffer.GapBuf.CharAt` | programs/geditor/gapbuf.c:34-43 | The character of the text, zero outside it |
| `GedText.StartsInserted` | programs/geditor/lines.c:198-257 | How the line starts of a text change under an insertion: kept, inserted, shifted |
| `GedText.StartsDeleted` | programs/geditor/lines.c:259-317 | How the line starts of a text change under a deletion: kept, removed, shifted |
| `GedLines.LineIndex.LowerBound` | programs/geditor/lines.c:7-22 | The binary search splits the starts at the key |
| `GedLines.LineIndex.UpperBound` | programs/geditor/lines.c:24-39 | The binary search splits the starts behind the key |
| `GedLines.LineIndex.FindLine` | programs/geditor/lines.c:173-196 | The line that contains the position: it starts at or before it and the next one behind it |
| `GedLines.LineIndex.Rebuild` | programs/geditor/lines.c:129-171 | A full rescan of the gap buffer gives the line starts of its text |
| `GedLines.LineIndex.ApplyInsert` | programs/geditor/lines.c:198-257 | The incremental update equals a full rescan of the text after the insertion |
| `GedLines.LineIndex.ApplyDelete` | programs/geditor/lines.c:259-317 | The incremental update equals a full rescan of the text after the deletion |
| `GedText.InverseUndoes` | programs/geditor/editor.c:64-99 | Every action fits after its inverse, undoes it, and is its inverse again |
| `GedText.UndoneOk` | programs/geditor/editor.c:101-105 | Undo keeps every stacked action applicable when it is reached |
| `GedText.EditedOk` | programs/geditor/editor.c:256-267 | An edit keeps every stacked action applicable and empties the redo stack |
| `GedText.RedosUndoUndos` | programs/geditor/editor.c:101-111 | Any number of undos followed by as many redos is the identity on text and both stacks |
| `GedText.UndoAll` | programs/geditor/editor.c:101-105 | Undoing every edit since the load shows the loaded text |
| `GedEditor.Editor.Perform` | programs/geditor/editor.c:64-99 | Applies an action to buffer and line index and returns its inverse |
| `GedEditor.Editor.Undo` | programs/geditor/editor.c:101-105 | The state moves one step back in its history; buffer, line index and stacks agree |
| `GedEditor.Editor.Redo` | programs/geditor/editor.c:107-111 | The state moves one step forward in its history |
| `GedEditor.Editor.DeleteRange` | programs/geditor/editor.c:422-442 | A deletion that can be undone; redo is empty; the cursor is at the start |
| `GedEditor.Editor.InsertStr` | programs/geditor/editor.c:444-454 | A selection is deleted first, then the string inserted: up to two undoable edits, cursor behind the string; an empty selection stays where it was and so grows over the string |
| `GedEditor.Editor.Backspace` | programs/geditor/editor.c:461-469 | Deletes the selection, or else the character before the cursor, undoably and with the cursor where the deletion began; nothing at the start |
| `LauncherSort.LeqTotal` | programs/launcher.c:143-217 | The byte-wise order of names is total, with equality exactly for equal names |
| `LauncherSort.Partition` | programs/launcher.c:162-175 | The scans stay inside the interval; the two parts are on the right sides of the pivot, and the interval is permuted |
| `LauncherSort.PartitionOrdered` | programs/launcher.c:161-206 | After a partition every pair out of order lies inside one pending interval |
| `LauncherSort.NeverFull` | programs/launcher.c:177-205 | An interval worth pushing is never 31 deep, because the longer part is pushed and the shorter one taken, so the guard on the stack of 64 never discards one |
| `LauncherSort.Sort` | programs/launcher.c:143-207 | The iterative quicksort leaves a sorted permutation and touches nothing beyond |
| `LauncherSort.Unique` | programs/launcher.c:209-216 | Compaction of a sorted list is strictly increasing with the same set of names |
| `LauncherSort.SortUnique` | programs/launcher.c:143-217 | Strictly increasing, the same set of names, every entry one of the given ones |
| `FluxRing.Ring.Push` | programs/flux/flux_ipc_ring.c:15-43 | With wrapping counters, the ring holds the newest bytes of what it held followed by what was pushed |
| `FluxRing.Ring.Peek` | programs/flux/flux_ipc_ring.c:45-56 | Reads any stretch of the content, round the end of the buffer |
| `FluxRing.Ring.Drop` | programs/flux/flux_ipc_ring.c:58-62 | Removes bytes at the front, at most all |
| `FluxFrames.TakeFrame` | usr/comp.h:262-335 | A frame in front of anything is taken whole and leaves the rest |
| `FluxFrames.TakePartial` | usr/comp.h:262-335 | A proper prefix of a frame yields nothing and stays as it is |
| `FluxFrames.TakeFromStream` | usr/comp.h:249-340 | Of any prefix of a stream of frames, either its first frame can be taken or less than one frame is there |
| `FluxReceive.Receiver.Fill` | usr/comp.h:252-276 | Reads while room for a longest frame is left: no byte is pushed out, none is skipped |
| `FluxReceive.Receiver.TakeOne` | usr/comp.h:278-338 | The extraction loop with its resynchronisation computes the recursive reading of the buffered bytes |
| `FluxReceive.Receiver.Pump` | programs/flux/flux_client_pump.c:214-267 | Takes exactly the frames that follow, accounts for every byte, and leaves less than a frame |
| `FluxReceive.Receiver.PumpAll` | programs/flux/flux_client_pump.c:203-267 | A whole stream of frames, cut into any pieces over any number of turns, comes out as exactly those frames in order, with nothing left over |
| `FluxReceive.NeverStalls` | usr/comp.h:252-276 | A ring too full to read more holds a whole frame |
| `FluxReceive.AllTaken` | usr/comp.h:249-340 | When all bytes have arrived and no frame can be taken, every frame has been taken |
| `FluxSend.PrefixIsWhole` | programs/flux/flux_wm.c:36-104 | Bytes that are a prefix of a sequence of frames are whole frames plus at most one partial tail |
| `FluxSend.Sender.Flush` | programs/flux/flux_wm.c:36-62 | For a pipe that may answer differently each time: partial writes go on where they stopped, what has been written is always a prefix of the accepted frames, and only a pipe without room leaves frames queued |
| `FluxSend.Sender.SendEvent` | programs/flux/flux_wm.c:64-104 | An essential event is accepted behind all earlier ones, or sending fails; what was written stays a prefix of the accepted frames, numbered in order |
| `FluxSend.Sender.Deliver` | programs/flux/flux_client_pump.c:548-555 | Send or disconnect: while connected, essential events go out in order; what was written is whole frames plus at most one partial tail |
| `UldObjects.PlacedApart` | programs/uld.c:212-254 | No two sections of any objects share a byte of the image |
| `UldObjects.FitsArea` | programs/uld.c:212-254 | Every section lies inside its area, at a multiple of 16 from its start; loaded ones inside the file |
| `UldObjects.RangeTest` | programs/uld.c:385-387 | For every offset the 32-bit range test lets through: the patch ends inside the section, and begins inside it if and only if the end of the offset does not wrap |
| `Uld.PatchesHeaders` | programs/uld.c:385-415 | A concrete object whose relocation at offset 2^32 - 4 passes the test of an empty section and patches the headers |
| `UldObjects.AddressIs` | programs/uld.c:312-345 | The address from the chain of 32-bit area bases, computed apart from file offsets, is the base address plus the file offset |
| `UldObjects.FixInside` | programs/uld.c:373-415 | Every accepted relocation patches inside the image, at the address it uses as its place, and inside its section if and only if its offset does not wrap |
| `UldObjects.FixesApart` | programs/uld.c:311-425 | Relocations that do not wrap or overlap in the input patch disjoint words of the image |
| `UldObjects.LinkedByte` | programs/uld.c:311-425 | Every byte of a loaded section in the output is the input byte, or its part of S + A or S + A - P modulo 2^32 ("Relocation Types" in chapter 4 of the System V ABI Intel386 supplement) |
| `UldPatch.PatchSets` | programs/uld.c:414-423 | In any list of disjoint patches, each word ends up as its value computed from the unpatched image |
| `Uld.CalculateLayout` | programs/uld.c:212-254 | The accumulated offsets are those of the layout, area by area |
| `Uld.FindGlobal` | programs/uld.c:256-261 | The first definition of a name |
| `Uld.AddressOf` | programs/uld.c:265-301 | The address of a section through the wrapped base chain |
| `Uld.CollectSymbols` | programs/uld.c:263-309 | The table answers every name as the first global definition over all objects in order |
| `Uld.CopySections` | programs/uld.c:461-473 | Every loaded section is in the image at its offset |
| `Uld.Resolve` | programs/uld.c:373-412 | What each relocation entry demands: skip, patch or stop, with symbol and place values |
| `Uld.RelocateAll` | programs/uld.c:475-480 | Succeeds exactly if every entry of every object is fine, and then the image is the copied one with all patches applied in order |
| `Uld.ImageLinked` | programs/uld.c:427-503 | The image of a whole link in terms of the objects alone: every byte of every loaded section is the input byte or its part of S + A or S + A - P, the addend read from the section's own bytes |
| `Uld.Link` | programs/uld.c:427-503 | Succeeds exactly if every relocation is of a known kind, passes the range test and has a definition; if then none wraps and none overlap, every byte of the image is the one the objects call for; the entry point is the first definition of the start symbol |

## Left out

- YulaFS byte layout: superblock, inodes, directory entries, bitmaps and pointer tables are typed blocks, so packing, endianness and I/O errors are not modelled.
- YfsImage.Image.Import: requires fewer than 2^32 bytes (the tool keeps sizes in 32 bits), a name under 60 bytes (a longer one leaves the tool's name buffer without its end), and a destination that does not name a directory (its entry blocks would hold file bytes, which typed blocks cannot say).
- YfsImage.Image.Format: requires a block count for which the 32-bit rounding of the bitmap sizes does not wrap.
- YfsImage.Image.DirAdd: the 32-bit directory size is not wrapped.
- Reading and writing the host file, the clock and the command line of the image tool are parameters or absent.
- axwm: 32-bit wrap of coordinates, the master bookkeeping, messages to the compositor, the framebuffer query, bar drawing, spawning, pending close and exit commands.
- AxWm.Wm.OnPointer: hover focus and click focus are one operation, and the preview rectangle is not modelled.
- AxWm.Wm.ApplyLayout: sizes below the minimum are raised to it as the code does, so raised windows may overlap; disjointness is proved for the rectangles before that. Geometry is unbounded.
- AxLayout.LayoutState.InsertSplit: requires the new view not to be tiled on that workspace yet, as every caller has it.
- AxWm.Wm.HandleEvent: says nothing about events after one that broke the trees; starting over when the compositor goes away is not modelled.
- NetHashMap.HashMap.Put: the 32-bit products of the load test are not wrapped; the iterator is not modelled.
- NetDns.DnsClient.Step: sending, ARP resolution and entropy are parameters; the wake-up tracker is not modelled.
- NetDns.DnsClient.CompleteOp: the erase and put of one table are done before those of the other.
- NetIcmp.Ipv4Icmp.HandleReply: answering echo requests and packet checks are not modelled.
- NetArp.ArpCache.Upsert: frames, requests and replies of ARP are not modelled; memory of entries is a parameter.
- NetSpsc: memory is sequentially consistent; a pipe write that fails for a full pipe counts as a wake byte already there.
- NetArena.Arena.Alloc: the kernel is assumed to return page-aligned mappings that do not overlap; init and release are not modelled; the region list is a sequence.
- NetDnsWire.ParseResponse: 32-bit offsets are not wrapped.
- geditor: block-comment flags of lines, smart tab and indentation, find and goto, clipboard, drawing; the text buffer's own allocations succeed in the editor, as the editor ignores their failure.
- GedEditor.Editor.Undo: memory for the stacks is assumed.
- LauncherSort.Sort: requires fewer than 2^31 entries, the range of the code's index type.
- FluxReceive.Receiver.TakeOne: the input-ring message and the caller's payload limit are not modelled; end of file is not modelled.
- FluxSend.Sender.SendEvent: a partial write of a non-essential event is reported as failure, and the caller disconnects.
- Uld.Link: requires well-formed objects (section and symbol indices in range); parsing, header bytes, section headers and the limits of the symbol and section tables are not modelled; sums of sizes are unbounded.
- The kernel, the C compiler, the assembler, the small utilities and the remaining programs are not modelled.
