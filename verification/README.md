# A verified model of libdm and of LVM2's extent arithmetic

This project models the hardest parts of the device-mapper library (libdm) and two pieces of
arithmetic and parsing of the LVM2 tools, and proves what they promise. Every module states the
meaning of an operation as a function on values; the operations themselves are written as the
program runs them, as classes and loops that change state, and are proved against those functions.

- `Links`, `DepTree`: the dependency tree with its symmetric `uses` and `used_by` lists, built from
  kernel dependencies.
- `TreeWalk`, `WholeTree`: the suspend, activate and deactivate walks over that tree, the counter of
  suspended devices, and building, suspending, activating and tearing down a tree end to end. The
  kernel is a map from devices to their state; every ioctl may fail.
- `Escaping`, `EscapeMeaning`, `LvmName`, `Mangle`, `DeviceNames`: quoting in place, volume group and
  volume names, HEX mangling.
- `ConfigText`, `ConfigNumbers`, `ConfigRoundTrip`, `ConfigNormal`, `ConfigWritten`, `ConfigPrint`,
  `ConfigExact`, `ConfigParser`: the configuration grammar and what documents written by hand mean in
  it, its printed form, the parser and printer that undo each other, and exactly when the printer's
  fixed buffer gets in the way.
- `NodeOps`, `NodeRenames`: the queue of pending operations on device nodes, and what renames do to it.
- `UdevCookie`: the notification semaphores as a transition system over system calls, with results
  for every interleaving.
- `ThinPool`, `ThinRecovery`: thin-pool messages, their transaction id and recovery from attempts cut
  short, for every list of messages.
- `PeRanges`, `PeText`, `PeContents`, `PeOwners`: physical extent ranges on the command line, the texts
  that are accepted for them and the extents that the list then holds.
- `Resize`, `ResizeRequests`: the size computation of lvresize and what each kind of request asks for,
  in the 32-bit and 64-bit arithmetic of `Words`.

Conventions. Tree nodes are handles (device numbers) into lists held as sequences. Strings are
sequences without a terminator unless a buffer is modelled, and then `HoldsAt` says what it holds.
A parameter `tasksMayFail`, `infoMayFail`, `failing`, `faults` or `cut` stands for system calls that
fail or for a process that ends early. The tree walks keep a log of every kernel change with the
state before it, so that "at every moment" is a statement about the log. The walks read the cached
device state as the program does, and a count of the calls that were refused says what their answers
mean. The preconditions on the cache (`CachedSuspendedIsTrue`, `CachedLiveIsTrue`) say that what it
calls suspended is so in the kernel and that what it calls live runs there on its newest table, and
every walk keeps them.

Where the code and its comments differ, the model follows the code:

- A comment in `_stack_node_op` says that only a removal can be stacked for a name when it is added
  again and that there is one at most. Two removals in a row are both kept, and a read-ahead setting
  may follow one. What the queue means is proved without that assumption.
- lvresize says it rounds toward the original size. An extension without a percentage is rounded
  away from it.
- The order of activation priorities holds for the children resumed by one call. A child shared with
  another parent may have been resumed earlier through that parent.

Findings. Properties that do not hold of every input are stated with the exact condition under
which they do: `ConfigExact.PrintedRoundTripIff` and `ConfigExact.ForestOkIff` (a long key, a lost
quote and an error inside a section go unreported), `PeRanges.InsideIffExtents` and
`PeOwners.AlwaysOwnIff` (volumes without extents, and several volumes on one device),
`Resize.NeverGrowsIff`, `Resize.ReducesWithinIff` and `Resize.ExtendGrowsByGroupsIff` (reductions that
grow and extensions that shrink), `Resize.RoundedSizeIsNearestIff` (a size that
wraps around), `ThinPool.SnapshotOfItself`, `ThinRecovery.RecoversFromIff` and `ThinRecovery.RecoversIff`
(snapshots, messages after the transaction id, and a second id), `UdevCookie.PassIffAllReported` (an
increment that leaked), and `NodeRenames.StackingFaithfulIff` (a rename that is forgotten).

`dafny verify dfyconfig.toml` checks the whole project.

## Model

| member | source | states |
|---|---|---|
| `Links.LinkedEdges` | libdm/libdm-deptree.c:356-396 | Linking adds exactly one edge, on both lists at once, and never a duplicate. |
| `Links.UnlinkedEdges` | libdm/libdm-deptree.c:398-417 | Unlinking removes exactly that edge from both lists and keeps them mirror images without duplicates. |
| `DepTree.SameTree` | libdm/libdm-deptree.c:1148-1209 | The tree is independent of the order in which devices were added: two trees of the same devices have the same nodes, edges and children. |
| `DepTree.EdgeDetermined` | libdm/libdevmapper.h:395-402 | Every edge, those of the root included, is determined by the kernel dependencies and the added devices alone. |
| `DepTree.LinkedBelowRoot` | libdm/libdm-deptree.c:439-455 | Linking a node below the root has an effect only when the node has no other parent. |
| `DepTree.LinkedBelowDevice` | libdm/libdm-deptree.c:439-455 | Linking two devices takes the root away as a parent of the child and as a child of the parent, and changes no other edge. |
| `DepTree.LinkKeepsGrowing` | libdm/libdm-deptree.c:439-455 | A link inside an unfinished tree keeps finished nodes finished and the root where it belongs. |
| `DepTree.OpenNode` | libdm/libdm-deptree.c:1162-1176 | A node just created and attached leaves the tree consistent with one more node whose dependencies are still to come. |
| `DepTree.CloseNode` | libdm/libdm-deptree.c:1191-1197 | Once all dependencies of a node are linked, its children are exactly the kernel dependencies. |
| `DepTree.CloseLeaf` | libdm/libdm-deptree.c:1182-1189 | A node without dependencies gets the root as its only child. |
| `DepTree.GrownIsExact` | libdm/libdevmapper.h:395-402 | A tree with nothing left to do has as nodes the least closed set of the added devices, edges exactly where the kernel reports dependencies, and the root standing in exactly where a parent or child is missing. |
| `DepTree.Tree.LinkNodes` | libdm/libdm-deptree.c:383-396 | Both lists are extended by one link. |
| `DepTree.Tree.UnlinkNodes` | libdm/libdm-deptree.c:409-417 | Both lists lose that link. |
| `DepTree.Tree.LinkTreeNodes` | libdm/libdm-deptree.c:439-455 | The link-or-ignore decision and the removal of links to the root, as one new graph. |
| `DepTree.Tree.FindOrCreate` | libdm/libdm-deptree.c:1162-1176 | A node is created only for a device not yet in the tree and only if its dependency query succeeds; a known one is only linked. |
| `DepTree.Tree.AddDev` | libdm/libdm-deptree.c:1148-1204 | The recursion terminates on any dependencies, cyclic ones too, keeps every finished node exact, creates only nodes whose dependency query is answered, and succeeds when every new device reached from the given one answers. |
| `DepTree.Tree.Descend` | libdm/libdm-deptree.c:1182-1197 | A new node is finished, by the root or by its dependencies, and no other unfinished node changes; it succeeds when every new device below answers. |
| `DepTree.Tree.AddDependencies` | libdm/libdm-deptree.c:1191-1197 | The loop over dependencies finishes the node it was started for and leaves the others as they were. |
| `DepTree.Tree.AddDevice` | libdm/libdm-deptree.c:1206-1209 | The exact tree of a set of devices becomes the exact tree of that set and one more if and only if every new device reached from it answers its dependency query. |
| `DepTree.BuildTree` | libdm/libdm-deptree.c:1148-1209 | Any sequence of successful additions gives the exact tree of all of them. |
| `TreeWalk.SuspendKeepsCache` | libdm/libdm-deptree.c:1655-1666 | Suspending one device and refreshing its cached state keeps the cache truthful. |
| `TreeWalk.SuspendUnsettles` | libdm/libdm-deptree.c:633-677 | Suspending a device can only put its own children on the list of what is left to suspend. |
| `TreeWalk.ReachTransitive` | libdm/libdm-deptree.c:1672-1685 | What is reached from a reached node is reached. |
| `TreeWalk.SafeStepKeepsOrder` | libdm/libdm-deptree.c:1647-1666 | One safe suspend, resume or removal keeps "no live device uses a suspended one". |
| `TreeWalk.SafeStepLeavesNothingDangling` | libdm/libdm-deptree.c:1539-1589 | One safe removal leaves no existing device that refers to it. |
| `TreeWalk.EveryMoment` | libdm/libdm-deptree.c:1501-1783 | At every moment of any sequence of walks, whatever fails, no live node of the tree uses a suspended one, and without retries nothing refers to a removed device. |
| `TreeWalk.SettledMeansSuspended` | libdm/libdm-deptree.c:1614-1688 | If no reached node is still waiting and ready and the parents they wait for allow it, all reached nodes are suspended, from the top down. |
| `TreeWalk.SuspendedOnlyWithParents` | libdm/libdm-deptree.c:633-677 | The converse, from any start: all reached nodes come out suspended only if every parent that one still to be suspended waits for was suspended already, or exists and is reached. |
| `TreeWalk.EveryNodeReached` | libdm/libdm-deptree.c:1614-1688 | A walk from the root that leaves nothing out reaches every node of an acyclic tree. |
| `TreeWalk.WholeTreeWithin` | libdm/libdm-deptree.c:1614-1688 | For the whole tree with all users existing, the condition for a complete suspend holds. |
| `TreeWalk.RemoveOrphans` | libdm/libdm-deptree.c:1580-1602 | Removing a device frees at most the devices it used. |
| `TreeWalk.ChildRemoved` | libdm/libdm-deptree.c:1539-1589 | Removing an unused child keeps the account of a deactivate walk: only reached devices go, users before what they use. |
| `TreeWalk.ChildWalked` | libdm/libdm-deptree.c:1599-1601 | The walk below a removed child composes with what was done before. |
| `TreeWalk.ReachedIsGone` | libdm/libdm-deptree.c:1501-1605 | With nothing held from outside, every reached device is gone after the walk, by induction from the top. |
| `TreeWalk.NoneLeftOnlyIfHeldWithin` | libdm/libdm-deptree.c:1501-1605 | The converse: nothing is left only if every user of a reached device is itself reached. |
| `TreeWalk.TopIsNotBelow` | libdm/libdm-deptree.c:1501-1605 | A child of the root is not below another one, so no later round can remove it. |
| `TreeWalk.AnswerStep` | libdm/libdm-deptree.c:1505-1602 | One more round keeps the meaning of the answer: all the children so far are gone, or one of them is still held. |
| `TreeWalk.UsesAreLive` | libdm/libdm-deptree.c:1751-1765 | A device whose children are cached live may be resumed: all it uses exists unsuspended and has no newer table waiting. |
| `TreeWalk.AllPriorities` | libdm/libdm-deptree.c:1719-1767 | Three rounds, one for each priority, leave every child live and with no rename pending. |
| `TreeWalk.NextPriority` | libdm/libdm-deptree.c:1719-1767 | A further round keeps the resumes of one parent in nondecreasing priority. |
| `TreeWalk.ResumeKeepsCache` | libdm/libdm-deptree.c:1253-1301 | Resuming a device and refreshing its cached state keeps the cache truthful and the device live. |
| `TreeWalk.Walker.constructor` | libdm/libdm-deptree.c:1501-1783 | A walk starts from a consistent tree with an empty log of kernel changes. |
| `TreeWalk.Walker.DecSuspended` | libdm/libdm-common.c:201-216 | The counter goes down by one, or stays at zero and the guard is recorded. |
| `TreeWalk.Walker.SuspendNode` | libdm/libdm-deptree.c:1303-1342 | Whatever fails, the device is counted exactly when it is suspended, and success means that no call was refused. |
| `TreeWalk.Walker.SuspendChild` | libdm/libdm-deptree.c:1627-1667 | One child is suspended only when its parents in the walk are, and otherwise left to a later visit; without failures it is no longer waiting afterwards, and the answer is true exactly if no call was refused. |
| `TreeWalk.Walker.SuspendLevel` | libdm/libdm-deptree.c:1626-1667 | After the first loop no child of the node is waiting; only their children can be. The answer is true exactly if no call was refused. |
| `TreeWalk.Walker.SuspendBelow` | libdm/libdm-deptree.c:1672-1685 | The second loop, for one child: everything below it is settled if nothing fails, and the answer is true exactly if no call was refused. |
| `TreeWalk.Walker.SuspendChildren` | libdm/libdm-deptree.c:1614-1688 | Terminates; every change is safe; only reached devices change; without failures no reached device is left waiting, although a shared child is skipped until its last parent is suspended. The answer is true exactly if no call was refused. |
| `TreeWalk.Walker.SuspendTree` | libdm/libdm-deptree.c:1614-1688 | From the root and without failures, whatever was suspended before: every existing reached device ends up suspended if and only if every parent that one still to be suspended waits for is suspended already, or exists and is reached. The answer is true exactly if no call was refused. |
| `TreeWalk.Walker.RemoveNode` | libdm/libdm-deptree.c:935-975 | The device goes exactly when its ioctl succeeds, and the counter follows if it was suspended. |
| `TreeWalk.Walker.DeactivateChild` | libdm/libdm-deptree.c:1514-1589 | A child is removed only when nothing uses or holds it, unless removal may be retried; one left behind still has a user. The answer is false only if a call was refused or the child, at the top, is held open; at the top and without failures, true means that it is gone. |
| `TreeWalk.Walker.DeactivateRound` | libdm/libdm-deptree.c:1514-1602 | One child and, once it is removed, all that this frees below it; nothing that is not below it goes. The answers say whether a call was refused or the child is still there. |
| `TreeWalk.Walker.DeactivateChildren` | libdm/libdm-deptree.c:1501-1605 | Terminates because every recursion follows a removal; only reached devices go, users before what they use, and without retries none that is open; without failures no freed child is left. The answer is false only if a call was refused or a child at the top was held open; without failures and at the top, true means that no child is left. |
| `TreeWalk.Walker.DeactivateTree` | libdm/libdm-deptree.c:1607-1612 | From the root and without failures the call answers true if and only if no selected child of the root is left; it does, and no reached device is left, if, and without retries only if, every user of a reached device is itself reached. If it answers true no call was refused. |
| `TreeWalk.Walker.ResumeNode` | libdm/libdm-deptree.c:1253-1301 | A successful resume leaves the device live in kernel and cache, and the counter goes down exactly when it was suspended. |
| `TreeWalk.Walker.ActivateChild` | libdm/libdm-deptree.c:1721-1765 | A child is renamed, and resumed only when everything it uses is live on its newest table; it logs at most its own resume. The answers are true exactly if no call was refused, and then the rename is done and the child live. |
| `TreeWalk.Walker.ActivatePriority` | libdm/libdm-deptree.c:1720-1766 | One round resumes only children of the given priority and, unless a call is refused, leaves all of those live and renamed. |
| `TreeWalk.Walker.ActivateLevel` | libdm/libdm-deptree.c:1719-1767 | The children of one parent are resumed in nondecreasing activation priority and, exactly unless a call is refused, all end up live and renamed. |
| `TreeWalk.Walker.SendMessages` | libdm/libdm-deptree.c:1449-1496 | A failure to send messages deactivates what is below and keeps every safety property; success changes nothing. |
| `TreeWalk.Walker.ActivateOwn` | libdm/libdm-deptree.c:1717-1783 | Once everything below the children is live, the rest of the call makes the children live too and sends the node's messages; a device is removed only after messages failed. |
| `TreeWalk.Walker.ActivateBelow` | libdm/libdm-deptree.c:1701-1714 | The first loop, for one child: exactly unless a call is refused, all below it is live, renamed and has had its messages. |
| `TreeWalk.Walker.ActivateChildren` | libdm/libdm-deptree.c:1690-1783 | Terminates; a device is resumed only when all it uses is live on its newest table; devices of the tree are only resumed, or removed when messages of a pool fail below which all is live, and others never change. The answer is true exactly if no call was refused, and then every reached device is live, has no rename pending and every pool among them has had its messages; without failures and with all wanted devices existing it is true. |
| `TreeWalk.Walker.RunWalks` | libdm/libdm-common.c:201-216 | After any sequence of suspend, activate and deactivate walks with failing ioctls the counter equals the number of suspended devices and never goes below zero. |
| `WholeTree.BuiltTreeIsWalkable` | libdm/libdm-deptree.c:1148-1209 | Every tree built from acyclic kernel dependencies is fit for the walks. |
| `WholeTree.BuiltTreeMatchesKernel` | libdm/libdm-deptree.c:1148-1209 | In such a tree, links and kernel references coincide. |
| `WholeTree.BuiltTreeHeldWithin` | libdm/libdm-deptree.c:1501-1605 | If no device outside the tree uses one inside, the condition for a complete deactivation holds. |
| `WholeTree.MembersGone` | libdm/libdm-deptree.c:1501-1605 | What a complete deactivation leaves is the kernel without exactly the tree's devices. |
| `WholeTree.Deactivate` | libdm/libdm-deptree.c:1607-1612 | A walk over the whole tree succeeds and leaves none of it. |
| `WholeTree.TearDown` | libdm/libdm-deptree.c:1148-1612 | Building the tree of some devices and deactivating it removes exactly those devices and all they depend on. |
| `WholeTree.BuiltTreeParentsWithin` | libdm/libdm-deptree.c:633-677 | In a tree built from dependencies of the devices that exist, every parent a device waits for exists and is reached, so a suspend without failures is complete. |
| `WholeTree.SuspendAndActivate` | libdm/libdm-deptree.c:1614-1783 | Over a whole tree, suspending leaves exactly its devices suspended and activating leaves exactly them live. |
| `WholeTree.Refresh` | libdm/libdm-deptree.c:1148-1783 | Building the tree of some devices, suspending and activating it: all of them and all they depend on are suspended in between and then live, on their inactive tables where loaded, and no other device changes. |
| `Escaping.UnquotedQuoted` | libdm/libdm-string.c:223-297 | Unescaping an escaped string gives it back, for every string and every pair of characters. |
| `Escaping.QuotedLength` | libdm/libdm-string.c:178-186 | Quoting adds one character for each occurrence that is counted. |
| `Escaping.CountChars` | libdm/libdm-string.c:178-186 | Adds the length and the occurrences of both characters. |
| `Escaping.EscapedLen` | libdm/libdm-string.c:209-217 | Exactly the bytes of the escaped string and its terminator. |
| `Escaping.QuoteCharacters` | libdm/libdm-string.c:223-234 | Writes the quoted text at the output position, moves the position past it, and touches nothing else. |
| `Escaping.Escape` | libdm/libdm-string.c:373-384 | Fills a buffer of the precomputed length exactly. |
| `Escaping.UnquoteOneCharacter` | libdm/libdm-string.c:236-263 | The in-place scanner leaves the pure left-to-right unescape of the string, and nothing outside it changes. |
| `Escaping.EscapeThenUnescape` | libdm/libdm-string.c:373-391 | Escaping and unescaping in the same buffer is the identity. |
| `Escaping.OneCharacter` | libdm/libdm-string.c:280-293 | One round over the quoted characters: whether a pair starts here, and which first positions are set. |
| `Escaping.UnquoteCharacters` | libdm/libdm-string.c:271-297 | The in-place scanner for several characters leaves the left-to-right unescape, with each first position at the first unescaped occurrence in the output. |
| `Escaping.UnescapeColonsAndAtSigns` | libdm/libdm-string.c:397-411 | The colon and at-sign positions are those of the first unescaped ones in the unescaped text. |
| `EscapeMeaning.MarksOfUnits` | libdm/libdm-string.c:271-297 | A text written as characters and escaped characters is unescaped to what those mean; an escape before any other character stays. |
| `EscapeMeaning.EveryTextHasUnits` | libdm/libdm-string.c:271-297 | Every text can be taken apart like that. |
| `EscapeMeaning.UnquotedOfUnits` | libdm/libdm-string.c:236-263 | The same for a single escaped character, as in quoted strings. |
| `LvmName.ComponentOfQuoted` | libdm/libdm-string.c:66-90 | What follows a quoted part never changes how the part is read. |
| `LvmName.ComponentBeforeHyphen` | libdm/libdm-string.c:66-90 | A part before a hyphen is read back exactly when a part that does not start with a hyphen follows. |
| `LvmName.SplitInvertsBuild` | libdm/libdm-string.c:66-101 | Splitting a built name gives back the three parts if and only if the volume name is nonempty without leading hyphen and the layer is absent or starts with neither hyphen nor underscore. |
| `LvmName.UnderscoreLayerJoinsLv` | libdm/libdm-string.c:310-347 | A layer that starts with an underscore comes back appended to the volume name. |
| `LvmName.HyphenCount` | libdm/libdm-string.c:178-186 | The hyphens counted are the characters that quoting adds. |
| `LvmName.CopyComponent` | libdm/libdm-string.c:66-84 | The reading and writing positions of the in-place loop agree with the pure component. |
| `LvmName.Unquote` | libdm/libdm-string.c:66-90 | The component is left terminated in place and the next one is still intact behind it. |
| `LvmName.SplitLvmName` | libdm/libdm-string.c:92-101 | Three components, in one buffer, of the pure split. |
| `LvmName.BuildDmName` | libdm/libdm-string.c:310-347 | The precomputed length always suffices, and is exact unless the layer starts with an underscore. |
| `LvmName.FillDmName` | libdm/libdm-string.c:332-346 | The buffer holds the hyphen-quoted parts joined by hyphens. |
| `LvmName.BuildThenSplit` | libdm/libdm-string.c:66-101 | Building and splitting in place returns exactly the three parts. |
| `DeviceNames.SplitOfJoined` | libdm/libdm-string.c:66-101 | Of any number of parts joined by hyphens, the first three come back and the rest is ignored. |
| `ConfigText.Lex` | libdm/libdm-config.c:512-631 | Every token but the end of the text is nonempty, so the tokeniser makes progress on every input. |
| `ConfigText.TokenAt` | libdm/libdm-config.c:533-628 | A token covers at least one character and stays inside the text. |
| `ConfigText.ParseType` | libdm/libdm-config.c:446-498 | A parsed value consumes at least one token, so the descent terminates. |
| `ConfigText.ParseSection` | libdm/libdm-config.c:370-405 | A parsed section consumes at least one token, so the descent terminates on every input. |
| `ConfigText.Strtoll` | libdm/libdm-config.c:458-462 | The value read is always a 64-bit integer; which one is stated by `ConfigNumbers.DecimalReads`, `OctalReads`, `HexReads` and `ZeroReads`. |
| `ConfigNumbers.DecimalReads` | libdm/libdm-config.c:458-462 | A number written in decimal, with any sign, is read as itself or as the nearest 64-bit integer, whatever follows that is not a digit. |
| `ConfigNumbers.OctalReads` | libdm/libdm-config.c:458-462 | A number written in octal after a zero is read as itself, likewise. |
| `ConfigNumbers.HexReads` | libdm/libdm-config.c:458-462 | A number written in hexadecimal after `0x` is read as itself, in capital or small digits, likewise. |
| `ConfigNumbers.ZeroReads` | libdm/libdm-config.c:458-462 | A zero is read as zero unless hexadecimal digits follow it after an `x`. |
| `ConfigNumbers.OctalParses` | libdm/libdm-config.c:446-498 | An octal number in a configuration text is one value, and the number it stands for. |
| `ConfigRoundTrip.StrtollOfSigned` | libdm/libdm-config.c:458-462 | Every 64-bit integer, printed and read, is itself. |
| `ConfigRoundTrip.LexString` | libdm/libdm-config.c:565-577 | A printed string is one token whatever it holds. |
| `ConfigRoundTrip.ElementsParseBack` | libdm/libdm-config.c:407-437 | The printed elements of an array are read back. |
| `ConfigRoundTrip.ValuesParseBack` | libdm/libdm-config.c:407-444 | A printed value, single, array or empty array, is read back. |
| `ConfigRoundTrip.SettingFromValue` | libdm/libdm-config.c:380-405 | A setting is read back as soon as its value is. |
| `ConfigRoundTrip.SectionFromBody` | libdm/libdm-config.c:380-398 | A section is read back as soon as its children are. |
| `ConfigRoundTrip.NodeParsesBack` | libdm/libdm-config.c:281-332 | A printed node at any depth, whatever follows it, is read back. |
| `ConfigRoundTrip.FileParsesBack` | libdm/libdm-config.c:353-368 | A printed forest is read back to its end. |
| `ConfigRoundTrip.RoundTrip` | libdm/libdm-config.c:281-332 | Every nonempty printable forest is what its printed form parses to. |
| `ConfigNormal.LexIsGenuine` | libdm/libdm-config.c:512-631 | Tokens have the shape their kind promises: no terminator inside, identifiers without ending characters. |
| `ConfigNormal.FileIsPrintable` | libdm/libdm-config.c:353-368 | Every float-free forest the parser returns can be printed. |
| `ConfigNormal.NormalForm` | libdm/libdm-config.c:353-498 | Parsing, printing and parsing again equals parsing, for every accepted text without floats. |
| `ConfigWritten.LexGap` | libdm/libdm-config.c:633-651 | Blanks and comments before a token make no difference to it. |
| `ConfigWritten.LiteralParses` | libdm/libdm-config.c:446-498 | Decimal and octal integers, fractions and strings in either kind of quotes are read as what they mean; in double quotes an escaped quote or backslash stands for itself. |
| `ConfigWritten.ElementsParse` | libdm/libdm-config.c:407-437 | The elements of an array with any layout between them are read in order; a comma may be missing where no number follows. |
| `ConfigWritten.ItemParses` | libdm/libdm-config.c:370-444 | A setting or section with any layout between its tokens is read as such, with all below it. |
| `ConfigWritten.DocumentParses` | libdm/libdm-config.c:353-444 | However a nonempty document is laid out, with blanks, comments, integers in decimal or octal, fractions, strings in either kind of quotes and arrays, it is parsed to the forest it stands for. |
| `ConfigWritten.NothingWritten` | libdm/libdm-config.c:353-368 | A text of layout alone is refused. |
| `ConfigWritten.UnclosedArray` | libdm/libdm-config.c:407-437 | An array that is never closed is refused. |
| `ConfigWritten.UnclosedSection` | libdm/libdm-config.c:370-405 | A section that is never closed is refused, whatever stands before it. |
| `ConfigWritten.StrayBrace` | libdm/libdm-config.c:353-387 | A closing brace with no section open is refused, whatever stands before and after it. |
| `ConfigWritten.KeyAlone` | libdm/libdm-config.c:380-405 | A key followed neither by a brace nor by an equals sign is refused. |
| `ConfigPrint.ForestPrinted` | libdm/libdm-config.c:281-332 | If every appended fragment fits, the printer succeeds and its lines are the printed form; `ConfigExact.PrintedRoundTripIff` is exact. |
| `ConfigPrint.PrintedRoundTrip` | libdm/libdm-config.c:203-332 | The easy half of `ConfigExact.PrintedRoundTripIff`: forests whose fragments all fit are read back. |
| `ConfigPrint.LongKeyIsCut` | libdm/libdm-config.c:203-224 | An input outside the exact condition: a key of 4095 characters is cut silently, printing succeeds and another forest is read back. |
| `ConfigPrint.NestedErrorIsSilent` | libdm/libdm-config.c:299-308 | An input that shows why success is decided by the top-level nodes alone: a fragment too long inside a section goes unreported and the rest of the section is lost. |
| `ConfigExact.ValuesWritten` | libdm/libdm-config.c:308-325 | What is written for any values, fitting, cut or refused, and when that succeeds. |
| `ConfigExact.NodeOkIff` | libdm/libdm-config.c:295-328 | A node is written successfully if and only if none of its own fragments is longer than the buffer, whatever happens below it. |
| `ConfigExact.ForestOkIff` | libdm/libdm-config.c:281-332 | The printer reports success if and only if no fragment of a top-level node is longer than the buffer. |
| `ConfigExact.OpenStringDiffers` | libdm/libdm-config.c:565-577 | A string that lost its closing quote reads on to the next quote in the text, so another value comes back whenever anything follows. |
| `ConfigExact.OpenStringAtEnd` | libdm/libdm-config.c:565-577 | At the very end of the text such a string is still read as itself. |
| `ConfigExact.ElementsDiffer` | libdm/libdm-config.c:407-437 | An array with a cut or refused element is not read back. |
| `ConfigExact.PrintedKeyIs` | libdm/libdm-config.c:295-300 | The key as written is a legal key again, and the same one unless it fills the buffer exactly. |
| `ConfigExact.NodeDiffers` | libdm/libdm-config.c:295-328 | A written node with a fragment that does not fit, at any depth, is not read back as that node, unless it ends the text with a single value. |
| `ConfigExact.BodyDiffers` | libdm/libdm-config.c:299-308 | The same for the children of a section, of which a refused one loses all that follow. |
| `ConfigExact.FileDiffers` | libdm/libdm-config.c:353-368 | A written forest is not read back if a node before its last does not fit, or if the last one fails otherwise than by a lost quote. |
| `ConfigExact.FileSurvives` | libdm/libdm-config.c:353-368 | It is read back if all fits, or if only the closing quote of the last value of the text is lost. |
| `ConfigExact.PrintedRoundTripIff` | libdm/libdm-config.c:203-332 | For every nonempty printable forest, printing succeeds and parsing the lines gives it back if and only if all nodes but the last fit, and the last one fits or is a setting of a single string of which only the closing quote is cut. |
| `ConfigExact.IndentIs` | libdm/libdm-config.c:284-293 | Lines are indented by one tab for each level, up to thirty-two. |
| `ConfigExact.PrintedLooks` | libdm/libdm-config.c:281-332 | A section with a single value and an array, for all names, strings and numbers that fit, comes out as exactly these four lines. |
| `ConfigPrint.Printer.LineAppend` | libdm/libdm-config.c:203-224 | Appends a fragment, cuts it at the buffer, or fails, by its length. |
| `ConfigPrint.Printer.WriteElements` | libdm/libdm-config.c:312-321 | The elements of an array, separated, up to the first failure. |
| `ConfigPrint.Printer.WriteValues` | libdm/libdm-config.c:308-325 | Arrays in brackets, single values bare, strings escaped. |
| `ConfigPrint.Printer.WriteOne` | libdm/libdm-config.c:295-328 | One node and all below it, as the value-level printer gives it. |
| `ConfigPrint.Printer.WriteConfig` | libdm/libdm-config.c:281-332 | All siblings and all below them, as the value-level printer gives them. |
| `ConfigParser.Parser.EatSpace` | libdm/libdm-config.c:633-651 | Stops at the first character that is neither blank nor comment. |
| `ConfigParser.Parser.ScanString` | libdm/libdm-config.c:565-577 | Ends after the first unescaped quote or at the end. |
| `ConfigParser.Parser.ScanSingleQuoted` | libdm/libdm-config.c:579-587 | Ends after the next single quote or at the end. |
| `ConfigParser.Parser.ScanNumber` | libdm/libdm-config.c:589-617 | Digits with at most one dot; a dot makes it a float. |
| `ConfigParser.Parser.ScanIdentifier` | libdm/libdm-config.c:620-627 | Ends before a blank, comment, brace or equals sign. |
| `ConfigParser.Parser.Classify` | libdm/libdm-config.c:533-628 | The kind depends on the first character and on whether values are allowed. |
| `ConfigParser.Parser.GetToken` | libdm/libdm-config.c:512-631 | The positions left in the parser are those of the pure token. |
| `ConfigParser.Parser.Match` | libdm/libdm-config.c:500-507 | Moves on exactly when the token is the one wanted. |
| `ConfigParser.Parser.Type` | libdm/libdm-config.c:446-498 | The value and the position after it are those of the grammar, which `ConfigWritten.LiteralParses` ties to what was written. |
| `ConfigParser.Parser.ReadValue` | libdm/libdm-config.c:407-444 | Arrays collected in a loop are those of the recursive grammar. |
| `ConfigParser.Parser.ReadSection` | libdm/libdm-config.c:370-405 | Children collected in a loop are those of the recursive grammar. |
| `ConfigParser.Parser.ReadFile` | libdm/libdm-config.c:353-368 | The forest collected in a loop is that of the recursive grammar. |
| `ConfigParser.ParseText` | libdm/libdm-config.c:156-175 | The parser computes the grammar's outcome on every text; for documents as people write them that is the forest meant (`ConfigWritten.DocumentParses`). |
| `ConfigParser.PrintThenParse` | libdm/libdm-config.c:156-175 | Printing and parsing, as they run, succeed and return the forest if and only if it survives the buffer of the printer (`ConfigExact.PrintedRoundTripIff`). |
| `ConfigParser.PrintedNormalForm` | libdm/libdm-config.c:353-498 | Read, written by the printer and read again, an accepted float-free text gives the same forest if and only if that forest survives the buffer. |
| `Mangle.HexEncodeIsClean` | libdm/libdm-common.c:314-327 | The HEX form uses only whitelisted characters and backslashes. |
| `Mangle.UnmangleHexEncode` | libdm/libdm-common.c:432-481 | Unmangling the HEX form, strictly or not, returns the name, with a code that says whether anything was mangled. |
| `Mangle.TextOfPieces` | libdm/libdm-common.c:365-417 | Read piece by piece, a name without escapes comes out as its HEX form and one without raw characters as itself. |
| `Mangle.RawIffNotWhitelisted` | libdm/libdm-common.c:314-327 | In HEX mode something is mangled exactly when some character is not whitelisted. |
| `Mangle.HexNameIsAutoFixedPoint` | libdm/libdm-common.c:365-417 | A HEX name passes the automatic mode unchanged. |
| `Mangle.CheckRefusesHexOfEscapes` | libdm/libdm-common.c:329-338 | The double-mangling check refuses the HEX form of exactly the names that contain an escape. |
| `Mangle.HexHasEscapeIffMangled` | libdm/libdm-common.c:365-417 | A HEX form contains an escape exactly when the name needed mangling. |
| `Mangle.DoubleManglingIsCaught` | libdm/libdm-common.c:329-338 | A name mangled twice is refused exactly when the first mangling changed it. |
| `Mangle.NextPiece` | libdm/libdm-common.c:365-407 | One turn of the loop: whitelisted, already mangled, to be mangled, mixed, or cut off. |
| `Mangle.MangleLoop` | libdm/libdm-common.c:365-417 | The loop's code and buffer are those of the pieces, or an error when mixed, cut off or too long. |
| `Mangle.MangleName` | libdm/libdm-common.c:344-426 | HEX mode succeeds exactly when the encoded name and its terminator fit; in the other modes code 0 means unchanged, 1 means the HEX form, which unmangles to the name, and everything else is an error. |
| `Mangle.UnmangleName` | libdm/libdm-common.c:432-481 | The loop's result is the pure unmangling, with the code for a name left alone, changed or refused. |
| `Mangle.MangleThenUnmangle` | libdm/libdm-common.c:344-481 | HEX mangling and strict unmangling undo each other and their return codes agree. |
| `DeviceNames.WhitelistIs` | libdm/libdm-common.c:314-327 | Whitelisted are exactly the letters, digits and the eight characters `#+-.:=@_`. |
| `DeviceNames.HexCharIs` | libdm/libdm-common.c:365-417 | A mangled character is a backslash, an `x` and its code in two small hexadecimal digits. |
| `DeviceNames.UnmangleOfParts` | libdm/libdm-common.c:432-481 | Any name of plain characters and hexadecimal codes, in capital or small digits, is unmangled to what its parts mean, with code 1 exactly if there is a code among them; strictly, it is refused exactly if a plain character is not whitelisted. |
| `DeviceNames.UnmangleStops` | libdm/libdm-common.c:461-467 | Before an escape that no number can follow the unmangling ends, with what was read so far. |
| `DeviceNames.MangleVolumeName` | libdm/libdm-common.c:344-426 | The device name of volume group, volume and layer names made of letters, digits and `+-._` passes every mode unchanged. |
| `NodeOps.CountPositive` | libdm/libdm-common.c:1231-1239 | A counter is positive exactly when the queue holds an operation of that kind. |
| `NodeOps.DroppedAgrees` | libdm/libdm-common.c:1281-1323 | Dropping an operation on a name changes nothing about other names. |
| `NodeOps.DroppedOneMore` | libdm/libdm-common.c:1281-1323 | Dropping keeps removals first and the meaning of all other names. |
| `NodeOps.DroppedThenSet` | libdm/libdm-common.c:1281-1307 | Whatever was dropped on a name makes no difference once an addition or removal of that name follows. |
| `NodeOps.StackedFaithfully` | libdm/libdm-common.c:1267-1361 | Stacking keeps "no other operation on a name before its removal", and for plain operations the effect of the queue stays that of all operations stacked. |
| `NodeOps.DroppedForAddAt` | libdm/libdm-common.c:1294-1307 | An addition drops the first queued removal of its name, if there is one, and nothing else. |
| `NodeOps.RenameThenDelKeepsOldNode` | libdm/libdm-common.c:1281-1291 | With a rename the queue need not mean the same: removing the new name forgets the rename, and the old node stays. |
| `NodeRenames.FinalIs` | libdm/libdm-common.c:1172-1193 | Where the content of each name comes from, traced through the operations alone, is what replaying them leaves, in every directory and with renames. |
| `NodeRenames.SameEffectIff` | libdm/libdm-common.c:1172-1193 | Two lists of operations, renames included, do the same to every directory if and only if the finitely many names they mention trace back to the same content. |
| `NodeRenames.CarriedIs` | libdm/libdm-common.c:1172-1193 | Following a node forward and tracing a name back agree. |
| `NodeRenames.AddIsFaithful` | libdm/libdm-common.c:1294-1307 | Stacking an addition never changes what the queue means, renames or not. |
| `NodeRenames.DelIsFaithfulIff` | libdm/libdm-common.c:1281-1293 | Stacking a removal keeps the meaning if and only if no forgotten rename had taken a node away that now reappears under another name. |
| `NodeRenames.RenameIsFaithfulIff` | libdm/libdm-common.c:1308-1323 | Stacking a rename keeps it if and only if, besides that, the queue leaves under the old name what was there, or nothing because a rename that stays queued took it. |
| `NodeRenames.StackingFaithfulIff` | libdm/libdm-common.c:1267-1361 | In every directory, stacking an operation without warning flag does what queueing it without dropping any does, if and only if the queue before it meets that condition. |
| `NodeRenames.SessionRenamesFirst` | libdm/libdm-common.c:1267-1361 | In every queue of a session nothing done under a name stands before a rename away from it. |
| `NodeRenames.SessionKeepsMeaning` | libdm/libdm-common.c:1267-1361 | A whole session, renames included, keeps its meaning as long as every step meets the condition. |
| `NodeRenames.FlushedSession` | libdm/libdm-common.c:1363-1380 | Flushing after such a session leaves what carrying out every request would have left. |
| `NodeRenames.RenameDrops` | libdm/libdm-common.c:1308-1323 | A rename drops exactly the operations on its old name. |
| `NodeRenames.StackingDelDrops` | libdm/libdm-common.c:1281-1293 | A removal drops operations on its own name only, and leaves none there unless only removals are queued. |
| `NodeRenames.StackedIsExecuted` | libdm/libdm-common.c:1324-1350 | A read-ahead setting is carried out by the program whatever was asked; any other operation exactly unless it is left to udev. |
| `NodeRenames.LeftToUdev` | libdm/libdm-common.c:1363-1380 | A name all of whose operations are left to udev keeps its node through a flush. |
| `NodeRenames.RenameMeansEither` | libdm/libdm-common.c:913-960 | With the warning flag a rename that finds the new name in place only takes the old one away; otherwise the node moves. No other name changes. |
| `NodeOps.Queue.constructor` | libdm/libdm-common.c:1195-1196 | An empty queue with zero counters. |
| `NodeOps.Queue.OtherNodeOps` | libdm/libdm-common.c:1231-1239 | Read off the counters, true exactly when the queue holds an operation of another kind. |
| `NodeOps.Queue.DelNodeOp` | libdm/libdm-common.c:1222-1228 | One operation goes and its counter follows. |
| `NodeOps.Queue.UnstackForDel` | libdm/libdm-common.c:1281-1293 | Operations on the name go until only removals are left, so none but removals on it remain. |
| `NodeOps.Queue.UnstackForAdd` | libdm/libdm-common.c:1294-1307 | The first removal of the name goes, and nothing else. |
| `NodeOps.Queue.UnstackForRename` | libdm/libdm-common.c:1308-1323 | Every operation on the old name goes. |
| `NodeOps.Queue.Enqueue` | libdm/libdm-common.c:1335-1360 | The operation joins the end and its counter follows. |
| `NodeOps.Queue.StackNodeOp` | libdm/libdm-common.c:1267-1361 | The exact new queue, that of the whole session so far; counters match contents, removals stay first, and plain operations keep the meaning of everything stacked. |
| `NodeOps.Queue.PopNodeOps` | libdm/libdm-common.c:1363-1380 | Empty queue and counters; for plain operations the device directory is what replaying every stacked operation gives. |
| `UdevCookie.CookieOfBase` | libdm/libdm-common.c:1986-2020 | A generated cookie has the magic prefix and is a usable key exactly when its base is not zero. |
| `UdevCookie.CompletionHitsOwnCookie` | tools/dmsetup.c:955-975 | A completion rebuilt from an event number reaches the cookie it was made from for any flags, and the flags are read back. |
| `UdevCookie.StepKeepsCount` | libdm/libdm-common.c:1896-1953 | Every system call keeps: a semaphore equals outstanding tasks plus leaked increments, plus one until waiting starts. |
| `UdevCookie.StepKeepsInv` | libdm/libdm-common.c:1896-2223 | Every step keeps the invariant of the protocol. |
| `UdevCookie.EveryRunCounts` | libdm/libdm-common.c:1896-2223 | The invariant holds after every interleaving of steps. |
| `UdevCookie.ReportNeverFails` | libdm/libdm-common.c:1920-1953 | In every reachable state the completion of an attached task finds its semaphore and does not underflow. |
| `UdevCookie.ZeroOnlyWhileWaiting` | libdm/libdm-common.c:2185-2223 | A cookie that was handed out is at zero only once its waiter has started. |
| `UdevCookie.WaiterCanStart` | libdm/libdm-common.c:2193-2203 | The waiter's own decrement never finds the semaphore at zero. |
| `UdevCookie.PassIffAllReported` | libdm/libdm-common.c:2205-2222 | The waiter gets through exactly when every attached task was reported and no increment leaked. |
| `UdevCookie.WaiterSeesEveryReport` | libdm/libdm-common.c:2119-2222 | In any run, between attaching a task and the waiter getting through, that task was reported. |
| `UdevCookie.WaiterCanFinish` | libdm/libdm-common.c:2205-2222 | From any consistent state, reporting the outstanding tasks lets the waiter through. |
| `UdevCookie.LeakBlocksWaiter` | libdm/libdm-common.c:1896-1918 | If reading the value fails after an increment, no waiter on that cookie ever gets through. |
| `UdevCookie.Host.GetCookieSem` | libdm/libdm-common.c:1859-1894 | Succeeds exactly on existing semaphores; the prefix test refuses nothing that exists. |
| `UdevCookie.Host.SemInc` | libdm/libdm-common.c:1896-1918 | Counts a task in, or leaves the increment behind when reading the value fails. |
| `UdevCookie.Host.SemDec` | libdm/libdm-common.c:1920-1953 | Goes down by one or refuses at zero. |
| `UdevCookie.DecrementedIff` | libdm/libdm-common.c:1920-1953 | The decrement succeeds exactly on an existing semaphore above zero when no call fails, and changes that semaphore by one and no other. |
| `UdevCookie.Host.SemCreate` | libdm/libdm-common.c:1970-2060 | Makes a fresh semaphore with count one under the first free non-zero base, and succeeds exactly when there is one and no call fails; if reading its value back fails it stays behind, and otherwise a failure leaves nothing. |
| `UdevCookie.Host.SetCookie` | libdm/libdm-common.c:2119-2163 | Counts a task in on the given or a fresh cookie and returns its event number, exactly when no call fails; without udev the flags alone. What every failure leaves behind is stated. |
| `UdevCookie.Host.DmUdevComplete` | libdm/libdm-common.c:2165-2183 | No cookie and no udev count as success; otherwise the semaphore goes down. |
| `UdevCookie.Host.UdevComplete` | tools/dmsetup.c:955-975 | On any event number: zero is refused, a zero base only carries flags, anything else goes to the rebuilt cookie. |
| `UdevCookie.Host.Report` | tools/dmsetup.c:955-975 | For an attached task it fails only if a system call does, and completes that task. |
| `UdevCookie.Host.StartWaiting` | libdm/libdm-common.c:2185-2206 | Takes the waiter's own count away, or gives the cookie up when that call fails. |
| `UdevCookie.Host.FinishWaiting` | libdm/libdm-common.c:2208-2222 | At zero the semaphore goes and every attached task was reported; a wait call that finds the semaphore removed counts as success, and one that fails gives the cookie up. |
| `ThinPool.DevicesByLast` | libdm/libdm-deptree.c:1386-1446 | A list of creations, snapshots and deletions decides by its last message about each device it names and leaves the others alone. |
| `ThinPool.PartThenWhole` | libdm/libdm-deptree.c:1449-1489 | Running part of such a list first makes no difference to running all of it. |
| `ThinPool.OneAttempt` | libdm/libdm-deptree.c:1449-1489 | One attempt either finishes the job or leaves a pool from which the job comes out the same. |
| `ThinPool.InSyncSendsNothing` | libdm/libdm-deptree.c:1474-1476 | A pool whose transaction id is up to date is sent nothing. |
| `ThinPool.AttemptsKeepOutcome` | libdm/libdm-deptree.c:1449-1489 | Any number of attempts cut short anywhere keep the outcome. |
| `ThinPool.CrashRecovery` | libdm/libdm-deptree.c:1449-1489 | Creations and deletions followed by the transaction id: cut-short attempts and then a full one leave what a single run leaves, and later activations send nothing. |
| `ThinRecovery.SucceedsAt` | libdm/libdm-deptree.c:1386-1446 | Messages before the transaction id all get through exactly when each is accepted by what the earlier ones leave. |
| `ThinRecovery.SucceedsAgain` | libdm/libdm-deptree.c:1449-1489 | A list whose snapshots can be repeated gets through again, and leaves the same devices, on any pool that cut-short attempts can have left. |
| `ThinRecovery.AttemptsStayAlike` | libdm/libdm-deptree.c:1449-1489 | Any number of cut-short attempts leave such a pool, or the finished one. |
| `ThinRecovery.MustSucceedAgain` | libdm/libdm-deptree.c:1449-1489 | Recovery needs the messages before the id to get through after a cut at every one of them. |
| `ThinRecovery.MustBeRepeatable` | libdm/libdm-deptree.c:3069-3080 | So before a snapshot its own device is deleted, and its origin is made, or is there and never deleted later. |
| `ThinRecovery.MustBeIdle` | libdm/libdm-deptree.c:1474-1486 | And after the id is moved no message may have an effect or fail, so there is no snapshot and no second id. |
| `ThinRecovery.RecoversFromIff` | libdm/libdm-deptree.c:1449-1489 | For every list a node can hold and every pool one step behind: a full attempt gets through, and gives the same after any attempts cut short, if and only if the snapshots before the id can be repeated there and everything after it is idle. |
| `ThinRecovery.RecoversIff` | libdm/libdm-deptree.c:3044-3114 | On all pools, if and only if every snapshot deletes its own device and makes its origin first, and every message after the id is a creation or deletion that only repeats what the messages before it settled. |
| `ThinPool.SnapshotOfItself` | libdm/libdm-deptree.c:3069-3080 | Ids are compared before they are cut to 32 bits, so a snapshot of itself is accepted exactly when they agree in the low 32 bits and differ above. |
| `ThinPool.MessageDoes` | libdm/libdm-deptree.c:1386-1446 | What each kind of message does to every pool: a creation or deletion leaves the device there or gone, also when repeated; a snapshot needs a free id and an existing origin; the transaction id moves from the first number to the second. Device ids are cut to 32 bits. |
| `ThinPool.AcceptableIff` | libdm/libdm-deptree.c:3065-3104 | Which requests are accepted, in numbers: device ids below 2 to the 24th after cutting, two different ids for a snapshot, and only the step to the recorded transaction id. |
| `ThinPool.PoolNode.constructor` | libdm/libdm-deptree.c:3034-3041 | A node starts with no messages. |
| `ThinPool.PoolNode.AddMessage` | libdm/libdm-deptree.c:3044-3114 | Accepts exactly the valid messages (`ThinPool.AcceptableIff`) and adds the one asked for, whose effect on a pool is stated by `ThinPool.MessageDoes`; every transaction id message on the list moves the recorded predecessor to the recorded id, in 64-bit arithmetic. |
| `ThinPool.PoolNode.SendMessages` | libdm/libdm-deptree.c:1449-1496 | Succeeds without sending when the pool is in sync, refuses without sending when it is anywhere but one step behind, and otherwise sends in order up to the first failure. |
| `ThinPool.PoolNode.Recover` | libdm/libdm-deptree.c:1449-1489 | Repeated activations, as they run, end with the outcome of a single one. |
| `PeRanges.ClashExact` | tools/toollib.c:971-983 | For ranges on a volume the overlap test is exact: it fires if and only if some extent is in both. |
| `PeRanges.AddPeRange` | tools/toollib.c:963-995 | Appends the range exactly when it clashes with none on the list. |
| `PeRanges.RangesInside` | tools/toollib.c:1022-1066 | Every range accepted on a volume with extents is nonempty and on the volume. |
| `PeRanges.WantedInside` | tools/toollib.c:1009-1073 | So is the default, and every accepted argument asks for at least one range. |
| `PeRanges.RangesRoundTrip` | tools/toollib.c:1022-1066 | Every list of ranges on a volume, written out, is read back. |
| `PeRanges.NoExtentsNoBound` | tools/toollib.c:1015-1061 | On a volume without extents the bound wraps around and every list of ranges is accepted. |
| `PeRanges.InsideIffExtents` | tools/toollib.c:1009-1073 | Every accepted argument keeps to the volume if and only if the volume has an extent. |
| `PeRanges.ReadNumber` | tools/toollib.c:997-1007 | Decimal digits up to the first other character, refused above 32 bits. |
| `PeRanges.ReadEnd` | tools/toollib.c:1045-1061 | The end of a range: given, open, or that of a single extent, and its checks. |
| `PeRanges.ReadItem` | tools/toollib.c:1032-1061 | One range of the text, as the grammar reads it; `PeText.FormReads` and `PeText.ItemIsForm` say what that means. |
| `PeRanges.ParsePes` | tools/toollib.c:1009-1073 | Succeeds exactly when the text is well formed (`PeText.AcceptedIff`) and no range clashes with an earlier one, and appends exactly the ranges asked for. |
| `PeText.FormReads` | tools/toollib.c:1032-1061 | One extent, an open range in either direction, two extents or a hyphen alone are read as the extents they name. |
| `PeText.ItemIsForm` | tools/toollib.c:1032-1061 | Nothing else is read as a range. |
| `PeText.FormsRead` | tools/toollib.c:1022-1066 | Any list of such forms, each after a colon, is read as the ranges it means, in order. |
| `PeText.AcceptedIff` | tools/toollib.c:1009-1073 | A text is accepted if and only if it is such a list, with numbers of at most 32 bits, in order and on the volume. |
| `PeRanges.AppendedApart` | tools/toollib.c:971-983 | Appended ranges are pairwise disjoint, as sets of extents. |
| `PeRanges.AddKeepsSound` | tools/toollib.c:1075-1128 | One more accepted request keeps: each device once, ranges nonempty, disjoint and on the device. |
| `PeRanges.AddAllKeepsSound` | tools/toollib.c:1075-1128 | So does any sequence of requests, also several for one volume. |
| `PeRanges.ListIsSound` | tools/toollib.c:1130-1192 | Whatever arguments and tags are accepted, the list names each device once with nonempty, disjoint ranges on it. |
| `PeRanges.CreatePvEntry` | tools/toollib.c:1075-1128 | Skips volumes that are not allocatable, missing or full, finds the device's entry or makes one, and adds the ranges. |
| `PeRanges.FindPvInVg` | lib/metadata/metadata.c:1710-1720 | The first volume of the group with the device of that name. |
| `PeRanges.AddTagged` | tools/toollib.c:1159-1168 | One request for the whole of each volume that carries the tag, in order. |
| `PeRanges.AddArgument` | tools/toollib.c:1150-1186 | A tag, skipped when invalid, or a volume with its ranges; an unknown volume ends the command. |
| `PeRanges.CreatePvList` | tools/toollib.c:1130-1192 | The list built from the unescaped arguments, none if empty; for volumes with extents it is sound. |
| `PeContents.TaggedIff` | tools/toollib.c:1159-1168 | A tag asks for the whole of each volume that carries it, and of no other. |
| `PeContents.ListLists` | tools/toollib.c:1130-1192 | The list holds an extent of a device if and only if it did before or some argument asks for it: extents are neither lost nor made up. |
| `PeContents.AcceptedIff` | tools/toollib.c:1075-1128 | A further request is refused exactly if its ranges are malformed or it asks for an extent that is already on the list, or twice for one. |
| `PeOwners.NamedRequest` | tools/toollib.c:1170-1186 | An escaped device name with any ranges after it asks for the first volume of that device, with those ranges; an unknown name is refused. |
| `PeOwners.NamedWhole` | tools/toollib.c:1170-1186 | Without ranges it asks for the whole volume. |
| `PeOwners.TagRequest` | tools/toollib.c:1150-1168 | A valid tag asks for the whole of each volume that carries it. |
| `PeOwners.InvalidTagSkipped` | tools/toollib.c:1150-1157 | An invalid tag asks for nothing and is not an error. |
| `PeOwners.TagCharIs` | lib/misc/lvm-string.c:46-63 | A tag is made of letters, digits and ten other characters, given one by one. |
| `PeOwners.AcceptedTag` | tools/toollib.c:1159-1168 | A tag is accepted only if no two volumes of one device answer to it. |
| `PeOwners.ListKeepsTidy` | tools/toollib.c:1130-1192 | Without a possible mix-up every argument keeps each entry on the extents of the volume it names. |
| `PeOwners.MixUpHappens` | tools/toollib.c:1099-1103 | With one, two arguments, a tag and a name with ranges, put extents past its end into the entry of the smaller volume. |
| `PeOwners.AlwaysOwnIff` | tools/toollib.c:1130-1192 | Over all argument lists, every entry keeps to the extents of the volume it names if and only if no volume that a valid, acceptable tag asks for is smaller than the volume its device is found under by name. |
| `Resize.RoundedSizeIsNearestIff` | tools/lvresize.c:463-476 | A size is rounded to the nearest whole extents, down when taking away and up otherwise, if and only if it is not above the last whole extent below 2 to the 64th or is rounded down. |
| `Resize.LargestSizeVanishes` | tools/lvresize.c:463-476 | One size above that, which comes out as nothing. |
| `Resize.PercentOfPart` | tools/toollib.c:1632-1637 | A percentage of at most 100 is at most the whole, rounded exactly up or down. |
| `Resize.ProductFits` | tools/toollib.c:1632-1637 | The 64-bit product of a percentage and a count cannot overflow. |
| `Resize.PlaceHoldsEnd` | tools/lvresize.c:648-665 | The segment found when reducing is the one that holds the last extent asked for. |
| `Resize.ReduceLandsOnBoundary` | tools/lvresize.c:640-705 | With segments of whole stripe groups, a reduction ends on a stripe boundary of the segment that holds the new end, less than one group beyond what was asked for, and never above the old size. |
| `Resize.ReductionThatGrows` | tools/lvresize.c:686-698 | With two or more left over, asking for one extent less makes the volume grow. |
| `Resize.PlannedReduction` | tools/lvresize.c:640-705 | What is planned for a reduction, by the segment that holds its end: rounded up to a stripe boundary in 32 bits, kept, refused, or a division by zero. |
| `Resize.ReductionLands` | tools/lvresize.c:676-705 | If the last boundary of every striped segment is inside the volume, every reduction lands between what was asked for and the old size. |
| `Resize.ReducesWithinIff` | tools/lvresize.c:640-705 | All reductions of a volume land there if and only if in every striped segment the boundary above the largest size that can be asked for is inside the volume. |
| `Resize.NeverGrowsIff` | tools/lvresize.c:640-705 | No reduction makes a volume larger if and only if each of those boundaries is inside the volume or wraps around 32 bits. |
| `Resize.ExtendGrowsByGroupsIff` | tools/lvresize.c:676-705 | A striped extension grows the volume by whole stripe groups if and only if the next boundary can be counted in 32 bits or, where a percentage is rounded down, at least one group is added. |
| `Resize.WrappedExtensionShrinks` | tools/lvresize.c:686-732 | An extension whose boundary wraps around is planned as a reduction, to the size that is left past the wrap. |
| `Resize.ExtendedToNothing` | tools/lvresize.c:686-732 | One such request, planned as a reduction to no extents at all. |
| `Resize.FreePercentFits` | tools/lvresize.c:484-705 | Growing by at most 100 percent of the free extents never asks for more than there are, stripe rounding and wrap-around included. |
| `ResizeRequests.AmountIsAsked` | tools/lvresize.c:463-516 | The extents asked for: as many as given, the whole extents next to a size, or a share of the group, of its free extents, of the volume, of the given devices or of the origin, rounded down when taking away and up otherwise. |
| `ResizeRequests.TargetIs` | tools/lvresize.c:518-540 | They are added to the size, taken from it or are the size, and a size that is too large, zero or below is refused. |
| `ResizeRequests.NoOrigin` | tools/lvresize.c:484-516 | A percentage of an origin is refused for a volume without one. |
| `ResizeRequests.PlannedExactly` | tools/lvresize.c:458-732 | Without stripes the plan is exactly the size asked for and the direction that it lies in, unless there is no such size or the command does not allow the direction; a size that does not change goes on only to a file system resize, and not by policy. |
| `ResizeRequests.GroupIs` | tools/lvresize.c:683-685 | A stripe group is one stripe on each device, each of as many whole extents as fit in it and at least one. |
| `ResizeRequests.GivenStripes` | tools/lvresize.c:595-638 | Stripes that the request gives are used as given. |
| `ResizeRequests.StripesGoOn` | tools/lvresize.c:595-638 | Otherwise an extension goes on with the striping that the volume has. |
| `ResizeRequests.StripingFound` | tools/lvresize.c:600-622 | For any segments: the striping of the last striped one is used, and the extension is refused exactly if two that follow each other differ in what the request leaves open. |
| `ResizeRequests.StripeSizeGiven` | tools/lvresize.c:624-637 | Stripes without a size are given that of the last striping, or else the default. |
| `ResizeRequests.SmallStripesRefused` | tools/lvresize.c:676-681 | Stripes smaller than the smallest allowed are refused. |
| `ResizeRequests.RoundedBack` | tools/lvresize.c:686-732 | A size that rounding brings back to what it was only goes on to a file system resize, and not by policy. |
| `Resize.Resizer.constructor` | tools/lvresize.c:368-384 | The parameters of the command and the volume. |
| `Resize.Resizer.AskExtents` | tools/lvresize.c:463-516 | Extents from a size or a percentage; `ResizeRequests.AmountIsAsked` says how many. |
| `Resize.Resizer.FindTarget` | tools/lvresize.c:518-540 | The sign applied within the limits, and no size of zero; `ResizeRequests.TargetIs` says which size that is. |
| `Resize.Resizer.FindStripes` | tools/lvresize.c:595-638 | The striping of the last striped segment, refused when two differ where the request leaves it open (`ResizeRequests.StripingFound`). |
| `Resize.Resizer.FindSegment` | tools/lvresize.c:640-669 | The segment and the size within it, when reducing. |
| `Resize.Resizer.RoundToGroup` | tools/lvresize.c:683-705 | Rounding to stripe groups, up or down as the free extents allow. |
| `Resize.Resizer.Run` | tools/lvresize.c:458-732 | The steps together compute the planned size, which `ResizeRequests.PlannedExactly` states without stripes and `Resize.ReducesWithinIff`, `Resize.ExtendGrowsByGroupsIff` and `ResizeRequests.RoundedBack` with them. |

## Left out

- TreeWalk.Walker.SendMessages: the messages themselves are in `ThinPool`; here only success or failure is seen, since the walk depends on nothing else.
- TreeWalk.Walker.constructor: the uuid prefix is a fixed set of nodes that match, and `presuspend_node` is unset.
- UdevCookie.Host.StartWaiting: once a waiter has given its cookie up after a failed system call, here or in `FinishWaiting`, the counting invariant is no longer claimed, because reports still to come may meet a new semaphore under the same key.
- UdevCookie.LeakBlocksWaiter: completions that match no attached task, and removal of a semaphore by hand, are not steps of the protocol.
- Resize.Resizer.FindStripes: which segments are searched (a mirror's first image, a thin pool's data volume) is a parameter.
- Floating-point configuration values: printing with `%f` and reading with `strtod` do not round-trip.
- ConfigParser.Parser.Type: a lone opening quote at the end of a configuration text is a parse error in the model; the program strips a quote that is not there.
- Line numbers, comments kept for messages, and lookup in parsed configuration.
- NodeOps.StackedFaithfully: plain operations only; `NodeRenames.SessionKeepsMeaning` has those with renames. With operations left to udev only the counters, the exact queue and the order of removals are proved.
- NodeRenames.StackingFaithfulIff: not for renames with the warning flag, whose effect depends on which nodes exist when they are carried out.
- Preloading, table emission, target lines, `dm_tree_children_use_uuid`, tree iteration and printing.
- Activation callbacks, names in renames (only that a rename is pending), udev flags and cookies inside the walks.
- Mangle.UnmangleName: what `sscanf` makes of a `\x` field that starts with a sign or a blank or has one digit only is left open.
- Raw bounds of the mangling buffer, which is a sequence.
- `_udevflags` beyond the decoded flags: it prints one line for each set bit.
- Mirror counts, segment types, file system resizing and everything after the new size is known in lvresize.
- Memory allocation failures and logging.
- SysV calls, ioctls, sysfs, `/dev`, SELinux and libudev: they are abstract steps that may fail.
- liblvm, the other LVM commands, the reporter and the daemons.
