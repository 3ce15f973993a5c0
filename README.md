# PhlankaFortnite in Dafny

A model of the logic of the PhlankaFortnite Blender add-on, with proofs about it. The add-on has two parts.

- **The update checker** (`update_checker.py`). It turns version tuples into dotted strings and back. It reads an `X.Y.Z` version out of a GitHub release tag with the pattern `V?(\d+\.\d+\.\d+)`, and offers an update only when the released version is strictly greater than the installed one. It builds the download address from the tag, falling back to `"V" + version`. After downloading, it keeps the archive entries under the archive's root entry and writes them relative to the add-on directory. All of this is modelled as functions over strings and integer sequences, in module `UpdateChecker` (`update_checker.dfy`). The entry loop is a method.
- **Node-group find-and-replace** (`__init__.py`).
  - A material's shader node tree is modelled in `node_graph.dfy` (module `NodeGraph`). It holds nodes with ordered input sockets (each with a scalar default, a vector default or no readable default), output sockets, and links from an output socket to an input socket.
  - The host's `nodes` and `links` collections are the fields of the class `NodeTree`. Its methods are the host primitives the add-on calls: `nodes.new`, `links.new`, assigning `default_value`, and `nodes.remove`, which also drops every link touching the node.
  - `replace_single_node` is the method `NodeReplace.ReplaceSingleNode`, in `node_replace.dfy`. It is proved equal to the function `ReplacedTree`.
  - `replace_node_group` is the method `ReplaceGroup.ReplaceNodeGroup`, in `replace_group.dfy`. Its per-material work is proved equal to the function `ProcessTree`.
  - Lemmas then state what those functions do to nodes and links.

`wrappers.dfy` holds the `Option` type, which stands for Python's `None`.

## Model

The specification functions (`AddonVersion`, `TagVersion`, `LexLess`, `DownloadUrl`, `ReplacedTree`, `OutputCase`, `ApplyTable`, `ProcessTree`) are pinned down by the lemmas listed against them below.

| member | source | states |
|---|---|---|
| UpdateChecker.NatToString | update_checker.py:31 | `str(x)` of a non-negative integer is a non-empty string of digits, starting with `0` only for zero |
| UpdateChecker.ParseNatToString | update_checker.py:54 | `int(str(n)) == n` |
| UpdateChecker.JoinSplit | update_checker.py:54 | joining the pieces of `s.split(sep)` with `sep` gives `s` back |
| UpdateChecker.SplitJoin | update_checker.py:31 | splitting a join of separator-free pieces gives the pieces back |
| UpdateChecker.VersionTuple | update_checker.py:52-54 | `version_tuple` succeeds exactly when every dot-separated part is a non-empty digit string, and then has one element per part, each the decimal value of that part |
| UpdateChecker.ParseDigitsLeadingZero | update_checker.py:54 | `int()` ignores a leading zero: `"0" + p` and `p` have the same value, so `1.02.3` parses to `(1, 2, 3)` |
| UpdateChecker.VersionRoundTrip | update_checker.py:52-54 | parsing the dotted join of a non-empty tuple gives the tuple back; the empty tuple's join `""` does not parse |
| UpdateChecker.LexLessIffDiverges | update_checker.py:72 | the tuple order `<` holds exactly when the tuples agree up to some position where the first is smaller or has ended |
| UpdateChecker.LexLessIrreflexive | update_checker.py:72 | no tuple is smaller than itself |
| UpdateChecker.LexLessAsymmetric | update_checker.py:72 | two tuples are never each smaller than the other |
| UpdateChecker.LexLessTransitive | update_checker.py:72 | the order is transitive |
| UpdateChecker.LexLessTotal | update_checker.py:72 | of two different tuples one is smaller |
| UpdateChecker.FindAddon | update_checker.py:28-29 | the module found is the first whose `bl_info` name is "Phlanka Fortnite"; nothing is found when none is |
| UpdateChecker.AddonVersionParses | update_checker.py:28-32 | the current version string is the dotted join of the first matching module's version tuple, and `"0.0.0"` when that module has no version or no module matches; it parses back to that tuple unless the tuple is empty, whose join `""` does not parse |
| UpdateChecker.DigitRunIsMaximal | update_checker.py:43 | a `\d+` run is all digits and stops at a non-digit or the end |
| UpdateChecker.SearchFindsLeftmostTriple | update_checker.py:43 | the search returns the leftmost position where `\d+\.\d+\.\d+` matches, with or without a `V` before it, and nothing when it matches nowhere |
| UpdateChecker.TagVersionIsLeftmostMatch | update_checker.py:43-46 | the version read from a tag is its leftmost match of the pattern, and there is none exactly when the pattern occurs nowhere |
| UpdateChecker.TagVersionIsTriple | update_checker.py:43-45 | the version read is three digit strings joined by dots, starts with a digit (the `V` is not part of it), and parses to three numbers |
| UpdateChecker.LatestRelease | update_checker.py:37-49 | a release is found only from an HTTP 200 answer, and carries the full unchanged `tag_name`, `""` when the field is missing; a 200 answer whose tag names a version always yields the release of that version and tag |
| UpdateChecker.LatestReleaseIsTriple | update_checker.py:41-46 | a found release's version is a triple read from its tag; a tag naming no version gives `(None, None)` |
| UpdateChecker.CheckUpdate | update_checker.py:64-74 | no latest version gives `(False, None, None)`; an update is reported exactly when both versions parse and the latest tuple is greater, and it carries the latest version and tag; the `ValueError` is raised exactly when there is a latest version and either version string does not parse |
| UpdateChecker.OnlyNewerReleasesOffered | update_checker.py:68-74 | equal or older versions yield `(False, None, None)` |
| UpdateChecker.UpdateDecision | update_checker.py:57-74 | from the module list and the release query, when the installed version tuple is not empty: no version error is possible, and an update is offered exactly when the release's tuple exceeds the installed tuple |
| UpdateChecker.DownloadTag | update_checker.py:80-81 | a missing or empty tag becomes `"V" + version`; a given tag is kept |
| UpdateChecker.DownloadUrlNamesTag | update_checker.py:87 | the address is the fixed prefix, the tag and `/PhlankaFortnite.zip`: the tag reads back out of it |
| UpdateChecker.DefaultTagNamesVersion | update_checker.py:80-81 | for a missing or empty tag, the default tag `"V" + version` names that same version under the release pattern |
| UpdateChecker.PlanExtraction | update_checker.py:148-158 | the entry loop plans exactly the entries `Planned` lists, taking the first entry as root; an empty archive fails |
| UpdateChecker.PlannedExactly | update_checker.py:151-158 | an entry is extracted exactly when it starts with the root, is not the root and does not end in `/`; its path is the entry without the root prefix, and that path is never empty |
| NodeGraph.LookupWithout | __init__.py:132 | after `nodes.remove`, the removed id finds nothing and every other id finds what it found |
| NodeGraph.DetachedMember | __init__.py:132 | removing a node keeps exactly the links touching it at neither end |
| NodeGraph.LinksIntoMember | __init__.py:102 | `input_socket.links` holds exactly the links into that socket |
| NodeGraph.LinksOutOfMember | __init__.py:128 | `output_socket.links` holds exactly the links out of that socket |
| NodeGraph.NodeTree.NewGroupNode | __init__.py:94-96 | a fresh group node of the new group, with its sockets and defaults, at the given location, is appended; links are unchanged |
| NodeGraph.NodeTree.NewLink | __init__.py:103 | `links.new` appends the link; nodes are unchanged |
| NodeGraph.NodeTree.SetInputDefault | __init__.py:112 | assigning `default_value` changes that one socket of that one node |
| NodeGraph.NodeTree.RemoveNode | __init__.py:132 | `nodes.remove` drops the node and every link touching it |
| NodeReplace.NewDefaults | __init__.py:104-122 | a new input takes the old default only when the old input exists, is unlinked, and the values are scalar and scalar, or vectors of equal length; otherwise it keeps the group default; a socket's kind and vector length never change |
| NodeReplace.CopiedInto | __init__.py:102-103 | the copies of the links into an input are exactly those links redirected to the new input, sources kept |
| NodeReplace.CopiedOutOf | __init__.py:128-129 | the copies of the links out of an output are exactly those links redirected from the new output, targets kept |
| NodeReplace.InputRelinksMember | __init__.py:99-103 | a link is re-created into new input `i` exactly when it entered old input `i`, for `i` below both input counts |
| NodeReplace.OutputRelinksMember | __init__.py:125-129 | a link is re-created out of new output `i` exactly when it left old output `i`, for `i` below both output counts |
| NodeReplace.InputStillLinked | __init__.py:101-102 | links already re-created do not change which links an old input has |
| NodeReplace.OutputStillLinked | __init__.py:127-128 | links already re-created do not change which links an old output has |
| NodeReplace.ReplacedLookup | __init__.py:92-132 | after the replacement, the old id finds nothing, the fresh id finds the replacement, and every other id finds what it found |
| NodeReplace.ReplacedNodes | __init__.py:94-96 | the old node is gone; the new node is a group node of the new group at the old location, with the group's sockets; other nodes are kept; the node count is unchanged |
| NodeReplace.ReplacedLinks | __init__.py:99-132 | the links afterwards are exactly: old links not touching the old node, incoming copies below the new input count, outgoing copies below the new output count, and a self-link of the old node carried over to the new one |
| NodeReplace.ReplacedWellFormed | __init__.py:92-132 | ids stay unique and every link still joins an existing output socket to an existing input socket |
| NodeReplace.CopyLinksInto | __init__.py:102-103 | the loop appends a copy into the new input of each link into the old input, in order |
| NodeReplace.CopyLinksOutOf | __init__.py:128-129 | the loop appends a copy out of the new output of each link out of the old output, in order |
| NodeReplace.TransferInput | __init__.py:99-122 | one input index: its links are copied when it is linked, else its default when it fits; the state moves from index `i` to `i + 1` of the specification |
| NodeReplace.TransferInputs | __init__.py:99-122 | the new node ends with `Defaults` and the links gain exactly `InputRelinks` |
| NodeReplace.TransferOutputs | __init__.py:125-129 | the links gain exactly `OutputRelinks`; nodes are unchanged |
| NodeReplace.ReplaceSingleNode | __init__.py:92-132 | the tree becomes `ReplacedTree` of the old tree and stays well formed |
| ReplaceGroup.TableNamesDisjoint | __init__.py:18-22 | no new group name of the table is also an old one, and no old name is `PhlankaFortnite` |
| ReplaceGroup.MatchingIdsMember | __init__.py:69-70 | an id is listed exactly when it is a `GROUP` node with a group, and that group has the old name |
| ReplaceGroup.MatchingIdsDistinct | __init__.py:69-70 | no node is listed twice |
| ReplaceGroup.ReplaceEachShape | __init__.py:72-73 | replacing listed nodes one by one keeps the tree well formed and its node count, with one fresh id each |
| ReplaceGroup.ReplaceEachLookup | __init__.py:72-73 | each replaced id then finds nothing, other old ids are kept, and each fresh id finds a node of the new group |
| ReplaceGroup.ReplaceMatching | __init__.py:66-73 | one table entry replaces every node of the old group, one new node each, and keeps every other node |
| ReplaceGroup.ReplaceMatchingClears | __init__.py:69-73 | after an entry no node of its old group is left, and a group without nodes stays without them |
| ReplaceGroup.ApplyTableKeeps | __init__.py:66-73 | the table keeps the tree well formed and every node no loaded entry applies to |
| ReplaceGroup.ApplyTableClears | __init__.py:66-73 | after the table, no node is left of an old group whose new group loaded |
| ReplaceGroup.FirstOutput | __init__.py:78 | the output node found is a Material Output node; none is found only when there is none |
| ReplaceGroup.FirstOutputIsFirst | __init__.py:78 | the output node found is the first in node order |
| ReplaceGroup.OutputCaseWellFormed | __init__.py:77-87 | the special case keeps the tree well formed |
| ReplaceGroup.OutputCaseReplaces | __init__.py:77-87 | the tree changes exactly when `PhlankaFortnite` loaded and the first Material Output's first input is linked from a group node whose group is not excluded; then that node is gone, a `PhlankaFortnite` node stands at its location, and it feeds the output when the group has that output |
| ReplaceGroup.OutputCaseKeepsClear | __init__.py:77-87 | the special case adds no node of any group but the main one |
| ReplaceGroup.ProcessTreeClears | __init__.py:62-87 | a processed tree is well formed, with no node left of an old group whose new group loaded |
| ReplaceGroup.ReplaceGroupNodes | __init__.py:69-73 | the method lists the nodes of the old group, then replaces them in order: the tree becomes `ReplaceEach` of the listed ids |
| ReplaceGroup.ApplyReplacements | __init__.py:66-73 | the entries apply in table order, each only when its new group loaded |
| ReplaceGroup.ReplaceOutputFeeder | __init__.py:77-87 | the method does what `OutputCase` states |
| ReplaceGroup.ProcessMaterial | __init__.py:62-87 | the tree becomes `ProcessTree` of the old tree and stays well formed |
| ReplaceGroup.GroupsToLoad | __init__.py:34 | the groups to load are exactly the table's new names present in the asset file |
| ReplaceGroup.AnyGroupLoaded | __init__.py:41-42 | the method reports whether any of the table's groups is present after the load |
| ReplaceGroup.VisitSlot | __init__.py:54-60 | a slot holding an unprocessed material with a node tree marks it processed and processes its tree; anything else is skipped |
| ReplaceGroup.VisitSlots | __init__.py:53-60 | after an object's slots, the processed set has grown by their materials that have node trees |
| ReplaceGroup.ReplaceNodeGroup | __init__.py:16-89 | `CANCELLED` exactly when the asset file is missing, holds none of the table's groups, or none is present after the load; otherwise `FINISHED`. Every material in some slot with a node tree is processed once, and every other tree is unchanged |

## Left out

- HTTP requests, JSON decoding, timeouts and the temporary archive file are left out. The release query is an input, `Fetch`: no answer, or a status with an optional `tag_name`.
- Threads, `bpy.app.timers`, `time.sleep`, message boxes, logging and `print` are left out. They are concurrency, host scheduling and output.
- Add-on directory discovery (`addon_utils.modules()` by module name, `bpy.utils.script_paths`, `os.path.exists`) is left out. So are directory creation, file writes, the permission-error path and zip decompression. Only the mapping from entry names to relative paths is modelled.
- `addon_utils.modules()` is an input list of `(name, version)` pairs from each module's `bl_info`.
- `UpdateChecker.AddonInfo`: `bl_info` version elements are taken to be non-negative integers of ordinary size. A negative or non-integer element, and Python's limit on the digits `int()` and `str()` accept, are not modelled.
- Version strings use ASCII digits only. Python's `\d` and `int()` also accept other Unicode digits, and `int()` accepts signs, surrounding whitespace and underscores. Such strings are treated as not parsing.
- `UpdateChecker.LatestRelease`: a `tag_name` that is not a string (which would make `re.search` raise) is not modelled; the field is a string or missing.
- `bpy.data.libraries.load` of `Assets.blend` is left out. The groups in the file are an input set, and the groups present afterwards, by name, are an input map.
- Panels, menus, operators and `register`/`unregister` are left out; they are UI.
- `ReplaceGroup.ReplaceNodeGroup`: the two early cancel paths first call `bpy.ops.error.message`, which the add-on does not register. In a stock host that call raises before `{'CANCELLED'}` is returned, and the host then ends the operator as cancelled. The model returns `Cancelled` directly, which matches at operator level but does not capture the raised error.
- Host type coercion of socket values is left out. So are string sockets and the `AttributeError`/`ValueError`/`TypeError` fallback. A socket has a scalar, a vector or no readable default, and every case the source does not copy leaves the target unchanged.
- Link limits are left out. Blender replaces an existing link when linking into a single-input socket and checks `verify_limits`. In the model `links.new` always appends.
- A Material Output node with no input sockets makes `inputs[0]` raise in the source. In the model no link can enter a missing socket, so such a node counts as unlinked.
- Material names are unique, and distinct names have distinct node trees. `ReplaceNodeGroup` requires both as facts about the host.

