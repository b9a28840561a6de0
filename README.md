# addons-code-manager: file tree, API requests and keyboard shortcuts in Dafny

This project models three pieces of the sequential logic of addons-code-manager, the web
front end used to browse and review the files of an add-on version.

- **File tree.** `buildFileTree(versionId, entries)` (src/components/FileTree/index.tsx) turns a flat
  list of version entries (path, depth, file name, file or directory) into a tree under a root node
  `root-<versionId>`. It works depth by depth. Each entry is appended to the node that a walk from the
  root reaches, following the path's segments by child name. `FileTree.BuildFileTree` keeps the
  source's loops:
  - the `while` over depths;
  - the `forEach` over that depth's entries (`FileTree.AddLevel`) and its callback (`FileTree.AddEntry`);
  - the `for` over path segments (`FileTree.FindParent`).

  Each method is proved equal to a specification function: `FileTree.Built`, `FileTree.InsertAll`,
  `FileTree.InsertEntry` and `FileTree.Walk`.
  The source pushes into a shared `children` array through a `currentNode` reference. The model
  writes this as a positional update, `AppendAt(tree, position, node)`, where the position is the list
  of child indices the walk took. Reading `children` of a file node is a JavaScript `TypeError` in the
  source; the model returns it as `Failure(TypeError(path))`.
- **Sibling order.** The reducer tests in src/reducers/fileTree.spec.tsx expect a later version of
  `buildFileTree` that lists directories before files, each group sorted by name, at every level.
  That version is not part of this model. Its ordering is `TreeOrder.SortTree`, a separate pass over
  a built tree, and `Scenarios` replays those tests against `SortTree` applied to `Built`.
- **API requests.** `callApi`, `getVersion` and `logOutFromServer` (src/api/index.tsx) are modelled up
  to the `fetch` call. The model covers:
  - the endpoint normalisation;
  - the bearer `Authorization` header;
  - `{ ...query, lang }`;
  - the `k=v&...` query string;
  - the final URL `/api/<version><endpoint>?<query>`.

  `Api.CallApi` performs these as step-by-step reassignments, as the source does.
- **Keyboard shortcuts.** `keydownListener` (src/components/KeyboardShortcuts/index.tsx) is
  `KeyboardShortcuts.KeydownIntent`, a total function. It returns the action the listener would
  dispatch, or None. `mapStateToProps` is `KeyboardShortcuts.MapStateToProps`. The `goToRelative*`
  thunks and the tree reducers are only named: an `Intent` records their arguments.

Two behaviours of the modelled `buildFileTree` are worth spelling out:

- It does not sort. Siblings stay in insertion order. The order that the reducer tests in
  src/reducers/fileTree.spec.tsx:173-355 expect is modelled separately, as `TreeOrder.SortTree`.
- A path segment that names no child is not an error. The source leaves that case open (the TODO
  at src/components/FileTree/index.tsx:74). The walk simply stays on the current node, so the entry is
  attached higher up (`FileTreeProperties.UnmatchedEntryStaysHigh`). The build fails, with a
  TypeError, only in two places:
  - the `find` at src/components/FileTree/index.tsx:66, when the walk has stepped onto a file node,
    whose `children` is undefined;
  - the `push` at src/components/FileTree/index.tsx:92, when the node the walk ends on is a file.

For an entry list that describes a real directory tree, the build never fails, and every entry lands
in the directory its path names (`FilePlacement.BuiltPlacesEntries`). "Describes a real directory
tree" means:
- each depth is the number of '/' in the path;
- each file name is the last path segment;
- no two entries share a path;
- every parent path is listed as a directory entry.

Files:

- `wrappers.dfy`: `Option`, `Result`.
- `strings.dfy`: `split`/`join`, decimal rendering of integers, code-point string order.
- `file_tree.dfy`: the tree model.
- `file_tree_properties.dfy`: lemmas about `Built`.
- `placement.dfy`: where each entry of a well-formed entry list ends up.
- `tree_order.dfy`: `SortTree`.
- `scenarios.dfy`: the reducer tests.
- `api.dfy`: the request construction.
- `keyboard_shortcuts.dfy`: the listener and the derived props.

## Model

| member | source | states |
|---|---|---|
| FileTree.MaxDepth | src/components/FileTree/index.tsx:33-39 | the reduce from 0 gives a non-negative bound on every depth, reached by some entry unless it is 0 |
| FileTree.AtDepth | src/components/FileTree/index.tsx:44-47 | the filter's result is no longer than its input, and every entry in it has that depth |
| FileTree.AtDepthMembers | src/components/FileTree/index.tsx:44-47 | an entry is kept exactly when it is in the input and has that depth |
| FileTree.FirstNamed | src/components/FileTree/index.tsx:66-68 | `find` by name: the index of the first child with that name, or the child count when none has it |
| FileTree.Walk | src/components/FileTree/index.tsx:61-76 | the segment walk ends, if at all, on a valid position no longer than the segment list |
| FileTree.FindParent | src/components/FileTree/index.tsx:61-76 | the `for` loop that moves `currentNode` segment by segment ends where `Walk` ends, or fails where it fails |
| FileTree.ParentSegments | src/components/FileTree/index.tsx:61-63 | the parent segments are the path's segments without the last one, which put back gives the whole split path |
| FileTree.NewNode | src/components/FileTree/index.tsx:79-90 | the node takes the entry's path as id and its file name as name, is a directory exactly for a directory entry, and a new directory has no children |
| FileTree.AppendAt | src/components/FileTree/index.tsx:92 | the push keeps the root a directory with its id and name (its effect on the tree is in `AppendAtGrows` and `AppendAtElsewhere`) |
| FileTree.InsertEntry | src/components/FileTree/index.tsx:51-93 | inserting one entry either keeps the root's id, name and kind, or fails with a TypeError naming that entry's path |
| FileTree.InsertAll | src/components/FileTree/index.tsx:44-51 | inserting a list keeps the root's id, name and kind, or fails with a TypeError naming one of the listed entries |
| FileTree.Built | src/components/FileTree/index.tsx:21-100 | the build gives a directory `root-<versionId>` named `versionId`, or a TypeError naming one of the input entries |
| FileTree.AddEntry | src/components/FileTree/index.tsx:51-93 | the `forEach` callback finds the parent (the root at depth 0) and pushes the entry's node, exactly as `InsertEntry` specifies, TypeError included |
| FileTree.AddLevel | src/components/FileTree/index.tsx:44-51 | the `forEach` over one depth's entries inserts them in order and stops at the first TypeError |
| FileTree.InsertAllConcat | src/components/FileTree/index.tsx:41-97 | inserting two runs of entries is inserting the first, then, unless it failed, the second |
| FileTree.BuildFileTree | src/components/FileTree/index.tsx:21-100 | the depth loop, the per-depth pass and the push compute exactly `Built(versionId, entries)`, including the TypeError case |
| FileTreeProperties.Visited | src/components/FileTree/index.tsx:41-47 | the entries the depth loop reaches are exactly those with a non-negative depth |
| FileTreeProperties.BuiltRoot | src/components/FileTree/index.tsx:25-29 | the result is a directory with id `root-<versionId>` and name `versionId`, and with no entries it is that empty root |
| FileTreeProperties.NodeCount | src/components/FileTree/index.tsx:51-93 | a successful build holds one node per visited entry plus the root |
| FileTreeProperties.EveryEntryPlaced | src/components/FileTree/index.tsx:79-92 | for any entry list, every visited entry appears somewhere below the root as a node with its path as id, its file name as name and its kind; which directory holds it is stated for well-formed lists by `FilePlacement.BuiltPlacesEntries` |
| FileTreeProperties.DepthZeroAtRoot | src/components/FileTree/index.tsx:52-54 | the depth-0 entries become the root's first children, in input order and with their own shape, whatever their paths say |
| FileTreeProperties.AppendAtGrows | src/components/FileTree/index.tsx:92 | the push makes the node the last child of its parent, keeps every existing node and adds exactly its size |
| FileTreeProperties.AppendAtElsewhere | src/components/FileTree/index.tsx:92 | the push leaves every node off the parent's path unchanged |
| FileTreeProperties.InsertEntryGrows | src/components/FileTree/index.tsx:51-93 | one entry adds exactly one node, somewhere below the root, and keeps everything already built |
| FileTreeProperties.InsertAllGrows | src/components/FileTree/index.tsx:51-93 | inserting a list extends the tree, adds one node per entry and places every entry |
| FileTreeProperties.AppendOnly | src/components/FileTree/index.tsx:44-51 | a later insertion only appends: the tree built from a prefix of the insertion order is extended, not reordered |
| FileTreeProperties.DepthOrderSorted | src/components/FileTree/index.tsx:41-47 | entries are inserted in ascending depth order |
| FileTreeProperties.DepthOrderStable | src/components/FileTree/index.tsx:44-47 | within one depth the insertion order is the input order |
| FileTreeProperties.DepthOrderPermutation | src/components/FileTree/index.tsx:41-97 | every visited entry is inserted exactly once (multiset equality) |
| FileTreeProperties.DepthOrderOfSortedInput | src/components/FileTree/index.tsx:41-97 | input already sorted by non-negative depth is inserted in input order |
| FileTreeProperties.WalkFollowsSegments | src/components/FileTree/index.tsx:65-73 | the names along the walk's path are a subsequence of the segments (a missing name is skipped, not matched), and when the walk takes one step per segment they are exactly the segments |
| FileTreeProperties.WalkFindsChain | src/components/FileTree/index.tsx:65-73 | when each segment in turn names a child (the first such child, as `find` picks), the walk descends through exactly those children and ends on that position |
| FileTreeProperties.WalkFullIsChain | src/components/FileTree/index.tsx:65-73 | conversely, a walk that takes one step per segment took, at each step, the first child with that segment's name |
| FileTreeProperties.InsertAlongChain | src/components/FileTree/index.tsx:61-92 | an entry whose parent segments name a chain of children ending on a directory is pushed onto that directory's children, and nothing already built changes |
| FileTreeProperties.WalkTotalOnDirectories | src/components/FileTree/index.tsx:70-74 | through directories the walk never fails and ends on a directory |
| FileTreeProperties.WalkNoMatch | src/components/FileTree/index.tsx:70-74 | when no segment names a child, the walk stays on its start node |
| FileTreeProperties.UnmatchedEntryStaysHigh | src/components/FileTree/index.tsx:70-92 | an entry whose parent directories are all missing is appended to the start node, neither dropped nor an error |
| FilePlacement.BuiltPlacesEntries | src/components/FileTree/index.tsx:41-97 | for a well-formed entry list the build succeeds, and every entry sits at depth+1 below the root, with its shape, on the path of directories whose names are its path's segments |
| FilePlacement.BuiltHasNothingElse | src/components/FileTree/index.tsx:41-97 | for a well-formed entry list every node below the root is one of the entries, at the place its path names, and no two nodes share a name path |
| FilePlacement.OrderParentsFirst | src/components/FileTree/index.tsx:41-47 | in the depth-by-depth insertion order, every entry's parent directory comes before it |
| FilePlacement.InsertStep | src/components/FileTree/index.tsx:51-93 | inserting a new entry whose parent directory is already placed succeeds and puts it under that directory, keeping every earlier entry in place |
| FilePlacement.NamesGiveChain | src/components/FileTree/index.tsx:65-68 | when no two nodes share a name path, any position is the chain that `find` by name follows from its names |
| FilePlacement.AppendAtPositions | src/components/FileTree/index.tsx:92 | pushing a new leaf adds exactly one position, the new last child of its parent |
| FilePlacement.SplitInjective | src/components/FileTree/index.tsx:61 | two paths with the same '/' segments are the same path |
| TreeOrder.SortNodes | src/reducers/fileTree.spec.tsx:173-355 | sorting a sibling list keeps its length (order and permutation are in `SortNodesCorrect`) |
| TreeOrder.SortTree | src/reducers/fileTree.spec.tsx:173-355 | the sorted tree keeps the root's id, name and kind, and a directory keeps its child count |
| TreeOrder.BeforeAsymmetric | src/reducers/fileTree.spec.tsx:173-211 | directories-first-then-name is a strict order |
| TreeOrder.NotBeforeTransitive | src/reducers/fileTree.spec.tsx:213-277 | its incomparability is transitive, so it is a strict weak order |
| TreeOrder.InsertSortedPermutes | src/reducers/fileTree.spec.tsx:173-277 | inserting into a sibling list adds exactly that node |
| TreeOrder.InsertSortedOrdered | src/reducers/fileTree.spec.tsx:173-277 | inserting into an ordered sibling list keeps it ordered |
| TreeOrder.SortNodesCorrect | src/reducers/fileTree.spec.tsx:173-277 | sorting a sibling list gives an ordered permutation of it |
| TreeOrder.SortNodesFixpoint | src/reducers/fileTree.spec.tsx:173-277 | an ordered sibling list is left as it is |
| TreeOrder.SortTreeCorrect | src/reducers/fileTree.spec.tsx:279-355 | every level of the sorted tree is ordered, each level holds the same nodes, the root keeps its id, name and kind, and the size is unchanged |
| TreeOrder.SortTreeFixpoint | src/reducers/fileTree.spec.tsx:279-355 | a tree sorted at every level is left as it is |
| TreeOrder.SortTreeIdempotent | src/reducers/fileTree.spec.tsx:279-355 | sorting twice is sorting once |
| Scenarios.BuiltTopLevel | src/components/FileTree/index.tsx:51-93 | entries all at depth 0 become the root's children in input order |
| Scenarios.FileEntryBecomesFileNode | src/reducers/fileTree.spec.tsx:45-64 | a file entry becomes a file node with the entry's path and file name |
| Scenarios.DirectoryEntryBecomesDirectoryNode | src/reducers/fileTree.spec.tsx:66-86 | a directory entry becomes a directory node with no children |
| Scenarios.ChildFindsItsParent | src/reducers/fileTree.spec.tsx:88-122 | `parent/child` at depth 1 is appended to the directory named `parent` |
| Scenarios.WalkTraversesLevels | src/reducers/fileTree.spec.tsx:124-171 | `d/d/f` at depth 2 is found through two directories both named `d` |
| Scenarios.SortsDirectoriesFirst | src/reducers/fileTree.spec.tsx:173-211 | directories B and C come before file A |
| Scenarios.SortsFilesAlphabetically | src/reducers/fileTree.spec.tsx:213-246 | files C, B, A are listed A, B, C |
| Scenarios.SortsDirectoriesAlphabetically | src/reducers/fileTree.spec.tsx:248-277 | directories B, A are listed A, B |
| Scenarios.SortsRecursively | src/reducers/fileTree.spec.tsx:279-315 | the files inside `parent` are sorted as well |
| Scenarios.SortsDirectoriesFirstInChild | src/reducers/fileTree.spec.tsx:317-354 | inside `parent` the directory B comes before the file A |
| Strings.Split | src/components/FileTree/index.tsx:61 | `split('/')` gives at least one piece and no piece holds the separator |
| Strings.SplitJoin | src/components/FileTree/index.tsx:61-63 | splitting a join of separator-free pieces gives the pieces back |
| Strings.Join | src/api/index.tsx:58 | joining no pieces gives the empty string, and otherwise the result starts with the first piece |
| Strings.IntToDecimalRoundTrip | src/api/index.tsx:101 | the decimal text of an integer in a template string reads back as that integer |
| Api.NormalizeEndpoint | src/api/index.tsx:36-42 | the result starts and ends with '/' and holds the endpoint; it gains a leading '/' exactly when the endpoint lacks one and a trailing '/' exactly when the endpoint lacks one (the empty endpoint becomes `/`) |
| Api.NormalizeEndpointIdempotent | src/api/index.tsx:36-42 | normalising twice is normalising once |
| Api.SetKey | src/api/index.tsx:54 | after `{ ...q, [k]: v }` the key is present, and the key count grows by one exactly when the key is new |
| Api.WithLang | src/api/index.tsx:54 | `{ ...query, lang }` has a `lang` key, and one more key than the query exactly when the query had none |
| Api.SetKeyLookup | src/api/index.tsx:54 | after `{ ...q, [k]: v }` the key holds the new value and every other key its old one |
| Api.SetKeyKeys | src/api/index.tsx:54 | an existing key keeps its position, and a new key goes last |
| Api.SetKeyDistinct | src/api/index.tsx:54 | the result still has no key twice |
| Api.WithLangProperties | src/api/index.tsx:53-54 | `lang` wins over a `lang` key of the query, keeps that key's position or goes last, and leaves every other key alone |
| Api.QueryString | src/api/index.tsx:56-58 | an empty query gives the empty string, and otherwise the string starts with the first `k=v` pair |
| Api.RequestUrl | src/api/index.tsx:60-63 | the URL starts with `/api/<version>/` and holds a '?' |
| Api.QueryStringRoundTrip | src/api/index.tsx:56-58 | the `k=v` pairs joined by '&' read back as the query when keys hold no '&' or '=' and values no '&' |
| Api.AuthHeaders | src/api/index.tsx:44-47 | the headers hold `Authorization: Bearer <token>` exactly when the token is a non-empty string, and nothing else |
| Api.CallApi | src/api/index.tsx:28-60 | for a query with distinct keys (a JavaScript object has no key twice), the method defaults to GET, the query to empty, and the request is `/api/<version><normalised endpoint>?<query string of { ...query, lang }>` with the `Authorization` headers of the state |
| Api.RequestUrlRoundTrip | src/api/index.tsx:60-63 | the URL splits at its first '?' into the path and a query string that reads back as the query with `lang` set |
| Api.VersionEndpoint | src/api/index.tsx:101 | the getVersion endpoint is non-empty, holds no '?', and neither starts nor ends with '/' |
| Api.VersionQuery | src/api/index.tsx:102 | there is a query exactly when the path is a non-empty string, and it has the single key `file` holding that path |
| Api.VersionEndpointRoundTrip | src/api/index.tsx:101 | the getVersion endpoint has five segments, and the add-on id and version id read back from the third and fifth |
| Api.GetVersion | src/api/index.tsx:93-104 | a GET of `/api/<version>/reviewers/addon/<addonId>/versions/<versionId>/?` followed by `file=<path>&` only for a non-empty path, then `lang=<lang>`, with the `Authorization` headers of the state |
| Api.LogOutFromServer | src/api/index.tsx:106-112 | a DELETE of `/api/<version>/accounts/session/?lang=<lang>`, with the `Authorization` headers of the state |
| KeyboardShortcuts.KeydownIntent | src/components/KeyboardShortcuts/index.tsx:62-188 | an action is produced exactly when a path list is loaded, no modifier is held, and the key is k, j, e, o or c, or n or p with a comparison loaded, or a or z with a message map; it is always one of the listed keys and carries the version id |
| KeyboardShortcuts.FileKeys | src/components/KeyboardShortcuts/index.tsx:90-109 | k and j go to the previous and next file from the current path |
| KeyboardShortcuts.TreeKeys | src/components/KeyboardShortcuts/index.tsx:110-126 | e and o dispatch the same expand action, and c collapses |
| KeyboardShortcuts.DiffKeys | src/components/KeyboardShortcuts/index.tsx:127-156 | n and p step through the diff from the current anchor, and do nothing without a comparison |
| KeyboardShortcuts.MessageKeys | src/components/KeyboardShortcuts/index.tsx:157-184 | z and a step through the linter messages from the current message, and do nothing without a message map |
| KeyboardShortcuts.IntentCarriesPathList | src/components/KeyboardShortcuts/index.tsx:90-184 | every navigation action carries the loaded path list, and file and message steps the current path |
| KeyboardShortcuts.StripHash | src/components/KeyboardShortcuts/index.tsx:263 | exactly one leading '#' is removed when present, and nothing else changes |
| KeyboardShortcuts.StripHashRoundTrip | src/components/KeyboardShortcuts/index.tsx:263 | removing the '#' undoes adding it, and a second '#' stays |
| KeyboardShortcuts.MessageUid | src/components/KeyboardShortcuts/index.tsx:264 | the message uid is the query value when it is a single string, and otherwise empty |
| KeyboardShortcuts.MapStateToProps | src/components/KeyboardShortcuts/index.tsx:247-267 | the path list is absent exactly when no tree is loaded, the anchor is the hash without its '#', the uid is as above |
| KeyboardShortcuts.NoTreeNoShortcuts | src/components/KeyboardShortcuts/index.tsx:77-80 | with the props derived while no tree is loaded, no key does anything |
| KeyboardShortcuts.DiffStartsAtAnchor | src/components/KeyboardShortcuts/index.tsx:127-141 | with derived props, n steps from the location's hash without its '#' |
| KeyboardShortcuts.MessageStartsAtUid | src/components/KeyboardShortcuts/index.tsx:157-170 | with derived props, z steps from the `messageUid` query value, or from '' when there is not exactly one |

## Left out

- Rendering is not modelled: `FileTreeBase.renderNode`/`render` and `KeyboardShortcutsBase.render` are React and Treefold output.
- Listener registration in `componentDidMount`/`componentWillUnmount` is not modelled: it is a DOM side effect.
- In `callApi`, the `fetch` call, the `response.ok` check, `response.json()` and the `catch` are not modelled. They are asynchronous network I/O, so the model ends at the request `fetch` would receive.
- Logging (`log.warn`, `log.debug`) is not modelled. A branch that only logs returns no action.
- The `process.env` defaults for the API version and the language are plain inputs.
- JavaScript lists integer-like object keys first. The query model keeps plain insertion order and assumes no key looks like an integer.
- JavaScript `undefined` as `lang` would appear as `lang=undefined`; the language is a string here.
- The query string is built without URL encoding, as in the source. The round-trip lemmas therefore require keys free of '&' and '=' and values free of '&'.
- `goToRelativeFile`, `goToRelativeDiff`, `goToRelativeMessage`, `getTree` and the expand and collapse reducers live in modules that are not part of this model.
  - The listener's actions are records of their arguments.
  - The diff and the message map are type parameters.
  - A loaded tree is reduced to its path list.
- `queryString.parse` is not part of this model. The `messageUid` query value is given already parsed: absent, null, one string or several.
- The newer reducer `buildFileTree(version)` that the tests in src/reducers/fileTree.spec.tsx exercise is not shown. Its sorting comparator is not shown either; `SortTree` compares names by character code, case-sensitively.
  - Those tests name the root after the add-on; the modelled component names it `root-<versionId>`.
  - Several tests give every top-level entry the same fixture path. The scenarios take these paths as parameters, so any paths, equal or not, are covered.
- Entry depths are integers. Non-integer or NaN depths, which a JavaScript number allows, are not modelled.
- The tree is a value, not shared mutable objects. Aliasing between `root` and `currentNode` is captured by the position of `currentNode` in the tree.
- Thrown exceptions are not modelled as control flow. A walk that must read the `children` of a file node, or that ends on a file node and pushes into it, is a `Failure(TypeError(path))` result; in the source both throw a TypeError out of `buildFileTree`.
- Integer-to-text conversion in templates is modelled for integers only. JavaScript's exponent notation for numbers of 1e21 and above is not modelled.
