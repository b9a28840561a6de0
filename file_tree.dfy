/**
 * Model of `buildFileTree` (src/components/FileTree/index.tsx): a flat list of
 * version entries becomes a tree of directory and file nodes under a synthetic
 * root, built depth level by depth level.
 *
 * The source grows one mutable object tree by pushing into `children` arrays
 * reached through a `currentNode` reference.  Here the tree is a value, the
 * reference is a Position (the child indices that lead to the node from the
 * root), and the push is AppendAt.  The loops of the source stay loops in the
 * methods BuildFileTree and FindParent, each proved equal to the function that
 * specifies it (Built, Walk).
 */
module FileTree {

  import opened Wrappers
  import opened Strings

  /** Only the `directory` entry type is told apart; every other type yields a file node. */
  datatype EntryType = Directory | File

  /** One element of `version.entries`. */
  datatype Entry = Entry(path: string, depth: int, filename: string, entryType: EntryType)

  datatype TreeNode =
    | FileNode(id: string, name: string)
    | DirectoryNode(id: string, name: string, children: seq<TreeNode>)

  /**
   * The exception the source raises: reading `children` of a file node (the
   * walk stepped onto a file, or the entry's parent is a file) is a TypeError.
   * It carries the path of the entry being inserted.
   */
  datatype BuildError = TypeError(path: string)

  /** Child indices leading from a node down to one of its descendants. */
  type Position = seq<nat>

  function RootNode(versionId: string): TreeNode
  {
    DirectoryNode("root-" + versionId, versionId, [])
  }

  /** The node made for an entry: its path as id, its filename as name, no children yet. */
  function NewNode(e: Entry): (n: TreeNode)
    ensures n.id == e.path && n.name == e.filename
    ensures n.DirectoryNode? <==> e.entryType == Directory
    ensures n.DirectoryNode? ==> n.children == []
  {
    if e.entryType == Directory then DirectoryNode(e.path, e.filename, [])
    else FileNode(e.path, e.filename)
  }

  /** The `reduce` that finds the deepest level, starting from 0. */
  function MaxDepth(entries: seq<Entry>): (m: int)
    ensures m >= 0
    ensures forall e :: e in entries ==> e.depth <= m
    ensures m == 0 || exists e :: e in entries && e.depth == m
  {
    if entries == [] then 0
    else
      var init := entries[..|entries| - 1];
      var last := entries[|entries| - 1];
      assert entries == init + [last];
      var m := MaxDepth(init);
      if last.depth > m then last.depth else m
  }

  /** `entries.filter((entry) => entry.depth === d)`. */
  function AtDepth(entries: seq<Entry>, d: int): (r: seq<Entry>)
    ensures |r| <= |entries|
    ensures forall i :: 0 <= i < |r| ==> r[i].depth == d
  {
    if entries == [] then []
    else (if entries[0].depth == d then [entries[0]] else []) + AtDepth(entries[1..], d)
  }

  /** The filter keeps exactly the entries of depth d. */
  lemma {:induction false} AtDepthMembers(entries: seq<Entry>, d: int)
    ensures forall e :: e in AtDepth(entries, d) <==> e in entries && e.depth == d
  {
    if entries != [] {
      AtDepthMembers(entries[1..], d);
      assert entries == [entries[0]] + entries[1..];
    }
  }

  /** The entries of levels lo..hi, level by level, each level in input order. */
  function Levels(entries: seq<Entry>, lo: int, hi: int): seq<Entry>
    decreases hi - lo
  {
    if lo > hi then [] else AtDepth(entries, lo) + Levels(entries, lo + 1, hi)
  }

  lemma {:induction false} LevelsMembers(s: seq<Entry>, lo: int, hi: int)
    ensures forall e :: e in Levels(s, lo, hi) ==> e in s
    decreases hi - lo
  {
    if lo <= hi {
      AtDepthMembers(s, lo);
      LevelsMembers(s, lo + 1, hi);
    }
  }

  /** The order in which the depth loop visits the entries. */
  function DepthOrder(entries: seq<Entry>): seq<Entry>
  {
    Levels(entries, 0, MaxDepth(entries))
  }

  predicate ValidPos(t: TreeNode, p: Position)
    decreases p
  {
    p == [] || (t.DirectoryNode? && p[0] < |t.children| && ValidPos(t.children[p[0]], p[1..]))
  }

  function NodeAt(t: TreeNode, p: Position): TreeNode
    requires ValidPos(t, p)
    decreases p
  {
    if p == [] then t else NodeAt(t.children[p[0]], p[1..])
  }

  /**
   * `currentNode.children.push(n)` where `currentNode` is the node at `p`.
   * The tree's top node keeps its id, name and kind.
   */
  function AppendAt(t: TreeNode, p: Position, n: TreeNode): (r: TreeNode)
    requires ValidPos(t, p) && NodeAt(t, p).DirectoryNode?
    ensures r.DirectoryNode? && r.id == t.id && r.name == t.name
    decreases p
  {
    if p == [] then t.(children := t.children + [n])
    else t.(children := t.children[p[0] := AppendAt(t.children[p[0]], p[1..], n)])
  }

  /** `children.find((child) => child.name === name)`, as an index; |children| when there is none. */
  function FirstNamed(children: seq<TreeNode>, name: string): (k: nat)
    ensures k <= |children|
    ensures k < |children| ==> children[k].name == name
    ensures forall j :: 0 <= j < k ==> children[j].name != name
  {
    if children == [] then 0
    else if children[0].name == name then 0
    else 1 + FirstNamed(children[1..], name)
  }

  /**
   * The segment walk: for each segment, step to the first child with that
   * name, or stay put when there is none.  None when the walk must read the
   * children of a file node.
   */
  function Walk(n: TreeNode, parts: seq<string>): (r: Option<Position>)
    ensures r.Some? ==> ValidPos(n, r.value) && |r.value| <= |parts|
    decreases |parts|
  {
    if parts == [] then Some([])
    else match n
      case FileNode(_, _) => None
      case DirectoryNode(_, _, ch) =>
        var k := FirstNamed(ch, parts[0]);
        if k < |ch| then
          match Walk(ch[k], parts[1..])
          case None => None
          case Some(p) => Some([k] + p)
        else Walk(n, parts[1..])
  }

  /** `entry.path.split('/')` with the last segment (the file name) popped. */
  function ParentSegments(path: string): (r: seq<string>)
    ensures |r| == |Split(path, '/')| - 1
    ensures r + [Split(path, '/')[|r|]] == Split(path, '/')
  {
    var parts := Split(path, '/');
    assert parts[..|parts| - 1] + [parts[|parts| - 1]] == parts;
    parts[..|parts| - 1]
  }

  /** Where an entry is attached: the root at depth 0, else the end of its walk. */
  function ParentOf(t: TreeNode, e: Entry): Option<Position>
  {
    if e.depth > 0 then Walk(t, ParentSegments(e.path)) else Some([])
  }

  /**
   * One iteration of the `forEach`: attach the entry's node to its parent.
   * Only a tree with a directory on top can succeed, the top keeps its id and
   * name, and a failure names the entry being inserted.
   */
  function InsertEntry(t: TreeNode, e: Entry): (r: Result<TreeNode, BuildError>)
    ensures r.Success? ==> t.DirectoryNode? && r.value.DirectoryNode? && r.value.id == t.id && r.value.name == t.name
    ensures r.Failure? ==> r.error == TypeError(e.path)
  {
    match ParentOf(t, e)
    case None => Failure(TypeError(e.path))
    case Some(p) =>
      if NodeAt(t, p).DirectoryNode? then Success(AppendAt(t, p, NewNode(e)))
      else Failure(TypeError(e.path))
  }

  /**
   * Insert the entries one after the other; the first TypeError ends the
   * build and names one of the entries.  The top node keeps its id, name and kind.
   */
  function InsertAll(t: TreeNode, es: seq<Entry>): (r: Result<TreeNode, BuildError>)
    ensures r.Success? ==> r.value.id == t.id && r.value.name == t.name && r.value.DirectoryNode? == t.DirectoryNode?
    ensures r.Failure? ==> exists i :: 0 <= i < |es| && r.error == TypeError(es[i].path)
    decreases |es|
  {
    if es == [] then Success(t)
    else match InsertEntry(t, es[0])
      case Failure(err) => Failure(err)
      case Success(u) => InsertAll(u, es[1..])
  }

  /**
   * What `buildFileTree(versionId, entries)` returns, or the error it throws:
   * a directory named after the version, or a TypeError naming one of the entries.
   */
  function Built(versionId: string, entries: seq<Entry>): (r: Result<TreeNode, BuildError>)
    ensures r.Success? ==> r.value.DirectoryNode? && r.value.id == "root-" + versionId && r.value.name == versionId
    ensures r.Failure? ==> exists e :: e in entries && r.error == TypeError(e.path)
  {
    LevelsMembers(entries, 0, MaxDepth(entries));
    InsertAll(RootNode(versionId), DepthOrder(entries))
  }

  function Prefixed(pos: Position, r: Option<Position>): Option<Position>
  {
    match r
    case None => None
    case Some(p) => Some(pos + p)
  }

  lemma {:induction false} NodeAtSnoc(t: TreeNode, pos: Position, k: nat)
    requires ValidPos(t, pos) && NodeAt(t, pos).DirectoryNode?
    requires k < |NodeAt(t, pos).children|
    ensures ValidPos(t, pos + [k]) && NodeAt(t, pos + [k]) == NodeAt(t, pos).children[k]
    decreases pos
  {
    if pos != [] {
      assert (pos + [k])[1..] == pos[1..] + [k];
      NodeAtSnoc(t.children[pos[0]], pos[1..], k);
    }
  }

  lemma WalkStep(n: TreeNode, parts: seq<string>)
    requires n.DirectoryNode? && parts != []
    ensures var k := FirstNamed(n.children, parts[0]);
      Walk(n, parts) == if k < |n.children| then Prefixed([k], Walk(n.children[k], parts[1..]))
                        else Walk(n, parts[1..])
  {
  }

  lemma PrefixedAssoc(pos: Position, q: Position, r: Option<Position>)
    ensures Prefixed(pos, Prefixed(q, r)) == Prefixed(pos + q, r)
  {
    if r.Some? {
      assert pos + (q + r.value) == (pos + q) + r.value;
    }
  }

  /** The `for` loop over the path segments, moving `currentNode` down the tree. */
  method FindParent(root: TreeNode, parts: seq<string>) returns (found: Option<Position>)
    ensures found == Walk(root, parts)
  {
    var currentNode := root;
    var pos: Position := [];
    assert parts[0..] == parts;
    match Walk(root, parts) {
      case None =>
      case Some(p) => assert [] + p == p;
    }
    for i := 0 to |parts|
      invariant ValidPos(root, pos) && NodeAt(root, pos) == currentNode
      invariant Walk(root, parts) == Prefixed(pos, Walk(currentNode, parts[i..]))
    {
      if currentNode.FileNode? {
        // `currentNode.children` is undefined: `.find` throws.
        return None;
      }
      assert parts[i..][0] == parts[i] && parts[i..][1..] == parts[i + 1..];
      WalkStep(currentNode, parts[i..]);
      var k := FirstNamed(currentNode.children, parts[i]);
      if k < |currentNode.children| {
        NodeAtSnoc(root, pos, k);
        PrefixedAssoc(pos, [k], Walk(currentNode.children[k], parts[i + 1..]));
        currentNode := currentNode.children[k];
        pos := pos + [k];
      }
    }
    PrefixedAssoc(pos, [], Some([]));
    assert pos + [] == pos;
    return Some(pos);
  }

  /** Continue a build with more entries, unless it has already failed. */
  function AndThen(r: Result<TreeNode, BuildError>, es: seq<Entry>): Result<TreeNode, BuildError>
  {
    match r
    case Failure(err) => Failure(err)
    case Success(t) => InsertAll(t, es)
  }

  lemma {:induction false} InsertAllConcat(t: TreeNode, a: seq<Entry>, b: seq<Entry>)
    ensures InsertAll(t, a + b) == AndThen(InsertAll(t, a), b)
    decreases |a|
  {
    if a == [] {
      assert a + b == b;
    } else {
      assert (a + b)[0] == a[0] && (a + b)[1..] == a[1..] + b;
      if InsertEntry(t, a[0]).Success? {
        InsertAllConcat(InsertEntry(t, a[0]).value, a[1..], b);
      }
    }
  }

  /**
   * The `forEach` callback: find the entry's parent (the root at depth 0),
   * then push the entry's node into its children.
   */
  method AddEntry(root: TreeNode, entry: Entry, currentDepth: int) returns (r: Result<TreeNode, BuildError>)
    requires entry.depth == currentDepth
    ensures r == InsertEntry(root, entry)
  {
    var currentNode: Option<Position> := Some([]);
    if currentDepth > 0 {
      var parts := Split(entry.path, '/');
      parts := parts[..|parts| - 1];
      currentNode := FindParent(root, parts);
    }
    if currentNode.None? || !NodeAt(root, currentNode.value).DirectoryNode? {
      return Failure(TypeError(entry.path));
    }
    return Success(AppendAt(root, currentNode.value, NewNode(entry)));
  }

  /** `currentEntries.forEach(...)`: the entries of one depth, in order; a TypeError ends it. */
  method AddLevel(root: TreeNode, currentEntries: seq<Entry>, currentDepth: int) returns (r: Result<TreeNode, BuildError>)
    requires forall e :: e in currentEntries ==> e.depth == currentDepth
    ensures r == InsertAll(root, currentEntries)
  {
    var node := root;
    for i := 0 to |currentEntries|
      invariant InsertAll(root, currentEntries) == InsertAll(node, currentEntries[i..])
    {
      assert currentEntries[i..][0] == currentEntries[i] && currentEntries[i..][1..] == currentEntries[i + 1..];
      r := AddEntry(node, currentEntries[i], currentDepth);
      if r.Failure? {
        return;
      }
      node := r.value;
    }
    return Success(node);
  }

  /** `buildFileTree(versionId, entries)`. */
  method BuildFileTree(versionId: string, entries: seq<Entry>) returns (r: Result<TreeNode, BuildError>)
    ensures r == Built(versionId, entries)
  {
    var root := RootNode(versionId);
    var maxDepth := MaxDepth(entries);
    var currentDepth := 0;
    ghost var goal := Built(versionId, entries);
    ghost var remaining := Levels(entries, 0, maxDepth);
    while currentDepth <= maxDepth
      invariant 0 <= currentDepth <= maxDepth + 1
      invariant remaining == Levels(entries, currentDepth, maxDepth)
      invariant goal == InsertAll(root, remaining)
    {
      var currentEntries := AtDepth(entries, currentDepth);
      LevelStep(root, entries, currentDepth, maxDepth);
      r := AddLevel(root, currentEntries, currentDepth);
      if r.Failure? {
        return;
      }
      root := r.value;
      currentDepth := currentDepth + 1;
      remaining := Levels(entries, currentDepth, maxDepth);
    }
    assert remaining == [];
    return Success(root);
  }

  /** One turn of the depth loop: insert the level's entries, then the deeper ones. */
  lemma LevelStep(t: TreeNode, entries: seq<Entry>, d: int, maxDepth: int)
    requires d <= maxDepth
    ensures InsertAll(t, Levels(entries, d, maxDepth))
      == AndThen(InsertAll(t, AtDepth(entries, d)), Levels(entries, d + 1, maxDepth))
  {
    InsertAllConcat(t, AtDepth(entries, d), Levels(entries, d + 1, maxDepth));
  }
}
