/**
 * The behaviour pinned down by src/reducers/fileTree.spec.tsx, replayed on the
 * model: the placement tests against Built, the ordering tests against
 * SortTree applied to Built.
 */
module Scenarios {

  import opened Wrappers
  import opened Strings
  import opened FileTree
  import opened FileTreeProperties
  import opened TreeOrder

  lemma SplitTwo(a: string, b: string)
    requires '/' !in a && '/' !in b
    ensures Split(a + "/" + b, '/') == [a, b]
  {
    SplitSepConcat(a, '/', b);
    SplitNoSep(b, '/');
  }

  lemma SplitThree(a: string, b: string, c: string)
    requires '/' !in a && '/' !in b && '/' !in c
    ensures Split(a + "/" + b + "/" + c, '/') == [a, b, c]
  {
    assert a + "/" + b + "/" + c == a + ['/'] + (b + "/" + c);
    SplitSepConcat(a, '/', b + "/" + c);
    SplitTwo(b, c);
  }

  /** Entries that all have depth 0 become the root's children, in input order. */
  lemma BuiltTopLevel(versionId: string, es: seq<Entry>)
    requires forall i :: 0 <= i < |es| ==> es[i].depth == 0
    ensures Built(versionId, es) == Success(DirectoryNode("root-" + versionId, versionId, NewNodes(es)))
  {
    assert DepthSorted(es);
    DepthOrderOfSortedInput(es);
    assert Built(versionId, es) == InsertAll(RootNode(versionId), es);
    assert forall e :: e in es ==> e.depth == 0;
    InsertAtTop(RootNode(versionId), es);
    assert [] + NewNodes(es) == NewNodes(es);
  }

  lemma FirstAtTop(v: string, e: Entry)
    requires e.depth == 0
    ensures InsertEntry(RootNode(v), e) == Success(DirectoryNode("root-" + v, v, [NewNode(e)]))
  {
    InsertDepthZero(RootNode(v), e);
    assert [] + [NewNode(e)] == [NewNode(e)];
  }

  /** A lone file entry becomes a lone file node under the root. */
  lemma FileEntryBecomesFileNode(v: string, path: string, filename: string)
    ensures Built(v, [Entry(path, 0, filename, File)])
      == Success(DirectoryNode("root-" + v, v, [FileNode(path, filename)]))
  {
    var es := [Entry(path, 0, filename, File)];
    BuiltTopLevel(v, es);
    NewNodesAt(es);
    assert NewNodes(es) == [NewNode(es[0])];
  }

  /** A lone directory entry becomes a directory node with no children. */
  lemma DirectoryEntryBecomesDirectoryNode(v: string, path: string, filename: string)
    ensures Built(v, [Entry(path, 0, filename, Directory)])
      == Success(DirectoryNode("root-" + v, v, [DirectoryNode(path, filename, [])]))
  {
    var es := [Entry(path, 0, filename, Directory)];
    BuiltTopLevel(v, es);
    NewNodesAt(es);
    assert NewNodes(es) == [NewNode(es[0])];
  }

  /** `a/b` names parent segment `a`. */
  lemma ParentOfTwo(a: string, b: string)
    requires '/' !in a && '/' !in b
    ensures ParentSegments(a + "/" + b) == [a]
  {
    SplitTwo(a, b);
    assert [a, b][..1] == [a];
  }

  /** `a/b/c` names parent segments `a`, `b`. */
  lemma ParentOfThree(a: string, b: string, c: string)
    requires '/' !in a && '/' !in b && '/' !in c
    ensures ParentSegments(a + "/" + b + "/" + c) == [a, b]
  {
    SplitThree(a, b, c);
    assert [a, b, c][..2] == [a, b];
  }

  /** A one-segment walk steps to the first child of that name. */
  lemma WalkOne(t: TreeNode, name: string, k: nat)
    requires t.DirectoryNode? && k < |t.children| && FirstNamed(t.children, name) == k
    ensures Walk(t, [name]) == Some([k])
  {
    assert [name][1..] == [];
    assert Walk(t.children[k], []) == Some([]);
    assert [k] + [] == [k];
  }

  /** A two-segment walk steps twice. */
  lemma WalkTwo(t: TreeNode, a: string, b: string, k: nat, j: nat)
    requires t.DirectoryNode? && k < |t.children| && FirstNamed(t.children, a) == k
    requires t.children[k].DirectoryNode? && j < |t.children[k].children|
    requires FirstNamed(t.children[k].children, b) == j
    ensures Walk(t, [a, b]) == Some([k, j])
  {
    WalkOne(t.children[k], b, j);
    assert [a, b][1..] == [b];
    assert [k] + [j] == [k, j];
  }

  /** An entry whose walk ends at a directory is appended there. */
  lemma AttachAt(t: TreeNode, e: Entry, p: Position)
    requires e.depth > 0 && Walk(t, ParentSegments(e.path)) == Some(p)
    requires NodeAt(t, p).DirectoryNode?
    ensures InsertEntry(t, e) == Success(AppendAt(t, p, NewNode(e)))
  {
  }

  /** A depth-1 entry lands in the directory its path names. */
  lemma ChildFindsItsParent(v: string, q: string, p: string, c: string)
    requires '/' !in p && '/' !in c
    ensures Built(v, [Entry(q, 0, p, Directory), Entry(p + "/" + c, 1, c, File)])
      == Success(DirectoryNode("root-" + v, v, [DirectoryNode(q, p, [FileNode(p + "/" + c, c)])]))
  {
    var es := [Entry(q, 0, p, Directory), Entry(p + "/" + c, 1, c, File)];
    DepthOrderOfSortedInput(es);
    var t1 := DirectoryNode("root-" + v, v, [DirectoryNode(q, p, [])]);
    FirstAtTop(v, es[0]);
    InsertAllCons(RootNode(v), es, t1);
    ParentOfTwo(p, c);
    WalkOne(t1, p, 0);
    AttachAt(t1, es[1], [0]);
    var t2 := AppendAt(t1, [0], NewNode(es[1]));
    assert [] + [NewNode(es[1])] == [FileNode(p + "/" + c, c)];
    assert t2 == DirectoryNode("root-" + v, v, [DirectoryNode(q, p, [FileNode(p + "/" + c, c)])]);
    InsertAllCons(t1, es[1..], t2);
    assert es[1..][1..] == [];
  }

  /** The entries of a depth-2 path through two directories of the same name. */
  function Nested(q: string, d: string, f: string): seq<Entry>
  {
    [Entry(q, 0, d, Directory), Entry(d + "/" + d, 1, d, Directory), Entry(d + "/" + d + "/" + f, 2, f, File)]
  }

  lemma NestedSecond(v: string, q: string, d: string)
    requires '/' !in d
    ensures InsertEntry(DirectoryNode("root-" + v, v, [DirectoryNode(q, d, [])]), Entry(d + "/" + d, 1, d, Directory))
      == Success(DirectoryNode("root-" + v, v, [DirectoryNode(q, d, [DirectoryNode(d + "/" + d, d, [])])]))
  {
    var t1 := DirectoryNode("root-" + v, v, [DirectoryNode(q, d, [])]);
    var e := Entry(d + "/" + d, 1, d, Directory);
    ParentOfTwo(d, d);
    WalkOne(t1, d, 0);
    AttachAt(t1, e, [0]);
    assert [0][1..] == [];
    assert AppendAt(t1.children[0], [], NewNode(e)) == DirectoryNode(q, d, [] + [NewNode(e)]);
    assert [] + [NewNode(e)] == [DirectoryNode(d + "/" + d, d, [])];
    assert ParentOf(t1, e) == Some([0]);
    assert NodeAt(t1, [0]).DirectoryNode?;
    assert InsertEntry(t1, e) == Success(AppendAt(t1, [0], NewNode(e)));
    assert AppendAt(t1, [0], NewNode(e)) == DirectoryNode("root-" + v, v, [DirectoryNode(q, d, [DirectoryNode(d + "/" + d, d, [])])]);
  }

  lemma NestedThird(v: string, q: string, d: string, f: string)
    requires '/' !in d && '/' !in f
    ensures InsertEntry(DirectoryNode("root-" + v, v, [DirectoryNode(q, d, [DirectoryNode(d + "/" + d, d, [])])]),
                        Entry(d + "/" + d + "/" + f, 2, f, File))
      == Success(DirectoryNode("root-" + v, v, [DirectoryNode(q, d, [DirectoryNode(d + "/" + d, d, [FileNode(d + "/" + d + "/" + f, f)])])]))
  {
    var t2 := DirectoryNode("root-" + v, v, [DirectoryNode(q, d, [DirectoryNode(d + "/" + d, d, [])])]);
    var e := Entry(d + "/" + d + "/" + f, 2, f, File);
    ParentOfThree(d, d, f);
    WalkTwo(t2, d, d, 0, 0);
    AttachAt(t2, e, [0, 0]);
    assert [0, 0][1..] == [0] && [0][1..] == [];
    var c := t2.children[0].children[0];
    assert AppendAt(c, [], NewNode(e)) == DirectoryNode(d + "/" + d, d, [] + [NewNode(e)]);
    assert [] + [NewNode(e)] == [FileNode(d + "/" + d + "/" + f, f)];
    assert AppendAt(t2.children[0], [0], NewNode(e)) == DirectoryNode(q, d, [AppendAt(c, [], NewNode(e))]);
    assert ParentOf(t2, e) == Some([0, 0]);
    assert NodeAt(t2, [0, 0]).DirectoryNode?;
    assert InsertEntry(t2, e) == Success(AppendAt(t2, [0, 0], NewNode(e)));
    assert AppendAt(t2, [0, 0], NewNode(e)) == t2.(children := [AppendAt(t2.children[0], [0], NewNode(e))]);
  }

  /** A depth-2 entry is found through two directories of the same name. */
  lemma WalkTraversesLevels(v: string, q: string, d: string, f: string)
    requires '/' !in d && '/' !in f
    ensures Built(v, Nested(q, d, f))
      == Success(DirectoryNode("root-" + v, v,
           [DirectoryNode(q, d, [DirectoryNode(d + "/" + d, d, [FileNode(d + "/" + d + "/" + f, f)])])]))
  {
    var es := Nested(q, d, f);
    assert DepthSorted(es);
    DepthOrderOfSortedInput(es);
    var t1 := DirectoryNode("root-" + v, v, [DirectoryNode(q, d, [])]);
    FirstAtTop(v, es[0]);
    InsertAllCons(RootNode(v), es, t1);
    NestedTail(v, q, d, f);
  }

  /** The second and third entries of `Nested` land in the directory chain under the first. */
  lemma NestedTail(v: string, q: string, d: string, f: string)
    requires '/' !in d && '/' !in f
    ensures InsertAll(DirectoryNode("root-" + v, v, [DirectoryNode(q, d, [])]), Nested(q, d, f)[1..])
      == Success(DirectoryNode("root-" + v, v,
           [DirectoryNode(q, d, [DirectoryNode(d + "/" + d, d, [FileNode(d + "/" + d + "/" + f, f)])])]))
  {
    var es := Nested(q, d, f);
    var t1 := DirectoryNode("root-" + v, v, [DirectoryNode(q, d, [])]);
    var t2 := DirectoryNode("root-" + v, v, [DirectoryNode(q, d, [DirectoryNode(d + "/" + d, d, [])])]);
    var t3 := DirectoryNode("root-" + v, v, [DirectoryNode(q, d, [DirectoryNode(d + "/" + d, d, [FileNode(d + "/" + d + "/" + f, f)])])]);
    NestedSecond(v, q, d);
    InsertAllCons(t1, es[1..], t2);
    NestedThird(v, q, d, f);
    assert es[1..][1..] == [es[2]];
    InsertAllCons(t2, [es[2]], t3);
  }

  /** Files and empty directories are left as they are by SortTree. */
  lemma {:induction false} SortAllLeaves(ns: seq<TreeNode>)
    requires forall i :: 0 <= i < |ns| ==> ns[i].FileNode? || ns[i].children == []
    ensures SortAll(ns) == ns
  {
    if ns != [] {
      SortAllLeaves(ns[1..]);
      assert SortTree(ns[0]) == ns[0];
      assert ns == [ns[0]] + ns[1..];
    }
  }

  lemma SortOne(x: TreeNode)
    ensures SortNodes([x]) == [x]
  {
    assert [x][1..] == [];
  }

  /** Two nodes end up in Before order whatever order they came in. */
  lemma SortTwo(x: TreeNode, y: TreeNode)
    requires Before(x, y)
    ensures SortNodes([y, x]) == [x, y] && SortNodes([x, y]) == [x, y]
  {
    SortOne(x);
    SortOne(y);
    assert [y, x][1..] == [x] && [x, y][1..] == [y];
    BeforeAsymmetric(x, y);
    assert InsertSorted(y, []) == [y];
    assert InsertSorted(y, [x]) == [x] + InsertSorted(y, [x][1..]);
  }

  /** Three nodes given in the reverse of Before order end up in Before order. */
  lemma SortThreeReversed(x: TreeNode, y: TreeNode, z: TreeNode)
    requires Before(x, y) && Before(y, z) && Before(x, z)
    ensures SortNodes([z, y, x]) == [x, y, z]
  {
    SortTwo(x, y);
    assert [z, y, x][1..] == [y, x];
    assert [x, y][1..] == [y] && [y][1..] == [];
    assert InsertSorted(z, []) == [z];
    assert InsertSorted(z, [y]) == [y] + InsertSorted(z, []);
    assert InsertSorted(z, [x, y]) == [x] + InsertSorted(z, [y]);
  }

  /** The last two of three Before-ordered nodes swap back into place. */
  lemma SortThreeLastSwapped(x: TreeNode, y: TreeNode, z: TreeNode)
    requires Before(x, y) && Before(y, z) && Before(x, z)
    ensures SortNodes([x, z, y]) == [x, y, z]
  {
    SortTwo(y, z);
    assert [x, z, y][1..] == [z, y];
    BeforeAsymmetric(x, y);
    assert InsertSorted(x, [y, z]) == [x, y, z];
  }

  lemma Letters()
    ensures LexLess("A", "B") && LexLess("B", "C") && LexLess("A", "C")
  {
    assert "A"[0] == 'A' && "B"[0] == 'B' && "C"[0] == 'C';
  }

  /** Sorting a built top-level tree sorts the root's children. */
  lemma SortedTopLevel(v: string, es: seq<Entry>)
    requires forall i :: 0 <= i < |es| ==> es[i].depth == 0
    ensures Built(v, es).Success?
    ensures SortTree(Built(v, es).value) == DirectoryNode("root-" + v, v, SortNodes(NewNodes(es)))
  {
    BuiltTopLevel(v, es);
    NewNodesAt(es);
    SortAllLeaves(NewNodes(es));
  }

  /** Directories come before files at the top level. */
  lemma SortsDirectoriesFirst(v: string, pb: string, pa: string, pc: string)
    ensures var t := Built(v, [Entry(pb, 0, "B", Directory), Entry(pa, 0, "A", File), Entry(pc, 0, "C", Directory)]);
      t.Success? && SortTree(t.value) == DirectoryNode("root-" + v, v, [DirectoryNode(pb, "B", []), DirectoryNode(pc, "C", []), FileNode(pa, "A")])
  {
    var es := [Entry(pb, 0, "B", Directory), Entry(pa, 0, "A", File), Entry(pc, 0, "C", Directory)];
    var a, b, c := FileNode(pa, "A"), DirectoryNode(pb, "B", []), DirectoryNode(pc, "C", []);
    SortedTopLevel(v, es);
    NewNodesAt(es);
    assert NewNodes(es) == [b, a, c];
    Letters();
    assert Before(b, c);
    assert Before(c, a) && Before(b, a);
    SortThreeLastSwapped(b, c, a);
  }

  /** Files are sorted by name. */
  lemma SortsFilesAlphabetically(v: string, pc: string, pb: string, pa: string)
    ensures var t := Built(v, [Entry(pc, 0, "C", File), Entry(pb, 0, "B", File), Entry(pa, 0, "A", File)]);
      t.Success? && SortTree(t.value) == DirectoryNode("root-" + v, v, [FileNode(pa, "A"), FileNode(pb, "B"), FileNode(pc, "C")])
  {
    var es := [Entry(pc, 0, "C", File), Entry(pb, 0, "B", File), Entry(pa, 0, "A", File)];
    var a, b, c := FileNode(pa, "A"), FileNode(pb, "B"), FileNode(pc, "C");
    SortedTopLevel(v, es);
    NewNodesAt(es);
    assert NewNodes(es) == [c, b, a];
    Letters();
    SortThreeReversed(a, b, c);
  }

  /** Directories are sorted by name. */
  lemma SortsDirectoriesAlphabetically(v: string, pb: string, pa: string)
    ensures var t := Built(v, [Entry(pb, 0, "B", Directory), Entry(pa, 0, "A", Directory)]);
      t.Success? && SortTree(t.value) == DirectoryNode("root-" + v, v, [DirectoryNode(pa, "A", []), DirectoryNode(pb, "B", [])])
  {
    var es := [Entry(pb, 0, "B", Directory), Entry(pa, 0, "A", Directory)];
    var a, b := DirectoryNode(pa, "A", []), DirectoryNode(pb, "B", []);
    SortedTopLevel(v, es);
    NewNodesAt(es);
    assert NewNodes(es) == [b, a];
    Letters();
    SortTwo(a, b);
  }

  /** Sorting reaches the children of a directory. */
  lemma SortsRecursively(v: string)
    ensures var t := Built(v, [Entry("parent", 0, "parent", Directory), Entry("parent" + "/" + "B", 1, "B", File), Entry("parent" + "/" + "A", 1, "A", File)]);
      t.Success? && SortTree(t.value) == DirectoryNode("root-" + v, v, [DirectoryNode("parent", "parent", [FileNode("parent" + "/" + "A", "A"), FileNode("parent" + "/" + "B", "B")])])
  {
    var es := [Entry("parent", 0, "parent", Directory), Entry("parent" + "/" + "B", 1, "B", File), Entry("parent" + "/" + "A", 1, "A", File)];
    var a, b := FileNode("parent" + "/" + "A", "A"), FileNode("parent" + "/" + "B", "B");
    BuiltParentWithTwo(v, "parent", es);
    assert NewNode(es[1]) == b && NewNode(es[2]) == a;
    SortedInOnlyChild(v, [b, a]);
    SortAllLeaves([b, a]);
    Letters();
    SortTwo(a, b);
  }

  /** Directories come first inside a directory too. */
  lemma SortsDirectoriesFirstInChild(v: string)
    ensures var t := Built(v, [Entry("parent", 0, "parent", Directory), Entry("parent" + "/" + "B", 1, "B", Directory), Entry("parent" + "/" + "A", 1, "A", File)]);
      t.Success? && SortTree(t.value) == DirectoryNode("root-" + v, v, [DirectoryNode("parent", "parent", [DirectoryNode("parent" + "/" + "B", "B", []), FileNode("parent" + "/" + "A", "A")])])
  {
    var es := [Entry("parent", 0, "parent", Directory), Entry("parent" + "/" + "B", 1, "B", Directory), Entry("parent" + "/" + "A", 1, "A", File)];
    var a, b := FileNode("parent" + "/" + "A", "A"), DirectoryNode("parent" + "/" + "B", "B", []);
    BuiltParentWithTwo(v, "parent", es);
    assert NewNode(es[1]) == b && NewNode(es[2]) == a;
    SortedInOnlyChild(v, [b, a]);
    SortAllLeaves([b, a]);
    SortTwo(b, a);
  }

  /** Sorting a root with one directory child sorts that child's children. */
  lemma SortedInOnlyChild(v: string, ns: seq<TreeNode>)
    ensures var t := DirectoryNode("root-" + v, v, [DirectoryNode("parent", "parent", ns)]);
      SortTree(t) == DirectoryNode("root-" + v, v, [DirectoryNode("parent", "parent", SortNodes(SortAll(ns)))])
  {
    var p := DirectoryNode("parent", "parent", ns);
    assert [p][1..] == [];
    assert SortAll([p]) == [SortTree(p)];
    SortOne(SortTree(p));
  }

  /** An entry `p/name` at depth 1 is appended to the root's only child `p`. */
  lemma IntoOnlyChild(v: string, p: string, ns: seq<TreeNode>, e: Entry)
    requires '/' !in p && '/' !in e.filename
    requires e.depth == 1 && e.path == p + "/" + e.filename
    ensures InsertEntry(DirectoryNode("root-" + v, v, [DirectoryNode(p, p, ns)]), e)
      == Success(DirectoryNode("root-" + v, v, [DirectoryNode(p, p, ns + [NewNode(e)])]))
  {
    var t := DirectoryNode("root-" + v, v, [DirectoryNode(p, p, ns)]);
    ParentOfTwo(p, e.filename);
    WalkOne(t, p, 0);
    AttachAt(t, e, [0]);
    assert [0][1..] == [];
    assert AppendAt(t.children[0], [], NewNode(e)) == DirectoryNode(p, p, ns + [NewNode(e)]);
    assert AppendAt(t, [0], NewNode(e)) == t.(children := [AppendAt(t.children[0], [], NewNode(e))]);
  }

  /** One directory `p` at depth 0 and two entries inside it, in input order. */
  lemma BuiltParentWithTwo(v: string, p: string, es: seq<Entry>)
    requires '/' !in p
    requires |es| == 3 && es[0] == Entry(p, 0, p, Directory)
    requires es[1].depth == 1 && es[2].depth == 1
    requires es[1].path == p + "/" + es[1].filename && '/' !in es[1].filename
    requires es[2].path == p + "/" + es[2].filename && '/' !in es[2].filename
    ensures Built(v, es) == Success(DirectoryNode("root-" + v, v,
      [DirectoryNode(p, p, [NewNode(es[1]), NewNode(es[2])])]))
  {
    assert DepthSorted(es);
    DepthOrderOfSortedInput(es);
    var t1 := DirectoryNode("root-" + v, v, [DirectoryNode(p, p, [])]);
    FirstAtTop(v, es[0]);
    InsertAllCons(RootNode(v), es, t1);
    assert es[1..] == [es[1], es[2]];
    TwoIntoOnlyChild(v, p, es[1], es[2]);
  }

  /** Two depth-1 entries under the only top-level directory land there, in order. */
  lemma TwoIntoOnlyChild(v: string, p: string, a: Entry, b: Entry)
    requires '/' !in p
    requires a.depth == 1 && a.path == p + "/" + a.filename && '/' !in a.filename
    requires b.depth == 1 && b.path == p + "/" + b.filename && '/' !in b.filename
    ensures InsertAll(DirectoryNode("root-" + v, v, [DirectoryNode(p, p, [])]), [a, b])
      == Success(DirectoryNode("root-" + v, v, [DirectoryNode(p, p, [NewNode(a), NewNode(b)])]))
  {
    var t1 := DirectoryNode("root-" + v, v, [DirectoryNode(p, p, [])]);
    var t2 := DirectoryNode("root-" + v, v, [DirectoryNode(p, p, [NewNode(a)])]);
    var t3 := DirectoryNode("root-" + v, v, [DirectoryNode(p, p, [NewNode(a), NewNode(b)])]);
    IntoOnlyChild(v, p, [], a);
    assert [] + [NewNode(a)] == [NewNode(a)];
    InsertAllCons(t1, [a, b], t2);
    IntoOnlyChild(v, p, [NewNode(a)], b);
    assert [NewNode(a)] + [NewNode(b)] == [NewNode(a), NewNode(b)];
    assert [a, b][1..] == [b] && [b][1..] == [];
    InsertAllCons(t2, [b], t3);
  }
}
