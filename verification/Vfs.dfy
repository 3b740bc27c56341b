/** The in-memory filesystem as it is: directory and file objects linked through `children`. */
module Vfs {
  import opened Text
  import opened Paths
  import opened Sums
  import opened FlatFs
  import opened Chmod

  class VFSFile {
    var content: string
    var mode: Mode
    const charDevice: bool
    var dynamic: bool

    constructor (content: string, mode: Mode, charDevice: bool, dynamic: bool)
      ensures this.content == content && this.mode == mode && this.charDevice == charDevice && this.dynamic == dynamic
    {
      this.content, this.mode, this.charDevice, this.dynamic := content, mode, charDevice, dynamic;
    }
  }

  class VFSDirectory {
    var children: map<string, INode>
    var mode: Mode

    constructor (mode: Mode)
      ensures children == map[] && this.mode == mode
    {
      children, this.mode := map[], mode;
    }
  }

  datatype INode = FileNode(file: VFSFile) | DirNode(dir: VFSDirectory)

  function Object(n: INode): object {
    match n
    case FileNode(f) => f
    case DirNode(d) => d
  }

  ghost function EntryOf(n: INode): Entry
    reads Object(n)
  {
    match n
    case FileNode(f) => FileEntry(f.content, f.mode, f.charDevice, f.dynamic)
    case DirNode(d) => DirEntry(d.mode)
  }

  type Nodes = map<Path, INode>
  type Kids = map<Path, map<string, INode>>

  /** What every directory of the tree links to. */
  ghost function KidsOf(nodes: Nodes): Kids
    reads *
  {
    map p | p in nodes && nodes[p].DirNode? :: nodes[p].dir.children
  }

  /** A place other than the root is filled by the child its parent directory has under that name. */
  ghost predicate Linked(nodes: Nodes, kids: Kids, p: Path)
    requires p in nodes
  {
    p != [] ==>
      var up, name := p[..|p| - 1], p[|p| - 1];
      up in kids && name in kids[up] && kids[up][name] == nodes[p]
  }

  ghost predicate ChildrenKnown(nodes: Nodes, kids: Kids, p: Path)
    requires p in kids
  {
    forall name :: name in kids[p] ==> p + [name] in nodes && nodes[p + [name]] == kids[p][name]
  }

  /** The linked objects form a tree, and `nodes` lists them all by place, each once. */
  ghost predicate WellLinked(root: VFSDirectory, nodes: Nodes, kids: Kids) {
    && [] in nodes && nodes[[]] == DirNode(root)
    && (forall p :: p in kids <==> p in nodes && nodes[p].DirNode?)
    && (forall p {:trigger Linked(nodes, kids, p)} :: p in nodes ==> Linked(nodes, kids, p))
    && (forall p {:trigger ChildrenKnown(nodes, kids, p)} :: p in kids ==> ChildrenKnown(nodes, kids, p))
    && (forall p, q :: p in nodes && q in nodes && nodes[p] == nodes[q] ==> p == q)
  }

  ghost predicate TreeOf(root: VFSDirectory, nodes: Nodes)
    reads *
  {
    WellLinked(root, nodes, KidsOf(nodes))
  }

  /** A name is free in a directory exactly when its place is free in the tree. */
  lemma PlaceOfName(root: VFSDirectory, nodes: Nodes, kids: Kids, at: Path, name: string)
    requires WellLinked(root, nodes, kids) && at in kids
    ensures at + [name] in nodes <==> name in kids[at]
    ensures name in kids[at] ==> nodes[at + [name]] == kids[at][name]
  {
    var p := at + [name];
    assert p[..|p| - 1] == at && p[|p| - 1] == name;
    assert p in nodes ==> Linked(nodes, kids, p);
    assert ChildrenKnown(nodes, kids, at);
  }

  /** No other place holds the same object. */
  ghost predicate OnlyAt(nodes: Nodes, at: Path)
    requires at in nodes
  {
    forall q :: q in nodes && nodes[q] == nodes[at] ==> q == at
  }

  lemma EveryPlaceIsOnly(root: VFSDirectory, nodes: Nodes, kids: Kids, at: Path)
    requires WellLinked(root, nodes, kids) && at in nodes
    ensures OnlyAt(nodes, at)
  {
  }

  /** The links after adding a node under a free name. */
  ghost function LinkedKids(kids: Kids, at: Path, name: string, node: INode): Kids
    requires at in kids
  {
    var more := kids[at := kids[at][name := node]];
    if node.DirNode? then more[at + [name] := map[]] else more
  }

  lemma PlaceSplits(q: Path)
    requires q != []
    ensures q == q[..|q| - 1] + [q[|q| - 1]]
  {
  }

  lemma SamePlace(q: Path, other: string, at: Path, name: string)
    requires q + [other] == at + [name]
    ensures q == at && other == name
  {
    assert (q + [other])[..|q|] == q && (at + [name])[..|at|] == at;
    assert (q + [other])[|q|] == other && (at + [name])[|at|] == name;
  }

  lemma LinkedAfterLinking(nodes: Nodes, kids: Kids, at: Path, name: string, node: INode, q: Path)
    requires at in kids && name !in kids[at] && at + [name] !in nodes && at + [name] !in kids
    requires q in nodes ==> Linked(nodes, kids, q)
    requires q in nodes || q == at + [name]
    ensures Linked(nodes[at + [name] := node], LinkedKids(kids, at, name, node), q)
  {
    var p := at + [name];
    if q == p {
      assert p[..|p| - 1] == at && p[|p| - 1] == name && at != p;
    }
  }

  lemma ChildrenAfterLinking(nodes: Nodes, kids: Kids, at: Path, name: string, node: INode, q: Path)
    requires at in kids && name !in kids[at] && at + [name] !in nodes && at + [name] !in kids
    requires q in LinkedKids(kids, at, name, node)
    requires q in kids ==> ChildrenKnown(nodes, kids, q)
    ensures ChildrenKnown(nodes[at + [name] := node], LinkedKids(kids, at, name, node), q)
  {
    var p, kids' := at + [name], LinkedKids(kids, at, name, node);
    assert at != p;
    forall other | other in kids'[q]
      ensures q + [other] in nodes[p := node] && nodes[p := node][q + [other]] == kids'[q][other]
    {
      if q + [other] == p {
        SamePlace(q, other, at, name);
      }
    }
  }

  lemma LinkingKeepsTree(root: VFSDirectory, nodes: Nodes, kids: Kids, at: Path, name: string, node: INode)
    requires WellLinked(root, nodes, kids) && at in kids && name !in kids[at]
    requires forall p :: p in nodes ==> nodes[p] != node
    ensures WellLinked(root, nodes[at + [name] := node], LinkedKids(kids, at, name, node))
  {
    PlaceOfName(root, nodes, kids, at, name);
    var p, nodes', kids' := at + [name], nodes[at + [name] := node], LinkedKids(kids, at, name, node);
    forall q | q in nodes'
      ensures Linked(nodes', kids', q)
    {
      assert q in nodes ==> Linked(nodes, kids, q);
      LinkedAfterLinking(nodes, kids, at, name, node, q);
    }
    forall q | q in kids'
      ensures ChildrenKnown(nodes', kids', q)
    {
      assert q in kids ==> ChildrenKnown(nodes, kids, q);
      ChildrenAfterLinking(nodes, kids, at, name, node, q);
    }
    hide Linked, ChildrenKnown;
  }

  /** The places and links left after a subtree is cut off. */
  ghost function CutNodes(nodes: Nodes, p: Path): Nodes {
    map q | q in nodes && !(p <= q) :: nodes[q]
  }

  ghost function CutKids(kids: Kids, at: Path, name: string): Kids {
    map q | q in kids && !(at + [name] <= q) :: if q == at then kids[q] - {name} else kids[q]
  }

  lemma LinkedAfterCutting(nodes: Nodes, kids: Kids, at: Path, name: string, q: Path)
    requires q in CutNodes(nodes, at + [name]) && Linked(nodes, kids, q)
    ensures Linked(CutNodes(nodes, at + [name]), CutKids(kids, at, name), q)
  {
    if q != [] {
      var p, up := at + [name], q[..|q| - 1];
      PlaceSplits(q);
      assert !(p <= up) by {
        assert up <= q;
      }
      assert up == at ==> q[|q| - 1] != name;
    }
  }

  lemma ChildrenAfterCutting(nodes: Nodes, kids: Kids, at: Path, name: string, q: Path)
    requires q in CutKids(kids, at, name) && ChildrenKnown(nodes, kids, q)
    ensures ChildrenKnown(CutNodes(nodes, at + [name]), CutKids(kids, at, name), q)
  {
    var p, kids' := at + [name], CutKids(kids, at, name);
    forall other | other in kids'[q]
      ensures q + [other] in CutNodes(nodes, p) && nodes[q + [other]] == kids'[q][other]
    {
      assert other in kids[q];
      if p <= q + [other] {
        assert !(p <= q) ==> p == q + [other];
        SamePlace(q, other, at, name);
      }
    }
  }

  lemma UnlinkingKeepsTree(root: VFSDirectory, nodes: Nodes, kids: Kids, at: Path, name: string)
    requires WellLinked(root, nodes, kids) && at in kids && name in kids[at]
    ensures WellLinked(root, CutNodes(nodes, at + [name]), CutKids(kids, at, name))
  {
    var p, nodes', kids' := at + [name], CutNodes(nodes, at + [name]), CutKids(kids, at, name);
    forall q | q in nodes'
      ensures Linked(nodes', kids', q)
    {
      assert Linked(nodes, kids, q);
      LinkedAfterCutting(nodes, kids, at, name, q);
    }
    forall q | q in kids'
      ensures ChildrenKnown(nodes', kids', q)
    {
      assert ChildrenKnown(nodes, kids, q);
      ChildrenAfterCutting(nodes, kids, at, name, q);
    }
    hide Linked, ChildrenKnown;
  }

  ghost function ViewOf(nodes: Nodes): View
    reads *
  {
    map p | p in nodes :: EntryOf(nodes[p])
  }

  lemma ViewIsTree(root: VFSDirectory, nodes: Nodes)
    requires TreeOf(root, nodes)
    ensures Tree(ViewOf(nodes))
  {
    var v := ViewOf(nodes);
    forall p | p in v
      ensures HeldByDirectory(v, p)
    {
      assert Linked(nodes, KidsOf(nodes), p);
    }
  }

  lemma KidsAt(nodes: Nodes, at: Path)
    requires at in nodes && nodes[at].DirNode?
    ensures at in KidsOf(nodes) && KidsOf(nodes)[at] == nodes[at].dir.children
  {
  }

  lemma AddedNode(nodes: Nodes, p: Path, node: INode)
    requires p !in nodes
    ensures ViewOf(nodes[p := node]) == ViewOf(nodes)[p := EntryOf(node)]
    ensures KidsOf(nodes[p := node]) == if node.DirNode? then KidsOf(nodes)[p := node.dir.children] else KidsOf(nodes)
  {
  }

  datatype Resolved = Node(node: INode) | Missing(error: Error)

  class VirtualFileSystem {
    const root: VFSDirectory
    const home: string
    var dynamicBytesUsed: int
    const maxFileSizeBytes: nat
    const maxTotalVfsBytes: nat
    const maxReadChunkBytes: nat
    ghost var nodes: Nodes     // the object at every place of the tree

    ghost predicate Structure()
      reads *
    {
      TreeOf(root, nodes)
    }

    ghost function View(): View
      reads *
    {
      ViewOf(nodes)
    }

    /** The filesystem as a flat map with its quota. */
    ghost function FS(): Fs
      reads *
    {
      Fs(View(), dynamicBytesUsed, maxFileSizeBytes, maxTotalVfsBytes)
    }

    ghost predicate Valid()
      reads *
    {
      Structure() && Sound(FS())
    }

    /** A tree is handed over with the counter at zero, so it must not hold dynamic files. */
    constructor (root: VFSDirectory, ghost nodes: Nodes, home: string, maxFile: nat, maxTotal: nat, maxChunk: nat)
      requires TreeOf(root, nodes)
      requires forall p :: p in nodes ==> DynSize(EntryOf(nodes[p])) == 0
      ensures Valid() && this.home == home && this.nodes == nodes
      ensures maxFileSizeBytes == maxFile && maxTotalVfsBytes == maxTotal && maxReadChunkBytes == maxChunk
    {
      this.root, this.home, this.nodes := root, home, nodes;
      dynamicBytesUsed, maxFileSizeBytes, maxTotalVfsBytes, maxReadChunkBytes := 0, maxFile, maxTotal, maxChunk;
      new;
      ViewIsTree(root, nodes);
      SumZero(Sizes(View()));
    }

    // ---------------------------------------------------------------- reading

    method Resolve(path: string, cwd: string) returns (r: Resolved)
      requires Structure()
      ensures match FlatFs.Resolve(View(), Canonical(path, cwd, home))
              case Found(p) => p in nodes && r == Node(nodes[p])
              case Blocked(e) => r == Missing(e)
    {
      var abs := Canonicalize(path, cwd, home);
      if abs == "/" {
        return Node(DirNode(root));
      }
      var node := DirNode(root);
      var parts := Split(RStrip(LStrip(abs)), SLASH);
      assert parts == Components(abs);
      hide Components, Split, RStrip, LStrip, Canonical;
      for i := 0 to |parts|
        invariant parts[..i] in nodes && node == nodes[parts[..i]]
        invariant FlatFs.Resolve(View(), abs) == Walk(View(), parts, i, abs)
      {
        if !node.DirNode? {
          return Missing(NotADirectory(Render(parts[..i])));
        }
        PlaceOfName(root, nodes, KidsOf(nodes), parts[..i], parts[i]);
        TakeOneMore(parts, i);
        if parts[i] !in node.dir.children {
          return Missing(FileNotFound(abs));
        }
        node := node.dir.children[parts[i]];
      }
      assert parts[..|parts|] == parts;
      r := Node(node);
    }

    /** Open the directory that holds, or would hold, the last name of a canonical path. */
    method OpenParent(abs: string) returns (r: Resolved)
      requires Structure() && IsCanonical(abs) && abs != "/"
      ensures match ParentDir(View(), abs)
              case Found(p) => p in nodes && r == Node(nodes[p]) && nodes[p].DirNode?
              case Blocked(e) => r == Missing(e)
    {
      hide Components, ParentPath, BaseName, IsCanonical, Render;
      var parent := ParentPath(abs);
      r := Resolve(parent, "/");
      ViewIsTree(root, nodes);
      ParentResolvesToItself(abs, home);
      if r.Node? && !r.node.DirNode? {
        r := Missing(NotADirectory(parent));
      }
    }

    method ReadFile(path: string, cwd: string) returns (r: ReadResult)
      requires Structure()
      ensures r == Read(View(), Canonical(path, cwd, home), maxReadChunkBytes)
    {
      var abs := Canonicalize(path, cwd, home);
      var found := Resolve(path, cwd);
      match found {
        case Missing(e) => r := ReadFailed(e);
        case Node(DirNode(_)) => r := ReadFailed(IsADirectory(abs));
        case Node(FileNode(f)) => r := Content(if f.charDevice then DeviceText(abs, maxReadChunkBytes) else f.content);
      }
    }

    // ---------------------------------------------------------------- the three ways the tree changes

    /** directory.children[name] = node, for a name that is free and a node that is new. */
    method Link(dir: VFSDirectory, ghost at: Path, name: string, node: INode)
      requires Structure() && at in nodes && nodes[at] == DirNode(dir) && name !in dir.children
      requires forall p :: p in nodes ==> nodes[p] != node
      requires node.DirNode? ==> node.dir.children == map[]
      modifies this`nodes, dir`children
      ensures Structure() && nodes == old(nodes)[at + [name] := node]
      ensures View() == old(View())[at + [name] := EntryOf(node)]
    {
      hide WellLinked, Linked, ChildrenKnown, ViewOf, KidsOf;
      ghost var kids := KidsOf(nodes);
      KidsAt(nodes, at);
      PlaceOfName(root, nodes, kids, at, name);
      LinkingKeepsTree(root, nodes, kids, at, name, node);
      SetChild(dir, at, name, node);
      RecordNode(at + [name], node);
      AddedNode(old(nodes), at + [name], node);
    }

    /** The bookkeeping of a new place. */
    ghost method RecordNode(p: Path, node: INode)
      modifies this`nodes
      ensures nodes == old(nodes)[p := node]
      ensures ViewOf(old(nodes)) == old(ViewOf(nodes)) && KidsOf(old(nodes)) == old(KidsOf(nodes))
    {
      nodes := nodes[p := node];
    }

    /** Only what this one directory links to changes. */
    method SetChild(dir: VFSDirectory, ghost at: Path, name: string, node: INode)
      requires Structure() && at in nodes && nodes[at] == DirNode(dir)
      requires node.DirNode? ==> node.dir != dir
      modifies dir`children
      ensures dir.children == old(dir.children)[name := node] && View() == old(View())
      ensures KidsOf(nodes) == old(KidsOf(nodes))[at := dir.children]
      ensures node.DirNode? ==> node.dir.children == old(node.dir.children)
    {
      hide WellLinked, Linked, ChildrenKnown;
      EveryPlaceIsOnly(root, nodes, KidsOf(nodes), at);
      dir.children := dir.children[name := node];
    }

    /** A file's fields change; every other place keeps its entry. */
    method Overwrite(file: VFSFile, ghost at: Path, content: string)
      requires Structure() && at in nodes && nodes[at] == FileNode(file)
      modifies file`content, file`dynamic
      ensures Structure()
      ensures View() == old(View())[at := FileEntry(content, file.mode, file.charDevice, true)]
    {
      hide WellLinked;
      EveryPlaceIsOnly(root, nodes, KidsOf(nodes), at);
      file.content := content;
      file.dynamic := true;
      assert KidsOf(nodes) == old(KidsOf(nodes));
    }

    /** del directory.children[name]: the whole subtree leaves the tree. */
    method Unlink(dir: VFSDirectory, ghost at: Path, name: string)
      requires Structure() && at in nodes && nodes[at] == DirNode(dir) && name in dir.children
      modifies this`nodes, dir`children
      ensures Structure()
      ensures View() == Without(old(View()), Subtree(old(View()), at + [name]))
      ensures forall q :: q in nodes ==> q in old(nodes) && nodes[q] == old(nodes)[q]
    {
      hide WellLinked, Linked, ChildrenKnown;
      ghost var p, kids := at + [name], KidsOf(nodes);
      UnlinkingKeepsTree(root, nodes, kids, at, name);
      EveryPlaceIsOnly(root, nodes, kids, at);
      dir.children := dir.children - {name};
      nodes := CutNodes(nodes, p);
      assert !(p <= at);
      assert KidsOf(nodes) == CutKids(kids, at, name);
      assert View() == Without(old(View()), Subtree(old(View()), p));
    }

    // ---------------------------------------------------------------- operations

    /** Take the bytes of a subtree off the counter. The clamp at zero never changes anything. */
    method ReleaseDynamicBytes(node: INode, ghost at: Path)
      requires Structure() && at in nodes && nodes[at] == node
      requires dynamicBytesUsed >= Weight(View(), Subtree(View(), at))
      modifies this`dynamicBytesUsed
      ensures dynamicBytesUsed == old(dynamicBytesUsed) - Weight(View(), Subtree(View(), at))
      ensures View() == old(View()) && Structure()
      decreases |Subtree(View(), at)|
    {
      hide WellLinked, Weight, Subtree, Under;
      ghost var v := View();
      ChildNames(root, nodes, at);
      match node {
        case FileNode(f) =>
          SubtreeWeight(v, at, {});
          WeightOfNothingUnder(v, at);
          FileSize(f);
          if f.dynamic {
            dynamicBytesUsed := dynamicBytesUsed - Utf8Size(f.content);
            dynamicBytesUsed := if dynamicBytesUsed < 0 then 0 else dynamicBytesUsed;
          }
          assert View() == v && KidsOf(nodes) == old(KidsOf(nodes));
        case DirNode(d) =>
          var toVisit := d.children.Keys;
          ghost var visited: set<string> := {};
          SubtreeWeight(v, at, d.children.Keys);
          WeightOfNothingUnder(v, at);
          while toVisit != {}
            invariant visited + toVisit == d.children.Keys && visited !! toVisit
            invariant View() == v && Structure()
            invariant dynamicBytesUsed == old(dynamicBytesUsed) - Weight(v, Under(v, at, visited))
            decreases toVisit
          {
            var name :| name in toVisit;
            var child := d.children[name];
            PlaceOfName(root, nodes, KidsOf(nodes), at, name);
            UnderGrows(v, at, visited, name);
            UnderMonotone(v, at, visited + {name}, d.children.Keys);
            SubtreeOfChildIsSmaller(v, at, name);
            ReleaseDynamicBytes(child, at + [name]);
            toVisit := toVisit - {name};
            visited := visited + {name};
          }
          assert visited == d.children.Keys;
      }
    }

    /** Every object of the tree. */
    ghost function Objects(): set<object>
      reads this
    {
      set p | p in nodes :: Object(nodes[p])
    }

    /** The effect of an operation on the flat map, and its outcome, are the specified ones. */
    twostate predicate Did(op: Op, status: Status)
      reads *
    {
      [] in old(View()) && (FS(), status) == Apply(old(FS()), op)
    }

    /** Charge the counter for new content, or refuse. */
    method AccountWrite(existing: VFSFile?, content: string) returns (status: Status)
      modifies this`dynamicBytesUsed
      ensures (dynamicBytesUsed, status) ==
                Account(old(FS()), if existing != null && existing.dynamic then Utf8Size(existing.content) else 0, content)
    {
      var newBytes := Utf8Size(content);
      if newBytes > maxFileSizeBytes {
        return Failed(FileTooLarge);
      }
      var oldCounted := 0;
      if existing != null && existing.dynamic {
        oldCounted := Utf8Size(existing.content);
      }
      var projected := dynamicBytesUsed - oldCounted + newBytes;
      if projected > maxTotalVfsBytes {
        return Failed(NoSpace);
      }
      dynamicBytesUsed := projected;
      status := Done;
    }

    method Touch(path: string, cwd: string) returns (status: Status)
      requires Valid()
      modifies this, Objects()
      ensures Valid() && Did(Op.Touch(Canonical(path, cwd, home)), status)
      ensures fresh(Objects() - old(Objects()))
    {
      hide Canonical, IsCanonical, Components, ParentPath, BaseName, Render, FlatFs.Resolve, QuotaOk, WellLinked;
      var abs := Canonicalize(path, cwd, home);
      CanonicalIsCanonical(path, cwd, home);
      ApplyKeepsSound(FS(), Op.Touch(abs));
      if abs == "/" {
        return Done;
      }
      var parent := OpenParent(abs);
      if parent.Missing? {
        return Failed(parent.error);
      }
      var dir, name := parent.node.dir, BaseName(abs);
      ghost var at := ParentDir(View(), abs).at;
      PlaceOfName(root, nodes, KidsOf(nodes), at, name);
      if name in dir.children {
        return Done;
      }
      var file := new VFSFile("", FILE_MODE, false, false);
      Link(dir, at, name, FileNode(file));
      status := Done;
    }

    method WriteFile(path: string, content: string, cwd: string, append: bool) returns (status: Status)
      requires Valid()
      modifies this, Objects()
      ensures Valid() && Did(Op.WriteFile(Canonical(path, cwd, home), content, append), status)
      ensures fresh(Objects() - old(Objects()))
    {
      hide Canonical, IsCanonical, Components, ParentPath, BaseName, Render, FlatFs.Resolve, QuotaOk, WellLinked, Utf8Size;
      var abs := Canonicalize(path, cwd, home);
      CanonicalIsCanonical(path, cwd, home);
      ApplyKeepsSound(FS(), Op.WriteFile(abs, content, append));
      if abs == DEV_NULL {
        return Done;
      }
      if abs == "/" {
        return Failed(IsADirectory("/"));
      }
      var parent := OpenParent(abs);
      if parent.Missing? {
        return Failed(parent.error);
      }
      status := WriteIn(parent.node.dir, ParentDir(View(), abs).at, BaseName(abs), abs, content, append);
    }

    /** The part of a write that follows once its directory is known. */
    method WriteIn(dir: VFSDirectory, ghost at: Path, name: string, abs: string, content: string, append: bool) returns (status: Status)
      requires Structure() && at in nodes && nodes[at] == DirNode(dir)
      modifies this, Objects()
      ensures Structure() && (FS(), status) == WriteAt(old(FS()), at + [name], abs, content, append)
      ensures fresh(Objects() - old(Objects()))
    {
      hide WellLinked, Utf8Size;
      PlaceOfName(root, nodes, KidsOf(nodes), at, name);
      if name in dir.children {
        var existing := dir.children[name];
        if existing.DirNode? {
          return Failed(IsADirectory(abs));
        }
        var file := existing.file;
        if file.charDevice {
          return Done;
        }
        var newContent := if append then file.content + content else content;
        FileSize(file);
        ghost var before := View();
        status := AccountWrite(file, newContent);
        assert View() == before && KidsOf(nodes) == old(KidsOf(nodes));
        if status.Failed? {
          return;
        }
        Overwrite(file, at + [name], newContent);
        return;
      }
      ghost var before := View();
      status := AccountWrite(null, content);
      assert View() == before && KidsOf(nodes) == old(KidsOf(nodes));
      if status.Failed? {
        return;
      }
      var created := new VFSFile(content, FILE_MODE, false, true);
      Link(dir, at, name, FileNode(created));
    }

    method Mkdir(path: string, cwd: string, parents: bool, mode: Mode) returns (status: Status)
      requires Valid()
      modifies this, Objects()
      ensures Valid() && Did(Op.Mkdir(Canonical(path, cwd, home), parents, mode), status)
      ensures fresh(Objects() - old(Objects()))
    {
      hide Canonical, IsCanonical, DoMkdir, DoMkdirParents, QuotaOk, WellLinked;
      var abs := Canonicalize(path, cwd, home);
      CanonicalIsCanonical(path, cwd, home);
      ApplyKeepsSound(FS(), Op.Mkdir(abs, parents, mode));
      RootIsNode(root, nodes);
      if parents && abs == "/" {
        return Done;
      }
      if parents {
        status := MakeAll(abs, mode);
      } else {
        status := MakeOne(abs, mode);
      }
    }

    method MakeOne(abs: string, mode: Mode) returns (status: Status)
      requires Structure() && IsCanonical(abs) && [] in View()
      modifies this`nodes, Objects()
      ensures Structure() && (FS(), status) == DoMkdir(old(FS()), abs, mode)
      ensures fresh(Objects() - old(Objects()))
    {
      hide IsCanonical, Components, ParentPath, BaseName, Render, FlatFs.Resolve, WellLinked;
      if abs == "/" {
        return Failed(FileExists("/"));
      }
      var parent := OpenParent(abs);
      if parent.Missing? {
        return Failed(parent.error);
      }
      var dir, name := parent.node.dir, BaseName(abs);
      ghost var at := ParentDir(View(), abs).at;
      PlaceOfName(root, nodes, KidsOf(nodes), at, name);
      if name in dir.children {
        return Failed(FileExists(abs));
      }
      var created := new VFSDirectory(mode);
      Link(dir, at, name, DirNode(created));
      status := Done;
    }

    /** mkdir -p: walk down, making what is missing on the way. */
    method MakeAll(abs: string, mode: Mode) returns (status: Status)
      requires Structure() && abs != "/"
      modifies this`nodes, Objects()
      ensures Structure() && (FS(), status) == DoMkdirParents(old(FS()), abs, mode)
      ensures fresh(Objects() - old(Objects()))
    {
      var parts := Split(RStrip(LStrip(abs)), SLASH);
      assert parts == Components(abs);
      hide Components, Split, RStrip, LStrip, Render, Fill, Tree, Existing, ViewOf, TreeOf, EntryOf, Underway;
      ghost var v := View();
      RootIsNode(root, nodes);
      assert parts[..0] == [];
      ghost var n := Existing(v, parts, 0);
      WalkStarts(parts, mode);
      var node, i := MakeDown(parts, v, n, mode);
      StoppedAtExisting(v, n, parts, i, node, mode);
      FillAll(View(), parts, mode);
      if !node.DirNode? {
        return Failed(if i < |parts| then NotADirectory(Render(parts[..i])) else FileExists(abs));
      }
      status := Done;
    }

    /** The walk itself: it ends at the last name, or on a file in the way. */
    method MakeDown(parts: Path, ghost v: View, ghost n: nat, mode: Mode) returns (node: INode, i: nat)
      requires Structure() && n <= |parts| && Underway(v, n, parts, 0, DirNode(root), mode)
      modifies this`nodes, Objects()
      ensures i <= |parts| && Underway(v, n, parts, i, node, mode) && (i < |parts| ==> !node.DirNode?)
      ensures fresh(Objects() - old(Objects()))
    {
      hide Fill, Tree, ViewOf, TreeOf, EntryOf, Underway;
      node, i := DirNode(root), 0;
      while i < |parts| && node.DirNode?
        invariant i <= |parts| && Underway(v, n, parts, i, node, mode)
        invariant forall p :: p in nodes ==> Object(nodes[p]) in old(Objects()) || fresh(Object(nodes[p]))
      {
        StoppedAtExisting(v, n, parts, i, node, mode);
        assert node.dir in old(Objects()) || fresh(node.dir) by {
          assert Object(node) == Object(nodes[parts[..i]]);
        }
        node := Descend(node.dir, v, n, parts, i, mode);
        i := i + 1;
      }
    }

    /**
     * Walking down `parts` with mkdir -p: on the part that existed nothing has changed; beyond it we stand
     * on a new, empty directory, and filling in the rest gives what filling in everything would have given.
     */
    ghost predicate Underway(v: View, n: nat, parts: Path, i: nat, node: INode, mode: Mode)
      requires n <= |parts| && i <= |parts|
      reads *
    {
      && Structure() && Tree(v) && parts[..n] in v
      && (n < |parts| ==> parts[..n + 1] !in v)
      && parts[..i] in nodes && nodes[parts[..i]] == node
      && (i <= n ==> View() == v)
      && (i > n ==>
            && node.DirNode? && node.dir.children == map[] && v[parts[..n]].DirEntry?
            && Fill(View(), parts, i, mode) == Fill(v, parts, n, mode))
    }

    lemma WalkStarts(parts: Path, mode: Mode)
      requires Structure() && parts[..0] == [] && [] in View()
      ensures Underway(View(), Existing(View(), parts, 0), parts, 0, DirNode(root), mode)
    {
      hide Fill, Tree;
      ViewIsTree(root, nodes);
      RootIsNode(root, nodes);
    }

    /** Where the walk stands on a file, it stands at the end of the part that existed. */
    lemma StoppedAtExisting(v: View, n: nat, parts: Path, i: nat, node: INode, mode: Mode)
      requires n <= |parts| && i <= |parts| && Underway(v, n, parts, i, node, mode)
      ensures Structure() && parts[..i] in nodes && nodes[parts[..i]] == node
      ensures !node.DirNode? ==> i == n && View() == v && v[parts[..n]].FileEntry?
      ensures node.DirNode? && (i == n || i == |parts|) ==> v[parts[..n]].DirEntry?
      ensures i == |parts| && node.DirNode? ==> Fill(View(), parts, i, mode) == Fill(v, parts, n, mode)
    {
      hide Fill;
      ExistingIsDirectories(v, parts, n, i);
      if i == |parts| && i < n {
        assert false;
      }
    }

    /** One step of that walk. */
    method Descend(dir: VFSDirectory, ghost v: View, ghost n: nat, parts: Path, i: nat, mode: Mode) returns (next: INode)
      requires n <= |parts| && i < |parts| && Underway(v, n, parts, i, DirNode(dir), mode)
      modifies this`nodes, dir`children
      ensures Underway(v, n, parts, i + 1, next, mode)
      ensures forall p :: p in nodes ==> (p in old(nodes) && nodes[p] == old(nodes)[p]) || fresh(Object(nodes[p]))
    {
      hide ViewOf, TreeOf, EntryOf, Fill, Tree;
      assert parts[..i + 1] == parts[..i] + [parts[i]];
      ExistingIsDirectories(v, parts, n, i);
      KindsMatch(nodes);
      FillStep(View(), parts, i, mode);
      PlaceInView(root, nodes, parts[..i], parts[i]);
      next := Enter(dir, parts[..i], parts[i], mode);
      assert parts[..i][..i] == parts[..i];
    }

    /** One name down, making a directory if there is nothing of that name. */
    method Enter(dir: VFSDirectory, ghost at: Path, name: string, mode: Mode) returns (next: INode)
      requires Structure() && at in nodes && nodes[at] == DirNode(dir)
      modifies this`nodes, dir`children
      ensures Structure() && at + [name] in nodes && nodes[at + [name]] == next
      ensures at + [name] in old(View()) ==> View() == old(View()) && nodes == old(nodes)
      ensures at + [name] !in old(View()) ==>
                && View() == old(View())[at + [name] := DirEntry(mode)] && nodes == old(nodes)[at + [name] := next]
                && next.DirNode? && fresh(next.dir) && next.dir.children == map[]
    {
      hide WellLinked;
      PlaceOfName(root, nodes, KidsOf(nodes), at, name);
      if name !in dir.children {
        var created := new VFSDirectory(mode);
        next := DirNode(created);
        Link(dir, at, name, next);
      } else {
        next := dir.children[name];
      }
    }

    method Remove(path: string, cwd: string, recursive: bool, force: bool) returns (status: Status)
      requires Valid()
      modifies this, Objects()
      ensures Valid() && Did(Op.Remove(Canonical(path, cwd, home), recursive, force), status)
      ensures fresh(Objects() - old(Objects()))
    {
      hide Canonical, IsCanonical, Components, ParentPath, BaseName, Render, FlatFs.Resolve, QuotaOk, WellLinked, Weight, Subtree, Without;
      var abs := Canonicalize(path, cwd, home);
      CanonicalIsCanonical(path, cwd, home);
      ApplyKeepsSound(FS(), Op.Remove(abs, recursive, force));
      if abs == "/" {
        return Failed(NotEmpty);
      }
      var parent := OpenParent(abs);
      if parent.Missing? {
        return if parent.error.FileNotFound? && force then Done else Failed(parent.error);
      }
      var dir, name := parent.node.dir, BaseName(abs);
      ghost var at := ParentDir(View(), abs).at;
      PlaceOfName(root, nodes, KidsOf(nodes), at, name);
      if name !in dir.children {
        return if force then Done else Failed(FileNotFound(abs));
      }
      var node := dir.children[name];
      if node.DirNode? && !recursive {
        return Failed(IsADirectory(abs));
      }
      CounterIsExact(FS());
      EraseChild(dir, at, name);
      status := Done;
    }

    method Rmdir(path: string, cwd: string) returns (status: Status)
      requires Valid()
      modifies this, Objects()
      ensures Valid() && Did(Op.Rmdir(Canonical(path, cwd, home)), status)
      ensures fresh(Objects() - old(Objects()))
    {
      hide Canonical, IsCanonical, Components, ParentPath, BaseName, Render, FlatFs.Resolve, QuotaOk, WellLinked, Weight, Subtree, Without, Children;
      var abs := Canonicalize(path, cwd, home);
      CanonicalIsCanonical(path, cwd, home);
      ApplyKeepsSound(FS(), Op.Rmdir(abs));
      if abs == "/" {
        return Failed(NotEmpty);
      }
      var parent := OpenParent(abs);
      if parent.Missing? {
        return Failed(parent.error);
      }
      var dir, name := parent.node.dir, BaseName(abs);
      ghost var at := ParentDir(View(), abs).at;
      PlaceOfName(root, nodes, KidsOf(nodes), at, name);
      if name !in dir.children {
        return Failed(FileNotFound(abs));
      }
      var node := dir.children[name];
      if !node.DirNode? {
        return Failed(NotADirectory(abs));
      }
      EmptyHasNoChildren(root, nodes, at + [name]);
      if node.dir.children != map[] {
        return Failed(NotEmpty);
      }
      CounterIsExact(FS());
      EraseChild(dir, at, name);
      status := Done;
    }

    method ChangeMode(path: string, spec: string, cwd: string) returns (status: ChmodStatus)
      requires Valid()
      modifies Objects()
      ensures Valid() && nodes == old(nodes) && dynamicBytesUsed == old(dynamicBytesUsed)
      ensures [] in old(View()) && (View(), status) == DoChmod(old(View()), Canonical(path, cwd, home), spec)
    {
      hide Canonical, FlatFs.Resolve, QuotaOk, WellLinked, SpecMasks, Masks.Apply;
      RootIsNode(root, nodes);
      ChmodKeepsSound(FS(), Canonical(path, cwd, home), spec);
      var found := Resolve(path, cwd);
      if found.Missing? {
        return NoTarget(found.error);
      }
      var mode := if found.node.FileNode? then found.node.file.mode else found.node.dir.mode;
      var changed := ApplyChmodMode(mode, spec);
      if changed.None? {
        return BadMode;
      }
      SetMode(found.node, FlatFs.Resolve(View(), Canonical(path, cwd, home)).at, changed.value);
      status := Changed;
    }

    method SetMode(node: INode, ghost at: Path, mode: Mode)
      requires Structure() && at in nodes && nodes[at] == node
      modifies Object(node)
      ensures Structure() && View() == old(View())[at := old(View())[at].(mode := mode)]
    {
      hide WellLinked;
      EveryPlaceIsOnly(root, nodes, KidsOf(nodes), at);
      match node {
        case FileNode(f) => f.mode := mode;
        case DirNode(d) => d.mode := mode;
      }
      assert KidsOf(nodes) == old(KidsOf(nodes));
    }

    /** Release a subtree's bytes, then cut it off. */
    method EraseChild(dir: VFSDirectory, ghost at: Path, name: string)
      requires Structure() && at in nodes && nodes[at] == DirNode(dir) && name in dir.children
      requires dynamicBytesUsed == Sum(Sizes(View()))
      modifies this`nodes, this`dynamicBytesUsed, dir`children
      ensures Structure() && FS() == Erase(old(FS()), at + [name]).0
      ensures forall q :: q in nodes ==> q in old(nodes) && nodes[q] == old(nodes)[q]
    {
      hide WellLinked, Weight, Subtree, Without;
      PlaceOfName(root, nodes, KidsOf(nodes), at, name);
      WeightAtMostAll(View(), Subtree(View(), at + [name]));
      ReleaseDynamicBytes(dir.children[name], at + [name]);
      Unlink(dir, at, name);
    }
  }

  lemma CounterIsExact(fs: Fs)
    requires QuotaOk(fs)
    ensures fs.used == Sum(Sizes(fs.view))
  {
  }

  /** A directory object without children is a place without children. */
  lemma EmptyHasNoChildren(root: VFSDirectory, nodes: Nodes, p: Path)
    requires TreeOf(root, nodes) && p in nodes && nodes[p].DirNode?
    ensures Children(ViewOf(nodes), p) == {} <==> nodes[p].dir.children == map[]
  {
    var kids := KidsOf(nodes);
    forall name | name in nodes[p].dir.children
      ensures p + [name] in Children(ViewOf(nodes), p)
    {
      PlaceOfName(root, nodes, kids, p, name);
    }
    forall q | q in Children(ViewOf(nodes), p)
      ensures q[|p|] in nodes[p].dir.children
    {
      assert Linked(nodes, kids, q);
      assert q[..|q| - 1] == p;
    }
  }

  lemma RootIsNode(root: VFSDirectory, nodes: Nodes)
    requires TreeOf(root, nodes)
    ensures [] in nodes && nodes[[]] == DirNode(root) && [] in ViewOf(nodes)
  {
  }

  lemma PlaceInView(root: VFSDirectory, nodes: Nodes, at: Path, name: string)
    requires TreeOf(root, nodes) && at in nodes && nodes[at].DirNode?
    ensures at + [name] in ViewOf(nodes) <==> name in nodes[at].dir.children
  {
    PlaceOfName(root, nodes, KidsOf(nodes), at, name);
  }

  lemma KindsMatch(nodes: Nodes)
    ensures ViewOf(nodes).Keys == nodes.Keys
    ensures forall p :: p in nodes ==> (ViewOf(nodes)[p].DirEntry? <==> nodes[p].DirNode?)
  {
  }

  lemma FillAll(v: View, parts: Path, mode: Mode)
    ensures Fill(v, parts, |parts|, mode) == v
  {
  }

  /** Short of its existing part, a path runs through directories only. */
  lemma ExistingIsDirectories(v: View, parts: Path, n: nat, i: nat)
    requires Tree(v) && n <= |parts| && parts[..n] in v && i <= |parts|
    ensures i < n ==> parts[..i + 1] in v && parts[..i] in v && v[parts[..i]].DirEntry?
  {
    if i < n {
      PrefixesInTree(v, parts[..n], i);
      PrefixesInTree(v, parts[..n], i + 1);
      assert parts[..n][..i] == parts[..i] && parts[..n][..i + 1] == parts[..i + 1];
    }
  }

  /** Everything below a place is below one of its children. */
  lemma ChildNames(root: VFSDirectory, nodes: Nodes, at: Path)
    requires TreeOf(root, nodes) && at in nodes
    ensures forall q :: q in ViewOf(nodes) && |q| > |at| && at <= q ==>
              nodes[at].DirNode? && q[|at|] in nodes[at].dir.children
  {
    ViewIsTree(root, nodes);
    forall q | q in nodes && |q| > |at| && at <= q
      ensures nodes[at].DirNode? && q[|at|] in nodes[at].dir.children
    {
      var child := q[..|at| + 1];
      PrefixesInTree(ViewOf(nodes), q, |at| + 1);
      assert Linked(nodes, KidsOf(nodes), child);
      assert child[..|child| - 1] == at && child[|child| - 1] == q[|at|];
    }
  }

  lemma WeightOfNothingUnder(v: View, p: Path)
    ensures Weight(v, Under(v, p, {})) == 0
  {
    assert Under(v, p, {}) == {};
    WeightOfNone(v);
  }

  lemma UnderMonotone(v: View, p: Path, a: set<string>, b: set<string>)
    requires a <= b
    ensures Weight(v, Under(v, p, a)) <= Weight(v, Under(v, p, b))
  {
    var inner, outer := Under(v, p, a), Under(v, p, b);
    assert outer == inner + (outer - inner);
    WeightSplits(v, inner, outer - inner);
  }

  lemma FileSize(f: VFSFile)
    ensures DynSize(EntryOf(FileNode(f))) == if f.dynamic then Utf8Size(f.content) else 0
  {
  }

  lemma ParentResolvesToItself(abs: string, home: string)
    requires IsCanonical(abs) && abs != "/"
    ensures Canonical(ParentPath(abs), "/", home) == ParentPath(abs)
  {
    hide ParentPath, BaseName;
    ParentSplitsComponents(abs);
    var names := Components(ParentPath(abs));
    assert IsNormal(names) by {
      assert Components(abs)[..|names|] == names;
    }
    hide Components;
    NamesOfRender(names, "/", home);
  }
}
