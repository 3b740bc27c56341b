/** The filesystem as a flat, prefix-closed map from names to entries, with its quota. */
module FlatFs {
  import opened Text
  import opened Paths
  import opened Sums

  type Mode = bv16

  const FILE_MODE: Mode := 0x1A4   // 0o644

  datatype Entry =
    | FileEntry(content: string, mode: Mode, device: bool, dynamic: bool)
    | DirEntry(mode: Mode)

  type View = map<Path, Entry>

  datatype Error =
    | FileNotFound(path: string)
    | NotADirectory(path: string)
    | IsADirectory(path: string)
    | FileExists(path: string)
    | NotEmpty
    | FileTooLarge
    | NoSpace

  datatype Status = Done | Failed(error: Error)

  datatype Fs = Fs(view: View, used: int, maxFile: nat, maxTotal: nat)

  const DEV_NULL: string := "/dev/null"

  function Utf8Width(c: char): nat {
    var code := c as int;
    if code < 0x80 then 1 else if code < 0x800 then 2 else if code < 0x1_0000 then 3 else 4
  }

  function Utf8Size(content: string): nat {
    if content == "" then 0 else Utf8Width(content[0]) + Utf8Size(content[1..])
  }

  function Power2(n: nat): nat {
    if n == 0 then 1 else 2 * Power2(n - 1)
  }

  /** The payload of a UTF-8 sequence of so many bytes: 7 bits for one byte, then 11, 16 and 21. */
  function PayloadBits(bytes: nat): nat {
    if bytes <= 1 then 7 else 5 * bytes + 1
  }

  /** A character takes the fewest bytes whose payload holds its code; a text takes the sum over its characters. */
  lemma {:induction false} Utf8SizeExactly(c: char, text: string, more: string)
    ensures 1 <= Utf8Width(c) <= 4 && c as int < Power2(PayloadBits(Utf8Width(c)))
    ensures Utf8Width(c) > 1 ==> c as int >= Power2(PayloadBits(Utf8Width(c) - 1))
    ensures Utf8Size([c]) == Utf8Width(c) && Utf8Size("") == 0
    ensures Utf8Size(text + more) == Utf8Size(text) + Utf8Size(more)
    decreases |text|
  {
    Powers();
    assert [c][1..] == "";
    if text == "" {
      assert text + more == more;
    } else {
      assert (text + more)[1..] == text[1..] + more;
      Utf8SizeExactly(c, text[1..], more);
    }
  }

  lemma Powers()
    ensures Power2(7) == 128 && Power2(11) == 2048 && Power2(16) == 65536 && Power2(21) == 2097152
  {
    assert Power2(4) == 16;
    assert Power2(8) == 256;
    assert Power2(12) == 4096;
    assert Power2(20) == 1048576 by {
      assert Power2(16) == 65536;
    }
  }

  // ------------------------------------------------------------------ trees as maps

  ghost predicate HeldByDirectory(v: View, p: Path) {
    p != [] ==> p[..|p| - 1] in v && v[p[..|p| - 1]].DirEntry?
  }

  /** The root is a directory and every other place is held by one: the map is prefix-closed. */
  ghost predicate Tree(v: View) {
    && [] in v && v[[]].DirEntry?
    && forall p {:trigger HeldByDirectory(v, p)} :: p in v ==> HeldByDirectory(v, p)
  }

  ghost function Subtree(v: View, p: Path): set<Path> {
    set q | q in v && p <= q
  }

  ghost function Children(v: View, p: Path): set<Path> {
    set q | q in v && |q| == |p| + 1 && p <= q
  }

  function Without(v: View, gone: set<Path>): View {
    map q | q in v && q !in gone :: v[q]
  }

  // ------------------------------------------------------------------ the quota

  function DynSize(e: Entry): nat {
    if e.FileEntry? && e.dynamic then Utf8Size(e.content) else 0
  }

  ghost function Sizes(v: View): map<Path, nat> {
    map p | p in v :: DynSize(v[p])
  }

  ghost function SizesAt(v: View, places: set<Path>): map<Path, nat> {
    map p | p in v && p in places :: DynSize(v[p])
  }

  /** The bytes of dynamic files at these places. */
  ghost function Weight(v: View, places: set<Path>): nat {
    Sum(SizesAt(v, places))
  }

  /** The counter is exact, within the total limit, and no dynamic file exceeds the file limit. */
  ghost predicate QuotaOk(fs: Fs) {
    && fs.used == Sum(Sizes(fs.view)) <= fs.maxTotal
    && forall p :: p in fs.view ==> DynSize(fs.view[p]) <= fs.maxFile
  }

  ghost predicate Sound(fs: Fs) {
    Tree(fs.view) && QuotaOk(fs)
  }

  // ------------------------------------------------------------------ resolution

  datatype Lookup = Found(at: Path) | Blocked(error: Error)

  /** Walk down from the root, one name at a time. */
  function Walk(v: View, parts: Path, i: nat, abs: string): Lookup
    requires i <= |parts| && parts[..i] in v
    decreases |parts| - i
  {
    if i == |parts| then Found(parts)
    else if !v[parts[..i]].DirEntry? then Blocked(NotADirectory(Render(parts[..i])))
    else if parts[..i + 1] !in v then Blocked(FileNotFound(abs))
    else Walk(v, parts, i + 1, abs)
  }

  function Resolve(v: View, abs: string): Lookup
    requires [] in v
  {
    assert Components(abs)[..0] == [];
    Walk(v, Components(abs), 0, abs)
  }

  /** The directory an operation on abs works in. */
  function ParentDir(v: View, abs: string): Lookup
    requires [] in v
  {
    match Resolve(v, ParentPath(abs))
    case Blocked(e) => Blocked(e)
    case Found(dir) => if dir in v && v[dir].DirEntry? then Found(dir) else Blocked(NotADirectory(ParentPath(abs)))
  }

  // ------------------------------------------------------------------ reading

  datatype ReadResult = Content(text: string) | ReadFailed(error: Error)

  /** What reading the infinite devices and any other character device gives. */
  function DeviceText(abs: string, chunk: nat): string {
    if abs == "/dev/zero" then seq(chunk, _ => '\0')
    else if abs == "/dev/urandom" then seq(chunk, _ => 'U')
    else ""
  }

  function Read(v: View, abs: string, chunk: nat): ReadResult
    requires [] in v
  {
    match Resolve(v, abs)
    case Blocked(e) => ReadFailed(e)
    case Found(p) =>
      if p !in v || v[p].DirEntry? then ReadFailed(IsADirectory(abs))
      else Content(if v[p].device then DeviceText(abs, chunk) else v[p].content)
  }

  // ------------------------------------------------------------------ operations

  datatype Op =
    | WriteFile(abs: string, content: string, append: bool)
    | Touch(abs: string)
    | Mkdir(abs: string, parents: bool, mode: Mode)
    | Remove(abs: string, recursive: bool, force: bool)
    | Rmdir(abs: string)

  /** Account for replacing so many counted bytes by new content, or refuse. */
  function Account(fs: Fs, counted: nat, content: string): (int, Status) {
    var size := Utf8Size(content);
    if size > fs.maxFile then (fs.used, Failed(FileTooLarge))
    else if fs.used - counted + size > fs.maxTotal then (fs.used, Failed(NoSpace))
    else (fs.used - counted + size, Done)
  }

  function Store(fs: Fs, p: Path, counted: nat, entry: Entry): (Fs, Status)
    requires entry.FileEntry?
  {
    var (used, status) := Account(fs, counted, entry.content);
    if status.Done? then (fs.(view := fs.view[p := entry], used := used), Done) else (fs, status)
  }

  /** A file after a write: from now on its bytes count. */
  function Rewritten(e: Entry, content: string, append: bool): (r: Entry)
    requires e.FileEntry?
    ensures r.FileEntry?
  {
    FileEntry(if append then e.content + content else content, e.mode, e.device, true)
  }

  function DoWrite(fs: Fs, abs: string, content: string, append: bool): (Fs, Status)
    requires [] in fs.view
  {
    if abs == DEV_NULL then (fs, Done)
    else if abs == "/" then (fs, Failed(IsADirectory("/")))
    else match ParentDir(fs.view, abs)
      case Blocked(e) => (fs, Failed(e))
      case Found(dir) =>
        WriteAt(fs, dir + [BaseName(abs)], abs, content, append)
  }

  function WriteAt(fs: Fs, p: Path, abs: string, content: string, append: bool): (Fs, Status) {
    if p !in fs.view then Store(fs, p, 0, FileEntry(content, FILE_MODE, false, true))
    else match fs.view[p]
      case DirEntry(_) => (fs, Failed(IsADirectory(abs)))
      case FileEntry(_, _, device, _) =>
        if device then (fs, Done)
        else Store(fs, p, DynSize(fs.view[p]), Rewritten(fs.view[p], content, append))
  }

  function DoTouch(fs: Fs, abs: string): (Fs, Status)
    requires [] in fs.view
  {
    if abs == "/" then (fs, Done)
    else match ParentDir(fs.view, abs)
      case Blocked(e) => (fs, Failed(e))
      case Found(dir) =>
        var p := dir + [BaseName(abs)];
        if p in fs.view then (fs, Done)
        else (fs.(view := fs.view[p := FileEntry("", FILE_MODE, false, false)]), Done)
  }

  function DoMkdir(fs: Fs, abs: string, mode: Mode): (Fs, Status)
    requires [] in fs.view
  {
    if abs == "/" then (fs, Failed(FileExists("/")))
    else match ParentDir(fs.view, abs)
      case Blocked(e) => (fs, Failed(e))
      case Found(dir) =>
        var p := dir + [BaseName(abs)];
        if p in fs.view then (fs, Failed(FileExists(abs)))
        else (fs.(view := fs.view[p := DirEntry(mode)]), Done)
  }

  /** How long the part of the path is that already exists. */
  function Existing(v: View, parts: Path, i: nat): (n: nat)
    requires i <= |parts| && parts[..i] in v
    ensures i <= n <= |parts| && parts[..n] in v
    ensures n < |parts| ==> parts[..n + 1] !in v
    decreases |parts| - i
  {
    if i == |parts| || parts[..i + 1] !in v then i else Existing(v, parts, i + 1)
  }

  /** Every missing directory along the path. */
  function Fill(v: View, parts: Path, n: nat, mode: Mode): View
    requires n <= |parts|
    decreases |parts| - n
  {
    if n == |parts| then v else Fill(v[parts[..n + 1] := DirEntry(mode)], parts, n + 1, mode)
  }

  lemma FillStep(v: View, parts: Path, n: nat, mode: Mode)
    requires n < |parts|
    ensures Fill(v[parts[..n + 1] := DirEntry(mode)], parts, n + 1, mode) == Fill(v, parts, n, mode)
  {
  }

  /** All missing directories are made, or, if a file is in the way, none. */
  function DoMkdirParents(fs: Fs, abs: string, mode: Mode): (Fs, Status)
    requires [] in fs.view
  {
    var parts := Components(abs);
    assert parts[..0] == [];
    var n := Existing(fs.view, parts, 0);
    if fs.view[parts[..n]].FileEntry? then
      (fs, Failed(if n < |parts| then NotADirectory(Render(parts[..n])) else FileExists(abs)))
    else (fs.(view := Fill(fs.view, parts, n, mode)), Done)
  }

  ghost function DoRemove(fs: Fs, abs: string, recursive: bool, force: bool): (Fs, Status)
    requires [] in fs.view
  {
    if abs == "/" then (fs, Failed(NotEmpty))
    else match ParentDir(fs.view, abs)
      case Blocked(e) => if e.FileNotFound? && force then (fs, Done) else (fs, Failed(e))
      case Found(dir) =>
        var p := dir + [BaseName(abs)];
        if p !in fs.view then if force then (fs, Done) else (fs, Failed(FileNotFound(abs)))
        else if fs.view[p].DirEntry? && !recursive then (fs, Failed(IsADirectory(abs)))
        else Erase(fs, p)
  }

  /** Take a whole subtree away, and its bytes off the counter. */
  ghost function Erase(fs: Fs, p: Path): (Fs, Status) {
    var gone := Subtree(fs.view, p);
    (fs.(view := Without(fs.view, gone), used := fs.used - Weight(fs.view, gone)), Done)
  }

  ghost function DoRmdir(fs: Fs, abs: string): (Fs, Status)
    requires [] in fs.view
  {
    if abs == "/" then (fs, Failed(NotEmpty))
    else match ParentDir(fs.view, abs)
      case Blocked(e) => (fs, Failed(e))
      case Found(dir) =>
        var p := dir + [BaseName(abs)];
        if p !in fs.view then (fs, Failed(FileNotFound(abs)))
        else if !fs.view[p].DirEntry? then (fs, Failed(NotADirectory(abs)))
        else if Children(fs.view, p) != {} then (fs, Failed(NotEmpty))
        else Erase(fs, p)
  }

  ghost function Apply(fs: Fs, op: Op): (Fs, Status)
    requires [] in fs.view
  {
    match op
    case WriteFile(abs, content, append) => DoWrite(fs, abs, content, append)
    case Touch(abs) => DoTouch(fs, abs)
    case Mkdir(abs, parents, mode) =>
      if !parents then DoMkdir(fs, abs, mode)
      else if abs == "/" then (fs, Done)
      else DoMkdirParents(fs, abs, mode)
    case Remove(abs, recursive, force) => DoRemove(fs, abs, recursive, force)
    case Rmdir(abs) => DoRmdir(fs, abs)
  }

  // ------------------------------------------------------------------ facts about trees and weights

  lemma {:induction false} PrefixesInTree(v: View, p: Path, i: nat)
    requires Tree(v) && p in v && i <= |p|
    ensures p[..i] in v && (i < |p| ==> v[p[..i]].DirEntry?)
    decreases |p| - i
  {
    if i < |p| {
      PrefixesInTree(v, p, i + 1);
      assert HeldByDirectory(v, p[..i + 1]);
      assert p[..i + 1][..|p[..i + 1]| - 1] == p[..i];
    } else {
      assert p[..i] == p;
    }
  }

  lemma WeightSplits(v: View, a: set<Path>, b: set<Path>)
    requires a !! b
    ensures Weight(v, a + b) == Weight(v, a) + Weight(v, b)
  {
    var both := SizesAt(v, a + b);
    SumSplit(both, a);
    assert both - a == SizesAt(v, b);
    assert (map p | p in both && p in a :: both[p]) == SizesAt(v, a);
  }

  lemma WeightAtMostAll(v: View, places: set<Path>)
    ensures Weight(v, places) + Sum(Sizes(Without(v, places))) == Sum(Sizes(v))
  {
    SumSplit(Sizes(v), places);
    assert Sizes(v) - places == Sizes(Without(v, places));
    assert (map p | p in Sizes(v) && p in places :: Sizes(v)[p]) == SizesAt(v, places);
  }

  lemma StoreSizes(v: View, p: Path, e: Entry)
    ensures Sum(Sizes(v[p := e])) == Sum(Sizes(v)) - (if p in v then DynSize(v[p]) else 0) + DynSize(e)
    ensures p in v ==> DynSize(v[p]) <= Sum(Sizes(v))
  {
    SumUpdate(Sizes(v), p, DynSize(e));
    assert Sizes(v[p := e]) == Sizes(v)[p := DynSize(e)];
    if p in v {
      AddendAtMostSum(Sizes(v), p);
    }
  }

  /** The places at or below those children of p. */
  ghost function Under(v: View, p: Path, names: set<string>): set<Path> {
    set q | q in v && |q| > |p| && p <= q && q[|p|] in names
  }

  lemma UnderGrows(v: View, p: Path, names: set<string>, name: string)
    requires name !in names
    ensures Weight(v, Under(v, p, names + {name})) == Weight(v, Under(v, p, names)) + Weight(v, Subtree(v, p + [name]))
  {
    var before, child := Under(v, p, names), Subtree(v, p + [name]);
    forall q | q in v
      ensures q in child <==> |q| > |p| && p <= q && q[|p|] == name
    {
      if |q| > |p| && p <= q {
        assert q[..|p| + 1] == p + [q[|p|]];
      }
    }
    assert Under(v, p, names + {name}) == before + child && before !! child;
    WeightSplits(v, before, child);
  }

  lemma WeightOfOne(v: View, p: Path)
    requires p in v
    ensures Weight(v, {p}) == DynSize(v[p])
  {
    var m := SizesAt(v, {p});
    SumRemove(m, p);
    assert m - {p} == map[];
  }

  lemma WeightOfNone(v: View)
    ensures Weight(v, {}) == 0
  {
    assert SizesAt(v, {}) == map[];
  }

  /** A place and what is below its children make up its subtree. */
  lemma SubtreeWeight(v: View, p: Path, names: set<string>)
    requires p in v && forall q :: q in v && |q| > |p| && p <= q ==> q[|p|] in names
    ensures Weight(v, Subtree(v, p)) == DynSize(v[p]) + Weight(v, Under(v, p, names))
  {
    var below := Under(v, p, names);
    forall q | q in v && p <= q && |q| <= |p|
      ensures q == p
    {
    }
    assert Subtree(v, p) == {p} + below;
    WeightSplits(v, {p}, below);
    WeightOfOne(v, p);
  }

  lemma SubtreeOfChildIsSmaller(v: View, p: Path, name: string)
    requires p in v
    ensures |Subtree(v, p + [name])| < |Subtree(v, p)|
  {
    var child, whole := Subtree(v, p + [name]), Subtree(v, p);
    assert p <= p + [name] && p !in child;
    forall q | q in child
      ensures q in whole
    {
    }
    SmallerSet(child, whole, p);
  }

  lemma SmallerSet(a: set<Path>, b: set<Path>, x: Path)
    requires a <= b && x in b && x !in a
    ensures |a| < |b|
  {
    assert |b| == |a| + |b - a| by {
      assert b == a + (b - a);
    }
    assert x in b - a;
  }

  // ------------------------------------------------------------------ resolution is lookup

  lemma {:induction false} WalkFindsExactly(v: View, parts: Path, i: nat, abs: string)
    requires Tree(v) && i <= |parts| && parts[..i] in v
    ensures Walk(v, parts, i, abs).Found? <==> parts in v
    ensures Walk(v, parts, i, abs).Found? ==> Walk(v, parts, i, abs).at == parts
    decreases |parts| - i
  {
    assert parts[..|parts|] == parts;
    if i < |parts| {
      if parts in v {
        PrefixesInTree(v, parts, i);
        PrefixesInTree(v, parts, i + 1);
      }
      if v[parts[..i]].DirEntry? && parts[..i + 1] in v {
        WalkFindsExactly(v, parts, i + 1, abs);
      }
    }
  }

  /** Resolution succeeds exactly for the names in the map. */
  lemma ResolveFindsExactly(v: View, abs: string)
    requires Tree(v)
    ensures Resolve(v, abs).Found? <==> Components(abs) in v
    ensures Resolve(v, abs).Found? ==> Resolve(v, abs).at == Components(abs)
  {
    assert Components(abs)[..0] == [];
    WalkFindsExactly(v, Components(abs), 0, abs);
  }

  lemma NothingBelowMissing(v: View, parts: Path, i: nat, j: nat)
    requires Tree(v) && i <= j <= |parts| && parts[..i] !in v
    ensures parts[..j] !in v
  {
    assert parts[..j][..i] == parts[..i];
    if parts[..j] in v {
      PrefixesInTree(v, parts[..j], i);
    }
  }

  /** Some proper prefix of the names is a file; the first such one is the one reported. */
  ghost predicate FileInTheWay(v: View, parts: Path, j: nat) {
    j < |parts| && parts[..j] in v && v[parts[..j]].FileEntry?
  }

  /** Which error resolution gives: the file in the way if there is one, otherwise something is missing. */
  lemma {:induction false} WalkErrorExactly(v: View, parts: Path, i: nat, abs: string)
    requires Tree(v) && i <= |parts| && parts[..i] in v && Walk(v, parts, i, abs).Blocked?
    ensures var e := Walk(v, parts, i, abs).error;
            if exists j :: i <= j && FileInTheWay(v, parts, j)
            then exists j :: i <= j && FileInTheWay(v, parts, j) && e == NotADirectory(Render(parts[..j]))
            else e == FileNotFound(abs)
    decreases |parts| - i
  {
    if v[parts[..i]].DirEntry? {
      if parts[..i + 1] in v {
        WalkErrorExactly(v, parts, i + 1, abs);
        assert forall j :: i <= j && FileInTheWay(v, parts, j) ==> i + 1 <= j;
      } else {
        forall j | i <= j < |parts|
          ensures !FileInTheWay(v, parts, j)
        {
          if i < j {
            NothingBelowMissing(v, parts, i + 1, j);
          }
        }
      }
    } else {
      assert FileInTheWay(v, parts, i);
    }
  }

  /** For a canonical path other than the root, the target of an operation is its own names. */
  lemma TargetIsComponents(v: View, abs: string)
    requires Tree(v) && IsCanonical(abs) && abs != "/"
    ensures ParentDir(v, abs).Found? ==>
              && ParentDir(v, abs).at + [BaseName(abs)] == Components(abs)
              && ParentDir(v, abs).at in v && v[ParentDir(v, abs).at].DirEntry?
    ensures Components(abs) != []
    ensures Components(abs) in v ==> ParentDir(v, abs).Found?
  {
    hide IsCanonical, IsNormal, Components, ParentPath, BaseName, Render, Resolve;
    var p := Components(abs);
    ParentSplitsComponents(abs);
    ResolveFindsExactly(v, ParentPath(abs));
    if p in v {
      PrefixesInTree(v, p, |p| - 1);
    }
  }

  // ------------------------------------------------------------------ what every operation keeps

  /** The places an operation may change. */
  ghost predicate Affects(fs: Fs, op: Op, q: Path) {
    match op
    case WriteFile(abs, _, _) => q == Components(abs)
    case Touch(abs) => q == Components(abs)
    case Mkdir(abs, parents, _) => if parents then q <= Components(abs) && q !in fs.view else q == Components(abs)
    case Remove(abs, _, _) => Components(abs) <= q
    case Rmdir(abs) => q == Components(abs)
  }

  lemma AddingKeepsTree(v: View, dir: Path, name: string, e: Entry)
    requires Tree(v) && dir in v && v[dir].DirEntry?
    requires dir + [name] in v ==> (v[dir + [name]].DirEntry? <==> e.DirEntry?)
    ensures Tree(v[dir + [name] := e])
  {
    var p := dir + [name];
    assert p[..|p| - 1] == dir;
    forall q | q in v
      ensures HeldByDirectory(v[p := e], q)
    {
      assert HeldByDirectory(v, q);
    }
  }

  lemma StoreKeepsSound(fs: Fs, dir: Path, name: string, e: Entry)
    requires Sound(fs) && dir in fs.view && fs.view[dir].DirEntry? && e.FileEntry? && e.dynamic
    requires dir + [name] in fs.view ==> fs.view[dir + [name]].FileEntry?
    ensures var p := dir + [name];
            Sound(Store(fs, p, if p in fs.view then DynSize(fs.view[p]) else 0, e).0)
  {
    var p := dir + [name];
    AddingKeepsTree(fs.view, dir, name, e);
    StoreSizes(fs.view, p, e);
  }

  lemma EraseKeepsSound(fs: Fs, p: Path)
    requires Sound(fs) && p in fs.view && p != []
    ensures Sound(Erase(fs, p).0)
    // The counter cannot go below zero, so nothing is ever clamped.
    ensures Erase(fs, p).0.used >= 0
  {
    var gone := Subtree(fs.view, p);
    WeightAtMostAll(fs.view, gone);
    var v := Without(fs.view, gone);
    forall q | q in v
      ensures HeldByDirectory(v, q)
    {
      assert HeldByDirectory(fs.view, q);
      assert q != [] ==> q[..|q| - 1] <= q;
    }
  }

  lemma {:induction false} FillKeepsSound(fs: Fs, parts: Path, n: nat, mode: Mode)
    requires Sound(fs) && n <= |parts| && parts[..n] in fs.view && fs.view[parts[..n]].DirEntry?
    requires n < |parts| ==> parts[..n + 1] !in fs.view
    ensures Sound(fs.(view := Fill(fs.view, parts, n, mode)))
    ensures parts in Fill(fs.view, parts, n, mode) && Fill(fs.view, parts, n, mode)[parts].DirEntry?
    decreases |parts| - n
  {
    if n < |parts| {
      var next := parts[..n + 1];
      assert next == parts[..n] + [parts[n]];
      AddingKeepsTree(fs.view, parts[..n], parts[n], DirEntry(mode));
      StoreSizes(fs.view, next, DirEntry(mode));
      var fs' := fs.(view := fs.view[next := DirEntry(mode)]);
      if n + 1 < |parts| {
        NothingBelowMissing(fs.view, parts, n + 1, n + 2);
      }
      FillKeepsSound(fs', parts, n + 1, mode);
    } else {
      assert parts[..n] == parts;
    }
  }

  lemma {:induction false} FillAddsPrefixes(v: View, parts: Path, n: nat, mode: Mode, q: Path)
    requires n <= |parts|
    ensures var w := Fill(v, parts, n, mode);
            if n < |q| && q <= parts then q in w && w[q] == DirEntry(mode)
            else (q in w <==> q in v) && (q in w ==> w[q] == v[q])
    decreases |parts| - n
  {
    if n < |parts| {
      FillAddsPrefixes(v[parts[..n + 1] := DirEntry(mode)], parts, n + 1, mode, q);
      assert q <= parts ==> q == parts[..|q|];
    }
  }

  lemma {:induction false} PartsBeyondExistingAreMissing(v: View, parts: Path, n: nat, q: Path)
    requires Tree(v) && n < |parts| && parts[..n + 1] !in v && n < |q| && q <= parts
    ensures q !in v
  {
    assert q == parts[..|q|];
    NothingBelowMissing(v, parts, n + 1, |q|);
  }

  /** Every operation, successful or not, keeps the tree a tree and the counter exact and within bounds. */
  lemma ApplyKeepsSound(fs: Fs, op: Op)
    requires Sound(fs) && IsCanonical(op.abs)
    ensures Sound(Apply(fs, op).0)
  {
    hide IsCanonical, Components, ParentPath, BaseName, Render, Resolve, Utf8Size, QuotaOk;
    var v, abs := fs.view, op.abs;
    if abs == "/" {
    } else {
      TargetIsComponents(v, abs);
      if op.Mkdir? && op.parents {
        MkdirParentsKeepsSound(fs, abs, op.mode);
      } else {
        match ParentDir(v, abs) {
          case Blocked(_) =>
          case Found(dir) => OpInDirKeepsSound(fs, op, dir);
        }
      }
    }
  }

  lemma MkdirParentsKeepsSound(fs: Fs, abs: string, mode: Mode)
    requires Sound(fs)
    ensures Sound(DoMkdirParents(fs, abs, mode).0)
  {
    var parts := Components(abs);
    assert parts[..0] == [];
    var n := Existing(fs.view, parts, 0);
    if fs.view[parts[..n]].DirEntry? {
      FillKeepsSound(fs, parts, n, mode);
    }
  }

  lemma OpInDirKeepsSound(fs: Fs, op: Op, dir: Path)
    requires Sound(fs) && op.abs != "/" && ParentDir(fs.view, op.abs) == Found(dir)
    requires dir in fs.view && fs.view[dir].DirEntry? && !(op.Mkdir? && op.parents)
    ensures Sound(Apply(fs, op).0)
  {
    hide IsCanonical, Components, ParentPath, BaseName, Render, Resolve, Utf8Size;
    var name := BaseName(op.abs);
    var p := dir + [name];
    match op
    case WriteFile(abs, content, append) =>
      var e := if p in fs.view && fs.view[p].FileEntry? then Rewritten(fs.view[p], content, append) else FileEntry(content, FILE_MODE, false, true);
      if p in fs.view ==> fs.view[p].FileEntry? {
        StoreKeepsSound(fs, dir, name, e);
      }
    case Touch(_) =>
      AddingKeepsTree(fs.view, dir, name, if p in fs.view then fs.view[p] else FileEntry("", FILE_MODE, false, false));
      StoreSizes(fs.view, p, FileEntry("", FILE_MODE, false, false));
    case Mkdir(_, _, mode) =>
      if p !in fs.view {
        AddingKeepsTree(fs.view, dir, name, DirEntry(mode));
        StoreSizes(fs.view, p, DirEntry(mode));
      }
    case Remove(_, _, _) =>
      if p in fs.view {
        EraseKeepsSound(fs, p);
      }
    case Rmdir(_) =>
      if p in fs.view {
        EraseKeepsSound(fs, p);
      }
  }

  /** A failed operation has no effect at all. */
  lemma FailureChangesNothing(fs: Fs, op: Op)
    requires [] in fs.view
    ensures Apply(fs, op).1.Failed? ==> Apply(fs, op).0 == fs
  {
    hide IsCanonical, Components, ParentPath, BaseName, Render, Resolve, Utf8Size;
  }

  /** An operation leaves every place it does not target as it was. */
  lemma OnlyTheTargetChanges(fs: Fs, op: Op, q: Path)
    requires Sound(fs) && IsCanonical(op.abs) && !Affects(fs, op, q)
    ensures var v := Apply(fs, op).0.view;
            (q in v <==> q in fs.view) && (q in v ==> v[q] == fs.view[q])
  {
    var v, p := fs.view, Components(op.abs);
    hide IsCanonical, Components, ParentPath, BaseName, Render, Resolve, Utf8Size, QuotaOk;
    if op.abs != "/" {
      TargetIsComponents(v, op.abs);
      if op.Mkdir? && op.parents {
        assert p[..0] == [];
        var n := Existing(v, p, 0);
        FillAddsPrefixes(v, p, n, op.mode, q);
        if n < |q| && q <= p {
          PartsBeyondExistingAreMissing(v, p, n, q);
        }
      } else if op.Rmdir? && Children(v, p) == {} {
        NothingBelowEmpty(v, p, q);
      }
    }
  }

  lemma NothingBelowEmpty(v: View, p: Path, q: Path)
    requires Tree(v) && Children(v, p) == {}
    ensures q in Subtree(v, p) ==> q == p
  {
    if q in v && p <= q && q != p {
      var child := q[..|p| + 1];
      assert |child| == |p| + 1 && p <= child && child !in Children(v, p);
      PrefixesInTree(v, q, |p| + 1);
      assert false;
    }
  }

  /** Where a run of operations ends. */
  ghost function Run(fs: Fs, ops: seq<Op>): Fs
    decreases ops
  {
    if ops == [] || [] !in fs.view then fs else Run(Apply(fs, ops[0]).0, ops[1..])
  }

  /** Quota and tree shape over whole runs: any operations, failed ones included, in any order. */
  lemma {:induction false} RunKeepsSound(fs: Fs, ops: seq<Op>)
    requires Sound(fs) && forall op :: op in ops ==> IsCanonical(op.abs)
    ensures Sound(Run(fs, ops))
    ensures Run(fs, ops).maxFile == fs.maxFile && Run(fs, ops).maxTotal == fs.maxTotal
    decreases ops
  {
    if ops != [] {
      assert ops[0] in ops;
      ApplyKeepsSound(fs, ops[0]);
      LimitsAreFixed(fs, ops[0]);
      hide IsCanonical, Apply, Sound;
      assert Tree(fs.view) by {
        SoundIsTree(fs);
      }
      RunKeepsSound(Apply(fs, ops[0]).0, ops[1..]);
    }
  }

  lemma SoundIsTree(fs: Fs)
    requires Sound(fs)
    ensures Tree(fs.view)
  {
  }

  lemma LimitsAreFixed(fs: Fs, op: Op)
    requires [] in fs.view
    ensures Apply(fs, op).0.maxFile == fs.maxFile && Apply(fs, op).0.maxTotal == fs.maxTotal
  {
    hide IsCanonical, Components, ParentPath, BaseName, Render, Resolve, Utf8Size;
  }

  // ------------------------------------------------------------------ what success means

  /** A place can take a write: a directory holds it, no directory is in it, and the sizes fit or it is a device. */
  ghost predicate CanHold(fs: Fs, p: Path, content: string, append: bool) {
    && p != [] && p[..|p| - 1] in fs.view && fs.view[p[..|p| - 1]].DirEntry?
    && if p !in fs.view then Fits(fs, 0, content)
       else match fs.view[p]
         case DirEntry(_) => false
         case FileEntry(before, _, device, _) => device || Fits(fs, DynSize(fs.view[p]), if append then before + content else content)
  }

  ghost predicate Fits(fs: Fs, counted: nat, content: string) {
    Utf8Size(content) <= fs.maxFile && fs.used - counted + Utf8Size(content) <= fs.maxTotal
  }

  /** Writing succeeds exactly where a file of that size can be held. */
  lemma WriteSucceedsExactly(fs: Fs, abs: string, content: string, append: bool)
    requires Sound(fs) && IsCanonical(abs) && abs != DEV_NULL
    ensures DoWrite(fs, abs, content, append).1.Done? <==> CanHold(fs, Components(abs), content, append)
  {
    hide IsCanonical, Components, ParentPath, BaseName, Render, Resolve, Utf8Size, QuotaOk;
    RootHasNoComponents(abs);
    if abs != "/" {
      TargetIsComponents(fs.view, abs);
      ParentSplitsComponents(abs);
      ResolveFindsExactly(fs.view, ParentPath(abs));
    }
  }

  lemma RootHasNoComponents(abs: string)
    requires IsCanonical(abs)
    ensures Components(abs) == [] <==> abs == "/"
  {
    if abs != "/" {
      ParentSplitsComponents(abs);
    }
  }

  /** What a successful write leaves behind: one place changed, and the counter by as much as that place. */
  ghost predicate Stored(fs: Fs, fs': Fs, p: Path, content: string, append: bool) {
    && p in fs'.view && fs'.view[p].FileEntry?
    && if p in fs.view && fs.view[p].FileEntry? && fs.view[p].device then fs' == fs
       else
         var before := if p in fs.view && fs.view[p].FileEntry? then fs.view[p] else FileEntry("", 0x1A4, false, false);
         var after := FileEntry(if append then before.content + content else content, before.mode, false, true);
         && fs'.view == fs.view[p := after]
         && fs'.used - fs.used == Utf8Size(after.content) - DynSize(before)
  }

  lemma WriteStores(fs: Fs, abs: string, content: string, append: bool)
    requires Sound(fs) && IsCanonical(abs) && abs != DEV_NULL
    requires DoWrite(fs, abs, content, append).1.Done?
    ensures Stored(fs, DoWrite(fs, abs, content, append).0, Components(abs), content, append)
  {
    hide IsCanonical, Components, ParentPath, BaseName, Render, Resolve, Utf8Size, QuotaOk;
    RootHasNoComponents(abs);
    assert "" + content == content;
    TargetIsComponents(fs.view, abs);
  }

  /** No file is on the path, at its end included. */
  ghost predicate WayIsClear(v: View, p: Path) {
    forall j :: 0 <= j <= |p| && p[..j] in v ==> v[p[..j]].DirEntry?
  }

  lemma ClearUpToExisting(v: View, p: Path, n: nat)
    requires Tree(v) && n <= |p| && p[..n] in v && (n < |p| ==> p[..n + 1] !in v)
    ensures WayIsClear(v, p) <==> v[p[..n]].DirEntry?
  {
    forall j | 0 <= j <= |p| && j != n
      ensures p[..j] in v ==> v[p[..j]].DirEntry?
    {
      if j < n {
        PrefixesInTree(v, p[..n], j);
        assert p[..n][..j] == p[..j];
      } else {
        NothingBelowMissing(v, p, n + 1, j);
      }
    }
  }

  /** mkdir -p makes the whole path or nothing: it succeeds exactly when no file is on the path. */
  lemma MkdirParentsAllOrNothing(fs: Fs, abs: string, mode: Mode)
    requires Sound(fs)
    ensures DoMkdirParents(fs, abs, mode).1.Done? <==> WayIsClear(fs.view, Components(abs))
    ensures DoMkdirParents(fs, abs, mode).1.Failed? ==> DoMkdirParents(fs, abs, mode).0 == fs
    ensures DoMkdirParents(fs, abs, mode).1.Done? ==>
              var v := DoMkdirParents(fs, abs, mode).0.view;
              Components(abs) in v && v[Components(abs)].DirEntry?
              && forall q :: q <= Components(abs) && q !in fs.view ==> q in v && v[q] == DirEntry(mode)
  {
    hide Components, Render, QuotaOk, Utf8Size;
    var p := Components(abs);
    assert p[..0] == [];
    var n := Existing(fs.view, p, 0);
    ClearUpToExisting(fs.view, p, n);
    if fs.view[p[..n]].DirEntry? {
      FillKeepsSound(fs, p, n, mode);
      forall q | q <= p && q !in fs.view
        ensures q in Fill(fs.view, p, n, mode) && Fill(fs.view, p, n, mode)[q] == DirEntry(mode)
      {
        MissingIsBeyond(fs.view, p, n, q);
        FillAddsPrefixes(fs.view, p, n, mode, q);
      }
    }
  }

  /** Removal takes exactly the subtree, and gives back exactly its bytes. */
  lemma RemovalIsExact(fs: Fs, abs: string, recursive: bool, force: bool)
    requires Sound(fs) && IsCanonical(abs) && abs != "/" && Components(abs) in fs.view
    ensures var p := Components(abs);
            var (fs', status) := Apply(fs, Remove(abs, recursive, force));
            && (status.Done? <==> recursive || fs.view[p].FileEntry?)
            && (status.Done? ==>
                  && (forall q :: q in fs'.view <==> q in fs.view && !(p <= q))
                  && fs.used == fs'.used + Weight(fs.view, Subtree(fs.view, p)))
  {
    TargetIsComponents(fs.view, abs);
  }

  lemma MissingIsBeyond(v: View, p: Path, n: nat, q: Path)
    requires Tree(v) && n <= |p| && p[..n] in v && q <= p && q !in v
    ensures n < |q|
  {
    assert q == p[..|q|];
    if |q| <= n {
      assert p[..n][..|q|] == p[..|q|];
      PrefixesInTree(v, p[..n], |q|);
    }
  }

  // ------------------------------------------------------------------ what each operation does, in terms of places

  /** A directory is where the place would be held. */
  ghost predicate Holder(v: View, p: Path) {
    p != [] && p[..|p| - 1] in v && v[p[..|p| - 1]].DirEntry?
  }

  /** Some file stands where the path needs a directory. */
  ghost predicate Obstructed(v: View, p: Path) {
    exists j: nat :: FileInTheWay(v, p, j)
  }

  /** An operation finds a directory to work in exactly if one holds its place; otherwise the error says why. */
  lemma ParentDirExactly(v: View, abs: string)
    requires Tree(v) && IsCanonical(abs) && abs != "/"
    ensures var p := Components(abs);
      && p != [] && (ParentDir(v, abs).Found? <==> Holder(v, p))
      && (Holder(v, p) ==> ParentDir(v, abs).at + [BaseName(abs)] == p)
      && (!Holder(v, p) ==>
            var e := ParentDir(v, abs).error;
            if Obstructed(v, p) then exists j: nat :: FileInTheWay(v, p, j) && e == NotADirectory(Render(p[..j]))
            else e == FileNotFound(ParentPath(abs)))
  {
    hide IsCanonical, IsNormal, Components, ParentPath, BaseName, Render;
    var p := Components(abs);
    ParentSplitsComponents(abs);
    var up := Components(ParentPath(abs));
    assert up == p[..|p| - 1];
    ResolveFindsExactly(v, ParentPath(abs));
    assert forall j: nat :: j < |up| ==> p[..j] == up[..j];
    assert forall j: nat :: FileInTheWay(v, up, j) ==> FileInTheWay(v, p, j);
    if up in v {
      assert up == p[..|up|];
      assert v[up].FileEntry? ==> FileInTheWay(v, p, |up|);
    } else {
      assert up[..0] == [];
      WalkErrorExactly(v, up, 0, ParentPath(abs));
      assert forall j: nat :: FileInTheWay(v, p, j) ==> j < |up| && FileInTheWay(v, up, j);
    }
  }

  /** Why a write into an existing directory is refused: the place is a directory, or one of the two limits. */
  lemma WriteErrorExactly(fs: Fs, abs: string, content: string, append: bool)
    requires Sound(fs) && IsCanonical(abs) && abs != DEV_NULL && Holder(fs.view, Components(abs))
    requires DoWrite(fs, abs, content, append).1.Failed?
    ensures var p := Components(abs);
      DoWrite(fs, abs, content, append).1.error ==
        if p in fs.view && fs.view[p].DirEntry? then IsADirectory(abs)
        else
          var after := if p in fs.view && append then fs.view[p].content + content else content;
          if Utf8Size(after) > fs.maxFile then FileTooLarge else NoSpace
  {
    hide IsCanonical, Components, ParentPath, BaseName, Render, Resolve, Utf8Size, QuotaOk;
    RootHasNoComponents(abs);
    ParentDirExactly(fs.view, abs);
  }

  lemma TouchIsExact(fs: Fs, abs: string)
    requires Sound(fs) && IsCanonical(abs)
    ensures var (fs', status) := DoTouch(fs, abs); var p := Components(abs);
      && (status.Done? <==> abs == "/" || Holder(fs.view, p))
      && fs' == if status.Done? && p !in fs.view then fs.(view := fs.view[p := FileEntry("", 0x1A4, false, false)]) else fs
  {
    hide IsCanonical, ParentPath, BaseName, Render, Resolve, QuotaOk;
    if abs != "/" {
      ParentDirExactly(fs.view, abs);
    }
  }

  lemma MkdirIsExact(fs: Fs, abs: string, mode: Mode)
    requires Sound(fs) && IsCanonical(abs)
    ensures var (fs', status) := DoMkdir(fs, abs, mode); var p := Components(abs);
      && (status.Done? <==> Holder(fs.view, p) && p !in fs.view)
      && (p in fs.view ==> status == Failed(FileExists(abs)))
      && fs' == if status.Done? then fs.(view := fs.view[p := DirEntry(mode)]) else fs
  {
    hide IsCanonical, ParentPath, BaseName, Render, Resolve, QuotaOk;
    if abs != "/" {
      ParentDirExactly(fs.view, abs);
      TargetIsComponents(fs.view, abs);
    }
  }

  lemma RmdirIsExact(fs: Fs, abs: string)
    requires Sound(fs) && IsCanonical(abs) && abs != "/"
    ensures var (fs', status) := DoRmdir(fs, abs); var p := Components(abs);
      && (status.Done? <==> p in fs.view && fs.view[p].DirEntry? && Children(fs.view, p) == {})
      && (p in fs.view && fs.view[p].DirEntry? && status.Failed? ==> status.error == NotEmpty)
      && fs'.view == (if status.Done? then fs.view - {p} else fs.view) && fs'.used == fs.used
  {
    hide IsCanonical, Components, ParentPath, BaseName, Render, Resolve, QuotaOk;
    ParentDirExactly(fs.view, abs);
    TargetIsComponents(fs.view, abs);
    var p := Components(abs);
    if p in fs.view && fs.view[p].DirEntry? && Children(fs.view, p) == {} {
      forall q
        ensures q in Subtree(fs.view, p) ==> q == p
      {
        NothingBelowEmpty(fs.view, p, q);
      }
      assert Subtree(fs.view, p) == {p};
      WeightOfOne(fs.view, p);
      assert Without(fs.view, {p}) == fs.view - {p};
    }
  }

  /** rm of what is not there succeeds exactly with force and no file in the way. */
  lemma MissingIsRemovedByForce(fs: Fs, abs: string, recursive: bool, force: bool)
    requires Sound(fs) && IsCanonical(abs) && abs != "/" && Components(abs) !in fs.view
    ensures DoRemove(fs, abs, recursive, force).0 == fs
    ensures DoRemove(fs, abs, recursive, force).1.Done? <==> force && !Obstructed(fs.view, Components(abs))
  {
    hide IsCanonical, Components, ParentPath, BaseName, Render, Resolve, QuotaOk;
    var v, p := fs.view, Components(abs);
    ParentDirExactly(v, abs);
    if Holder(v, p) {
      forall j: nat
        ensures !FileInTheWay(v, p, j)
      {
        if j < |p| - 1 {
          PrefixesInTree(v, p[..|p| - 1], j);
          assert p[..|p| - 1][..j] == p[..j];
        }
      }
    }
  }

  /** Every error of the operations that name a last component in a directory that is there. */
  lemma TargetErrorExactly(fs: Fs, abs: string, mode: Mode, recursive: bool, force: bool)
    requires Sound(fs) && IsCanonical(abs) && abs != "/" && Holder(fs.view, Components(abs))
    ensures var v, p := fs.view, Components(abs);
      && (DoMkdir(fs, abs, mode).1 == if p in v then Failed(FileExists(abs)) else Done)
      && (DoRemove(fs, abs, recursive, force).1 ==
            if p !in v then if force then Done else Failed(FileNotFound(abs))
            else if v[p].DirEntry? && !recursive then Failed(IsADirectory(abs)) else Done)
      && (DoRmdir(fs, abs).1 ==
            if p !in v then Failed(FileNotFound(abs))
            else if v[p].FileEntry? then Failed(NotADirectory(abs))
            else if exists q :: q in v && |q| == |p| + 1 && p <= q then Failed(NotEmpty) else Done)
  {
    hide IsCanonical, Components, ParentPath, BaseName, Render, Resolve, QuotaOk, Weight, Without;
    ParentDirExactly(fs.view, abs);
    var v, p := fs.view, Components(abs);
    assert (exists q :: q in v && |q| == |p| + 1 && p <= q) <==> Children(v, p) != {} by {
      if q :| q in v && |q| == |p| + 1 && p <= q {
        assert q in Children(v, p);
      }
    }
  }

  /** Without a directory to work in every operation reports why there is none, except that forced removal forgives absence. */
  lemma NoHolderErrorExactly(fs: Fs, op: Op)
    requires Sound(fs) && IsCanonical(op.abs) && op.abs != "/" && !Holder(fs.view, Components(op.abs))
    requires !(op.Mkdir? && op.parents) && !(op.WriteFile? && op.abs == "/dev/null")
    ensures var v, p, status := fs.view, Components(op.abs), Apply(fs, op).1;
      if Obstructed(v, p) then
        exists j: nat :: FileInTheWay(v, p, j) && status == Failed(NotADirectory(Render(p[..j])))
      else status == if op.Remove? && op.force then Done else Failed(FileNotFound(ParentPath(op.abs)))
  {
    hide IsCanonical, Components, ParentPath, BaseName, Render, Resolve, QuotaOk;
    ParentDirExactly(fs.view, op.abs);
  }

  /** At the root nothing can be written, made or removed. */
  lemma RootErrorExactly(fs: Fs, content: string, append: bool, mode: Mode, recursive: bool, force: bool)
    requires Sound(fs)
    ensures Apply(fs, WriteFile("/", content, append)) == (fs, Failed(IsADirectory("/")))
    ensures Apply(fs, Touch("/")) == (fs, Done)
    ensures Apply(fs, Mkdir("/", false, mode)) == (fs, Failed(FileExists("/")))
    ensures Apply(fs, Mkdir("/", true, mode)) == (fs, Done)
    ensures Apply(fs, Remove("/", recursive, force)) == (fs, Failed(NotEmpty)) == Apply(fs, Rmdir("/"))
    ensures Apply(fs, WriteFile("/dev/null", content, append)) == (fs, Done)
  {
    hide Resolve;
  }

  /** mkdir -p names the file it ran into: the one on the way, or the path itself if the file is at its end. */
  lemma MkdirParentsErrorExactly(fs: Fs, abs: string, mode: Mode)
    requires Sound(fs) && DoMkdirParents(fs, abs, mode).1.Failed?
    ensures var v, p := fs.view, Components(abs);
      if p in v then v[p].FileEntry? && DoMkdirParents(fs, abs, mode).1.error == FileExists(abs)
      else exists j: nat :: FileInTheWay(v, p, j) && DoMkdirParents(fs, abs, mode).1.error == NotADirectory(Render(p[..j]))
  {
    hide Components, Render, QuotaOk;
    var v, p := fs.view, Components(abs);
    assert p[..0] == [];
    var n := Existing(v, p, 0);
    assert p[..|p|] == p;
    if n < |p| {
      NothingBelowMissing(v, p, n + 1, |p|);
      assert FileInTheWay(v, p, n);
    }
  }

  // ------------------------------------------------------------------ what reading gives

  /** Reading a file gives its content; the devices give what they always give; anything else is an error. */
  lemma ReadExactly(v: View, abs: string, chunk: nat)
    requires Tree(v)
    ensures var p, r := Components(abs), Read(v, abs, chunk);
      if p in v then
        match v[p]
        case FileEntry(content, _, device, _) =>
          && r.Content?
          && (!device ==> r.text == content)
          && (device && abs == "/dev/zero" ==> |r.text| == chunk && forall i :: 0 <= i < chunk ==> r.text[i] == '\0')
          && (device && abs == "/dev/urandom" ==> |r.text| == chunk && forall i :: 0 <= i < chunk ==> r.text[i] == 'U')
          && (device && abs != "/dev/zero" && abs != "/dev/urandom" ==> r.text == "")
        case DirEntry(_) => r == ReadFailed(IsADirectory(abs))
      else if Obstructed(v, p) then exists j: nat :: FileInTheWay(v, p, j) && r == ReadFailed(NotADirectory(Render(p[..j])))
      else r == ReadFailed(FileNotFound(abs))
  {
    hide Components, Render;
    ResolveFindsExactly(v, abs);
    if Components(abs) !in v {
      assert Components(abs)[..0] == [];
      WalkErrorExactly(v, Components(abs), 0, abs);
      assert Obstructed(v, Components(abs)) <==> exists j: nat :: 0 <= j && FileInTheWay(v, Components(abs), j);
    }
  }

  /** A successful write is what the next read of that path gives, after what was there when appending. */
  lemma ReadAfterWrite(fs: Fs, abs: string, content: string, append: bool, chunk: nat)
    requires Sound(fs) && IsCanonical(abs) && abs != "/dev/null" && DoWrite(fs, abs, content, append).1.Done?
    requires Components(abs) in fs.view ==> !(fs.view[Components(abs)].FileEntry? && fs.view[Components(abs)].device)
    ensures Tree(DoWrite(fs, abs, content, append).0.view)
    ensures Read(DoWrite(fs, abs, content, append).0.view, abs, chunk) ==
      match Read(fs.view, abs, chunk)
      case Content(before) => Content(if append then before + content else content)
      case ReadFailed(_) => Content(content)
  {
    hide IsCanonical, Components, DoWrite, Resolve, Render, QuotaOk, Utf8Size, Read;
    var p := Components(abs);
    ApplyKeepsSound(fs, WriteFile(abs, content, append));
    WriteStores(fs, abs, content, append);
    WriteSucceedsExactly(fs, abs, content, append);
    ReadExactly(fs.view, abs, chunk);
    ReadExactly(DoWrite(fs, abs, content, append).0.view, abs, chunk);
    assert "" + content == content;
  }

  /** What is on the way of a walk decides it. */
  lemma {:induction false} SameWalk(v: View, w: View, parts: Path, i: nat, abs: string)
    requires i <= |parts| && parts[..i] in v
    requires forall j: nat :: j <= |parts| ==> (parts[..j] in v <==> parts[..j] in w)
    requires forall j: nat :: j <= |parts| && parts[..j] in v ==> v[parts[..j]] == w[parts[..j]]
    ensures Walk(v, parts, i, abs) == Walk(w, parts, i, abs)
    decreases |parts| - i
  {
    if i < |parts| && parts[..i + 1] in v {
      SameWalk(v, w, parts, i + 1, abs);
    }
  }

  /** A write changes what reading gives at its own place only; nothing can be read below a file. */
  lemma ReadElsewhere(fs: Fs, abs: string, content: string, append: bool, other: string, chunk: nat)
    requires Sound(fs) && IsCanonical(abs) && Components(other) != Components(abs)
    ensures var after := DoWrite(fs, abs, content, append).0.view;
      && Tree(after)
      && (!(Components(abs) <= Components(other)) ==> Read(after, other, chunk) == Read(fs.view, other, chunk))
      && (Components(abs) <= Components(other) && DoWrite(fs, abs, content, append).1.Done? && abs != "/dev/null" ==>
            Read(after, other, chunk).ReadFailed? && Read(fs.view, other, chunk).ReadFailed?)
  {
    hide IsCanonical, Components, DoWrite, Render, QuotaOk, Utf8Size;
    var v, after, p, q := fs.view, DoWrite(fs, abs, content, append).0.view, Components(abs), Components(other);
    ApplyKeepsSound(fs, WriteFile(abs, content, append));
    if !(p <= q) {
      forall j: nat | j <= |q|
        ensures q[..j] in v <==> q[..j] in after
        ensures q[..j] in v ==> v[q[..j]] == after[q[..j]]
      {
        OnlyTheTargetChanges(fs, WriteFile(abs, content, append), q[..j]);
      }
      assert q[..0] == [];
      SameWalk(v, after, q, 0, other);
      assert q[..|q|] == q;
      ResolveFindsExactly(v, other);
      ResolveFindsExactly(after, other);
    } else if DoWrite(fs, abs, content, append).1.Done? && abs != "/dev/null" {
      WriteStores(fs, abs, content, append);
      WriteSucceedsExactly(fs, abs, content, append);
      NothingBelowFile(v, p, q);
      NothingBelowFile(after, p, q);
      ResolveFindsExactly(v, other);
      ResolveFindsExactly(after, other);
    }
  }

  lemma NothingBelowFile(v: View, p: Path, q: Path)
    requires Tree(v) && p <= q && p != q && (p in v ==> v[p].FileEntry?)
    ensures q !in v
  {
    assert q[..|p|] == p;
    if q in v {
      PrefixesInTree(v, q, |p|);
      assert false;
    }
  }

  // ------------------------------------------------------------------ physical walks

  /** Follow the pieces of a path the way a shell would: `..` climbs, names descend, and only directories can be left. */
  ghost function Physical(v: View, at: Path, pieces: seq<string>): Lookup
    decreases pieces
  {
    if pieces == [] then Found(at)
    else if at !in v || !v[at].DirEntry? then Blocked(NotADirectory(Render(at)))
    else
      var piece := pieces[0];
      var next := if piece == "" || piece == "." then at
                  else if piece == ".." then if at == [] then [] else at[..|at| - 1]
                  else at + [piece];
      if next !in v then Blocked(FileNotFound(Render(next))) else Physical(v, next, pieces[1..])
  }

  lemma {:induction false} PhysicalIsLexicalFrom(v: View, at: Path, pieces: seq<string>)
    requires Physical(v, at, pieces).Found?
    ensures Physical(v, at, pieces).at == Normalize(at, pieces)
    ensures at in v ==> Normalize(at, pieces) in v
    decreases pieces
  {
    if pieces != [] {
      PhysicalIsLexicalFrom(v, Push(at, pieces[0]), pieces[1..]);
    }
  }

  /** Whenever the physical walk succeeds, resolving the normalised text finds the same node. */
  lemma PhysicalIsLexical(v: View, path: string, cwd: string, home: string)
    requires Tree(v) && path != "-"
    requires Physical(v, [], Split(Absolute(Expand(path, home), cwd), SLASH)).Found?
    ensures Resolve(v, Canonical(path, cwd, home)) == Physical(v, [], Split(Absolute(Expand(path, home), cwd), SLASH))
  {
    PhysicalIsLexicalFrom(v, [], Split(Absolute(Expand(path, home), cwd), SLASH));
    NamesAreNormal(path, cwd, home);
    ComponentsOfRender(Names(path, cwd, home));
    ResolveFindsExactly(v, Canonical(path, cwd, home));
  }
}
