/** `cat /dev/zero > file`: the bounded loop that writes chunks until the filesystem refuses. */
module Redirect {
  import opened Paths
  import opened Sums
  import opened FlatFs
  import opened Vfs

  /** The redirect was discarded by a device, stopped by an error, or ran through all its iterations. */
  datatype StreamResult = Discarded | Raised(error: Error) | FellThrough

  lemma NonEmptyHasBytes(s: string)
    requires s != ""
    ensures Utf8Size(s) >= 1
  {
  }

  /** A device is at this place. */
  ghost predicate DeviceAt(v: View, p: Path) {
    p in v && v[p].FileEntry? && v[p].device
  }

  /** After some writes the target holds at least that many chunks, all of them counted. */
  ghost predicate Holds(fs: Fs, p: Path, chunks: nat, chunkBytes: nat) {
    && !DeviceAt(fs.view, p)
    && (chunks > 0 ==> p in fs.view && fs.view[p].FileEntry? && fs.view[p].dynamic
                       && Utf8Size(fs.view[p].content) >= chunks * chunkBytes)
  }

  /** What is held fits the quota, so only so many chunks can be. */
  lemma HoldsFewChunks(fs: Fs, p: Path, chunks: nat, chunkBytes: nat)
    requires Sound(fs) && Holds(fs, p, chunks, chunkBytes) && chunkBytes > 0
    ensures chunks <= fs.maxTotal / chunkBytes
  {
    if chunks > 0 {
      AddendAtMostSum(Sizes(fs.view), p);
      AtMostQuotient(chunks, chunkBytes, fs.maxTotal);
    }
  }

  lemma MultiplesGrow(a: nat, b: nat, c: nat)
    requires a <= b
    ensures a * c <= b * c
  {
  }

  lemma AtMostQuotient(k: nat, c: nat, total: nat)
    requires c > 0 && k * c <= total
    ensures k <= total / c
  {
    var q, r := total / c, total % c;
    assert total == q * c + r && r < c;
    AtMost(k, c, q, r);
  }

  lemma AtMost(k: nat, c: nat, q: nat, r: nat)
    requires k * c <= q * c + r && r < c
    ensures k <= q
  {
    assert (q + 1) * c == q * c + c;
    if k > q {
      MultiplesGrow(q + 1, k, c);
    }
  }

  /** One more successful write is one more chunk. */
  lemma WriteHoldsMore(fs: Fs, abs: string, chunk: string, append: bool, chunks: nat)
    requires Sound(fs) && IsCanonical(abs) && abs != DEV_NULL && Holds(fs, Components(abs), chunks, Utf8Size(chunk))
    requires chunks > 0 ==> append
    requires DoWrite(fs, abs, chunk, append).1.Done?
    ensures Holds(DoWrite(fs, abs, chunk, append).0, Components(abs), chunks + 1, Utf8Size(chunk))
  {
    hide IsCanonical, Components, DoWrite, Sound, Utf8Size;
    var p := Components(abs);
    WriteStores(fs, abs, chunk, append);
    var before := if p in fs.view && fs.view[p].FileEntry? then fs.view[p].content else "";
    Utf8SizeExactly('a', before, chunk);
    assert (chunks + 1) * Utf8Size(chunk) == chunks * Utf8Size(chunk) + Utf8Size(chunk);
    assert "" + chunk == chunk;
  }

  /**
   * The whole redirect of a non-empty chunk. Unless the target is `/dev/null` with its device gone, the
   * loop is stopped by an error after at most max_total / chunk successful writes, and the quota holds.
   */
  method StreamInfiniteRedirect(vfs: VirtualFileSystem, path: string, cwd: string, chunk: string, append: bool)
    returns (r: StreamResult, ghost writes: nat)
    requires vfs.Valid() && chunk != ""
    modifies vfs, vfs.Objects()
    ensures vfs.Valid()
    ensures var abs := Canonical(path, cwd, vfs.home);
            && (r.Discarded? <==> DeviceAt(old(vfs.View()), Components(abs)))
            && (r.FellThrough? <==> abs == DEV_NULL && !DeviceAt(old(vfs.View()), Components(abs)))
    ensures r.Raised? ==> writes <= vfs.maxTotalVfsBytes / Utf8Size(chunk)
    ensures !r.Raised? ==> vfs.FS() == old(vfs.FS())
  {
    hide IsCanonical, Components, Canonical, Sound, Utf8Size, FlatFs.Resolve;
    var dest := vfs.Resolve(path, cwd);
    assert vfs.View() == old(vfs.View());
    ResolvedDevice(vfs, Canonical(path, cwd, vfs.home), dest);
    if dest.Node? && dest.node.FileNode? && dest.node.file.charDevice {
      return Discarded, 0;
    }
    NonEmptyHasBytes(chunk);
    r, writes := WriteUntilRefused(vfs, path, cwd, chunk, append);
  }

  method WriteUntilRefused(vfs: VirtualFileSystem, path: string, cwd: string, chunk: string, append: bool)
    returns (r: StreamResult, ghost writes: nat)
    requires vfs.Valid() && Utf8Size(chunk) > 0
    requires !DeviceAt(vfs.View(), Components(Canonical(path, cwd, vfs.home)))
    modifies vfs, vfs.Objects()
    ensures vfs.Valid()
    ensures if Canonical(path, cwd, vfs.home) == DEV_NULL then r.FellThrough? && vfs.FS() == old(vfs.FS())
            else r.Raised? && writes <= vfs.maxTotalVfsBytes / Utf8Size(chunk)
  {
    hide Canonical, Components, Utf8Size, Underway;
    ghost var start := vfs.FS();
    var chunkBytes := Utf8Size(chunk);
    var maxIters := vfs.maxTotalVfsBytes / chunkBytes + 2;
    var useAppend := append;
    StartsUnderway(vfs, path, cwd, chunk, start);
    writes := 0;
    for i := 0 to maxIters
      invariant Underway(vfs, Canonical(path, cwd, vfs.home), chunk, start, i)
      invariant (i > 0 ==> useAppend) && writes == i
      invariant fresh(vfs.Objects() - old(vfs.Objects()))
    {
      var status := WriteOnce(vfs, path, cwd, chunk, useAppend, start, i);
      if status.Failed? {
        return Raised(status.error), writes;
      }
      writes := writes + 1;
      useAppend := true;
    }
    UnderwayIsBounded(vfs, Canonical(path, cwd, vfs.home), chunk, start, maxIters);
    r := FellThrough;
  }

  /** The state of the loop before a write: nothing has happened to a missing `/dev/null`, anything else has grown. */
  ghost predicate Underway(vfs: VirtualFileSystem, abs: string, chunk: string, start: Fs, i: nat)
    reads *
  {
    && vfs.Valid() && IsCanonical(abs)
    && if abs == DEV_NULL then vfs.FS() == start else Holds(vfs.FS(), Components(abs), i, Utf8Size(chunk))
  }

  lemma StartsUnderway(vfs: VirtualFileSystem, path: string, cwd: string, chunk: string, start: Fs)
    requires vfs.Valid() && start == vfs.FS()
    requires !DeviceAt(vfs.View(), Components(Canonical(path, cwd, vfs.home)))
    ensures Underway(vfs, Canonical(path, cwd, vfs.home), chunk, start, 0)
  {
    hide Canonical, IsCanonical, Components, Sound;
    CanonicalIsCanonical(path, cwd, vfs.home);
  }

  lemma UnderwayIsBounded(vfs: VirtualFileSystem, abs: string, chunk: string, start: Fs, i: nat)
    requires Underway(vfs, abs, chunk, start, i) && Utf8Size(chunk) > 0
    ensures vfs.Valid()
    ensures if abs == DEV_NULL then vfs.FS() == start else i <= vfs.maxTotalVfsBytes / Utf8Size(chunk)
  {
    hide IsCanonical, Components, Sound, Utf8Size, Holds;
    if abs != DEV_NULL {
      HoldsFewChunks(vfs.FS(), Components(abs), i, Utf8Size(chunk));
    }
  }

  method WriteOnce(vfs: VirtualFileSystem, path: string, cwd: string, chunk: string, append: bool, ghost start: Fs, ghost i: nat)
    returns (status: Status)
    requires Underway(vfs, Canonical(path, cwd, vfs.home), chunk, start, i) && Utf8Size(chunk) > 0
    requires i > 0 ==> append
    modifies vfs, vfs.Objects()
    ensures fresh(vfs.Objects() - old(vfs.Objects()))
    ensures status.Done? ==> Underway(vfs, Canonical(path, cwd, vfs.home), chunk, start, i + 1)
    ensures status.Failed? ==>
              vfs.Valid() && Canonical(path, cwd, vfs.home) != DEV_NULL && i <= vfs.maxTotalVfsBytes / Utf8Size(chunk)
  {
    hide Canonical, IsCanonical, Components, DoWrite, Sound, Utf8Size, Holds;
    ghost var abs, before := Canonical(path, cwd, vfs.home), vfs.FS();
    UnderwayIsBounded(vfs, abs, chunk, start, i);
    SoundIsTree(before);
    status := vfs.WriteFile(path, chunk, cwd, append);
    if abs == DEV_NULL {
      NullDiscards(before, chunk, append);
    } else if status.Done? {
      WriteHoldsMore(before, abs, chunk, append, i);
    }
  }

  lemma NullDiscards(fs: Fs, content: string, append: bool)
    requires [] in fs.view
    ensures DoWrite(fs, DEV_NULL, content, append) == (fs, Done)
  {
  }

  lemma ResolvedDevice(vfs: VirtualFileSystem, abs: string, dest: Resolved)
    requires vfs.Structure()
    requires match FlatFs.Resolve(vfs.View(), abs)
             case Found(p) => p in vfs.nodes && dest == Node(vfs.nodes[p])
             case Blocked(e) => dest == Missing(e)
    ensures DeviceAt(vfs.View(), Components(abs)) <==> dest.Node? && dest.node.FileNode? && dest.node.file.charDevice
  {
    ViewIsTree(vfs.root, vfs.nodes);
    ResolveFindsExactly(vfs.View(), abs);
  }
}
