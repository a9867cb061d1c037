/** The directory walk of src/fs/ext_reader.c (`inode_extents`, `fsd_extfs_walk`). It runs on
    arbitrary bytes: corrupt files and directories are skipped. */
module ExtWalk {
  import opened Bytes
  import opened ExtImage
  import opened Extents
  import BlockMap

  // ----- the mappings of an inode

  const IFLAG_EXTENTS := 0x8_0000
  const IFLAG_INLINE_DATA := 0x1000_0000

  ghost predicate InodeInside(fs: Fs, inode: nat)
  {
    fs.Valid() && inode + 128 <= |fs.image|
  }

  function FileBlocks(fs: Fs, inode: nat): (n: nat)
    requires InodeInside(fs, inode)
  {
    (FileSize(fs, inode) + fs.blockSize - 1) / fs.blockSize
  }

  /** Reference: the data blocks of an inode; `None` when its map is malformed. */
  ghost function InodePairs(fs: Fs, inode: nat): (r: Option<seq<Pair>>)
    requires InodeInside(fs, inode)
  {
    var flags, area := Rd32(fs.image, inode + 0x20), inode + 0x28;
    if Has(flags, IFLAG_INLINE_DATA) then Some([])
    else if Has(flags, IFLAG_EXTENTS) then TreePairs(fs, Node(area, 60), -1)
    else
      var n := FileBlocks(fs, inode);
      if n <= BlockMap.MAX_FILE_BLOCKS && BlockMap.AllGood(fs, area, 0, n)
      then Some(BlockMap.Mapped(fs, area, 0, n)) else None
  }

  /** The map is well-formed and takes no more extents than the per-file cap allows. */
  ghost predicate Readable(fs: Fs, inode: nat)
    requires InodeInside(fs, inode)
  {
    InodePairs(fs, inode).Some? && Runs(InodePairs(fs, inode).value) <= MAX_EXTENTS_PER_FILE
  }

  /** `inode_extents`. Without a failed allocation it succeeds exactly for the readable inodes. */
  method InodeExtents(fs: Fs, inode: nat, calm: bool) returns (ok: bool, lost: bool, list: seq<Extent>)
    requires InodeInside(fs, inode)
    ensures ok ==> InodePairs(fs, inode) == Some(Flatten(list)) && Coalesced(list)
    ensures ok ==> Readable(fs, inode)
    ensures !lost ==> (ok <==> Readable(fs, inode))
    ensures lost ==> !ok && !calm
  {
    hide Rd32, Has, TreePairs, BlockMap.Mapped, BlockMap.AllGood, Flatten, Runs;
    EmptyRuns();
    var flags, area := Rd32(fs.image, inode + 0x20), inode + 0x28;
    if Has(flags, IFLAG_INLINE_DATA) { return true, false, []; }
    if Has(flags, IFLAG_EXTENTS) {
      ok, lost, list := ReadTree(fs, Node(area, 60), -1, calm);
      return;
    }
    ok, lost, list := BlockMap.Collect(fs, area, FileBlocks(fs, inode), calm);
  }

  // ----- directory entries

  const MAX_PATH_LEN := 4096
  const MAX_DIR_DEPTH := 128
  const ROOT_INODE := 2
  const SLASH: byte := 47
  const DOT: byte := 46

  datatype FileType = Unknown | Regular | Directory | Other

  datatype Dirent = Dirent(inode: nat, name: seq<byte>, kind: FileType, recLen: nat)

  function Inode(fs: Fs, ino: nat): (r: Option<nat>)
    requires fs.Valid()
    ensures r.Some? ==> InodeInside(fs, r.value)
  {
    InodeAt(fs, ino)
  }

  function ClassifyByMode(fs: Fs, ino: nat): (k: FileType)
    requires fs.Valid()
  {
    match Inode(fs, ino)
    case None => Unknown
    case Some(at) =>
      if Format(fs, at) == MODE_DIRECTORY then Directory
      else if Format(fs, at) == MODE_REGULAR then Regular
      else Unknown
  }

  function TypeByte(b: byte): (k: FileType)
  {
    if b == 1 then Regular else if b == 2 then Directory else if b == 0 then Unknown else Other
  }

  /** The record at `pos` of a directory block; `None` ends the block. An entry without a
      usable name has an empty one here. */
  function ReadDirent(fs: Fs, block: nat, pos: nat): (r: Option<Dirent>)
    requires fs.Valid() && block + fs.blockSize <= |fs.image|
    ensures r.Some? ==> r.value.recLen >= 8 && pos + r.value.recLen <= fs.blockSize
  {
    if pos + 8 > fs.blockSize then None
    else
      var de := block + pos;
      var recLen := Rd16(fs.image, de + 4);
      if recLen < 8 || recLen % 4 != 0 || pos + recLen > fs.blockSize then None
      else
        var ino := Rd32(fs.image, de);
        var nameLen := if fs.hasFiletype then fs.image[de + 6] else Rd16(fs.image, de + 6);
        var kind := if fs.hasFiletype then TypeByte(fs.image[de + 7]) else ClassifyByMode(fs, ino);
        var usable := ino != 0 && nameLen > 0 && 8 + nameLen <= recLen;
        Some(Dirent(ino, if usable then fs.image[de + 8..de + 8 + nameLen] else [], kind, recLen))
  }

  predicate GoodName(name: seq<byte>)
  {
    name != [] && name != [DOT] && name != [DOT, DOT] && SLASH !in name && 0 !in name
  }

  function PathDepth(p: seq<byte>): (n: nat)
  {
    if p == [] then 0 else (if p[0] == SLASH then 1 else 0) + PathDepth(p[1..])
  }

  /** All records of a directory block from `pos` on. */
  function Records(fs: Fs, block: nat, pos: nat): (r: seq<Dirent>)
    requires fs.Valid() && block + fs.blockSize <= |fs.image| && pos <= fs.blockSize
    decreases fs.blockSize - pos
  {
    match ReadDirent(fs, block, pos)
    case None => []
    case Some(de) => [de] + Records(fs, block, pos + de.recLen)
  }

  // ----- the walk

  datatype FileEntry = FileEntry(path: seq<byte>, inode: nat, size: nat, extents: seq<Extent>)
  datatype DirEntry = DirEntry(inode: nat, path: seq<byte>)

  /** The inode is a regular file. */
  ghost predicate RegularFile(fs: Fs, ino: nat)
    requires fs.Valid()
  {
    var at := Inode(fs, ino);
    at.Some? && Format(fs, at.value) == MODE_REGULAR
  }

  /** A reported file: a regular-file inode and exactly its blocks. */
  ghost predicate FileOk(fs: Fs, f: FileEntry)
    requires fs.Valid()
  {
    && RegularFile(fs, f.inode) && |f.path| < MAX_PATH_LEN
    && f.size == FileSize(fs, Inode(fs, f.inode).value)
    && InodePairs(fs, Inode(fs, f.inode).value) == Some(Flatten(f.extents)) && Coalesced(f.extents)
  }

  /** The inode is a directory whose blocks can be found. */
  ghost predicate Expandable(fs: Fs, ino: nat)
    requires fs.Valid()
  {
    var at := Inode(fs, ino);
    at.Some? && Format(fs, at.value) == MODE_DIRECTORY && Readable(fs, at.value)
  }

  function Join(dirPath: seq<byte>, name: seq<byte>): (p: seq<byte>)
  {
    dirPath + [SLASH] + name
  }

  /** What a record of a directory calls for: a readable regular file is reported under its path,
      and a subdirectory within the caps is marked for expansion. */
  ghost predicate Handled(fs: Fs, dirPath: seq<byte>, de: Dirent, visited: set<nat>, files: seq<FileEntry>)
    requires fs.Valid()
  {
    GoodName(de.name) && |Join(dirPath, de.name)| < MAX_PATH_LEN ==>
      && (CallsForVisit(fs, dirPath, de) ==> de.inode in visited)
      && (CallsForReport(fs, de) ==> Reported(files, Join(dirPath, de.name), de.inode))
  }

  ghost predicate CallsForVisit(fs: Fs, dirPath: seq<byte>, de: Dirent)
  {
    de.kind == Directory && PathDepth(Join(dirPath, de.name)) <= MAX_DIR_DEPTH && de.inode <= fs.inodesCount
  }

  ghost predicate CallsForReport(fs: Fs, de: Dirent)
    requires fs.Valid()
  {
    de.kind == Regular && RegularFile(fs, de.inode) && Readable(fs, Inode(fs, de.inode).value)
  }

  ghost predicate Reported(files: seq<FileEntry>, path: seq<byte>, ino: nat)
  {
    exists i :: 0 <= i < |files| && files[i].path == path && files[i].inode == ino
  }

  ghost predicate BlockHandled(fs: Fs, dirPath: seq<byte>, block: nat, visited: set<nat>, files: seq<FileEntry>)
    requires fs.Valid()
  {
    match FsBlock(fs, block)
    case None => true
    case Some(at) =>
      forall i :: 0 <= i < |Records(fs, at, 0)| ==> Handled(fs, dirPath, Records(fs, at, 0)[i], visited, files)
  }

  /** Block `b` of an extent is handled. */
  ghost predicate PartHandled(fs: Fs, dirPath: seq<byte>, x: Extent, b: nat, visited: set<nat>, files: seq<FileEntry>)
    requires fs.Valid()
  {
    BlockHandled(fs, dirPath, x.physical + b, visited, files)
  }

  ghost predicate ExtentHandled(fs: Fs, dirPath: seq<byte>, x: Extent, m: nat, visited: set<nat>, files: seq<FileEntry>)
    requires fs.Valid()
  {
    forall b: nat :: b < m ==> PartHandled(fs, dirPath, x, b, visited, files)
  }

  lemma ExtentHandledGrows(fs: Fs, dirPath: seq<byte>, x: Extent, m: nat, v: set<nat>, v': set<nat>,
                           f: seq<FileEntry>, f': seq<FileEntry>)
    requires fs.Valid() && v <= v' && f <= f' && ExtentHandled(fs, dirPath, x, m, v, f)
    ensures ExtentHandled(fs, dirPath, x, m, v', f')
  {
    hide BlockHandled;
    forall b: nat | b < m ensures PartHandled(fs, dirPath, x, b, v', f') {
      assert PartHandled(fs, dirPath, x, b, v, f);
      BlockHandledGrows(fs, dirPath, x.physical + b, v, v', f, f');
    }
  }

  /** Every record of every block of the directory is handled. */
  ghost predicate DirHandled(fs: Fs, dir: DirEntry, visited: set<nat>, files: seq<FileEntry>)
    requires fs.Valid()
  {
    && Inode(fs, dir.inode).Some? && InodePairs(fs, Inode(fs, dir.inode).value).Some?
    && var ps := InodePairs(fs, Inode(fs, dir.inode).value).value;
       forall k :: 0 <= k < |ps| ==> BlockHandled(fs, dir.path, ps[k].physical, visited, files)
  }

  // ----- where reported paths come from

  /** The record is in this block. */
  ghost predicate InBlock(fs: Fs, block: nat, de: Dirent)
    requires fs.Valid()
  {
    FsBlock(fs, block).Some? && de in Records(fs, FsBlock(fs, block).value, 0)
  }

  /** The block belongs to the directory. */
  ghost predicate DirBlock(fs: Fs, dir: DirEntry, block: nat)
    requires fs.Valid()
  {
    && Inode(fs, dir.inode).Some? && Format(fs, Inode(fs, dir.inode).value) == MODE_DIRECTORY
    && InodePairs(fs, Inode(fs, dir.inode).value).Some?
    && var ps := InodePairs(fs, Inode(fs, dir.inode).value).value;
       exists k :: 0 <= k < |ps| && ps[k].physical == block
  }

  /** The directory has the record. */
  ghost predicate RecordIn(fs: Fs, dir: DirEntry, de: Dirent)
    requires fs.Valid()
  {
    exists block: nat :: DirBlock(fs, dir, block) && InBlock(fs, block, de)
  }

  /** One of the directories lists the inode under this path. */
  ghost predicate Listed(fs: Fs, dirs: seq<DirEntry>, ino: nat, path: seq<byte>)
    requires fs.Valid()
  {
    exists d, de :: d in dirs && RecordIn(fs, d, de) && GoodName(de.name) && de.inode == ino
      && path == Join(d.path, de.name)
  }

  /** The root under the empty path, or listed. */
  ghost predicate Rooted(fs: Fs, dirs: seq<DirEntry>, e: DirEntry)
    requires fs.Valid()
  {
    if e.inode == ROOT_INODE then e.path == [] else Listed(fs, dirs, e.inode, e.path)
  }

  ghost predicate AllRooted(fs: Fs, dirs: seq<DirEntry>, entries: seq<DirEntry>)
    requires fs.Valid()
  {
    forall i :: 0 <= i < |entries| ==> Rooted(fs, dirs, entries[i])
  }

  ghost predicate AllListed(fs: Fs, dirs: seq<DirEntry>, files: seq<FileEntry>)
    requires fs.Valid()
  {
    forall i :: 0 <= i < |files| ==> Listed(fs, dirs, files[i].inode, files[i].path)
  }

  lemma ListedGrows(fs: Fs, dirs: seq<DirEntry>, dirs': seq<DirEntry>, ino: nat, path: seq<byte>)
    requires fs.Valid() && dirs <= dirs' && Listed(fs, dirs, ino, path)
    ensures Listed(fs, dirs', ino, path)
  {
    hide RecordIn, GoodName;
    var d, de :| d in dirs && RecordIn(fs, d, de) && GoodName(de.name) && de.inode == ino
      && path == Join(d.path, de.name);
    assert d in dirs';
  }

  lemma AllGrow(fs: Fs, dirs: seq<DirEntry>, dirs': seq<DirEntry>, entries: seq<DirEntry>, files: seq<FileEntry>)
    requires fs.Valid() && dirs <= dirs' && AllRooted(fs, dirs, entries) && AllListed(fs, dirs, files)
    ensures AllRooted(fs, dirs', entries) && AllListed(fs, dirs', files)
  {
    hide Listed;
    forall i | 0 <= i < |entries| ensures Rooted(fs, dirs', entries[i]) {
      assert Rooted(fs, dirs, entries[i]);
      if entries[i].inode != ROOT_INODE {
        ListedGrows(fs, dirs, dirs', entries[i].inode, entries[i].path);
      }
    }
    forall i | 0 <= i < |files| ensures Listed(fs, dirs', files[i].inode, files[i].path) {
      ListedGrows(fs, dirs, dirs', files[i].inode, files[i].path);
    }
  }

  lemma ListedHere(fs: Fs, dirs: seq<DirEntry>, dir: DirEntry, de: Dirent)
    requires fs.Valid() && dir in dirs && RecordIn(fs, dir, de) && GoodName(de.name)
    ensures Listed(fs, dirs, de.inode, Join(dir.path, de.name))
  {
    hide RecordIn, GoodName;
  }

  /** Following the names from the root directory, record by record, leads to the inode; the path is the
      names joined by slashes. */
  ghost predicate Resolves(fs: Fs, names: seq<seq<byte>>, ino: nat, path: seq<byte>)
    requires fs.Valid()
    decreases |names|
  {
    if names == [] then ino == ROOT_INODE && path == []
    else
      var n := |names| - 1;
      exists d: DirEntry, de ::
        && Resolves(fs, names[..n], d.inode, d.path) && RecordIn(fs, d, de) && GoodName(de.name)
        && de.name == names[n] && de.inode == ino && path == Join(d.path, de.name)
  }

  lemma {:induction false} RootedResolves(fs: Fs, dirs: seq<DirEntry>, e: DirEntry) returns (names: seq<seq<byte>>)
    requires fs.Valid() && AllRooted(fs, dirs, dirs) && Rooted(fs, dirs, e)
    ensures Resolves(fs, names, e.inode, e.path)
    decreases |e.path|, 1
  {
    hide RecordIn, GoodName;
    if e.inode == ROOT_INODE {
      names := [];
    } else {
      names := ListedResolves(fs, dirs, e.inode, e.path);
    }
  }

  lemma {:induction false} ListedResolves(fs: Fs, dirs: seq<DirEntry>, ino: nat, path: seq<byte>)
    returns (names: seq<seq<byte>>)
    requires fs.Valid() && AllRooted(fs, dirs, dirs) && Listed(fs, dirs, ino, path)
    ensures Resolves(fs, names, ino, path)
    decreases |path|, 0
  {
    hide RecordIn, GoodName;
    var d, de :| d in dirs && RecordIn(fs, d, de) && GoodName(de.name) && de.inode == ino
      && path == Join(d.path, de.name);
    var i :| 0 <= i < |dirs| && dirs[i] == d;
    assert Rooted(fs, dirs, dirs[i]);
    var up := RootedResolves(fs, dirs, d);
    names := up + [de.name];
    assert names[..|names| - 1] == up;
  }

  /** Every reported path is real: it resolves to the reported inode from the root of the image. */
  lemma ReportedResolves(fs: Fs, dirs: seq<DirEntry>, files: seq<FileEntry>, i: nat) returns (names: seq<seq<byte>>)
    requires fs.Valid() && AllRooted(fs, dirs, dirs) && AllListed(fs, dirs, files) && i < |files|
    ensures Resolves(fs, names, files[i].inode, files[i].path)
  {
    hide Resolves, Listed, AllRooted;
    names := ListedResolves(fs, dirs, files[i].inode, files[i].path);
  }

  lemma HandledGrows(fs: Fs, dirPath: seq<byte>, de: Dirent, v: set<nat>, v': set<nat>, f: seq<FileEntry>,
                     f': seq<FileEntry>)
    requires fs.Valid() && v <= v' && f <= f' && Handled(fs, dirPath, de, v, f)
    ensures Handled(fs, dirPath, de, v', f')
  {
    hide GoodName, PathDepth, RegularFile, Readable;
    if Reported(f, Join(dirPath, de.name), de.inode) {
      var i :| 0 <= i < |f| && f[i].path == Join(dirPath, de.name) && f[i].inode == de.inode;
      assert f'[i] == f[i];
    }
  }

  lemma BlockHandledGrows(fs: Fs, dirPath: seq<byte>, block: nat, v: set<nat>, v': set<nat>, f: seq<FileEntry>,
                          f': seq<FileEntry>)
    requires fs.Valid() && v <= v' && f <= f' && BlockHandled(fs, dirPath, block, v, f)
    ensures BlockHandled(fs, dirPath, block, v', f')
  {
    hide Handled, Records;
    var at := FsBlock(fs, block);
    if at.Some? {
      forall i | 0 <= i < |Records(fs, at.value, 0)|
        ensures Handled(fs, dirPath, Records(fs, at.value, 0)[i], v', f')
      {
        HandledGrows(fs, dirPath, Records(fs, at.value, 0)[i], v, v', f, f');
      }
    }
  }

  lemma DirHandledGrows(fs: Fs, dir: DirEntry, v: set<nat>, v': set<nat>, f: seq<FileEntry>, f': seq<FileEntry>)
    requires fs.Valid() && v <= v' && f <= f' && DirHandled(fs, dir, v, f)
    ensures DirHandled(fs, dir, v', f')
  {
    hide BlockHandled, InodePairs;
    var ps := InodePairs(fs, Inode(fs, dir.inode).value).value;
    forall k | 0 <= k < |ps| ensures BlockHandled(fs, dir.path, ps[k].physical, v', f') {
      BlockHandledGrows(fs, dir.path, ps[k].physical, v, v', f, f');
    }
  }

  class Walker {
    const fs: Fs
    const stop: seq<FileEntry> -> bool     // the callback's answer, from the files reported so far
    var visited: set<nat>                  // the bitmap of directory inodes
    var stack: seq<DirEntry>
    var files: seq<FileEntry>
    ghost var dirs: seq<DirEntry>          // the directories expanded, in order
    var stopped: bool
    const calm: bool                       // nothing goes wrong in this run
    var lost: bool                         // a file or directory was given up for lack of memory

    /** Inode numbers that can still be pushed. */
    ghost function Unvisited(): (s: set<nat>)
      reads this
    {
      set i: nat | 0 <= i <= fs.inodesCount && i !in visited
    }

    /** Directories left to push plus directories waiting: bounds the rest of the walk. */
    ghost function Budget(): (n: nat)
      reads this
    {
      |Unvisited()| + |stack|
    }

    ghost predicate Valid()
      reads this
    {
      && fs.Valid() && ROOT_INODE in visited && (calm ==> !lost)
      && (forall i :: 0 <= i < |files| ==> FileOk(fs, files[i]))
      && AllListed(fs, dirs, files) && AllRooted(fs, dirs, stack) && AllRooted(fs, dirs, dirs)
      && (forall i :: 0 <= i < |stack| ==> stack[i].inode in visited)
      && (forall i :: 0 <= i < |dirs| ==> dirs[i].inode in visited)
      && (forall i, j :: 0 <= i < j < |dirs| ==> dirs[i].inode != dirs[j].inode)
      && (forall i, j :: 0 <= i < j < |stack| ==> stack[i].inode != stack[j].inode)
      && (forall i, j :: 0 <= i < |dirs| && 0 <= j < |stack| ==> dirs[i].inode != stack[j].inode)
    }

    /** A visited directory has been expanded, is waiting, or cannot be expanded. */
    ghost predicate Accounted(ino: nat)
      reads this
      requires fs.Valid()
    {
      || (exists i :: 0 <= i < |dirs| && dirs[i].inode == ino)
      || (exists i :: 0 <= i < |stack| && stack[i].inode == ino)
      || !Expandable(fs, ino)
    }

    /** Nothing has been forgotten so far. */
    ghost predicate Complete()
      reads this
      requires fs.Valid()
    {
      && (forall ino: nat :: ino in visited ==> Accounted(ino))
      && (forall i :: 0 <= i < |dirs| ==> DirHandled(fs, dirs[i], visited, files))
    }

    /** What every step inside a directory does: it only adds, whatever it marks it also pushes,
        and the budget never grows. */
    twostate predicate Grew()
      reads this
    {
      && old(visited) <= visited && old(files) <= files && old(stack) <= stack
      && dirs == old(dirs) && Budget() <= old(Budget()) && (old(stopped) ==> stopped) && (old(lost) ==> lost)
      && (NeverStops() && stopped ==> old(stopped))
      && forall ino: nat :: ino in visited && ino !in old(visited) ==> Waiting(ino)
    }

    /** The callback always wants to go on. */
    ghost predicate NeverStops()
    {
      forall s :: !stop(s)
    }

    /** Neither stopped nor short of memory. */
    ghost predicate Going()
      reads this
    {
      !stopped && !lost
    }

    ghost predicate Waiting(ino: nat)
      reads this
    {
      exists i :: 0 <= i < |stack| && stack[i].inode == ino
    }

    constructor (fs: Fs, stop: seq<FileEntry> -> bool, calm: bool)
      requires fs.Valid()
      ensures Valid() && this.fs == fs && this.stop == stop && this.calm == calm
      ensures files == [] && dirs == [] && !stopped && !lost
      ensures Complete()
    {
      hide DirHandled, Expandable, FileOk;
      this.fs, this.stop, this.calm := fs, stop, calm;
      visited := {ROOT_INODE};
      stack := [DirEntry(ROOT_INODE, [])];
      files, dirs, stopped, lost := [], [], false, false;
      new;
      assert stack[0].inode == ROOT_INODE;
    }

    /** Marks and pushes a subdirectory that has not been seen. The push may run out of memory. */
    method Push(ino: nat, path: seq<byte>) returns (ok: bool)
      requires Valid() && Listed(fs, dirs, ino, path)
      modifies this
      ensures ok ==> Valid() && Grew() && files == old(files) && lost == old(lost)
      ensures calm ==> ok
      ensures ok && PathDepth(path) <= MAX_DIR_DEPTH && ino <= fs.inodesCount ==> ino in visited
    {
      hide FileOk, Listed;
      if ino > fs.inodesCount || ino in visited || PathDepth(path) > MAX_DIR_DEPTH { return true; }
      ghost var before := Unvisited();
      visited := visited + {ino};
      assert Unvisited() == before - {ino};
      ok := Attempt(calm);
      if ok {
        stack := stack + [DirEntry(ino, path)];
        assert stack[|stack| - 1].inode == ino;
      }
    }

    /** Hands a file to the callback, which may ask to stop. */
    method Report(f: FileEntry)
      requires Valid() && FileOk(fs, f) && Listed(fs, dirs, f.inode, f.path)
      modifies this
      ensures Valid() && Grew() && files == old(files) + [f] && lost == old(lost)
    {
      hide FileOk, Listed, AllRooted;
      files := files + [f];
      if stop(files) { stopped := true; }
    }

    /** One entry of the directory at `dirPath`. */
    method Visit(dirPath: seq<byte>, de: Dirent, ghost dir: DirEntry) returns (ok: bool)
      requires Valid() && dir in dirs && dir.path == dirPath && RecordIn(fs, dir, de)
      modifies this
      ensures ok ==> Valid() && Grew() && (!lost ==> Handled(fs, dirPath, de, visited, files))
      ensures calm ==> ok
    {
      hide FileSize, Format, InodePairs, PathDepth, GoodName, Listed, RecordIn, Coalesced, Readable, Valid;
      assert fs.Valid() by { FsValid(); }
      if !GoodName(de.name) || |dirPath| + 1 + |de.name| >= MAX_PATH_LEN { return true; }
      var path := dirPath + [SLASH] + de.name;
      ListedHere(fs, dirs, dir, de);
      if de.kind == Directory {
        ok := Push(de.inode, path);
        return;
      }
      if de.kind == Regular {
        var at := Inode(fs, de.inode);
        if at.Some? && Format(fs, at.value) == MODE_REGULAR {
          var good, gone, extents := InodeExtents(fs, at.value, calm);
          if gone { SetLost(); }
          if good {
            Report(FileEntry(path, de.inode, FileSize(fs, at.value), extents));
            assert files[|files| - 1].path == path && files[|files| - 1].inode == de.inode;
          }
        }
      }
      return true;
    }

    /** The records of one directory block. */
    method ScanBlock(dirPath: seq<byte>, block: nat, ghost dir: DirEntry) returns (ok: bool)
      requires Valid() && FsBlock(fs, block).Some?
      requires dir in dirs && dir.path == dirPath && DirBlock(fs, dir, block)
      modifies this
      ensures ok ==> Valid() && Grew() && (!lost ==> BlockHandled(fs, dirPath, block, visited, files))
      ensures calm ==> ok
    {
      hide ReadDirent, Handled, FileOk, FsBlock, AllListed, AllRooted, DirBlock;
      var at := FsBlock(fs, block).value;
      ghost var all := Records(fs, at, 0);
      ghost var i := 0;
      var pos := 0;
      while pos + 8 <= fs.blockSize
        invariant Valid() && Grew() && 0 <= pos <= fs.blockSize && 0 <= i <= |all|
        invariant Records(fs, at, pos) == all[i..]
        invariant !lost ==> forall k :: 0 <= k < i ==> Handled(fs, dirPath, all[k], visited, files)
        decreases fs.blockSize - pos
      {
        var de := ReadDirent(fs, at, pos);
        if de.None? { return true; }
        assert all[i..][0] == de.value && all[i..][1..] == all[i + 1..];
        ghost var v, f := visited, files;
        assert all[i] in all;
        assert InBlock(fs, block, de.value);
        ok := Visit(dirPath, de.value, dir);
        if !ok { return; }
        forall k | 0 <= k < i && !lost ensures Handled(fs, dirPath, all[k], visited, files) {
          HandledGrows(fs, dirPath, all[k], v, visited, f, files);
        }
        pos := pos + de.value.recLen;
        i := i + 1;
      }
      RecordsEnd(fs, at, pos);
      return true;
    }

    /** The blocks of one extent; blocks outside the image are skipped. */
    method ScanExtent(dirPath: seq<byte>, x: Extent, ghost dir: DirEntry) returns (ok: bool)
      requires Valid() && dir in dirs && dir.path == dirPath && ExtentOf(fs, dir, x)
      modifies this
      ensures ok ==> Valid() && Grew() && (Going() ==> ExtentHandled(fs, dirPath, x, x.count, visited, files))
      ensures calm ==> ok
    {
      hide BlockHandled, FileOk, AllListed, AllRooted, DirBlock;
      var b := 0;
      while b < x.count && !stopped
        invariant 0 <= b <= x.count && Valid() && Grew()
        invariant Going() ==> ExtentHandled(fs, dirPath, x, b, visited, files)
        decreases x.count - b
      {
        ghost var v, f := visited, files;
        var p := x.physical + b;
        if FsBlock(fs, p).Some? {
          assert PartOf(fs, dir, x, b);
          ok := ScanBlock(dirPath, p, dir);
          if !ok { return; }
        } else {
          OutsideHandled(fs, dirPath, p, visited, files);
        }
        if !lost {
          ExtentHandledGrows(fs, dirPath, x, b, v, visited, f, files);
          assert PartHandled(fs, dirPath, x, b, visited, files);
        }
        b := b + 1;
      }
      return true;
    }

    ghost predicate ListHandled(dirPath: seq<byte>, list: seq<Extent>, m: nat)
      reads this
      requires fs.Valid() && m <= |list|
    {
      forall e :: 0 <= e < m ==> ExtentHandled(fs, dirPath, list[e], list[e].count, visited, files)
    }

    /** All extents of a directory. */
    method ScanDirectory(dirPath: seq<byte>, list: seq<Extent>, ghost dir: DirEntry) returns (ok: bool)
      requires Valid() && dir in dirs && dir.path == dirPath
      requires forall e :: 0 <= e < |list| ==> ExtentOf(fs, dir, list[e])
      modifies this
      ensures ok ==> Valid() && Grew() && (Going() ==> ListHandled(dirPath, list, |list|))
      ensures calm ==> ok
    {
      hide ExtentHandled, FileOk, AllListed, AllRooted, ExtentOf;
      var e := 0;
      while e < |list| && !stopped
        invariant 0 <= e <= |list| && Valid() && Grew()
        invariant Going() ==> ListHandled(dirPath, list, e)
      {
        ghost var v, f := visited, files;
        ok := ScanExtent(dirPath, list[e], dir);
        if !ok { return; }
        forall d | 0 <= d < e && Going()
          ensures ExtentHandled(fs, dirPath, list[d], list[d].count, visited, files)
        {
          ExtentHandledGrows(fs, dirPath, list[d], list[d].count, v, visited, f, files);
        }
        e := e + 1;
      }
      return true;
    }

    /** Takes the top directory off the stack. */
    method Pop() returns (dir: DirEntry)
      requires Valid() && |stack| > 0
      modifies this
      ensures Valid() && CanEnter(dir) && old(stack) == stack + [dir]
      ensures visited == old(visited) && files == old(files) && dirs == old(dirs)
      ensures stopped == old(stopped) && lost == old(lost)
      ensures Budget() < old(Budget())
    {
      hide FileOk, AllListed, Rooted;
      var n := |stack| - 1;
      dir := stack[n];
      assert Rooted(fs, dirs, stack[n]);
      RootedPrefix(fs, dirs, stack, n);
      stack := stack[..n];
    }

    /** The directory has been visited, and is neither expanded nor waiting. */
    ghost predicate CanEnter(dir: DirEntry)
      reads this
      requires fs.Valid()
    {
      && dir.inode in visited && Rooted(fs, dirs, dir)
      && (forall i :: 0 <= i < |dirs| ==> dirs[i].inode != dir.inode)
      && (forall i :: 0 <= i < |stack| ==> stack[i].inode != dir.inode)
    }

    /** Counts the directory as expanded. */
    ghost method Enter(dir: DirEntry)
      requires Valid() && CanEnter(dir)
      modifies this`dirs
      ensures Valid() && dirs == old(dirs) + [dir]
    {
      hide FileOk, AllRooted, AllListed;
      Entering(fs, dirs, dir, stack, files);
      dirs := dirs + [dir];
    }

    /** Takes a directory off the stack and expands it. */
    method Expand() returns (ok: bool)
      requires Valid() && |stack| > 0 && (!lost ==> Complete()) && !stopped
      modifies this
      ensures ok ==> Valid() && Budget() < old(Budget()) && (Going() ==> Complete()) && (NeverStops() ==> !stopped)
      ensures calm ==> ok
    {
      hide Format, DirHandled, Readable, InodePairs, ListHandled, ExtentOf, CanEnter, Accounted, Valid;
      ghost var s0, d0, v, f := stack, dirs, visited, files;
      assert fs.Valid() by { FsValid(); }
      forall ino: nat | ino in v && !lost ensures WasAccounted(ino, d0, s0) {
        AccountedThen(ino);
      }
      hide WasAccounted;
      var dir := Pop();
      assert s0[..|s0| - 1] == stack && s0[|s0| - 1] == dir;
      var at := Inode(fs, dir.inode);
      if at.Some? && Format(fs, at.value) == MODE_DIRECTORY {
        var good, gone, list := InodeExtents(fs, at.value, calm);
        if gone {
          SetLost();
          return true;
        }
        if good {
          Enter(dir);
          forall e | 0 <= e < |list| ensures ExtentOf(fs, dir, list[e]) {
            ListExtents(fs, dir, list, e);
          }
          assert dirs[|d0|] == dir;
          ok := ScanDirectory(dir.path, list, dir);
          if !ok { return; }
          if Going() {
            HandledList(dir.path, list);
            ListIsDir(fs, dir, list, visited, files);
            forall i | 0 <= i < |dirs| ensures DirHandled(fs, dirs[i], visited, files) {
              if i < |d0| { DirHandledGrows(fs, d0[i], v, visited, f, files); }
            }
            forall ino: nat | ino in visited ensures Accounted(ino) {
              if ino in v {
                StillAccounted(ino, d0, s0, |d0|);
              } else {
                WaitingAccounted(ino);
              }
            }
          }
          return true;
        }
      }
      forall ino: nat | ino in visited && !lost ensures Accounted(ino) {
        StillAccounted(ino, d0, s0, |d0|);
      }
      return true;
    }

    method SetLost()
      requires Valid() && !calm
      modifies this`lost
      ensures Valid() && lost
    {
      hide FileOk, AllRooted, AllListed;
      lost := true;
    }

    lemma FsValid()
      requires Valid()
      ensures fs.Valid()
    {
    }

    lemma WaitingAccounted(ino: nat)
      requires fs.Valid() && Waiting(ino)
      ensures Accounted(ino)
    {
      hide Expandable;
    }

    lemma HandledList(dirPath: seq<byte>, list: seq<Extent>)
      requires fs.Valid() && ListHandled(dirPath, list, |list|)
      ensures forall e :: 0 <= e < |list| ==> ExtentHandled(fs, dirPath, list[e], list[e].count, visited, files)
    {
      hide ExtentHandled;
    }

    /** `Accounted`, in an earlier state of the two lists. */
    ghost predicate WasAccounted(ino: nat, d0: seq<DirEntry>, s0: seq<DirEntry>)
      requires fs.Valid()
    {
      || (exists i :: 0 <= i < |d0| && d0[i].inode == ino)
      || (exists i :: 0 <= i < |s0| && s0[i].inode == ino)
      || !Expandable(fs, ino)
    }

    lemma AccountedThen(ino: nat)
      requires fs.Valid() && Accounted(ino)
      ensures WasAccounted(ino, dirs, stack)
    {
      hide Expandable;
    }

    /** Popping the top of the stack loses track of nothing but the popped directory. */
    lemma StillAccounted(ino: nat, d0: seq<DirEntry>, s0: seq<DirEntry>, k: nat)
      requires fs.Valid() && |s0| > 0 && s0[..|s0| - 1] <= stack && d0 <= dirs
      requires WasAccounted(ino, d0, s0)
      requires ino == s0[|s0| - 1].inode ==> !Expandable(fs, ino) || (k < |dirs| && dirs[k].inode == ino)
      ensures Accounted(ino)
    {
      hide Expandable;
      var n := |s0| - 1;
      if i :| 0 <= i < |d0| && d0[i].inode == ino {
        assert dirs[i] == d0[i];
      } else if i :| 0 <= i < n && s0[i].inode == ino {
        assert stack[i] == s0[..n][i];
      }
    }

    /** The main loop. It terminates on every image that `Open` accepts, expands no directory inode twice and
        reports only regular files with exactly their blocks. When no memory is lacking and it is not
        stopped, nothing within the caps is missed: every listed subdirectory is visited, every visited
        directory that can be is expanded, every readable regular file of an expanded directory is
        reported. */
    method Run() returns (r: Result<seq<FileEntry>>)
      requires Valid() && (!lost ==> Complete()) && !stopped
      modifies this
      ensures r == Ok(files) || r == Err(OutOfMemory)
      ensures r.Ok? ==> forall i :: 0 <= i < |files| ==> FileOk(fs, files[i])
      ensures r.Ok? ==> forall i, j :: 0 <= i < j < |dirs| ==> dirs[i].inode != dirs[j].inode
      ensures r.Ok? ==> AllListed(fs, dirs, files) && AllRooted(fs, dirs, dirs)
      ensures r.Ok? && Going() ==> Complete() && stack == [] && ROOT_INODE in visited
      ensures calm ==> r.Ok? && !lost
      ensures r.Ok? && NeverStops() ==> !stopped
    {
      hide FileOk, DirHandled, Expandable, AllListed, AllRooted;
      while |stack| > 0 && !stopped
        invariant Valid() && (Going() ==> Complete()) && (NeverStops() ==> !stopped)
        decreases Budget()
      {
        var ok := Expand();
        if !ok { return Err(OutOfMemory); }
      }
      return Ok(files);
    }
  }

  /** Every block of the extent belongs to the directory. */
  ghost predicate ExtentOf(fs: Fs, dir: DirEntry, x: Extent)
    requires fs.Valid()
  {
    forall b: nat :: b < x.count ==> PartOf(fs, dir, x, b)
  }

  ghost predicate PartOf(fs: Fs, dir: DirEntry, x: Extent, b: nat)
    requires fs.Valid()
  {
    DirBlock(fs, dir, x.physical + b)
  }

  lemma ListExtents(fs: Fs, dir: DirEntry, list: seq<Extent>, e: nat)
    requires fs.Valid() && e < |list| && Inode(fs, dir.inode).Some?
    requires Format(fs, Inode(fs, dir.inode).value) == MODE_DIRECTORY
    requires InodePairs(fs, Inode(fs, dir.inode).value) == Some(Flatten(list))
    ensures ExtentOf(fs, dir, list[e])
  {
    hide Flatten, InodePairs, Format;
    forall b: nat | b < list[e].count ensures PartOf(fs, dir, list[e], b) {
      var k := FlattenHas(list, e, b);
      assert Flatten(list)[k].physical == list[e].physical + b;
    }
  }

  lemma RootedPrefix(fs: Fs, dirs: seq<DirEntry>, s: seq<DirEntry>, n: nat)
    requires fs.Valid() && n <= |s| && AllRooted(fs, dirs, s)
    ensures AllRooted(fs, dirs, s[..n])
  {
    hide Rooted;
  }

  /** One more expanded directory. */
  lemma Entering(fs: Fs, dirs: seq<DirEntry>, dir: DirEntry, stack: seq<DirEntry>, files: seq<FileEntry>)
    requires fs.Valid() && Rooted(fs, dirs, dir)
    requires AllRooted(fs, dirs, stack) && AllRooted(fs, dirs, dirs) && AllListed(fs, dirs, files)
    ensures var dirs' := dirs + [dir];
      AllRooted(fs, dirs', stack) && AllRooted(fs, dirs', dirs') && AllListed(fs, dirs', files)
  {
    hide Rooted, AllListed;
    var all := dirs + [dir];
    AllGrow(fs, dirs, all, stack, files);
    AllGrow(fs, dirs, all, all, files);
  }

  lemma PairHandled(fs: Fs, dirPath: seq<byte>, list: seq<Extent>, visited: set<nat>, files: seq<FileEntry>, k: nat)
    requires fs.Valid() && k < |Flatten(list)|
    requires forall e :: 0 <= e < |list| ==> ExtentHandled(fs, dirPath, list[e], list[e].count, visited, files)
    ensures BlockHandled(fs, dirPath, Flatten(list)[k].physical, visited, files)
  {
    hide BlockHandled, Flatten;
    var e, b := FlattenMember(list, k);
    assert ExtentHandled(fs, dirPath, list[e], list[e].count, visited, files);
    assert PartHandled(fs, dirPath, list[e], b, visited, files);
  }

  lemma ListIsDir(fs: Fs, dir: DirEntry, list: seq<Extent>, visited: set<nat>, files: seq<FileEntry>)
    requires fs.Valid() && Inode(fs, dir.inode).Some?
    requires forall e :: 0 <= e < |list| ==> ExtentHandled(fs, dir.path, list[e], list[e].count, visited, files)
    requires InodePairs(fs, Inode(fs, dir.inode).value) == Some(Flatten(list))
    ensures DirHandled(fs, dir, visited, files)
  {
    hide BlockHandled, InodePairs, Flatten, ExtentHandled;
    var ps := Flatten(list);
    forall k | 0 <= k < |ps| ensures BlockHandled(fs, dir.path, ps[k].physical, visited, files) {
      PairHandled(fs, dir.path, list, visited, files, k);
    }
  }

  /** What a whole walk that expanded `dirs` says about its files: each is a regular file with exactly its
      blocks, under a path that some expanded directory lists, and every expanded directory is itself
      listed; no inode is expanded twice. */
  ghost predicate SoundWalk(fs: Fs, dirs: seq<DirEntry>, files: seq<FileEntry>)
    requires fs.Valid()
  {
    && (forall i :: 0 <= i < |files| ==> FileOk(fs, files[i]))
    && AllListed(fs, dirs, files) && AllRooted(fs, dirs, dirs)
    && (forall i, j :: 0 <= i < j < |dirs| ==> dirs[i].inode != dirs[j].inode)
  }

  ghost predicate ExpandedOrNot(fs: Fs, dirs: seq<DirEntry>, ino: nat)
    requires fs.Valid()
  {
    (exists i :: 0 <= i < |dirs| && dirs[i].inode == ino) || !Expandable(fs, ino)
  }

  /** Nothing within the caps is missing: the root and all listed subdirectories are visited, visited
      directories that can be expanded are, and all records of expanded directories are handled. */
  ghost predicate FullWalk(fs: Fs, dirs: seq<DirEntry>, visited: set<nat>, files: seq<FileEntry>)
    requires fs.Valid()
  {
    && ROOT_INODE in visited
    && (forall ino: nat :: ino in visited ==> ExpandedOrNot(fs, dirs, ino))
    && (forall i :: 0 <= i < |dirs| ==> DirHandled(fs, dirs[i], visited, files))
  }

  /** `fsd_extfs_walk` with a callback that always goes on; `lost` says that a file or directory was given
      up for lack of memory. */
  method WalkFiles(fs: Fs, calm: bool)
    returns (r: Result<seq<FileEntry>>, lost: bool, ghost dirs: seq<DirEntry>, ghost visited: set<nat>)
    requires fs.Valid()
    ensures r.Ok? ==> SoundWalk(fs, dirs, r.value) && (!lost ==> FullWalk(fs, dirs, visited, r.value))
    ensures r.Err? ==> r.error == OutOfMemory
    ensures calm ==> r.Ok? && !lost
  {
    hide FileOk, AllListed, AllRooted, DirHandled, Expandable;
    var ready := Attempt(calm);
    if !ready { return Err(OutOfMemory), false, [], {}; }
    var w := new Walker(fs, _ => false, calm);
    r := w.Run();
    lost, dirs, visited := w.lost, w.dirs, w.visited;
    if r.Ok? && !lost {
      forall ino: nat | ino in visited ensures ExpandedOrNot(fs, dirs, ino) {
        assert w.Accounted(ino);
      }
    }
  }

  lemma OutsideHandled(fs: Fs, dirPath: seq<byte>, block: nat, visited: set<nat>, files: seq<FileEntry>)
    requires fs.Valid() && FsBlock(fs, block).None?
    ensures BlockHandled(fs, dirPath, block, visited, files)
  {
  }

  lemma RecordsEnd(fs: Fs, at: nat, pos: nat)
    requires fs.Valid() && at + fs.blockSize <= |fs.image| && pos <= fs.blockSize && pos + 8 > fs.blockSize
    ensures Records(fs, at, pos) == []
  {
  }
}
