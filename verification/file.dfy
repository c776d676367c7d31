/**
 * The per-thread file-descriptor table of asst2 (kern/syscall/file.c): an
 * OPEN_MAX array of pointers to shared open-file records, each with a mode,
 * an offset and a reference count, and the system calls that manage it.
 *
 * The VFS is outside this model: vfs_open, VOP_READ, VOP_WRITE, VOP_STAT
 * and VOP_ISSEEKABLE are replaced by their results, passed in as
 * parameters, and vfs_close is recorded in a log.  Every operation acts on
 * the table given to it, which stands for curthread->t_filetable.
 */
module FileTables {
  import opened Kern
  import opened Machine

  /** Open modes of OS/161's kern/fcntl.h. */
  const O_RDONLY: int := 0
  const O_WRONLY: int := 1
  const O_RDWR: int := 2

  /** whence values of OS/161's kern/seek.h. */
  const SEEK_SET: int := 0
  const SEEK_CUR: int := 1
  const SEEK_END: int := 2

  /** An opaque vnode handle. */
  datatype Vnode = Vnode(id: nat)

  /** The VFS calls that change state: vfs_close is recorded, in call order. */
  class Vfs {
    var closed: seq<Vnode>

    constructor ()
      ensures closed == []
    {
      closed := [];
    }

    method Close(vn: Vnode)
      modifies this
      ensures closed == old(closed) + [vn]
    {
      closed := closed + [vn];
    }
  }

  /** struct file: mode, vnode, offset and reference count (the lock is left out). */
  class OpenFile {
    var mode: int
    var vnode: Vnode
    var offset: int
    var refcount: int

    /** The record open_file fills in. */
    constructor (vn: Vnode, flag: int)
      ensures mode == flag && vnode == vn && offset == 0 && refcount == 1
    {
      mode := flag;
      vnode := vn;
      offset := 0;
      refcount := 1;
    }

    /** A record fresh from kmalloc: every field holds whatever the memory held. */
    constructor Uninitialised()
    {
      var m: int, vn: Vnode, off: int, rc: int :| true;
      mode, vnode, offset, refcount := m, vn, off, rc;
    }
  }

  /** struct filetable. */
  class FileTable {
    const files: array<OpenFile?>

    ghost predicate Valid()
      reads this
    {
      files.Length == OPEN_MAX
    }

    constructor ()
      ensures Valid() && fresh(files)
    {
      files := new OpenFile?[OPEN_MAX];
    }

    /** The records the table points at. */
    function Records(): set<OpenFile>
      reads files
    {
      set i | 0 <= i < files.Length && files[i] != null :: files[i]
    }

    /** Every record's reference count is the number of slots that point at it. */
    ghost predicate RefcountsMatch()
      reads this, files, Records()
    {
      forall i :: 0 <= i < files.Length && files[i] != null ==> files[i].refcount == Count(files[..], files[i])
    }
  }

  /** The record in slot fd, as a set for frame clauses: empty if fd is out of range or the slot is NULL. */
  function RecordAt(ft: FileTable, fd: int): set<object>
    reads ft.files
  {
    if 0 <= fd < ft.files.Length && ft.files[fd] != null then {ft.files[fd]} else {}
  }

  /** struct thread, reduced to its file table. */
  class Thread {
    var filetable: FileTable?

    constructor ()
      ensures filetable == null
    {
      filetable := null;
    }
  }

  // ---------------------------------------------------------------------
  // Slot arithmetic
  // ---------------------------------------------------------------------

  /** The lowest-numbered empty slot of s, if any. */
  function LowestFree(s: seq<OpenFile?>): (r: Option<nat>)
    ensures r.Some? ==> r.value < |s| && s[r.value] == null && forall k :: 0 <= k < r.value ==> s[k] != null
    ensures r.None? <==> forall k :: 0 <= k < |s| ==> s[k] != null
  {
    if |s| == 0 then None
    else if s[0] == null then Some(0)
    else match LowestFree(s[1..])
      case None => None
      case Some(k) => Some(k + 1)
  }

  /** Filling the lowest empty slot moves the lowest empty slot strictly up, so descriptors are handed out in increasing order until one is closed. */
  lemma LowestFreeAfterFill(s: seq<OpenFile?>, f: OpenFile)
    requires LowestFree(s).Some?
    ensures var i := LowestFree(s).value;
            LowestFree(s[i := f]).None? || LowestFree(s[i := f]).value > i
  {
  }

  /** The number of slots of s that point at f. */
  function Count(s: seq<OpenFile?>, f: OpenFile): nat {
    if |s| == 0 then 0
    else (if s[0] == f then 1 else 0) + Count(s[1..], f)
  }

  /** Storing x in slot i removes that slot's reference and adds one to x. */
  lemma {:induction false} CountUpdate(s: seq<OpenFile?>, i: nat, x: OpenFile?, h: OpenFile)
    requires i < |s|
    ensures Count(s[i := x], h) == Count(s, h) - (if s[i] == h then 1 else 0) + (if x == h then 1 else 0)
  {
    if i > 0 {
      assert s[i := x][1..] == s[1..][i - 1 := x];
      CountUpdate(s[1..], i - 1, x, h);
    } else {
      assert s[i := x][1..] == s[1..];
    }
  }

  /** A record no slot points at has count zero. */
  lemma {:induction false} CountAbsent(s: seq<OpenFile?>, h: OpenFile)
    requires forall k :: 0 <= k < |s| ==> s[k] != h
    ensures Count(s, h) == 0
  {
    if |s| > 0 {
      CountAbsent(s[1..], h);
    }
  }

  /** A record in slot i is counted at least once. */
  lemma {:induction false} CountPresent(s: seq<OpenFile?>, i: nat)
    requires i < |s| && s[i] != null
    ensures Count(s, s[i]) >= 1
  {
    if i > 0 {
      CountPresent(s[1..], i - 1);
    }
  }

  /**
   * In a table whose reference counts match its slots, the record in an
   * open slot has a positive count, which is what sys_close and sys_dup2
   * assume of the records they release.
   */
  lemma MatchedRefcountPositive(ft: FileTable, fd: int)
    requires ft.Valid() && ft.RefcountsMatch() && 0 <= fd < OPEN_MAX && ft.files[fd] != null
    ensures ft.files[fd].refcount > 0
  {
    CountPresent(ft.files[..], fd);
  }

  /** Counting from slot i on: slot i's reference plus those after it. */
  lemma CountSuffix(s: seq<OpenFile?>, i: nat, h: OpenFile)
    requires i < |s|
    ensures Count(s[i..], h) == (if s[i] == h then 1 else 0) + Count(s[i + 1..], h)
  {
    assert s[i..][1..] == s[i + 1..];
  }

  // ---------------------------------------------------------------------
  // Table operations
  // ---------------------------------------------------------------------

  /**
   * insert_file: the file goes into the lowest empty slot, whose index is
   * returned; with no empty slot the result is EMFILE and the table is
   * unchanged.
   */
  method InsertFile(ft: FileTable, file: OpenFile) returns (r: Result<nat>)
    requires ft.Valid()
    modifies ft.files
    ensures LowestFree(old(ft.files[..])).None? ==> r == Err(EMFILE) && ft.files[..] == old(ft.files[..])
    ensures LowestFree(old(ft.files[..])).Some? ==>
              r == Ok(LowestFree(old(ft.files[..])).value) && ft.files[..] == old(ft.files[..])[r.value := file]
  {
    var i := 0;
    while i < OPEN_MAX
      invariant 0 <= i <= OPEN_MAX
      invariant forall k :: 0 <= k < i ==> ft.files[k] != null
    {
      if ft.files[i] == null {
        ft.files[i] := file;
        return Ok(i);
      }
      i := i + 1;
    }
    return Err(EMFILE);
  }

  /** search_filetable: the record in slot fd, or EBADF for a descriptor out of range or not open. */
  method SearchFiletable(ft: FileTable, fd: int) returns (r: Result<OpenFile>)
    requires ft.Valid()
    ensures r.Ok? <==> 0 <= fd < OPEN_MAX && ft.files[fd] != null
    ensures r.Ok? ==> r.value == ft.files[fd]
    ensures r.Err? ==> r.err == EBADF
  {
    if fd < 0 || fd >= OPEN_MAX {
      return Err(EBADF);
    }
    var file := ft.files[fd];
    if file == null {
      return Err(EBADF);
    }
    return Ok(file);
  }

  /**
   * sys_read, reduced to its checks: EBADF for an empty slot or a file not
   * open for reading; otherwise VOP_READ's error, or the number of bytes
   * read, buflen less the residue.  Nothing is changed; in particular the
   * file offset is not advanced.  The slot is read before the range check,
   * so fd must be in range.
   */
  method SysRead(ft: FileTable, fd: int, buflen: Word, vopRead: Result<Word>) returns (r: Result<int>)
    requires ft.Valid() && 0 <= fd < OPEN_MAX
    requires vopRead.Ok? ==> vopRead.value <= buflen
    ensures ft.files[fd] == null ==> r == Err(EBADF)
    ensures ft.files[fd] != null && ft.files[fd].mode != O_RDONLY && ft.files[fd].mode != O_RDWR ==> r == Err(EBADF)
    ensures r.Ok? ==> vopRead.Ok? && r.value == buflen - vopRead.value && 0 <= r.value <= buflen
    ensures ft.files[fd] != null && (ft.files[fd].mode == O_RDONLY || ft.files[fd].mode == O_RDWR) ==>
              (vopRead.Err? ==> r == Err(vopRead.err)) && (vopRead.Ok? ==> r.Ok?)
  {
    var file := ft.files[fd];
    if file == null {
      return Err(EBADF);
    }
    if file.mode != O_RDONLY && file.mode != O_RDWR {
      return Err(EBADF);
    }
    if vopRead.Err? {
      return Err(vopRead.err);
    }
    return Ok(buflen - vopRead.value);
  }

  /**
   * sys_write, reduced to its checks and the offset update: EBADF from
   * search_filetable or for a read-only file; VOP_WRITE's error; or the
   * number of bytes written, with the offset advanced by size (not by the
   * bytes written).
   */
  method SysWrite(ft: FileTable, fd: int, size: Word, vopWrite: Result<Word>) returns (r: Result<int>)
    requires ft.Valid()
    requires vopWrite.Ok? ==> vopWrite.value <= size
    modifies RecordAt(ft, fd)
    ensures !(0 <= fd < OPEN_MAX && ft.files[fd] != null) ==> r == Err(EBADF)
    ensures 0 <= fd < OPEN_MAX && ft.files[fd] != null ==>
              var file := ft.files[fd];
              file.mode == old(file.mode) && file.refcount == old(file.refcount) && file.vnode == old(file.vnode)
              && (file.mode == O_RDONLY ==> r == Err(EBADF))
              && (r.Err? ==> file.offset == old(file.offset))
              && (file.mode != O_RDONLY && vopWrite.Err? ==> r == Err(vopWrite.err))
              && (file.mode != O_RDONLY && vopWrite.Ok? ==>
                    r == Ok(size - vopWrite.value) && file.offset == old(file.offset) + size)
  {
    var found := SearchFiletable(ft, fd);
    if found.Err? {
      return Err(found.err);
    }
    var file := found.value;
    if file.mode == O_RDONLY {
      return Err(EBADF);
    }
    if vopWrite.Err? {
      return Err(vopWrite.err);
    }
    file.offset := file.offset + size;
    return Ok(size - vopWrite.value);
  }

  /**
   * The position sys_lseek computes: pos from the start, from the current
   * offset or from the end (VOP_STAT's size, or its error); any other
   * whence is EINVAL.
   */
  function SeekTarget(whence: int, pos: int, offset: int, stat: Result<int>): Result<int> {
    if whence == SEEK_SET then Ok(pos)
    else if whence == SEEK_CUR then Ok(offset + pos)
    else if whence == SEEK_END then (if stat.Ok? then Ok(stat.value + pos) else Err(stat.err))
    else Err(EINVAL)
  }

  /**
   * sys_lseek: EBADF for an empty slot, ESPIPE for a file that cannot
   * seek, EINVAL for an unknown whence or a negative target, VOP_STAT's
   * error for SEEK_END; otherwise the offset becomes the target, which is
   * returned.  The slot is read before the range check, so fd must be in
   * range.
   */
  method SysLseek(ft: FileTable, fd: int, pos: int, whence: int, seekable: bool, stat: Result<int>)
    returns (r: Result<int>)
    requires ft.Valid() && 0 <= fd < OPEN_MAX
    modifies RecordAt(ft, fd)
    ensures ft.files[fd] == null ==> r == Err(EBADF)
    ensures ft.files[fd] != null ==>
              var file := ft.files[fd];
              var target := SeekTarget(whence, pos, old(file.offset), stat);
              file.mode == old(file.mode) && file.refcount == old(file.refcount) && file.vnode == old(file.vnode)
              && (!seekable ==> r == Err(ESPIPE))
              && (seekable && target.Err? ==> r == target)
              && (seekable && target.Ok? && target.value < 0 ==> r == Err(EINVAL))
              && (seekable && target.Ok? && target.value >= 0 ==> r == target)
              && (r.Ok? ==> file.offset == r.value >= 0)
              && (r.Err? ==> file.offset == old(file.offset))
    ensures ft.files[fd] != null && seekable && whence == SEEK_SET ==>
              var file := ft.files[fd];
              (pos >= 0 ==> r == Ok(pos) && file.offset == pos)
              && (pos < 0 ==> r == Err(EINVAL) && file.offset == old(file.offset))
    ensures ft.files[fd] != null && seekable && whence == SEEK_CUR ==>
              var file := ft.files[fd];
              (old(file.offset) + pos >= 0 ==> r == Ok(old(file.offset) + pos) && file.offset == old(file.offset) + pos)
              && (old(file.offset) + pos < 0 ==> r == Err(EINVAL) && file.offset == old(file.offset))
    ensures ft.files[fd] != null && seekable && whence == SEEK_END ==>
              var file := ft.files[fd];
              (stat.Err? ==> r == Err(stat.err) && file.offset == old(file.offset))
              && (stat.Ok? && stat.value + pos >= 0 ==> r == Ok(stat.value + pos) && file.offset == stat.value + pos)
              && (stat.Ok? && stat.value + pos < 0 ==> r == Err(EINVAL) && file.offset == old(file.offset))
    ensures ft.files[fd] != null && seekable && whence != SEEK_SET && whence != SEEK_CUR && whence != SEEK_END ==>
              r == Err(EINVAL) && ft.files[fd].offset == old(ft.files[fd].offset)
  {
    var file := ft.files[fd];
    if file == null {
      return Err(EBADF);
    }
    if !seekable {
      return Err(ESPIPE);
    }
    var target := SeekTarget(whence, pos, file.offset, stat);
    if target.Err? {
      return target;
    }
    if target.value < 0 {
      return Err(EINVAL);
    }
    file.offset := target.value;
    return target;
  }

  /**
   * The "tell" idiom on top of sys_lseek: after a successful SEEK_SET to p,
   * a SEEK_CUR by 0 reports p and leaves the offset there, and a further
   * SEEK_CUR by d lands on p + d when that is not negative.
   */
  method SeekSetThenTell(ft: FileTable, fd: int, p: int, d: int, stat: Result<int>)
    returns (r1: Result<int>, r2: Result<int>, r3: Result<int>)
    requires ft.Valid() && 0 <= fd < OPEN_MAX && ft.files[fd] != null && p >= 0
    modifies RecordAt(ft, fd)
    ensures r1 == Ok(p) && r2 == Ok(p)
    ensures p + d >= 0 ==> r3 == Ok(p + d) && ft.files[fd].offset == p + d
    ensures p + d < 0 ==> r3 == Err(EINVAL) && ft.files[fd].offset == p
  {
    r1 := SysLseek(ft, fd, p, SEEK_SET, true, stat);
    r2 := SysLseek(ft, fd, 0, SEEK_CUR, true, stat);
    r3 := SysLseek(ft, fd, d, SEEK_CUR, true, stat);
  }

  /**
   * sys_close: EBADF for an empty slot; otherwise the slot is emptied and
   * the record's reference count drops by one, and when it reaches zero the
   * vnode is closed and the record freed.  The slot is read before the
   * range check, so fd must be in range, and the reference count must be
   * positive.
   */
  method SysClose(ft: FileTable, fd: int, ram: Ram, vfs: Vfs) returns (r: Result<int>)
    requires ft.Valid() && 0 <= fd < OPEN_MAX
    requires ft.files[fd] != null ==> ft.files[fd].refcount > 0
    modifies ft.files, RecordAt(ft, fd), ram, vfs
    ensures ram.free == old(ram.free) && ram.mem == old(ram.mem)
    ensures old(ft.files[fd]) == null ==>
              r == Err(EBADF) && ft.files[..] == old(ft.files[..])
              && ram.heap == old(ram.heap) && vfs.closed == old(vfs.closed)
    ensures old(ft.files[fd]) != null ==>
              var file := old(ft.files[fd]);
              r == Ok(0) && ft.files[..] == old(ft.files[..])[fd := null]
              && file.refcount == old(file.refcount) - 1
              && file.mode == old(file.mode) && file.offset == old(file.offset) && file.vnode == old(file.vnode)
              && (file.refcount == 0 ==> ram.heap == old(ram.heap) - {file} && vfs.closed == old(vfs.closed) + [file.vnode])
              && (file.refcount != 0 ==> ram.heap == old(ram.heap) && vfs.closed == old(vfs.closed))
    ensures old(ft.RefcountsMatch()) ==> ft.RefcountsMatch()
  {
    var file := ft.files[fd];
    if file == null {
      return Err(EBADF);
    }
    ghost var s, matched := ft.files[..], ft.RefcountsMatch();
    file.refcount := file.refcount - 1;
    if file.refcount == 0 {
      vfs.Close(file.vnode);
      ram.Kfree(file);
    }
    ft.files[fd] := null;
    if matched {
      forall i | 0 <= i < OPEN_MAX && ft.files[i] != null
        ensures ft.files[i].refcount == Count(ft.files[..], ft.files[i])
      {
        CountUpdate(s, fd, null, ft.files[i]);
        assert s[i] == ft.files[i];
      }
    }
    return Ok(0);
  }

  /**
   * sys_dup2: EBADF for a descriptor out of range or an empty oldfd; no
   * change when oldfd == newfd; otherwise a record open in newfd is closed
   * as by sys_close, newfd then shares oldfd's record, and that record's
   * reference count rises by one.
   */
  method SysDup2(ft: FileTable, oldfd: int, newfd: int, ram: Ram, vfs: Vfs) returns (r: Result<int>)
    requires ft.Valid()
    requires (0 <= oldfd < OPEN_MAX && 0 <= newfd < OPEN_MAX && oldfd != newfd
              && ft.files[oldfd] != null && ft.files[newfd] != null) ==> ft.files[newfd].refcount > 0
    modifies ft.files, RecordAt(ft, oldfd), RecordAt(ft, newfd), ram, vfs
    ensures ram.free == old(ram.free) && ram.mem == old(ram.mem)
    ensures !(0 <= oldfd < OPEN_MAX && 0 <= newfd < OPEN_MAX && old(ft.files[oldfd]) != null) ==>
              r == Err(EBADF) && ft.files[..] == old(ft.files[..])
              && ram.heap == old(ram.heap) && vfs.closed == old(vfs.closed)
    ensures 0 <= oldfd < OPEN_MAX && old(ft.files[oldfd]) != null && oldfd == newfd ==>
              r == Ok(oldfd) && ft.files[..] == old(ft.files[..])
              && ft.files[oldfd].refcount == old(ft.files[oldfd].refcount)
              && ram.heap == old(ram.heap) && vfs.closed == old(vfs.closed)
    ensures 0 <= oldfd < OPEN_MAX && 0 <= newfd < OPEN_MAX && old(ft.files[oldfd]) != null && oldfd != newfd ==>
              var f := old(ft.files[oldfd]);
              var g := old(ft.files[newfd]);
              r == Ok(newfd) && ft.files[..] == old(ft.files[..])[newfd := f]
              && f.refcount == old(f.refcount) + (if g == f then 0 else 1)
              && (g != null && g != f ==> g.refcount == old(g.refcount) - 1)
              && (g != null && old(g.refcount) == 1 ==>
                    ram.heap == old(ram.heap) - {g} && vfs.closed == old(vfs.closed) + [old(g.vnode)])
              && (g == null || old(g.refcount) != 1 ==> ram.heap == old(ram.heap) && vfs.closed == old(vfs.closed))
    ensures old(ft.RefcountsMatch()) ==> ft.RefcountsMatch()
  {
    if oldfd < 0 || oldfd >= OPEN_MAX || newfd < 0 || newfd >= OPEN_MAX {
      return Err(EBADF);
    }
    if ft.files[oldfd] == null {
      return Err(EBADF);
    }
    if oldfd == newfd {
      return Ok(oldfd);
    }
    ghost var matched := ft.RefcountsMatch();
    if ft.files[newfd] != null {
      // sys_close cannot fail here: newfd is in range and its slot is open
      var closed := SysClose(ft, newfd, ram, vfs);
    }
    ghost var s := ft.files[..];
    var f := ft.files[oldfd];
    ft.files[newfd] := f;
    f.refcount := f.refcount + 1;
    if matched {
      forall i | 0 <= i < OPEN_MAX && ft.files[i] != null
        ensures ft.files[i].refcount == Count(ft.files[..], ft.files[i])
      {
        CountUpdate(s, newfd, f, ft.files[i]);
      }
    }
    return Ok(newfd);
  }

  /**
   * open_file, given vfs_open's result: on success a new record with
   * offset 0, reference count 1 and mode flag goes into the slot
   * insert_file chooses, whose index is returned.  A failed kmalloc or
   * lock_create gives ENOMEM, a failed vfs_open its error, a full table
   * EMFILE; then the table and the heap are as before.
   *
   * nameBuffer says whether the kmalloc of the name buffer succeeded, so
   * that vfs_open was called.  Once vfs_open has opened a vnode, every
   * later failure closes that vnode exactly once.
   */
  method OpenFileOp(ft: FileTable, flag: int, vopen: Result<Vnode>, ram: Ram, vfs: Vfs)
    returns (r: Result<nat>, nameBuffer: bool)
    requires ft.Valid()
    modifies ft.files, ram, vfs
    ensures ram.free == old(ram.free) && ram.mem == old(ram.mem)
    ensures r.Ok? ==>
              vopen.Ok? && LowestFree(old(ft.files[..])) == Some(r.value)
              && ft.files[r.value] != null && fresh(ft.files[r.value])
              && ft.files[..] == old(ft.files[..])[r.value := ft.files[r.value]]
              && ft.files[r.value].mode == flag && ft.files[r.value].vnode == vopen.value
              && ft.files[r.value].offset == 0 && ft.files[r.value].refcount == 1
              && ram.heap == old(ram.heap) + {ft.files[r.value]} && vfs.closed == old(vfs.closed)
    ensures r.Err? ==>
              ft.files[..] == old(ft.files[..]) && ram.heap == old(ram.heap)
              && (r.err == ENOMEM || r.err == EMFILE || (vopen.Err? && r.err == vopen.err))
              && (vfs.closed == old(vfs.closed) || (vopen.Ok? && vfs.closed == old(vfs.closed) + [vopen.value]))
    ensures vopen.Err? ==> r.Err? && vfs.closed == old(vfs.closed)
    ensures !nameBuffer ==> r == Err(ENOMEM) && vfs.closed == old(vfs.closed)
    ensures nameBuffer && vopen.Err? ==> r == Err(vopen.err)
    ensures nameBuffer && vopen.Ok? && r.Err? ==>
              (r.err == ENOMEM || r.err == EMFILE) && vfs.closed == old(vfs.closed) + [vopen.value]
    ensures r.Ok? ==> nameBuffer
    ensures LowestFree(old(ft.files[..])).None? ==> r.Err?
    ensures old(ft.RefcountsMatch()) ==> ft.RefcountsMatch()
  {
    nameBuffer := Kmalloc();
    if !nameBuffer {
      return Err(ENOMEM), nameBuffer;
    }
    if vopen.Err? {
      return Err(vopen.err), nameBuffer;
    }
    var vn := vopen.value;
    var fileOk := Kmalloc();
    if !fileOk {
      vfs.Close(vn);
      return Err(ENOMEM), nameBuffer;
    }
    var file := new OpenFile(vn, flag);
    ram.Track(file);
    var lockOk := Kmalloc();
    if !lockOk {
      vfs.Close(vn);
      ram.Kfree(file);
      return Err(ENOMEM), nameBuffer;
    }
    ghost var s, matched := ft.files[..], ft.RefcountsMatch();
    var res := InsertFile(ft, file);
    if res.Err? {
      ram.Kfree(file);
      vfs.Close(vn);
      return Err(res.err), nameBuffer;
    }
    if matched {
      CountAbsent(s, file);
      forall i | 0 <= i < OPEN_MAX && ft.files[i] != null
        ensures ft.files[i].refcount == Count(ft.files[..], ft.files[i])
      {
        CountUpdate(s, res.value, file, ft.files[i]);
      }
    }
    return Ok(res.value), nameBuffer;
  }

  /** A standard stream as initialize_filetable sets it up: its vnode, the mode and offset 0 (the reference count is never set). */
  ghost predicate Stream(f: OpenFile, vn: Vnode, mode: int)
    reads f
  {
    f.vnode == vn && f.mode == mode && f.offset == 0
  }

  /** A new table with every slot set to NULL. */
  method EmptyFiletable() returns (ft: FileTable)
    ensures fresh(ft) && fresh(ft.files) && ft.Valid()
    ensures forall i :: 0 <= i < OPEN_MAX ==> ft.files[i] == null
  {
    ft := new FileTable();
    var i := 0;
    while i < OPEN_MAX
      invariant 0 <= i <= OPEN_MAX
      invariant forall k :: 0 <= k < i ==> ft.files[k] == null
      modifies ft.files
    {
      ft.files[i] := null;
      i := i + 1;
    }
  }

  /**
   * The allocation half of initialize_filetable once the table itself has
   * been granted: every slot set to NULL, then a kmalloc'd record in each
   * of slots 0, 1 and 2 (those three kmalloc calls are assumed to succeed).
   */
  method NewFiletable(ram: Ram) returns (ft: FileTable)
    modifies ram
    ensures fresh(ft) && fresh(ft.files) && ft.Valid()
    ensures forall i :: 3 <= i < OPEN_MAX ==> ft.files[i] == null
    ensures ft.files[0] != null && ft.files[1] != null && ft.files[2] != null
    ensures fresh(ft.files[0]) && fresh(ft.files[1]) && fresh(ft.files[2])
    ensures ft.files[0] != ft.files[1] && ft.files[0] != ft.files[2] && ft.files[1] != ft.files[2]
    ensures ram.free == old(ram.free) && ram.mem == old(ram.mem)
    ensures ram.heap == old(ram.heap) + {ft, ft.files[0], ft.files[1], ft.files[2]}
  {
    ft := EmptyFiletable();
    var f0 := new OpenFile.Uninitialised();
    var f1 := new OpenFile.Uninitialised();
    var f2 := new OpenFile.Uninitialised();
    ft.files[0] := f0;
    ft.files[1] := f1;
    ft.files[2] := f2;
    ram.Track(ft);
    ram.Track(f0);
    ram.Track(f1);
    ram.Track(f2);
  }

  /**
   * initialize_filetable, given the results of the three vfs_open calls
   * on the console: the thread gets a new table whose slots 0, 1 and 2
   * hold new records and whose other slots are NULL, or NULL and ENOMEM
   * if kmalloc fails.  The records are set up in order, stdin read-only
   * and stdout and stderr write-only, until a vfs_open fails, which gives
   * EINVAL and leaves the remaining records as kmalloc returned them.
   */
  method InitializeFiletable(t: Thread, ram: Ram, v0: Result<Vnode>, v1: Result<Vnode>, v2: Result<Vnode>)
    returns (r: Result<()>)
    modifies t, ram
    ensures ram.free == old(ram.free) && ram.mem == old(ram.mem)
    ensures t.filetable == null <==> r == Err(ENOMEM)
    ensures t.filetable == null ==> ram.heap == old(ram.heap)
    ensures t.filetable != null ==>
              var ft := t.filetable;
              fresh(ft) && fresh(ft.files) && ft.Valid()
              && (forall i :: 3 <= i < OPEN_MAX ==> ft.files[i] == null)
              && ft.files[0] != null && ft.files[1] != null && ft.files[2] != null
              && fresh(ft.files[0]) && fresh(ft.files[1]) && fresh(ft.files[2])
              && ft.files[0] != ft.files[1] && ft.files[0] != ft.files[2] && ft.files[1] != ft.files[2]
              && ram.heap == old(ram.heap) + {ft, ft.files[0], ft.files[1], ft.files[2]}
              && r == (if v0.Err? || v1.Err? || v2.Err? then Err(EINVAL) else Ok(()))
              && (v0.Ok? ==> Stream(ft.files[0], v0.value, O_RDONLY))
              && (v0.Ok? && v1.Ok? ==> Stream(ft.files[1], v1.value, O_WRONLY))
              && (v0.Ok? && v1.Ok? && v2.Ok? ==> Stream(ft.files[2], v2.value, O_WRONLY))
  {
    var granted := Kmalloc();
    if !granted {
      t.filetable := null;
      return Err(ENOMEM);
    }
    var ft := NewFiletable(ram);
    t.filetable := ft;
    var f0, f1, f2 := ft.files[0], ft.files[1], ft.files[2];
    if v0.Err? {
      return Err(EINVAL);
    }
    f0.vnode, f0.mode, f0.offset := v0.value, O_RDONLY, 0;
    if v1.Err? {
      return Err(EINVAL);
    }
    f1.vnode, f1.mode, f1.offset := v1.value, O_WRONLY, 0;
    if v2.Err? {
      return Err(EINVAL);
    }
    f2.vnode, f2.mode, f2.offset := v2.value, O_WRONLY, 0;
    return Ok(());
  }

  /**
   * One round of destroy_filetable's loop: when slot i of ft is open,
   * sys_close(i) on the current table cur.  The reference counts of the
   * slots after i keep covering their references among those slots.
   */
  method CloseSlotOf(ft: FileTable, cur: FileTable, i: nat, ram: Ram, vfs: Vfs)
    requires ft.Valid() && cur.Valid() && (ft == cur || ft.files != cur.files) && i < OPEN_MAX
    requires ft.files[i] != null ==> cur.files[i] != null
    requires forall j :: i <= j < OPEN_MAX && cur.files[j] != null ==>
               cur.files[j].refcount >= Count(cur.files[i..], cur.files[j])
    modifies cur.files, RecordAt(cur, i), ram, vfs
    ensures ram.free == old(ram.free) && ram.mem == old(ram.mem) && ram.heap <= old(ram.heap)
    ensures cur.files[..] == old(cur.files[..])[i := if old(ft.files[i]) != null then null else old(cur.files[i])]
    ensures forall j :: i < j < OPEN_MAX ==> ft.files[j] == old(ft.files[j])
    ensures forall j :: i < j < OPEN_MAX && cur.files[j] != null ==>
              cur.files[j].refcount >= Count(cur.files[i + 1..], cur.files[j])
  {
    ghost var s := cur.files[..];
    if ft.files[i] != null {
      CountSuffix(s, i, s[i]);
      var closed := SysClose(cur, i, ram, vfs);
      forall j | i + 1 <= j < OPEN_MAX && cur.files[j] != null
        ensures cur.files[j].refcount >= Count(cur.files[i + 1..], cur.files[j])
      {
        CountSuffix(s, i, s[j]);
        assert cur.files[i + 1..] == s[i + 1..];
      }
    } else {
      forall j | i + 1 <= j < OPEN_MAX && cur.files[j] != null
        ensures cur.files[j].refcount >= Count(cur.files[i + 1..], cur.files[j])
      {
        CountSuffix(s, i, s[j]);
      }
    }
  }

  /**
   * destroy_filetable(ft): for every open slot i of ft, sys_close(i),
   * which acts on the current thread's table cur rather than on ft; then
   * ft is freed.  sys_close must succeed each time, so the slots of cur
   * at those indices must be open, with reference counts covering their
   * references.
   */
  method DestroyFiletable(ft: FileTable, cur: FileTable, ram: Ram, vfs: Vfs)
    requires ft.Valid() && cur.Valid() && (ft == cur || ft.files != cur.files)
    requires forall i :: 0 <= i < OPEN_MAX && ft.files[i] != null ==> cur.files[i] != null
    requires forall i :: 0 <= i < OPEN_MAX && cur.files[i] != null ==>
               cur.files[i].refcount >= Count(cur.files[..], cur.files[i])
    modifies cur.files, cur.Records(), ram, vfs
    ensures ram.free == old(ram.free) && ram.mem == old(ram.mem)
    ensures forall i :: 0 <= i < OPEN_MAX ==>
              cur.files[i] == if old(ft.files[i]) != null then null else old(cur.files[i])
    ensures ram.heap <= old(ram.heap) && ft !in ram.heap
  {
    var i := 0;
    while i < OPEN_MAX
      invariant 0 <= i <= OPEN_MAX
      invariant forall j :: i <= j < OPEN_MAX ==> cur.files[j] == old(cur.files[j]) && ft.files[j] == old(ft.files[j])
      invariant forall j :: 0 <= j < i ==>
                  cur.files[j] == if old(ft.files[j]) != null then null else old(cur.files[j])
      invariant forall j :: i <= j < OPEN_MAX && cur.files[j] != null ==>
                  cur.files[j].refcount >= Count(cur.files[i..], cur.files[j])
      invariant ram.free == old(ram.free) && ram.mem == old(ram.mem) && ram.heap <= old(ram.heap)
    {
      CloseSlotOf(ft, cur, i, ram, vfs);
      i := i + 1;
    }
    ram.Kfree(ft);
  }
}
