/** The two file system calls (src/syscall.c:135-192) as the kernel composes
    them from the driver's operations. */
module Syscalls {
  import opened Bytes
  import opened Collections
  import opened Directory
  import opened Volumes
  import opened Fat12Driver

  /** How much of the caller's buffer a read writes. */
  function ReadTouches(v: Volume, name: Name, room: nat): nat
    requires v.Sound()
  {
    match ReadFile(v, name, room)
    case None => 0
    case Some(bytes) => Touched(|bytes|)
  }

  lemma SmallerSize(toRead: nat, size: nat, bufferSize: nat)
    requires toRead == if size < bufferSize then size else bufferSize
    requires bufferSize < U32
    ensures Min(toRead, size) == toRead == Min(size, bufferSize) < U32
  {
  }

  lemma NothingTouched()
    ensures Touched(0) == 0
  {
  }

  lemma {:induction false} ReadUnfolds(v: Volume, name: Name, room: nat)
    requires v.Sound()
    ensures match Lookup(v.dir, name, false, 0)
            case None => ReadFile(v, name, room) == None && ReadTouches(v, name, room) == 0
            case Some(i) =>
              v.Start(FirstCluster(v.dir[i])) &&
              var c, size := FirstCluster(v.dir[i]), Min(SizeOf(v.dir[i]), room);
              && ReadFile(v, name, room) == Some(ReadLoop(v, c, size))
              && ReadTouches(v, name, room) == Touched(|ReadLoop(v, c, size)|)
              && (ReadEnds(v, name, room) && size > U32 - 512 ==> exists n :: Ends(v, c, n))
  {
  }

  /** SYSCALL_READ_FILE. Whole sectors are copied, so a buffer whose size is not a
      multiple of the sector size may be written behind its end; `buffer` is the
      memory from the caller's pointer on, and nothing behind the last sector
      copied changes. The byte count is an int. */
  method ReadFileCall(fs: Fat12, name: CString, buffer: array<byte>, bufferSize: nat) returns (result: int)
    requires fs.Valid() && fs.Vol().Sound() && buffer != fs.fatBuffer && bufferSize < U32
    requires ReadEnds(fs.Vol(), Name83(name), bufferSize)
    requires ReadTouches(fs.Vol(), Name83(name), bufferSize) <= buffer.Length
    modifies buffer
    ensures fs.Valid() && fs.Vol() == old(fs.Vol())
    ensures var end := ReadTouches(old(fs.Vol()), Name83(name), bufferSize);
            end <= buffer.Length && buffer[end..] == old(buffer[end..])
    ensures match ReadFile(old(fs.Vol()), Name83(name), bufferSize)
            case None => result == -1
            case Some(bytes) =>
              && |bytes| <= buffer.Length && buffer[..|bytes|] == bytes
              && result == if |bytes| < 0x8000_0000 then |bytes| else -1
  {
    hide *;
    ghost var v := fs.Vol();
    ReadUnfolds(v, Name83(name), bufferSize);
    NothingTouched();
    var rc, file := fs.Open(name);
    if rc != 0 { return -1; }
    var toRead := if file.size < bufferSize then file.size else bufferSize;
    SmallerSize(toRead, file.size, bufferSize);
    var bytes := fs.Read(file, buffer, toRead);
    return if bytes < 0x8000_0000 then bytes else -1;
  }

  /** A 32-bit count stored in an int. */
  function ToInt(count: int): int {
    if count >= 0x8000_0000 then count - U32 else count
  }

  lemma {:induction false} WriteFileUnfolds(v: Volume, name: Name, data: seq<byte>)
    requires v.Sound() && |data| < U32
    ensures match Lookup(v.dir, name, false, 0)
            case Some(i) =>
              var first := FirstCluster(v.dir[i]);
              v.Start(first) && WriteFile(v, name, data) == WriteAndResize(v, first, name, data)
            case None =>
              match Create(v, name)
              case None => WriteFile(v, name, data) == (v, 0)
              case Some((v1, first)) =>
                v1.Start(first) && WriteFile(v, name, data) == WriteAndResize(v1, first, name, data)
  {
  }

  lemma {:induction false} ResizeUnfolds(v: Volume, first: nat, name: Name, data: seq<byte>)
    requires v.Sound() && v.Start(first) && |data| < U32
    ensures var (v1, end) := WriteChain(v, first, data);
            var bytes := ToInt(if end.DiskFull? then -1 else |data| - end.rest);
            if bytes <= 0 then WriteAndResize(v, first, name, data) == (v1, 0)
            else
              bytes < U32 &&
              match UpdateSize(v1, name, bytes)
              case None => WriteAndResize(v, first, name, data) == (v1, 0)
              case Some(v2) => WriteAndResize(v, first, name, data) == (v2, bytes)
  {
  }

  /** SYSCALL_WRITE_FILE: open or else create, write, record the size. */
  method WriteFileCall(fs: Fat12, name: CString, data: seq<byte>) returns (result: nat)
    requires fs.Valid() && fs.Vol().Sound() && |data| < U32
    modifies fs.disk, fs.fatBuffer
    ensures fs.Valid() && (fs.Vol(), result) == WriteFile(old(fs.Vol()), Name83(name), data)
  {
    hide *;
    ghost var v := fs.Vol();
    WriteFileUnfolds(v, Name83(name), data);
    var rc, file := fs.Open(name);
    if rc != 0 {
      rc, file := fs.Create(name);
      if rc != 0 { return 0; }
    }
    ResizeUnfolds(fs.Vol(), file.firstCluster, Name83(name), data);
    var bytes := fs.Write(file.firstCluster, data);
    bytes := ToInt(bytes);
    if bytes > 0 {
      rc := fs.UpdateSize(name, bytes);
      if rc != 0 { return 0; }
      return bytes;
    }
    return 0;
  }
}
