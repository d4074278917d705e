/** The file system seen by the library, and the chunked file transfers of
    samsung-ipc/utils.c. */
module Storage {
  import opened Bytes

  type Path = string

  const EINVAL := 22
  const EIO := 5   // stands for every error number of open and lseek

  type Files = map<Path, seq<byte>>

  function Content(s: Files, p: Path): seq<byte> {
    if p in s then s[p] else []
  }

  /** `s` after a complete write of `d` at `at` into `p`. */
  function Written(s: Files, p: Path, at: nat, d: seq<byte>): Files {
    s[p := Splice(Content(s, p), at, d)]
  }

  /** `h` is a state in which a write of `d` at `at` into `p` may stop. */
  ghost predicate PartialWrite(s: Files, p: Path, at: nat, d: seq<byte>, h: Files) {
    || h == s
    || exists n :: 0 <= n <= |d| && h == Written(s, p, at, d[..n])
  }

  /** `h` is `s` with a proper prefix of `d` written, the file being open. */
  ghost predicate CutShort(s: Files, p: Path, at: nat, d: seq<byte>, h: Files) {
    exists n :: 0 <= n < |d| && h == Written(s, p, at, d[..n])
  }

  /** The next piece of a transfer extends the prefix that is written. */
  lemma WrittenMore(s: Files, p: Path, at: nat, d: seq<byte>, count: nat, n: nat, got: nat)
    requires count + n <= |d| && got <= n
    ensures Written(Written(s, p, at, d[..count]), p, at + count, d[count..count + n][..got])
            == Written(s, p, at, d[..count + got])
  {
    SpliceAdjacent(Content(s, p), at, d[..count], d[count..count + n][..got]);
    assert d[..count] + d[count..count + n][..got] == d[..count + got];
  }

  lemma PrefixIsPartial(s: Files, p: Path, at: nat, d: seq<byte>, n: nat)
    requires n <= |d|
    ensures PartialWrite(s, p, at, d, Written(s, p, at, d[..n]))
  {
  }

  /** A file system whose calls may fail whenever `faults` is set and may always transfer
      less than was asked for.  Each system call is one step; `history` records the
      contents after every step that can change them, so its elements are exactly the
      points at which a caller can be killed. */
  class FileSystem {
    var files: Files
    var faults: bool
    ghost var history: seq<Files>
    ghost var emptyWrites: nat   // how many calls of `write` have returned 0

    constructor (files: Files, faults: bool)
      ensures this.files == files && this.faults == faults && history == []
    {
      this.files, this.faults, history, emptyWrites := files, faults, [], 0;
    }

    /** `stat`: the size of the file. */
    method Stat(p: Path) returns (size: Option<nat>)
      ensures size.Some? ==> p in files && size.value == |files[p]|
      ensures !faults && p in files ==> size.Some?
    {
      var broken: bool := *;
      if p !in files || (faults && broken) {
        return None;
      }
      return Some(|files[p]|);
    }

    /** `unlink`. */
    method Unlink(p: Path) returns (rc: int)
      modifies `files, `history
      ensures history == old(history) + [files]
      ensures rc == 0 ==> p in old(files) && files == old(files) - {p}
      ensures rc != 0 ==> rc == -1 && files == old(files)
      ensures !faults && p in old(files) ==> rc == 0
    {
      var broken: bool := *;
      if p !in files || (faults && broken) {
        rc := -1;
      } else {
        rc := 0;
        files := files - {p};
      }
      history := history + [files];
    }

    /** `open(O_RDONLY)`. */
    method OpenRead(p: Path) returns (fd: int)
      ensures fd >= 0 ==> p in files
      ensures !faults && p in files ==> fd >= 0
    {
      var broken: bool := *;
      fd := if p !in files || (faults && broken) then -1 else 3;
    }

    /** `open(O_WRONLY | O_CREAT)`, without `O_TRUNC`. */
    method OpenCreate(p: Path) returns (fd: int)
      modifies `files, `history
      ensures history == old(history) + [files]
      ensures fd >= 0 ==> files == old(files)[p := Content(old(files), p)]
      ensures fd < 0 ==> files == old(files)
      ensures !faults ==> fd >= 0
    {
      var broken: bool := *;
      if faults && broken {
        fd := -1;
      } else {
        fd := 3;
        files := files[p := Content(files, p)];
      }
      history := history + [files];
    }

    /** `lseek(SEEK_SET)`. */
    method Seek(offset: nat) returns (seek: int)
      ensures seek == offset || seek == -1
      ensures !faults ==> seek == offset
    {
      var broken: bool := *;
      seek := if faults && broken then -1 else offset;
    }

    /** `read` at position `at` of the open file `p`: -1 on error, 0 exactly at end of
        file, otherwise some of the bytes asked for. */
    method Read(p: Path, at: nat, n: nat) returns (rc: int, data: seq<byte>)
      requires p in files && n > 0
      ensures -1 <= rc <= n
      ensures rc == 0 ==> |files[p]| <= at
      ensures rc > 0 ==> at + rc <= |files[p]| && data == files[p][at..at + rc]
      ensures !faults ==> rc >= 0
    {
      data := [];
      var broken: bool := *;
      if faults && broken {
        rc := -1;
      } else if |files[p]| <= at {
        rc := 0;
      } else {
        rc :| 0 < rc <= n && at + rc <= |files[p]|
          by { assert 0 < 1 <= n && at + 1 <= |files[p]|; }
        data := files[p][at..at + rc];
      }
    }

    /** `write` at position `at` of the open file `p`: nothing, or some of the bytes. */
    method Write(p: Path, at: nat, data: seq<byte>) returns (rc: int)
      requires p in files && data != []
      modifies `files, `history, `emptyWrites
      ensures history == old(history) + [files]
      ensures -1 <= rc <= |data|
      ensures rc <= 0 ==> files == old(files)
      ensures emptyWrites == old(emptyWrites) + if rc == 0 then 1 else 0
      ensures rc > 0 ==> files == Written(old(files), p, at, data[..rc])
      ensures !faults ==> rc > 0
    {
      var broken: bool := *;
      if faults && broken {
        rc :| -1 <= rc <= 0 by { assert -1 <= 0 <= 0; }
        emptyWrites := emptyWrites + if rc == 0 then 1 else 0;
      } else {
        rc :| 0 < rc <= |data| by { assert 0 < 1 <= |data|; }
        files := Written(files, p, at, data[..rc]);
      }
      history := history + [files];
    }

    /** `file_data_read`: either the whole window of the file, or nothing. */
    method FileDataRead(p: Path, size: nat, chunkSize: nat, offset: nat)
      returns (data: Option<seq<byte>>)
      ensures data.Some? ==>
                && 0 < chunkSize <= size
                && p in files && offset + size <= |files[p]|
                && data.value == files[p][offset..offset + size]
      ensures !faults && 0 < chunkSize <= size && p in files && offset + size <= |files[p]|
              ==> data.Some?
    {
      if size == 0 || chunkSize == 0 || chunkSize > size {
        return None;
      }
      var fd := OpenRead(p);
      if fd < 0 {
        return None;
      }
      var seek := Seek(offset);
      if seek < offset {
        return None;
      }
      var buffer := new byte[size](_ => 0);
      var count := 0;
      while count < size
        invariant count <= size && fd >= 0
        invariant count > 0 ==> offset + count <= |files[p]|
        invariant count > 0 ==> buffer[..count] == files[p][offset..offset + count]
      {
        var rc, chunk := Read(p, offset + count,
                              if size - count > chunkSize then chunkSize else size - count);
        if rc == -1 {
          return None;
        } else if rc == 0 {
          return None;
        }
        Append(buffer, count, chunk);
        NextPart(files[p], offset, count, rc);
        count := count + rc;
      }
      assert buffer[..count] == buffer[..];
      return Some(buffer[..]);
    }

    /** `file_data_write`: on success exactly the window `offset .. offset + |data|` is
        replaced; on failure, and at every step in between, a prefix of `data` is.  The
        `errno` it leaves after a failed `write` is the result of that call, so it is 0
        exactly when the call transferred nothing without an error. */
    method FileDataWrite(p: Path, data: seq<byte>, chunkSize: nat, offset: nat)
      returns (rc: int, errno: int)
      modifies `files, `history, `emptyWrites
      ensures rc == 0 || rc == -1
      ensures old(history) <= history
      ensures forall i :: |old(history)| <= i < |history|
                ==> PartialWrite(old(files), p, offset, data, history[i])
      ensures PartialWrite(old(files), p, offset, data, files)
      ensures rc == 0 ==> 0 < chunkSize <= |data|
      ensures rc == 0 ==> files == Written(old(files), p, offset, data)
      ensures !faults && 0 < chunkSize <= |data| ==> rc == 0
      ensures rc == 0 ==> emptyWrites == old(emptyWrites)
      ensures rc < 0 ==> emptyWrites == old(emptyWrites) + if errno == 0 then 1 else 0
      ensures rc < 0 && errno == 0 ==> CutShort(old(files), p, offset, data, files)
      ensures !faults ==> emptyWrites == old(emptyWrites)
    {
      errno := 0;
      if |data| == 0 || chunkSize == 0 || chunkSize > |data| {
        return -1, EINVAL;
      }
      var fd := OpenCreate(p);
      if fd < 0 {
        return -1, EIO;
      }
      ghost var s := old(files);
      assert files == Written(s, p, offset, data[..0]);
      PrefixIsPartial(s, p, offset, data, 0);
      var seek := Seek(offset);
      if seek < offset {
        return -1, EIO;
      }
      var count := 0;
      while count < |data|
        invariant count <= |data|
        invariant files == Written(s, p, offset, data[..count])
        invariant old(history) <= history
        invariant forall i :: |old(history)| <= i < |history|
                    ==> PartialWrite(s, p, offset, data, history[i])
        invariant PartialWrite(s, p, offset, data, files)
        invariant emptyWrites == old(emptyWrites)
      {
        var wrote := WriteNext(s, p, data, count, chunkSize, offset);
        if wrote <= 0 {
          assert files == Written(s, p, offset, data[..count]);
          return -1, wrote;
        }
        count := count + wrote;
      }
      assert data[..count] == data;
      rc := 0;
    }

    /** The `write` call of the loop. */
    method WriteNext(ghost s: Files, p: Path, data: seq<byte>, count: nat, chunkSize: nat,
                     offset: nat)
      returns (wrote: int)
      requires p in files && count < |data| && chunkSize > 0
      requires files == Written(s, p, offset, data[..count])
      modifies `files, `history, `emptyWrites
      ensures -1 <= wrote <= |data| - count
      ensures history == old(history) + [files]
      ensures wrote <= 0 ==> files == old(files)
      ensures emptyWrites == old(emptyWrites) + if wrote == 0 then 1 else 0
      ensures wrote > 0 ==> files == Written(s, p, offset, data[..count + wrote])
      ensures PartialWrite(s, p, offset, data, files)
      ensures !faults ==> wrote > 0
    {
      var n := if |data| - count > chunkSize then chunkSize else |data| - count;
      wrote := Write(p, offset + count, data[count..count + n]);
      PrefixIsPartial(s, p, offset, data, count);
      if wrote > 0 {
        WrittenMore(s, p, offset, data, count, n, wrote);
        PrefixIsPartial(s, p, offset, data, count + wrote);
      }
    }
  }
}
