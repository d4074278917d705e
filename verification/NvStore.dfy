/** The nv_data store of samsung-ipc/rfs.c over the file system of `Storage`. */
module NvStore {
  import opened Bytes
  import opened CStrings
  import opened HexCodec
  import opened Storage
  import opened NvModel

  class NvStore {
    const fs: FileSystem
    const c: Config

    constructor (fs: FileSystem, c: Config)
      ensures this.fs == fs && this.c == c
    {
      this.fs, this.c := fs, c;
    }

    /** `ipc_nv_data_md5_calculate`. */
    method Md5Calculate(p: Path, size: nat, chunkSize: nat) returns (md5: Option<CString>)
      ensures md5.Some? ==>
                && p in fs.files && |fs.files[p]| == size && 0 < chunkSize <= size
                && md5.value == c.HexDigest(fs.files[p])
                && |md5.value| == 32 && Unhex(md5.value) == c.md5(fs.files[p] + c.secret)
      ensures !fs.faults && p in fs.files && |fs.files[p]| == size && 0 < chunkSize <= size
              ==> md5.Some?
    {
      var st := fs.Stat(p);
      if st.None? {
        return None;
      }
      if st.value != size {
        return None;
      }
      var data := fs.FileDataRead(p, size, chunkSize, 0);
      if data.None? {
        return None;
      }
      assert data.value == fs.files[p];
      UnhexHex(c.md5(data.value + c.secret));
      md5 := Data2String(c.md5(data.value + c.secret));
    }

    /** `ipc_nv_data_path_check` and its three siblings, for the file `p` and the size it
        must have. */
    method PathCheck(p: Path, size: nat) returns (rc: int)
      ensures rc == 0 || rc == -1
      ensures rc == 0 ==> size > 0 && p in fs.files && |fs.files[p]| == size
      ensures !fs.faults && size > 0 && p in fs.files && |fs.files[p]| == size ==> rc == 0
    {
      if size == 0 {
        return -1;
      }
      var st := fs.Stat(p);
      if st.None? {
        return -1;
      }
      if st.value != size {
        return -1;
      }
      return 0;
    }

    /** `ipc_nv_data_check` and `ipc_nv_data_backup_check`, for the pair `p`, `m`: success
        means that the pair is valid, and without faults a valid pair succeeds. */
    method PairCheck(p: Path, m: Path) returns (rc: int)
      ensures rc == 0 || rc == -1
      ensures rc == 0 ==> c.Usable() && PairValid(c, fs.files, p, m)
      ensures !fs.faults && c.Usable() && PairValid(c, fs.files, p, m) ==> rc == 0
    {
      if c.size == 0 || c.chunkSize == 0 {
        return -1;
      }
      rc := PathCheck(p, c.size);
      if rc < 0 {
        return -1;
      }
      rc := PathCheck(m, MD5_DIGEST_LENGTH_ASCII);
      if rc < 0 {
        return -1;
      }
      var md5 := Md5Calculate(p, c.size, c.chunkSize);
      if md5.None? {
        return -1;
      }
      var length := |md5.value|;
      var buffer := fs.FileDataRead(m, length, length, 0);
      if buffer.None? {
        return -1;
      }
      assert buffer.value == fs.files[m];
      StrnEqualIsEquality(md5.value, buffer.value);
      if !StrnEqual(md5.value, Strndup(buffer.value), length) {
        return -1;
      }
      return 0;
    }

    /** `ipc_nv_data_check`. */
    method Check() returns (rc: int)
      ensures rc == 0 || rc == -1
      ensures rc == 0 ==> c.Usable() && PrimaryValid(c, fs.files)
      ensures !fs.faults && c.Usable() && PrimaryValid(c, fs.files) ==> rc == 0
    {
      rc := PairCheck(c.path, c.md5Path);
    }

    /** `ipc_nv_data_backup_check`. */
    method BackupCheck() returns (rc: int)
      ensures rc == 0 || rc == -1
      ensures rc == 0 ==> c.Usable() && BackupValid(c, fs.files)
      ensures !fs.faults && c.Usable() && BackupValid(c, fs.files) ==> rc == 0
    {
      rc := PairCheck(c.backupPath, c.backupMd5Path);
    }

    /** The `unlink` whose failure is only logged, and the write that follows it, in
        `ipc_nv_data_backup` and `ipc_nv_data_restore`. */
    method Replace(p: Path, data: seq<byte>, chunkSize: nat)
      returns (rc: int, ghost kept: bool)
      modifies fs`files, fs`history, fs`emptyWrites
      ensures rc == 0 || rc == -1
      ensures kept ==> fs.faults
      ensures old(fs.history) <= fs.history
      ensures forall i :: |old(fs.history)| <= i < |fs.history|
                ==> Rewriting(old(fs.files), p, data, kept, fs.history[i])
      ensures Rewriting(old(fs.files), p, data, kept, fs.files)
      ensures rc == 0 ==> fs.files == Rewritten(old(fs.files), p, data, kept)
      ensures !fs.faults && 0 < chunkSize <= |data| ==> rc == 0
    {
      rc := fs.Unlink(p);
      kept := rc < 0 && p in fs.files;
      assert fs.files == Unlinked(old(fs.files), p, kept);
      assert PartialWrite(fs.files, p, 0, data, fs.files);
      var errno;
      rc, errno := fs.FileDataWrite(p, data, chunkSize, 0);
    }

    /** `ipc_nv_data_backup`. */
    method Backup() returns (rc: int)
      requires c.Distinct()
      modifies fs`files, fs`history, fs`emptyWrites
      ensures rc == 0 || rc == -1
      ensures old(fs.history) <= fs.history
      ensures forall i :: |old(fs.history)| <= i < |fs.history|
                ==> BackupStops(c, old(fs.files), fs.faults, fs.history[i])
      ensures BackupStops(c, old(fs.files), fs.faults, fs.files)
      ensures rc == 0 ==>
                && c.Usable() && Sized(c, old(fs.files), c.path)
                && exists kept1, kept2 :: (kept1 || kept2 ==> fs.faults)
                     && fs.files == BackedUp(c, old(fs.files), kept1, kept2)
      ensures !fs.faults ==> (rc == 0 <==> c.Usable() && Sized(c, old(fs.files), c.path))
    {
      if c.size == 0 || c.chunkSize == 0 {
        return -1;
      }
      rc := PathCheck(c.path, c.size);
      if rc < 0 {
        return -1;
      }
      var data := fs.FileDataRead(c.path, c.size, c.chunkSize, 0);
      if data.None? {
        return -1;
      }
      assert data.value == fs.files[c.path];
      var md5 := Md5Calculate(c.path, c.size, c.chunkSize);
      if md5.None? {
        return -1;
      }
      ghost var s := fs.files;
      ghost var kept1, kept2;
      rc, kept1 := Replace(c.backupPath, data.value, c.chunkSize);
      FirstOfPair(s, c.backupPath, data.value, c.backupMd5Path, md5.value, kept1);
      if rc < 0 {
        return -1;
      }
      var length := |md5.value|;
      rc, kept2 := Replace(c.backupMd5Path, md5.value, length);
      SecondOfPair(s, c.backupPath, data.value, c.backupMd5Path, md5.value, kept1, kept2);
      if rc < 0 {
        return -1;
      }
      assert fs.files == BackedUp(c, s, kept1, kept2);
      return 0;
    }

    /** `ipc_nv_data_restore`. */
    method Restore() returns (rc: int)
      requires c.Distinct()
      modifies fs`files, fs`history, fs`emptyWrites
      ensures rc == 0 || rc == -1
      ensures old(fs.history) <= fs.history
      ensures forall i :: |old(fs.history)| <= i < |fs.history|
                ==> RestoreStops(c, old(fs.files), fs.faults, fs.history[i])
      ensures RestoreStops(c, old(fs.files), fs.faults, fs.files)
      ensures rc == 0 ==>
                && c.Usable() && BackupValid(c, old(fs.files))
                && exists kept1, kept2 :: (kept1 || kept2 ==> fs.faults)
                     && fs.files == Restored(c, old(fs.files), kept1, kept2)
      ensures !fs.faults ==> (rc == 0 <==> c.Usable() && BackupValid(c, old(fs.files)))
    {
      if c.size == 0 || c.chunkSize == 0 {
        return -1;
      }
      rc := BackupCheck();
      if rc < 0 {
        return -1;
      }
      var data := fs.FileDataRead(c.backupPath, c.size, c.chunkSize, 0);
      if data.None? {
        return -1;
      }
      ghost var s := fs.files;
      ghost var d, e := s[c.backupPath], s[c.backupMd5Path];
      assert data.value == d;
      ghost var kept1, kept2;
      rc, kept1 := Replace(c.path, data.value, c.chunkSize);
      FirstOfPair(s, c.path, d, c.md5Path, e, kept1);
      if rc < 0 {
        return -1;
      }
      var length := MD5_DIGEST_LENGTH_ASCII;
      data := fs.FileDataRead(c.backupMd5Path, length, length, 0);
      if data.None? {
        return -1;
      }
      assert data.value == e;
      rc, kept2 := Replace(c.md5Path, data.value, length);
      SecondOfPair(s, c.path, d, c.md5Path, e, kept1, kept2);
      if rc < 0 {
        return -1;
      }
      assert fs.files == Restored(c, s, kept1, kept2);
      return 0;
    }

    /** The step of `ipc_nv_data_load` that renews a missing or wrongly sized backup. */
    method Heal()
      requires c.Distinct() && c.Usable() && PrimaryValid(c, fs.files)
      modifies fs`files, fs`history, fs`emptyWrites
      ensures old(fs.history) <= fs.history
      ensures forall i :: |old(fs.history)| <= i < |fs.history|
                ==> HealStops(c, old(fs.files), fs.faults, fs.history[i])
      ensures fs.files == old(fs.files) || HealStops(c, old(fs.files), fs.faults, fs.files)
      ensures !fs.faults ==>
                fs.files == if Sized(c, old(fs.files), c.backupPath) then old(fs.files)
                            else BackedUp(c, old(fs.files), false, false)
    {
      var rc := PathCheck(c.backupPath, c.size);
      if rc < 0 {
        rc := Backup();
      }
    }

    /** `ipc_nv_data_load`; `None` is the null pointer. */
    method Load() returns (data: Option<seq<byte>>)
      requires c.Distinct()
      modifies fs`files, fs`history, fs`emptyWrites
      ensures old(fs.history) <= fs.history
      ensures forall i :: |old(fs.history)| <= i < |fs.history|
                ==> LoadStops(c, old(fs.files), fs.faults, fs.history[i])
      ensures LoadStops(c, old(fs.files), fs.faults, fs.files)
      ensures data.Some? ==> c.Usable() && PrimaryValid(c, fs.files)
                             && data.value == fs.files[c.path]
      ensures data.Some? ==> LoadResult(c, fs.files) == data
      ensures !fs.faults && c.Usable() ==>
                && data == LoadResult(c, old(fs.files))
                && fs.files == LoadState(c, old(fs.files))
    {
      if c.size == 0 || c.chunkSize == 0 {
        return None;
      }
      ghost var s := fs.files;
      var rc := Check();
      if rc < 0 {
        rc := Restore();
        if rc < 0 {
          return None;
        }
        RestoredPrimaryValid(c, s);
        rc := Check();
        if rc < 0 {
          return None;
        }
      }
      ghost var s1 := fs.files;
      Heal();
      HealKeepsPrimary(c, s1, fs.faults, fs.files);
      data := fs.FileDataRead(c.path, c.size, c.chunkSize, 0);
      assert data.Some? ==> data.value == fs.files[c.path];
    }

    /** `ipc_nv_data_read`. */
    method Read(size: nat, offset: nat) returns (data: Option<seq<byte>>)
      ensures data.Some? ==>
                && Sized(c, fs.files, c.path) && size > 0 && offset + size <= c.size
                && data.value == fs.files[c.path][offset..offset + size]
      ensures !fs.faults && c.chunkSize > 0 && Sized(c, fs.files, c.path) ==>
                (data.Some? <==> size > 0 && offset + size <= c.size)
    {
      if c.chunkSize == 0 {
        return None;
      }
      var rc := PathCheck(c.path, c.size);
      if rc < 0 {
        return None;
      }
      data := fs.FileDataRead(c.path, size, if c.chunkSize > size then size else c.chunkSize,
                              offset);
    }

    /** `ipc_nv_data_write`.  A successful call has passed through the state in which the
        digest file is missing. */
    method Write(data: seq<byte>, offset: nat) returns (rc: int)
      requires c.Distinct()
      modifies fs`files, fs`history, fs`emptyWrites
      ensures rc == 0 || rc == -1
      ensures old(fs.history) <= fs.history
      ensures forall i :: |old(fs.history)| <= i < |fs.history|
                ==> WriteStops(c, old(fs.files), offset, data, fs.history[i])
      ensures WriteStops(c, old(fs.files), offset, data, fs.files)
      ensures rc == 0 ==>
                && c.Usable() && Sized(c, old(fs.files), c.path) && data != []
                && offset + |data| <= c.size
                && fs.files == Stored(c, old(fs.files), offset, data)
                && exists i :: |old(fs.history)| <= i < |fs.history| && fs.history[i]
                     == Unlinked(Spliced(c, old(fs.files), offset, data), c.md5Path, false)
      ensures !fs.faults ==>
                (rc == 0 <==>
                 && c.Usable() && Sized(c, old(fs.files), c.path) && data != []
                 && offset + |data| <= c.size && c.md5Path in old(fs.files))
    {
      if c.chunkSize == 0 {
        return -1;
      }
      rc := PathCheck(c.path, c.size);
      if rc < 0 {
        return -1;
      }
      var errno;
      rc, errno := fs.FileDataWrite(c.path, data,
                                    if c.chunkSize > |data| then |data| else c.chunkSize, offset);
      if rc < 0 {
        return -1;
      }
      ghost var s1 := fs.files;
      assert s1 == Spliced(c, old(fs.files), offset, data);
      rc := RenewDigest();
    }

    /** The second half of `ipc_nv_data_write`: digest, unlink, write. */
    method RenewDigest() returns (rc: int)
      modifies fs`files, fs`history, fs`emptyWrites
      ensures rc == 0 || rc == -1
      ensures old(fs.history) <= fs.history
      ensures forall i :: |old(fs.history)| <= i < |fs.history|
                ==> RenewStops(c, old(fs.files), fs.history[i])
      ensures fs.files == old(fs.files) || RenewStops(c, old(fs.files), fs.files)
      ensures rc == 0 ==>
                && c.Usable() && Sized(c, old(fs.files), c.path) && c.md5Path in old(fs.files)
                && fs.files == Rewritten(old(fs.files), c.md5Path,
                                         c.HexDigest(old(fs.files)[c.path]), false)
                && exists i :: |old(fs.history)| <= i < |fs.history|
                     && fs.history[i] == Unlinked(old(fs.files), c.md5Path, false)
      ensures !fs.faults ==>
                (rc == 0 <==> c.Usable() && Sized(c, old(fs.files), c.path)
                              && c.md5Path in old(fs.files))
    {
      ghost var s1 := fs.files;
      if c.size == 0 {
        return -1;
      }
      var md5 := Md5Calculate(c.path, c.size, c.chunkSize);
      if md5.None? {
        return -1;
      }
      var length := |md5.value|;
      rc := fs.Unlink(c.md5Path);
      if rc < 0 {
        return -1;
      }
      assert fs.history[|fs.history| - 1] == Unlinked(s1, c.md5Path, false);
      assert PartialWrite(fs.files, c.md5Path, 0, md5.value, fs.files);
      var errno;
      rc, errno := fs.FileDataWrite(c.md5Path, md5.value, length, 0);
      if rc < 0 {
        return -1;
      }
      return 0;
    }
  }

  /** Where `RenewDigest` may stop. */
  ghost predicate RenewStops(c: Config, s: Files, h: Files) {
    Sized(c, s, c.path) && Rewriting(s, c.md5Path, c.HexDigest(s[c.path]), false, h)
  }
}
