/** What the nv_data store promises, over the states and stops of `NvModel`. */
module NvTheorems {
  import opened Bytes
  import opened Storage
  import opened NvModel

  // ---------------------------------------------------------------- crashes of a write

  /** The digest tells the torn states of this one write from the state before it.  (No
      16-byte digest is injective on all blobs of nv_data size, so nothing more general
      could be assumed.) */
  ghost predicate NoTornCollision(c: Config, f: seq<byte>, at: nat, d: seq<byte>) {
    forall n {:trigger d[..n]} :: 0 <= n <= |d| ==>
      var torn := Splice(f, at, d[..n]);
      |torn| == c.size && c.HexDigest(torn) == c.HexDigest(f) ==> torn == f
  }

  /** A write touches no file but the primary pair. */
  lemma WriteFrame(c: Config, s: Files, at: nat, d: seq<byte>, h: Files, p: Path)
    requires WriteStops(c, s, at, d, h) && p != c.path && p != c.md5Path
    ensures (p in h <==> p in s) && Content(h, p) == Content(s, p)
  {
    if h != s && !PartialWrite(s, c.path, at, d, h) {
      var s1 := Spliced(c, s, at, d);
      RewritingOneFrame(s1, c.md5Path, c.HexDigest(s1[c.path]), false, h, p);
    }
  }

  /** Wherever a write stops, the backup pair is untouched, and a primary pair that
      validates holds the old contents or the completely written ones. */
  lemma WriteStopContents(c: Config, s: Files, at: nat, d: seq<byte>, h: Files)
    requires c.Distinct() && c.Usable() && PrimaryValid(c, s)
    requires NoTornCollision(c, s[c.path], at, d) && WriteStops(c, s, at, d, h)
    ensures forall p | p == c.backupPath || p == c.backupMd5Path ::
              (p in h <==> p in s) && Content(h, p) == Content(s, p)
    ensures PrimaryValid(c, h) ==>
              h[c.path] == s[c.path] || h[c.path] == Splice(s[c.path], at, d)
  {
    WriteFrame(c, s, at, d, h, c.backupPath);
    WriteFrame(c, s, at, d, h, c.backupMd5Path);
    var s1 := Spliced(c, s, at, d);
    if PrimaryValid(c, h) {
      if PartialWrite(s, c.path, at, d, h) {
        assert h[c.md5Path] == s[c.md5Path];
      } else if h != s {
        assert h[c.path] == s1[c.path];
      }
    }
  }

  /** Crash safety of a write: the backup pair survives bit for bit, and the next load
      succeeds with the old contents, the new contents or the backup. */
  lemma WriteCrashSafe(c: Config, s: Files, at: nat, d: seq<byte>, h: Files)
    requires c.Distinct() && c.Usable() && PrimaryValid(c, s) && BackupValid(c, s)
    requires NoTornCollision(c, s[c.path], at, d) && WriteStops(c, s, at, d, h)
    ensures BackupValid(c, h)
    ensures h[c.backupPath] == s[c.backupPath] && h[c.backupMd5Path] == s[c.backupMd5Path]
    ensures LoadResult(c, h).Some?
    ensures LoadResult(c, h).value in
              {s[c.path], Splice(s[c.path], at, d), s[c.backupPath]}
  {
    WriteStopContents(c, s, at, d, h);
    assert Content(h, c.backupPath) == h[c.backupPath];
    assert Content(h, c.backupMd5Path) == h[c.backupMd5Path];
  }

  /** The backup is necessary: every stop of a write can be loaded again exactly if the
      backup pair is valid before the write. */
  lemma WriteSafeIffBackup(c: Config, s: Files, at: nat, d: seq<byte>)
    requires c.Distinct() && c.Usable() && PrimaryValid(c, s) && d != []
    ensures (forall h | WriteStops(c, s, at, d, h) :: LoadResult(c, h).Some?)
            <==> BackupValid(c, s)
  {
    if BackupValid(c, s) {
      forall h | WriteStops(c, s, at, d, h)
        ensures LoadResult(c, h).Some?
      {
        WriteKeepsBackup(c, s, at, d, h);
      }
    } else {
      var h := UnsafeWriteStop(c, s, at, d);
      WriteFrame(c, s, at, d, h, c.backupPath);
      WriteFrame(c, s, at, d, h, c.backupMd5Path);
    }
  }

  /** A fitting write passes the moment between unlinking and rewriting the digest file; one
      that does not fit ends with a file of the wrong size. */
  lemma UnsafeWriteStop(c: Config, s: Files, at: nat, d: seq<byte>) returns (h: Files)
    requires c.Distinct() && c.Usable() && Sized(c, s, c.path) && d != []
    ensures WriteStops(c, s, at, d, h) && !PrimaryValid(c, h)
  {
    var s1 := Spliced(c, s, at, d);
    if at + |d| <= c.size {
      h := Unlinked(s1, c.md5Path, false);
      assert PartialWrite(h, c.md5Path, 0, c.HexDigest(s1[c.path]), h);
    } else {
      h := s1;
      assert d[..|d|] == d;
      PrefixIsPartial(s, c.path, at, d, |d|);
    }
  }

  // ---------------------------------------------------------------- a completed write

  /** A completed write leaves a valid primary pair holding the old contents with `d`
      spliced in, leaves every other file alone, and is seen by the next load. */
  lemma StoredState(c: Config, s: Files, at: nat, d: seq<byte>)
    requires c.Distinct() && c.Usable() && Sized(c, s, c.path)
    requires d != [] && at + |d| <= c.size
    ensures var h := Stored(c, s, at, d);
            && PrimaryValid(c, h)
            && h[c.path] == s[c.path][..at] + d + s[c.path][at + |d|..]
            && h[c.path][at..at + |d|] == d
            && LoadResult(c, h) == Some(h[c.path])
            && forall p | p != c.path && p != c.md5Path ::
                 (p in h <==> p in s) && Content(h, p) == Content(s, p)
  {
    var f := s[c.path];
    SpliceWindow(f, at, d);
    SpliceWhole([], c.HexDigest(Splice(f, at, d)));
    assert Splice(f, at, d) == f[..at] + d + f[at + |d|..];
  }

  /** With a valid backup, a completed write applies its data to what a load would have
      returned before it exactly if the primary pair was valid, or the two files agree outside
      the window: otherwise it makes the damage part of a valid pair. */
  lemma StoredExplainedIff(c: Config, s: Files, at: nat, d: seq<byte>)
    requires c.Distinct() && c.Usable() && Sized(c, s, c.path) && BackupValid(c, s)
    requires d != [] && at + |d| <= c.size
    ensures LoadResult(c, Stored(c, s, at, d)) == Some(Splice(LoadResult(c, s).value, at, d))
            <==> || PrimaryValid(c, s)
                 || forall k | 0 <= k < c.size && !(at <= k < at + |d|) ::
                      s[c.path][k] == s[c.backupPath][k]
  {
    StoredState(c, s, at, d);
    SplicesAgreeIff(s[c.path], s[c.backupPath], at, d);
  }

  lemma SplicesAgreeIff(a: seq<byte>, b: seq<byte>, at: nat, d: seq<byte>)
    requires |a| == |b| && at + |d| <= |a|
    ensures Splice(a, at, d) == Splice(b, at, d)
            <==> forall k | 0 <= k < |a| && !(at <= k < at + |d|) :: a[k] == b[k]
  {
    var x, y := Splice(a, at, d), Splice(b, at, d);
    if x == y {
      forall k | 0 <= k < |a| && !(at <= k < at + |d|)
        ensures a[k] == b[k]
      {
        assert x[k] == a[k] && y[k] == b[k];
      }
    }
  }

  // ---------------------------------------------------------------- crashes of a load

  /** Restore changes anything only after it has validated the backup, and never the
      backup itself. */
  lemma RestoreKeepsBackup(c: Config, s: Files, faults: bool, h: Files)
    requires c.Distinct() && RestoreStops(c, s, faults, h)
    ensures h == s || BackupValid(c, s)
    ensures BackupValid(c, s) ==>
              && BackupValid(c, h)
              && h[c.backupPath] == s[c.backupPath] && h[c.backupMd5Path] == s[c.backupMd5Path]
  {
    if h != s {
      var d, e := s[c.backupPath], s[c.backupMd5Path];
      var kept1, kept2 :| RewritingPair(s, c.path, d, c.md5Path, e, kept1, kept2, h);
      RewritingFrame(s, c.path, d, c.md5Path, e, kept1, kept2, h, c.backupPath);
      RewritingFrame(s, c.path, d, c.md5Path, e, kept1, kept2, h, c.backupMd5Path);
    }
  }

  /** Write never changes the backup pair. */
  lemma WriteKeepsBackup(c: Config, s: Files, at: nat, d: seq<byte>, h: Files)
    requires c.Distinct() && WriteStops(c, s, at, d, h)
    ensures BackupValid(c, s) ==> BackupValid(c, h) && h[c.backupPath] == s[c.backupPath]
  {
  }

  /** If one of the two pairs is valid when a load starts, one is at every step of it,
      whatever calls fail. */
  lemma LoadKeepsCopy(c: Config, s: Files, faults: bool, h: Files)
    requires c.Distinct() && c.Usable()
    requires SomeCopy(c, s) && LoadStops(c, s, faults, h)
    ensures SomeCopy(c, h)
  {
    if RestoreStops(c, s, faults, h) {
      RestoreKeepsBackup(c, s, faults, h);
    } else {
      var healed := LoadHeals(c, s, faults, h);
      HealKeepsPrimary(c, healed, faults, h);
    }
  }

  /** Behind the restore, a load heals what was there or what it has restored. */
  lemma LoadHeals(c: Config, s: Files, faults: bool, h: Files) returns (healed: Files)
    requires LoadStops(c, s, faults, h) && !RestoreStops(c, s, faults, h)
    ensures HealStops(c, healed, faults, h)
  {
    if HealStops(c, s, faults, h) {
      healed := s;
    } else {
      var kept1, kept2 :| HealStops(c, Restored(c, s, kept1, kept2), faults, h);
      healed := Restored(c, s, kept1, kept2);
    }
  }

  /** A restore that is stopped between calls shows either no valid primary pair or the
      contents of the backup. */
  lemma RestoreStopContents(c: Config, s: Files, h: Files)
    requires c.Distinct() && c.Usable() && BackupValid(c, s)
    requires RestoreStops(c, s, false, h) && h != s
    ensures BackupValid(c, h) && h[c.backupPath] == s[c.backupPath]
    ensures h[c.backupMd5Path] == s[c.backupMd5Path]
    ensures PrimaryValid(c, h) ==> h[c.path] == s[c.backupPath]
  {
    var d, e := s[c.backupPath], s[c.backupMd5Path];
    var s0 := Unlinked(s, c.path, false);
    SpliceWhole([], d);
    if PrimaryValid(c, h) && PartialWrite(s0, c.path, 0, d, h) {
      var n :| 0 <= n <= |d| && h == Written(s0, c.path, 0, d[..n]);
      assert n == |d| && d[..n] == d;
    }
  }

  /** Recovery is idempotent under crashes: a load stopped at any step, run again,
      returns what the first one would have returned. */
  lemma LoadCrashIdempotent(c: Config, s: Files, h: Files)
    requires c.Distinct() && c.Usable() && LoadStops(c, s, false, h)
    ensures LoadResult(c, h) == LoadResult(c, s)
  {
    if h == s {
    } else if HealStops(c, s, false, h) {
      HealKeepsPrimary(c, s, false, h);
    } else if !PrimaryValid(c, s) && RestoreStops(c, s, false, h) {
      RestoreStopContents(c, s, h);
    } else {
      RestoredPrimaryValid(c, s);
      assert false;
    }
  }

  /** A completed load is a fixed point: the second one changes nothing and returns the
      same bytes. */
  lemma LoadTwice(c: Config, s: Files)
    requires c.Distinct() && c.Usable()
    ensures LoadState(c, LoadState(c, s)) == LoadState(c, s)
    ensures LoadResult(c, LoadState(c, s)) == LoadResult(c, s)
  {
    if SomeCopy(c, s) {
      var s1 := if PrimaryValid(c, s) then s else Restored(c, s, false, false);
      if !PrimaryValid(c, s) {
        RestoredPrimaryValid(c, s);
      }
      BackedUpPair(c, s1, false, false);
    }
  }

  /** The backup that a load leaves behind is valid exactly if it was valid before or had
      the wrong size: a damaged backup of the right size is never renewed. */
  lemma LoadHealsBackupIff(c: Config, s: Files)
    requires c.Distinct() && c.Usable() && SomeCopy(c, s)
    ensures BackupValid(c, LoadState(c, s))
            <==> BackupValid(c, s) || !Sized(c, s, c.backupPath)
  {
    if PrimaryValid(c, s) {
      BackedUpPair(c, s, false, false);
    } else {
      RestoredPrimaryValid(c, s);
    }
  }

  /** With a failing call a load may restore over a valid primary pair, because a check that
      fails counts as damage; it keeps the primary pair for certain exactly if there is no
      valid backup to restore. */
  lemma LoadKeepsPrimaryIff(c: Config, s: Files)
    requires c.Distinct() && c.Usable() && PrimaryValid(c, s)
    ensures (forall h | LoadStops(c, s, true, h) ::
               PrimaryValid(c, h) && h[c.path] == s[c.path])
            <==> !BackupValid(c, s)
  {
    if BackupValid(c, s) {
      var h := Unlinked(s, c.path, false);
      FirstOfPair(s, c.path, s[c.backupPath], c.md5Path, s[c.backupMd5Path], false);
      assert Rewriting(s, c.path, s[c.backupPath], false, h);
      assert RestoreStops(c, s, true, h) && LoadStops(c, s, true, h);
    } else {
      forall h | LoadStops(c, s, true, h)
        ensures PrimaryValid(c, h) && h[c.path] == s[c.path]
      {
        if h != s {
          HealKeepsPrimary(c, s, true, h);
        }
      }
    }
  }

  /** Nor is a backup safe from such a load: it may be renewed although it is valid, and the
      load be stopped between unlinking and rewriting it. */
  lemma LoadMayLoseBackup(c: Config, s: Files) returns (h: Files)
    requires c.Distinct() && c.Usable() && BackupValid(c, s)
    ensures LoadStops(c, s, true, h) && !BackupValid(c, h)
  {
    RestoredPrimaryValid(c, s);
    var mid := if PrimaryValid(c, s) then s else Restored(c, s, false, false);
    h := UnsafeBackupStop(c, mid, true);
    assert HealStops(c, mid, true, h);
  }

  // ---------------------------------------------------------------- backup and restore

  /** Every backup of a file of the right size passes the moment between unlinking and
      rewriting the backup file. */
  lemma UnsafeBackupStop(c: Config, s: Files, faults: bool) returns (h: Files)
    requires c.Distinct() && c.Usable() && Sized(c, s, c.path)
    ensures BackupStops(c, s, faults, h) && !BackupValid(c, h)
    ensures PrimaryValid(c, h) <==> PrimaryValid(c, s)
  {
    var d := s[c.path];
    h := Unlinked(s, c.backupPath, false);
    FirstOfPair(s, c.backupPath, d, c.backupMd5Path, c.HexDigest(d), false);
    assert Rewriting(s, c.backupPath, d, false, h);
  }

  /** A backup checks only the size of the primary file: every stop of it leaves a valid
      copy exactly if the primary pair is valid. */
  lemma BackupSafeIffPrimary(c: Config, s: Files)
    requires c.Distinct() && c.Usable() && Sized(c, s, c.path) && SomeCopy(c, s)
    ensures (forall h | BackupStops(c, s, false, h) :: SomeCopy(c, h)) <==> PrimaryValid(c, s)
  {
    if PrimaryValid(c, s) {
      forall h | BackupStops(c, s, false, h)
        ensures SomeCopy(c, h)
      {
        BackupKeepsPrimary(c, s, false, h);
      }
    } else {
      var h := UnsafeBackupStop(c, s, false);
    }
  }

  /** And a completed one leaves what a load returns as it was exactly if the primary pair
      is valid or has the bytes of the backup: otherwise it certifies the damage with a
      fresh digest, in place of the only valid copy. */
  lemma BackedUpExplainedIff(c: Config, s: Files)
    requires c.Distinct() && c.Usable() && Sized(c, s, c.path) && BackupValid(c, s)
    ensures LoadResult(c, BackedUp(c, s, false, false)) == LoadResult(c, s)
            <==> PrimaryValid(c, s) || s[c.path] == s[c.backupPath]
  {
    BackedUpPair(c, s, false, false);
  }

  /** A completed backup yields a valid backup pair equal to the primary exactly if no
      stale tail is left: a file that could not be unlinked must not be longer than the
      one written over it. */
  lemma BackedUpPair(c: Config, s: Files, kept1: bool, kept2: bool)
    requires c.Distinct() && c.Usable() && Sized(c, s, c.path)
    ensures var h := BackedUp(c, s, kept1, kept2);
            && Content(h, c.path) == s[c.path]
            && (BackupValid(c, h) && h[c.backupPath] == s[c.path] <==>
                && (kept1 ==> |Content(s, c.backupPath)| <= c.size)
                && (kept2 ==> |Content(s, c.backupMd5Path)| <= MD5_DIGEST_LENGTH_ASCII))
            && (BackupValid(c, h) ==> h[c.backupPath] == s[c.path])
            && Sized(c, h, c.backupPath) == (kept1 ==> |Content(s, c.backupPath)| <= c.size)
  {
    var d := s[c.path];
    SpliceWhole(Content(Unlinked(s, c.backupPath, kept1), c.backupPath), d);
    var s1 := Rewritten(s, c.backupPath, d, kept1);
    SpliceWhole(Content(Unlinked(s1, c.backupMd5Path, kept2), c.backupMd5Path), c.HexDigest(d));
  }

  /** A concrete failure: the old backup is one byte too long, its `unlink` fails, and the
      backup reports success with an invalid pair. */
  lemma BackupStaleTail(c: Config, s: Files)
    requires c.Distinct() && c.Usable() && Sized(c, s, c.path)
    requires c.backupPath in s && s[c.backupPath] == s[c.path] + [0]
    ensures !BackupValid(c, BackedUp(c, s, true, false))
    ensures BackedUp(c, s, true, false)[c.backupPath] == s[c.backupPath]
  {
    BackedUpPair(c, s, true, false);
  }

  /** A completed restore makes the primary pair byte-equal to the backup pair under the
      same exact condition, and leaves the backup pair alone. */
  lemma RestoredPair(c: Config, s: Files, kept1: bool, kept2: bool)
    requires c.Distinct() && c.Usable() && BackupValid(c, s)
    ensures var h := Restored(c, s, kept1, kept2);
            && BackupValid(c, h) && h[c.backupPath] == s[c.backupPath]
            && (h[c.path] == h[c.backupPath] && h[c.md5Path] == h[c.backupMd5Path] <==>
                && (kept1 ==> |Content(s, c.path)| <= c.size)
                && (kept2 ==> |Content(s, c.md5Path)| <= MD5_DIGEST_LENGTH_ASCII))
  {
    var d, e := s[c.backupPath], s[c.backupMd5Path];
    SpliceWhole(Content(Unlinked(s, c.path, kept1), c.path), d);
    var s1 := Rewritten(s, c.path, d, kept1);
    SpliceWhole(Content(Unlinked(s1, c.md5Path, kept2), c.md5Path), e);
  }

  /** Backup, any damage to the primary pair, restore: the primary pair is back. */
  lemma BackupThenRestore(c: Config, s: Files, t: Files)
    requires c.Distinct() && c.Usable() && PrimaryValid(c, s)
    requires c.backupPath in t && t[c.backupPath] == BackedUp(c, s, false, false)[c.backupPath]
    requires c.backupMd5Path in t
    requires t[c.backupMd5Path] == BackedUp(c, s, false, false)[c.backupMd5Path]
    ensures var h := Restored(c, t, false, false);
            PrimaryValid(c, h) && h[c.path] == s[c.path] && h[c.md5Path] == s[c.md5Path]
  {
    BackedUpPair(c, s, false, false);
    RestoredPair(c, t, false, false);
    RestoredPrimaryValid(c, t);
  }

  /** A restore interrupted at any step, whatever calls failed, can be run again and ends
      in the state of an uninterrupted one. */
  lemma RestoreRestarts(c: Config, s: Files, faults: bool, h: Files)
    requires c.Distinct() && c.Usable() && BackupValid(c, s)
    requires RestoreStops(c, s, faults, h)
    ensures BackupValid(c, h)
    ensures Restored(c, h, false, false) == Restored(c, s, false, false)
  {
    RestoreKeepsBackup(c, s, faults, h);
    RestoreKeepsOthers(c, s, faults, h);
    RestoredIgnoresPrimary(c, s, h);
  }

  lemma RestoreKeepsOthers(c: Config, s: Files, faults: bool, h: Files)
    requires c.Distinct() && RestoreStops(c, s, faults, h)
    ensures h - {c.path, c.md5Path} == s - {c.path, c.md5Path}
  {
  }

  /** The result of a restore does not depend on the primary pair it replaces. */
  lemma RestoredIgnoresPrimary(c: Config, s: Files, h: Files)
    requires c.Distinct() && BackupValid(c, s)
    requires c.backupPath in h && h[c.backupPath] == s[c.backupPath]
    requires c.backupMd5Path in h && h[c.backupMd5Path] == s[c.backupMd5Path]
    requires h - {c.path, c.md5Path} == s - {c.path, c.md5Path}
    ensures Restored(c, h, false, false) == Restored(c, s, false, false)
  {
    var d, e := s[c.backupPath], s[c.backupMd5Path];
    RewrittenPairAlone(c, s, d, e);
    RewrittenPairAlone(c, h, d, e);
  }

  lemma RewrittenPairAlone(c: Config, s: Files, d: seq<byte>, e: seq<byte>)
    requires c.Distinct()
    ensures RewrittenPair(s, c.path, d, c.md5Path, e, false, false)
            == (s - {c.path, c.md5Path})[c.path := Splice([], 0, d)][c.md5Path := Splice([], 0, e)]
  {
  }

  // ---------------------------------------------------------------- whole runs

  datatype Op = Load | Restore | Backup | Write(at: nat, data: seq<byte>)

  ghost predicate Stops(c: Config, op: Op, s: Files, faults: bool, h: Files) {
    match op
    case Load => LoadStops(c, s, faults, h)
    case Restore => RestoreStops(c, s, faults, h)
    case Backup => BackupStops(c, s, faults, h)
    case Write(at, data) => WriteStops(c, s, at, data, h)
  }

  /** The operation is a write or a backup that gets as far as changing files, if no call
      fails: both check the size of the primary file and nothing else. */
  ghost predicate Enters(c: Config, op: Op, s: Files) {
    Sized(c, s, c.path) && (op.Backup? || (op.Write? && op.data != []))
  }

  /** What a caller has to know before an operation: a write relies on a valid backup
      pair, a backup on a valid primary pair. */
  ghost predicate Guard(c: Config, op: Op, s: Files) {
    Enters(c, op, s) ==> if op.Write? then BackupValid(c, s) else PrimaryValid(c, s)
  }

  /** A run: each operation starts where the one before it ended, failed or was killed. */
  ghost predicate Run(c: Config, ops: seq<Op>, states: seq<Files>, faults: bool) {
    && |states| == |ops| + 1
    && forall i {:trigger ops[i]} :: 0 <= i < |ops| ==> Stops(c, ops[i], states[i], faults, states[i + 1])
  }

  lemma StepKeepsCopy(c: Config, op: Op, s: Files, faults: bool, h: Files)
    requires c.Distinct() && c.Usable() && SomeCopy(c, s)
    requires Stops(c, op, s, faults, h) && Guard(c, op, s)
    ensures SomeCopy(c, h)
  {
    match op
    case Load => LoadKeepsCopy(c, s, faults, h);
    case Restore => RestoreKeepsBackup(c, s, faults, h);
    case Backup => BackupKeepsPrimary(c, s, faults, h);
    case Write(at, data) =>
      if Enters(c, op, s) {
        WriteKeepsBackup(c, s, at, data, h);
      }
  }

  /** The guard is exact, operation by operation and whatever calls fail: without it some
      stop leaves no valid pair. */
  lemma StepKeepsCopyIff(c: Config, op: Op, s: Files, faults: bool)
    requires c.Distinct() && c.Usable() && SomeCopy(c, s)
    ensures (forall h | Stops(c, op, s, faults, h) :: SomeCopy(c, h)) <==> Guard(c, op, s)
  {
    if Guard(c, op, s) {
      forall h | Stops(c, op, s, faults, h)
        ensures SomeCopy(c, h)
      {
        StepKeepsCopy(c, op, s, faults, h);
      }
    } else {
      var h := UnguardedStop(c, op, s, faults);
    }
  }

  lemma UnguardedStop(c: Config, op: Op, s: Files, faults: bool) returns (h: Files)
    requires c.Distinct() && c.Usable() && SomeCopy(c, s) && !Guard(c, op, s)
    ensures Stops(c, op, s, faults, h) && !SomeCopy(c, h)
  {
    match op
    case Write(at, data) =>
      h := UnsafeWriteStop(c, s, at, data);
      WriteFrame(c, s, at, data, h, c.backupPath);
      WriteFrame(c, s, at, data, h, c.backupMd5Path);
    case Backup =>
      h := UnsafeBackupStop(c, s, faults);
  }

  /** The runs of these operations from `s` keep a valid copy at every step exactly if all
      of them respect the guards. */
  lemma RunsKeepCopyIff(c: Config, ops: seq<Op>, s: Files, faults: bool)
    requires c.Distinct() && c.Usable() && SomeCopy(c, s)
    ensures (forall states | RunFrom(c, ops, s, states, faults) :: CopyThroughout(c, states))
            <==> (forall states | RunFrom(c, ops, s, states, faults) :: Guarded(c, ops, states))
  {
    if forall states | RunFrom(c, ops, s, states, faults) :: Guarded(c, ops, states) {
      forall states | RunFrom(c, ops, s, states, faults)
        ensures CopyThroughout(c, states)
      {
        RunKeepsCopy(c, ops, states, faults);
      }
    } else {
      var states :| RunFrom(c, ops, s, states, faults) && !Guarded(c, ops, states);
      var i :| 0 <= i < |ops| && !Guard(c, ops[i], states[i]);
      if CopyThroughout(c, states) {
        var h := UnguardedStop(c, ops[i], states[i], faults);
        var stopped := StoppedAt(c, ops, states, faults, i, h);
        assert !SomeCopy(c, stopped[i + 1]);
      }
    }
  }

  ghost predicate RunFrom(c: Config, ops: seq<Op>, s: Files, states: seq<Files>, faults: bool) {
    Run(c, ops, states, faults) && states[0] == s
  }

  ghost predicate CopyThroughout(c: Config, states: seq<Files>) {
    forall i | 0 <= i < |states| :: SomeCopy(c, states[i])
  }

  ghost predicate Guarded(c: Config, ops: seq<Op>, states: seq<Files>)
    requires |ops| < |states|
  {
    forall i {:trigger ops[i]} | 0 <= i < |ops| :: Guard(c, ops[i], states[i])
  }

  /** Another run: operation `i` stops in `h`, and those after it before their first step. */
  lemma StoppedAt(c: Config, ops: seq<Op>, states: seq<Files>, faults: bool, i: nat, h: Files)
    returns (stopped: seq<Files>)
    requires Run(c, ops, states, faults) && i < |ops| && Stops(c, ops[i], states[i], faults, h)
    ensures RunFrom(c, ops, states[0], stopped, faults) && stopped[i + 1] == h
  {
    stopped := states[..i + 1] + seq(|ops| - i, _ => h);
    forall k {:trigger ops[k]} | 0 <= k < |ops|
      ensures Stops(c, ops[k], stopped[k], faults, stopped[k + 1])
    {
      if k < i {
        assert Stops(c, ops[k], states[k], faults, states[k + 1]);
      }
    }
  }

  /** Over any run, with any failing calls and any kills, that respects the guards, every
      state holds a valid copy; so a load without failures always succeeds. */
  lemma RunKeepsCopy(c: Config, ops: seq<Op>, states: seq<Files>, faults: bool)
    requires c.Distinct() && c.Usable() && Run(c, ops, states, faults)
    requires Guarded(c, ops, states) && SomeCopy(c, states[0])
    ensures CopyThroughout(c, states)
    ensures forall i :: 0 <= i < |states| ==> LoadResult(c, states[i]).Some?
  {
    forall i | 0 <= i < |states|
      ensures SomeCopy(c, states[i])
    {
      RunKeepsCopyAt(c, ops, states, faults, i);
    }
  }

  lemma {:induction false} RunKeepsCopyAt(c: Config, ops: seq<Op>, states: seq<Files>,
                                          faults: bool, i: nat)
    requires c.Distinct() && c.Usable() && Run(c, ops, states, faults) && i < |states|
    requires Guarded(c, ops, states) && SomeCopy(c, states[0])
    ensures SomeCopy(c, states[i])
    decreases i
  {
    if i > 0 {
      RunKeepsCopyAt(c, ops, states, faults, i - 1);
      StepKeepsCopy(c, ops[i - 1], states[i - 1], faults, states[i]);
    }
  }

  /** The contents that some of the writes, applied whole and in order to the initial or
      the backup contents, can produce. */
  ghost predicate Explained(ops: seq<Op>, first: seq<byte>, backup: seq<byte>, x: seq<byte>)
    decreases |ops|
  {
    if ops == [] then x == first || x == backup
    else
      var op, before := ops[|ops| - 1], ops[..|ops| - 1];
      || Explained(before, first, backup, x)
      || (op.Write?
          && exists y :: Explained(before, first, backup, y) && x == Splice(y, op.at, op.data))
  }

  lemma {:induction false} BackupIsExplained(ops: seq<Op>, first: seq<byte>, backup: seq<byte>)
    ensures Explained(ops, first, backup, backup)
  {
    if ops != [] {
      BackupIsExplained(ops[..|ops| - 1], first, backup);
    }
  }

  // ---------------------------------------------------------------- torn pairs

  /** A file `p` that could not be unlinked, with a part of `d` written over it, matches the
      digest file `m` that is still there only if it is the old or the new contents. */
  ghost predicate NoTornMatch(c: Config, s: Files, p: Path, m: Path, d: seq<byte>) {
    forall n {:trigger d[..n]} :: 0 <= n <= |d| ==>
      var torn := Splice(Content(s, p), 0, d[..n]);
      |torn| == c.size && m in s && s[m] == c.HexDigest(torn) ==>
        torn == d || (PairValid(c, s, p, m) && torn == s[p])
  }

  ghost predicate BackupTells(c: Config, s: Files) {
    PrimaryValid(c, s) ==> NoTornMatch(c, s, c.backupPath, c.backupMd5Path, s[c.path])
  }

  ghost predicate PrimaryTells(c: Config, s: Files) {
    BackupValid(c, s) ==> NoTornMatch(c, s, c.path, c.md5Path, s[c.backupPath])
  }

  /** A pair that is being rewritten with `d` is at no stop valid with other contents than
      the old ones or `d`. */
  lemma RewritingPairContents(c: Config, s: Files, p: Path, d: seq<byte>, m: Path, e: seq<byte>,
                              kept1: bool, kept2: bool, h: Files)
    requires p != m && |d| == c.size > 0 && RewritingPair(s, p, d, m, e, kept1, kept2, h)
    requires kept1 ==> NoTornMatch(c, s, p, m, d)
    requires PairValid(c, h, p, m)
    ensures h[p] == d || (PairValid(c, s, p, m) && h[p] == s[p])
  {
    var s0 := Unlinked(s, p, kept1);
    SpliceWhole(Content(s0, p), d);
    if h != s && PartialWrite(s0, p, 0, d, h) {
      var n :| 0 <= n <= |d| && h == Written(s0, p, 0, d[..n]);
      assert n == |d| ==> d[..n] == d;
      assert h[p] == Splice(Content(s0, p), 0, d[..n]);
    } else if h != s {
      RewritingOneFrame(Rewritten(s, p, d, kept1), m, e, kept2, h, p);
    }
  }

  lemma RestoreStepContents(c: Config, s: Files, faults: bool, h: Files)
    requires c.Distinct() && c.Usable() && BackupValid(c, s) && RestoreStops(c, s, faults, h)
    requires faults ==> PrimaryTells(c, s)
    ensures PrimaryValid(c, h) ==>
              h[c.path] == s[c.backupPath] || (PrimaryValid(c, s) && h[c.path] == s[c.path])
  {
    if h != s && PrimaryValid(c, h) {
      var d, e := s[c.backupPath], s[c.backupMd5Path];
      var kept1, kept2 :| (kept1 || kept2 ==> faults)
        && RewritingPair(s, c.path, d, c.md5Path, e, kept1, kept2, h);
      RewritingPairContents(c, s, c.path, d, c.md5Path, e, kept1, kept2, h);
    }
  }

  /** A write that does not enter changes nothing. */
  lemma IdleWrite(c: Config, s: Files, at: nat, d: seq<byte>, h: Files)
    requires WriteStops(c, s, at, d, h) && !(Sized(c, s, c.path) && d != [])
    ensures h == s
  {
  }

  // ---------------------------------------------------------------- atomic runs

  /** Backups that enter, and loads with failing calls, give up the old backup pair. */
  ghost predicate SparesBackup(c: Config, op: Op, s: Files, faults: bool) {
    !(op.Backup? && Enters(c, op, s)) && !(op.Load? && faults)
  }

  /** All other operations keep it bit for bit, and only they do so at every stop. */
  lemma StepKeepsBackupIff(c: Config, op: Op, s: Files, faults: bool)
    requires c.Distinct() && c.Usable() && BackupValid(c, s)
    ensures (forall h | Stops(c, op, s, faults, h) ::
               BackupValid(c, h) && h[c.backupPath] == s[c.backupPath])
            <==> SparesBackup(c, op, s, faults)
  {
    if SparesBackup(c, op, s, faults) {
      forall h | Stops(c, op, s, faults, h)
        ensures BackupValid(c, h) && h[c.backupPath] == s[c.backupPath]
      {
        StepKeepsBackup(c, op, s, faults, h);
      }
    } else if op.Backup? {
      var h := UnsafeBackupStop(c, s, faults);
    } else {
      var h := LoadMayLoseBackup(c, s);
    }
  }

  lemma StepKeepsBackup(c: Config, op: Op, s: Files, faults: bool, h: Files)
    requires c.Distinct() && c.Usable() && BackupValid(c, s)
    requires Stops(c, op, s, faults, h) && SparesBackup(c, op, s, faults)
    ensures BackupValid(c, h) && h[c.backupPath] == s[c.backupPath]
  {
    match op
    case Write(at, data) => WriteKeepsBackup(c, s, at, data, h);
    case Restore => RestoreKeepsBackup(c, s, faults, h);
    case Backup =>
    case Load =>
      if RestoreStops(c, s, false, h) {
        RestoreKeepsBackup(c, s, false, h);
      } else {
        RestoredPrimaryValid(c, s);
        assert false;
      }
  }

  /** What atomicity asks of an operation: it spares the backup; a write starts from a valid
      primary pair, as it does after a load, and its torn states do not collide; where
      calls may fail, the digest of the primary pair tells a torn restore. */
  ghost predicate AtomicGuard(c: Config, op: Op, s: Files, faults: bool) {
    && SparesBackup(c, op, s, faults)
    && (op.Write? && Enters(c, op, s) ==>
          PrimaryValid(c, s) && NoTornCollision(c, s[c.path], op.at, op.data))
    && (op.Restore? && faults ==> PrimaryTells(c, s))
  }

  /** One step of such a run: the backup pair stays bit for bit, and a valid primary pair
      holds old contents, written contents or the backup. */
  lemma StepIsAtomic(c: Config, op: Op, s: Files, faults: bool, h: Files)
    requires c.Distinct() && c.Usable() && BackupValid(c, s)
    requires Stops(c, op, s, faults, h) && AtomicGuard(c, op, s, faults)
    ensures BackupValid(c, h) && h[c.backupPath] == s[c.backupPath]
    ensures PrimaryValid(c, h) ==>
              || h[c.path] == s[c.backupPath]
              || (PrimaryValid(c, s)
                  && (h[c.path] == s[c.path]
                      || (op.Write? && h[c.path] == Splice(s[c.path], op.at, op.data))))
  {
    StepKeepsBackup(c, op, s, faults, h);
    match op
    case Write(at, data) =>
      if Enters(c, op, s) {
        WriteStopContents(c, s, at, data, h);
      } else {
        IdleWrite(c, s, at, data, h);
      }
    case Restore => RestoreStepContents(c, s, faults, h);
    case Backup =>
    case Load =>
      if h != s {
        RestoredPrimaryValid(c, s);
        RestoreStopContents(c, s, h);
      }
  }

  /** Atomicity over whole runs: from a valid backup, any sequence of operations that spare
      the backup, with guarded writes, each completed, failed or killed at any step, keeps
      the backup bit for bit; every state can be loaded, and what is loaded is never a torn
      write. */
  lemma {:induction false} RunIsAtomic(c: Config, ops: seq<Op>, states: seq<Files>, faults: bool,
                                       first: seq<byte>)
    requires c.Distinct() && c.Usable() && Run(c, ops, states, faults)
    requires forall i {:trigger ops[i]} :: 0 <= i < |ops| ==>
               AtomicGuard(c, ops[i], states[i], faults)
    requires BackupValid(c, states[0])
    requires PrimaryValid(c, states[0]) ==> first == states[0][c.path]
    ensures var s, t := states[0], states[|ops|];
            && BackupValid(c, t) && t[c.backupPath] == s[c.backupPath]
            && LoadResult(c, t).Some?
            && Explained(ops, first, s[c.backupPath], LoadResult(c, t).value)
    decreases |ops|
  {
    var n := |ops| - 1;
    var backup := states[0][c.backupPath];
    BackupIsExplained(ops, first, backup);
    if ops != [] {
      RunIsAtomic(c, ops[..n], states[..n + 1], faults, first);
      StepIsAtomic(c, ops[n], states[n], faults, states[n + 1]);
    }
  }

  // ---------------------------------------------------------------- runs with backups

  /** `x` is what one of the valid pairs holds. */
  ghost predicate Copy(c: Config, s: Files, x: seq<byte>) {
    || (PrimaryValid(c, s) && x == s[c.path])
    || (BackupValid(c, s) && x == s[c.backupPath])
  }

  /** What an operation relies on when backups are made as well: a write needs both pairs,
      a backup the primary pair; and where calls may fail, the digests tell torn files. */
  ghost predicate CopyGuard(c: Config, op: Op, s: Files, faults: bool) {
    && (Enters(c, op, s) ==> PrimaryValid(c, s))
    && (Enters(c, op, s) && op.Write? ==>
          BackupValid(c, s) && NoTornCollision(c, s[c.path], op.at, op.data))
    && (faults && (op.Backup? || op.Load?) ==> BackupTells(c, s))
    && (faults && (op.Restore? || op.Load?) ==> PrimaryTells(c, s))
  }

  lemma BackupStepCopies(c: Config, s: Files, faults: bool, h: Files)
    requires c.Distinct() && c.Usable() && PrimaryValid(c, s) && BackupStops(c, s, faults, h)
    requires faults ==> BackupTells(c, s)
    ensures SomeCopy(c, h)
    ensures forall x | Copy(c, h, x) :: Copy(c, s, x)
  {
    BackupKeepsPrimary(c, s, faults, h);
    if h != s && BackupValid(c, h) {
      var d := s[c.path];
      var kept1, kept2 :| (kept1 || kept2 ==> faults)
        && RewritingPair(s, c.backupPath, d, c.backupMd5Path, c.HexDigest(d), kept1, kept2, h);
      RewritingPairContents(c, s, c.backupPath, d, c.backupMd5Path, c.HexDigest(d),
                            kept1, kept2, h);
    }
  }

  lemma RestoreStepCopies(c: Config, s: Files, faults: bool, h: Files)
    requires c.Distinct() && c.Usable() && SomeCopy(c, s) && RestoreStops(c, s, faults, h)
    requires faults ==> PrimaryTells(c, s)
    ensures SomeCopy(c, h)
    ensures forall x | Copy(c, h, x) :: Copy(c, s, x)
  {
    RestoreKeepsBackup(c, s, faults, h);
    if h != s {
      RestoreStepContents(c, s, faults, h);
    }
  }

  /** After a restore that leaves a valid primary pair, both pairs hold the backup; so no
      part of a renewed backup can be torn. */
  lemma RestoredCopies(c: Config, s: Files, kept1: bool, kept2: bool)
    requires c.Distinct() && c.Usable() && BackupValid(c, s)
    requires PrimaryValid(c, Restored(c, s, kept1, kept2))
    ensures var mid := Restored(c, s, kept1, kept2);
            && (forall x | Copy(c, mid, x) :: Copy(c, s, x))
            && BackupTells(c, mid)
  {
    var mid, d := Restored(c, s, kept1, kept2), s[c.backupPath];
    SpliceWhole(Content(Unlinked(s, c.path, kept1), c.path), d);
    assert mid[c.path] == d == mid[c.backupPath];
    forall n | 0 <= n <= |d|
      ensures Splice(d, 0, d[..n]) == d
    {
    }
  }

  lemma LoadStepCopies(c: Config, s: Files, faults: bool, h: Files)
    requires c.Distinct() && c.Usable() && SomeCopy(c, s) && LoadStops(c, s, faults, h)
    requires faults ==> PrimaryTells(c, s) && BackupTells(c, s)
    ensures SomeCopy(c, h)
    ensures forall x | Copy(c, h, x) :: Copy(c, s, x)
  {
    if RestoreStops(c, s, faults, h) {
      RestoreStepCopies(c, s, faults, h);
    } else if HealStops(c, s, faults, h) {
      BackupStepCopies(c, s, faults, h);
    } else {
      var kept1, kept2 :| (kept1 || kept2 ==> faults)
        && HealStops(c, Restored(c, s, kept1, kept2), faults, h);
      RestoredCopies(c, s, kept1, kept2);
      BackupStepCopies(c, Restored(c, s, kept1, kept2), faults, h);
    }
  }

  /** One operation, whatever calls fail: some pair is valid at each of its stops, and the
      contents of a valid pair are those of one before, or the written ones. */
  lemma StepIsConsistent(c: Config, op: Op, s: Files, faults: bool, h: Files)
    requires c.Distinct() && c.Usable() && SomeCopy(c, s)
    requires Stops(c, op, s, faults, h) && CopyGuard(c, op, s, faults)
    ensures SomeCopy(c, h)
    ensures forall x | Copy(c, h, x) ::
              || Copy(c, s, x)
              || (op.Write? && PrimaryValid(c, s) && x == Splice(s[c.path], op.at, op.data))
  {
    match op
    case Load => LoadStepCopies(c, s, faults, h);
    case Restore => RestoreStepCopies(c, s, faults, h);
    case Backup =>
      if Enters(c, op, s) {
        BackupStepCopies(c, s, faults, h);
      }
    case Write(at, data) =>
      if Enters(c, op, s) {
        WriteKeepsBackup(c, s, at, data, h);
        WriteStopContents(c, s, at, data, h);
      } else {
        IdleWrite(c, s, at, data, h);
      }
  }

  /** Consistency over whole runs with loads, restores, writes and backups, with any failing
      calls, each operation completed or killed at any step: some copy is always valid, and
      no valid pair, primary or backup, ever holds a torn write. */
  lemma {:induction false} RunIsConsistent(c: Config, ops: seq<Op>, states: seq<Files>,
                                           faults: bool, first: seq<byte>, backup: seq<byte>)
    requires c.Distinct() && c.Usable() && Run(c, ops, states, faults)
    requires forall i {:trigger ops[i]} :: 0 <= i < |ops| ==> CopyGuard(c, ops[i], states[i], faults)
    requires SomeCopy(c, states[0])
    requires forall x | Copy(c, states[0], x) :: x == first || x == backup
    ensures var t := states[|ops|];
            && SomeCopy(c, t) && LoadResult(c, t).Some?
            && forall x | Copy(c, t, x) :: Explained(ops, first, backup, x)
    decreases |ops|
  {
    if ops != [] {
      var n := |ops| - 1;
      var s, t := states[n], states[n + 1];
      RunIsConsistent(c, ops[..n], states[..n + 1], faults, first, backup);
      StepIsConsistent(c, ops[n], s, faults, t);
      forall x | Copy(c, t, x)
        ensures Explained(ops, first, backup, x)
      {
        if !Copy(c, s, x) {
          assert Copy(c, s, s[c.path]);
          assert Explained(ops[..n], first, backup, s[c.path]);
        }
      }
    }
  }

  // ---------------------------------------------------------------- the guard is needed

  /** Three zero bytes, both pairs valid. */
  function Blank(c: Config): Files {
    var z: seq<byte> := [0, 0, 0];
    map[c.path := z, c.md5Path := c.HexDigest(z),
        c.backupPath := z, c.backupMd5Path := c.HexDigest(z)]
  }

  const FIRST_WRITE := Write(0, [1, 1])
  const SECOND_WRITE := Write(2, [2])

  lemma ExplainedByFirst(x: seq<byte>)
    requires Explained([FIRST_WRITE], [0, 0, 0], [0, 0, 0], x)
    ensures x == [0, 0, 0] || x == [1, 1, 0]
  {
    assert [FIRST_WRITE][..0] == [];
    assert Splice([0, 0, 0], 0, [1, 1]) == [1, 1, 0];
  }

  lemma ExplainedByBoth(x: seq<byte>)
    requires Explained([FIRST_WRITE, SECOND_WRITE], [0, 0, 0], [0, 0, 0], x)
    ensures x != [1, 0, 2]
  {
    var ops := [FIRST_WRITE, SECOND_WRITE];
    assert ops[..1] == [FIRST_WRITE];
    if Explained([FIRST_WRITE], [0, 0, 0], [0, 0, 0], x) {
      ExplainedByFirst(x);
    } else {
      var y :| Explained([FIRST_WRITE], [0, 0, 0], [0, 0, 0], y) && x == Splice(y, 2, [2]);
      ExplainedByFirst(y);
      assert x[1] == y[1] && x[0] == y[0];
    }
  }

  /** Without the guard a torn write surfaces: a write killed after its first byte and a
      completed write after it, with no load in between, leave a valid pair whose contents
      no choice of whole writes explains. */
  lemma TornWriteSurfaces(c: Config) returns (states: seq<Files>)
    requires c.Distinct() && c.Usable() && c.size == 3
    ensures |states| == 3 && states[0] == Blank(c)
    ensures PrimaryValid(c, states[0]) && BackupValid(c, states[0])
    ensures Run(c, [FIRST_WRITE, SECOND_WRITE], states, false)
    ensures LoadResult(c, states[2]) == Some([1, 0, 2])
    ensures !Explained([FIRST_WRITE, SECOND_WRITE], [0, 0, 0], [0, 0, 0], [1, 0, 2])
  {
    var torn, t := TornThenWritten(c);
    states := [Blank(c), torn, t];

    if Explained([FIRST_WRITE, SECOND_WRITE], [0, 0, 0], [0, 0, 0], [1, 0, 2]) {
      ExplainedByBoth([1, 0, 2]);
    }
  }

  lemma TornThenWritten(c: Config) returns (torn: Files, t: Files)
    requires c.Distinct() && c.Usable() && c.size == 3
    ensures PrimaryValid(c, Blank(c)) && BackupValid(c, Blank(c))
    ensures WriteStops(c, Blank(c), 0, [1, 1], torn)
    ensures WriteStops(c, torn, 2, [2], t)
    ensures LoadResult(c, t) == Some([1, 0, 2])
  {
    torn := TornBlank(c);
    t := Stored(c, torn, 2, [2]);
    StoredState(c, torn, 2, [2]);
    StoredStops(c, torn, 2, [2]);
    assert Splice([1, 0, 0], 2, [2]) == [1, 0, 2];
  }

  lemma TornBlank(c: Config) returns (torn: Files)
    requires c.Distinct() && c.Usable() && c.size == 3
    ensures PrimaryValid(c, Blank(c)) && BackupValid(c, Blank(c))
    ensures WriteStops(c, Blank(c), 0, [1, 1], torn)
    ensures c.path in torn && torn[c.path] == [1, 0, 0]
  {
    var s := Blank(c);
    torn := Written(s, c.path, 0, [1]);
    assert Splice([0, 0, 0], 0, [1]) == [1, 0, 0];
    assert [1, 1][..1] == [1];
    assert PartialWrite(s, c.path, 0, [1, 1], torn);
  }

  /** Completion is one of the stops. */
  lemma StoredStops(c: Config, s: Files, at: nat, d: seq<byte>)
    requires c.Distinct() && c.Usable() && Sized(c, s, c.path)
    requires d != [] && at + |d| <= c.size
    ensures WriteStops(c, s, at, d, Stored(c, s, at, d))
  {
    var s1 := Spliced(c, s, at, d);
    var digest := c.HexDigest(s1[c.path]);
    assert digest[..|digest|] == digest;
    PrefixIsPartial(Unlinked(s1, c.md5Path, false), c.md5Path, 0, digest, |digest|);
  }
}
