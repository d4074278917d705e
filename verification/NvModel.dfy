/** What the operations of samsung-ipc/rfs.c do to the file system, as functions and
    relations on its contents: the final state of a run in which no call fails, and the
    set of states in which any run can stop. */
module NvModel {
  import opened Bytes
  import opened CStrings
  import opened HexCodec
  import opened Storage

  type Digest = d: seq<byte> | |d| == 16 witness seq(16, _ => 0)

  const MD5_DIGEST_LENGTH_ASCII := 32

  /** The client's nv_data table; `md5` stands for the digest of the crypto library. */
  datatype Config = Config(
    path: Path, md5Path: Path, backupPath: Path, backupMd5Path: Path,
    secret: CString, size: nat, chunkSize: nat, md5: seq<byte> -> Digest)
  {
    ghost predicate Distinct() {
      && path != md5Path && path != backupPath && path != backupMd5Path
      && md5Path != backupPath && md5Path != backupMd5Path && backupPath != backupMd5Path
    }

    /** The sizes with which the chunked transfers accept to work. */
    predicate Usable() {
      0 < chunkSize <= size
    }

    function HexDigest(data: seq<byte>): (s: CString)
      ensures |s| == MD5_DIGEST_LENGTH_ASCII
    {
      Hex(md5(data + secret))
    }
  }

  // ---------------------------------------------------------------- valid pairs

  ghost predicate Sized(c: Config, s: Files, p: Path) {
    p in s && |s[p]| == c.size
  }

  ghost predicate PairValid(c: Config, s: Files, p: Path, m: Path) {
    Sized(c, s, p) && m in s && s[m] == c.HexDigest(s[p])
  }

  /** The digest file of a valid pair spells, in lower-case hex, the digest of the whole data
      file with the secret behind it. */
  lemma PairSpellsDigest(c: Config, s: Files, p: Path, m: Path)
    requires p in s && m in s && |s[p]| == c.size
    ensures PairValid(c, s, p, m) <==>
              && |s[m]| == 32
              && var digest := c.md5(s[p] + c.secret);
                 forall k | 0 <= k < 16 ::
                   && s[m][2 * k] as char == "0123456789abcdef"[digest[k] as nat / 16]
                   && s[m][2 * k + 1] as char == "0123456789abcdef"[digest[k] as nat % 16]
    ensures PairValid(c, s, p, m) ==>
              AllNonNul(s[m]) && Unhex(s[m]) == c.md5(s[p] + c.secret)
  {
    var digest := c.md5(s[p] + c.secret);
    UnhexHex(digest);
    if PairValid(c, s, p, m) {
      forall k | 0 <= k < 16
        ensures s[m][2 * k] as char == "0123456789abcdef"[digest[k] as nat / 16]
        ensures s[m][2 * k + 1] as char == "0123456789abcdef"[digest[k] as nat % 16]
      {
        HexSpells(digest, k);
      }
    } else if |s[m]| == 32 && forall k | 0 <= k < 16 ::
                && s[m][2 * k] as char == "0123456789abcdef"[digest[k] as nat / 16]
                && s[m][2 * k + 1] as char == "0123456789abcdef"[digest[k] as nat % 16] {
      forall i | 0 <= i < 32
        ensures s[m][i] == Hex(digest)[i]
      {
        HexSpells(digest, i / 2);
        assert i == 2 * (i / 2) || i == 2 * (i / 2) + 1;
      }
    }
  }

  predicate AllNonNul(b: seq<byte>) {
    forall k | 0 <= k < |b| :: b[k] != 0
  }

  ghost predicate PrimaryValid(c: Config, s: Files) {
    PairValid(c, s, c.path, c.md5Path)
  }

  ghost predicate BackupValid(c: Config, s: Files) {
    PairValid(c, s, c.backupPath, c.backupMd5Path)
  }

  ghost predicate SomeCopy(c: Config, s: Files) {
    PrimaryValid(c, s) || BackupValid(c, s)
  }

  // ---------------------------------------------------------------- rewriting files

  /** After `unlink(p)`; `kept` says that the call failed. */
  function Unlinked(s: Files, p: Path, kept: bool): Files {
    if kept then s else s - {p}
  }

  /** After `unlink(p)` and a complete write of `d`. */
  function Rewritten(s: Files, p: Path, d: seq<byte>, kept: bool): Files {
    Written(Unlinked(s, p, kept), p, 0, d)
  }

  /** `h` is a state in which unlinking and writing `p` may stop. */
  ghost predicate Rewriting(s: Files, p: Path, d: seq<byte>, kept: bool, h: Files) {
    h == s || PartialWrite(Unlinked(s, p, kept), p, 0, d, h)
  }

  /** The same for a data file `p` and then its digest file `m`. */
  function RewrittenPair(s: Files, p: Path, d: seq<byte>, m: Path, e: seq<byte>,
                         kept1: bool, kept2: bool): Files
  {
    Rewritten(Rewritten(s, p, d, kept1), m, e, kept2)
  }

  ghost predicate RewritingPair(s: Files, p: Path, d: seq<byte>, m: Path, e: seq<byte>,
                                kept1: bool, kept2: bool, h: Files)
  {
    || Rewriting(s, p, d, kept1, h)
    || Rewriting(Rewritten(s, p, d, kept1), m, e, kept2, h)
  }

  /** Rewriting a pair touches no third file. */
  lemma RewritingFrame(s: Files, p: Path, d: seq<byte>, m: Path, e: seq<byte>,
                       kept1: bool, kept2: bool, h: Files, q: Path)
    requires RewritingPair(s, p, d, m, e, kept1, kept2, h) && q != p && q != m
    ensures (q in h <==> q in s) && Content(h, q) == Content(s, q)
  {
    if !Rewriting(s, p, d, kept1, h) {
      RewritingOneFrame(Rewritten(s, p, d, kept1), m, e, kept2, h, q);
    } else {
      RewritingOneFrame(s, p, d, kept1, h, q);
    }
  }

  lemma RewritingOneFrame(s: Files, p: Path, d: seq<byte>, kept: bool, h: Files, q: Path)
    requires Rewriting(s, p, d, kept, h) && q != p
    ensures (q in h <==> q in s) && Content(h, q) == Content(s, q)
  {
  }

  lemma FirstOfPair(s: Files, p: Path, d: seq<byte>, m: Path, e: seq<byte>, kept1: bool)
    ensures forall h | Rewriting(s, p, d, kept1, h) :: RewritingPair(s, p, d, m, e, kept1, kept1, h)
  {
  }

  lemma SecondOfPair(s: Files, p: Path, d: seq<byte>, m: Path, e: seq<byte>,
                     kept1: bool, kept2: bool)
    ensures forall h | Rewriting(Rewritten(s, p, d, kept1), m, e, kept2, h) ::
              RewritingPair(s, p, d, m, e, kept1, kept2, h)
  {
  }

  // ---------------------------------------------------------------- the operations

  function BackedUp(c: Config, s: Files, kept1: bool, kept2: bool): Files {
    var data := Content(s, c.path);
    RewrittenPair(s, c.backupPath, data, c.backupMd5Path, c.HexDigest(data), kept1, kept2)
  }

  function Restored(c: Config, s: Files, kept1: bool, kept2: bool): Files {
    RewrittenPair(s, c.path, Content(s, c.backupPath),
                  c.md5Path, Content(s, c.backupMd5Path), kept1, kept2)
  }

  function Spliced(c: Config, s: Files, at: nat, d: seq<byte>): Files {
    Written(s, c.path, at, d)
  }

  function Stored(c: Config, s: Files, at: nat, d: seq<byte>): Files {
    var s1 := Spliced(c, s, at, d);
    Rewritten(s1, c.md5Path, c.HexDigest(Content(s1, c.path)), false)
  }

  ghost function LoadResult(c: Config, s: Files): Option<seq<byte>> {
    if PrimaryValid(c, s) then Some(s[c.path])
    else if BackupValid(c, s) then Some(s[c.backupPath])
    else None
  }

  ghost function LoadState(c: Config, s: Files): Files {
    if !SomeCopy(c, s) then s
    else
      var s1 := if PrimaryValid(c, s) then s else Restored(c, s, false, false);
      if Sized(c, s1, c.backupPath) then s1 else BackedUp(c, s1, false, false)
  }

  // ---------------------------------------------------------------- where they can stop

  /** States in which `ipc_nv_data_backup` may stop or end.  A kept file needs a failing
      call; without `faults` only the moment of the stop is open. */
  ghost predicate BackupStops(c: Config, s: Files, faults: bool, h: Files) {
    || h == s
    || (c.Usable() && Sized(c, s, c.path)
        && exists kept1, kept2 :: (kept1 || kept2 ==> faults)
             && var data := s[c.path];
                RewritingPair(s, c.backupPath, data, c.backupMd5Path, c.HexDigest(data),
                              kept1, kept2, h))
  }

  ghost predicate RestoreStops(c: Config, s: Files, faults: bool, h: Files) {
    || h == s
    || (c.Usable() && BackupValid(c, s)
        && exists kept1, kept2 :: (kept1 || kept2 ==> faults)
             && RewritingPair(s, c.path, s[c.backupPath], c.md5Path, s[c.backupMd5Path],
                              kept1, kept2, h))
  }

  /** The second half of `ipc_nv_data_load`, entered only with a valid primary pair. */
  ghost predicate HealStops(c: Config, s: Files, faults: bool, h: Files) {
    && PrimaryValid(c, s)
    && (Sized(c, s, c.backupPath) ==> faults)
    && BackupStops(c, s, faults, h)
  }

  ghost predicate LoadStops(c: Config, s: Files, faults: bool, h: Files) {
    || h == s
    || ((PrimaryValid(c, s) ==> faults) && RestoreStops(c, s, faults, h))
    || HealStops(c, s, faults, h)
    || (BackupValid(c, s)
        && exists kept1, kept2 :: (kept1 || kept2 ==> faults)
             && HealStops(c, Restored(c, s, kept1, kept2), faults, h))
  }

  ghost predicate WriteStops(c: Config, s: Files, at: nat, d: seq<byte>, h: Files) {
    || h == s
    || (Sized(c, s, c.path)
        && (|| PartialWrite(s, c.path, at, d, h)
            || var s1 := Spliced(c, s, at, d);
               && d != [] && Sized(c, s1, c.path)
               && Rewriting(s1, c.md5Path, c.HexDigest(s1[c.path]), false, h)))
  }

  // ---------------------------------------------------------------- steps of a load

  /** With every old file unlinked, restoring yields a valid primary pair and leaves the
      backup pair as it was. */
  lemma RestoredPrimaryValid(c: Config, s: Files)
    requires c.Distinct() && c.size > 0 && BackupValid(c, s)
    ensures var s1 := Restored(c, s, false, false);
            && PrimaryValid(c, s1) && s1[c.path] == s[c.backupPath]
            && BackupValid(c, s1)
  {
    SpliceWhole([], s[c.backupPath]);
    SpliceWhole([], s[c.backupMd5Path]);
  }

  /** A backup never touches the primary pair. */
  lemma BackupKeepsPrimary(c: Config, s: Files, faults: bool, h: Files)
    requires c.Distinct() && BackupStops(c, s, faults, h)
    ensures PrimaryValid(c, s) ==>
              PrimaryValid(c, h) && h[c.path] == s[c.path] && h[c.md5Path] == s[c.md5Path]
  {
    if h != s {
      var d := s[c.path];
      var kept1, kept2 :| RewritingPair(s, c.backupPath, d, c.backupMd5Path, c.HexDigest(d),
                                        kept1, kept2, h);
      forall q | q == c.path || q == c.md5Path
        ensures (q in h <==> q in s) && Content(h, q) == Content(s, q)
      {
        RewritingFrame(s, c.backupPath, d, c.backupMd5Path, c.HexDigest(d), kept1, kept2, h, q);
      }
    }
  }

  /** So no stop of the backup renewal does. */
  lemma HealKeepsPrimary(c: Config, s: Files, faults: bool, h: Files)
    requires c.Distinct() && PrimaryValid(c, s)
    requires h == s || HealStops(c, s, faults, h)
    ensures PrimaryValid(c, h) && h[c.path] == s[c.path] && h[c.md5Path] == s[c.md5Path]
  {
    if h != s {
      BackupKeepsPrimary(c, s, faults, h);
    }
  }
}
