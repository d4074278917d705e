/** The firmware uploader of samsung-ipc/devices/herolte and its table of contents.  The
    driver is assumed to store the payload of each boot call at its memory offset. */
module Upload {
  import opened Bytes
  import opened CStrings
  import opened Flash

  const N_TOC_ENTRIES := 16
  const NAME_SIZE := 12
  const MAX_CHUNK_LEN := 62 * 1024

  type uint32 = x: nat | x < 0x1_0000_0000

  type Name = s: seq<byte> | |s| == NAME_SIZE witness seq(NAME_SIZE, _ => 0)

  datatype TocEntry = TocEntry(name: Name, offset: uint32, loadaddr: uint32, size: uint32)

  /** `strncmp` of the twelve-byte name field with a C string. */
  predicate Named(e: TocEntry, name: CString) {
    StrnEqual(Strndup(e.name), name, NAME_SIZE)
  }

  /** An entry has a name if its field holds it up to a NUL, or fills with its beginning. */
  lemma NamedIff(e: TocEntry, name: CString)
    ensures Named(e, name) <==>
              if |name| < 12 then e.name[..|name|] == name && e.name[|name|] == 0
              else e.name == name[..12]
  {
    StrndupPrefix(e.name);
    var s := Strndup(e.name);
    assert s[..|s|] == s && name[..|name|] == name;
    if |name| < 12 {
      if e.name[..|name|] == name && e.name[|name|] == 0 {
        StrndupStops(name, e.name[|name| + 1..]);
        assert name + [0] + e.name[|name| + 1..] == e.name;
      } else if s == name {
        StrndupEnds(e.name);
      }
    } else if e.name == name[..12] {
      StrndupWhole(name[..12]);
    }
  }

  /** Entry `i` is before the first entry with an empty name. */
  ghost predicate Listed(toc: seq<TocEntry>, i: nat) {
    i < |toc| && forall k | 0 <= k <= i :: toc[k].name[0] != 0
  }

  /** The first listed entry with the name, or none if no listed entry has it. */
  ghost predicate Found(toc: seq<TocEntry>, name: CString, index: Option<nat>) {
    match index
    case Some(i) =>
      && Listed(toc, i) && Named(toc[i], name)
      && forall k | 0 <= k < i :: !Named(toc[k], name)
    case None => forall k | 0 <= k < |toc| :: Listed(toc, k) ==> !Named(toc[k], name)
  }

  /** `find_toc_entry`. */
  method FindTocEntry(name: CString, toc: seq<TocEntry>) returns (index: Option<nat>)
    requires |toc| == N_TOC_ENTRIES
    ensures Found(toc, name, index)
    ensures index.Some? ==>
              && index.value < 16 && Named(toc[index.value], name)
              && forall k | 0 <= k <= index.value ::
                   toc[k].name[0] != 0 && (k < index.value ==> !Named(toc[k], name))
    ensures index.None? ==>
              forall k | 0 <= k < 16 && Named(toc[k], name) ::
                exists j | 0 <= j <= k :: toc[j].name[0] == 0
  {
    var i := 0;
    while i < N_TOC_ENTRIES
      invariant i <= N_TOC_ENTRIES
      invariant forall k | 0 <= k < i :: toc[k].name[0] != 0 && !Named(toc[k], name)
    {
      if toc[i].name[0] == 0 {
        break;
      }
      if Named(toc[i], name) {
        return Some(i);
      }
      i := i + 1;
    }
    return None;
  }

  // ---------------------------------------------------------------- the upload

  /** One `IOCTL_DPRAM_SEND_BOOT`. */
  datatype BootCall = BootCall(mOffset: uint32, data: seq<byte>)

  class BootDevice {
    var faults: bool
    var calls: seq<BootCall>

    constructor (faults: bool)
      ensures this.faults == faults && calls == []
    {
      this.faults, calls := faults, [];
    }

    method Ioctl(call: BootCall) returns (rc: int)
      modifies `calls
      ensures rc == 0 || rc == -1
      ensures calls == if rc == 0 then old(calls) + [call] else old(calls)
      ensures !faults ==> rc == 0
    {
      var broken: bool := *;
      if faults && broken {
        rc := -1;
      } else {
        rc := 0;
        calls := calls + [call];
      }
    }
  }

  function Stored(mem: map<nat, byte>, calls: seq<BootCall>): map<nat, byte> {
    if calls == [] then mem
    else
      var last := calls[|calls| - 1];
      Blit(Stored(mem, calls[..|calls| - 1]), last.mOffset, last.data)
  }

  /** What a caller finds in memory after `calls`: `d` at `at`, and the rest as before. */
  ghost predicate Loads(calls: seq<BootCall>, at: nat, d: seq<byte>) {
    forall mem: map<nat, byte> :: Stored(mem, calls) == Blit(mem, at, d)
  }

  lemma LoadsNothing(at: nat)
    ensures Loads([], at, [])
  {
  }

  lemma LoadsMore(calls: seq<BootCall>, at: nat, d: seq<byte>, next: BootCall)
    requires Loads(calls, at, d) && next.mOffset == at + |d|
    ensures Loads(calls + [next], at, d + next.data)
  {
    forall mem: map<nat, byte>
      ensures Stored(mem, calls + [next]) == Blit(mem, at, d + next.data)
    {
      assert (calls + [next])[..|calls|] == calls;
      assert Stored(mem, calls) == Blit(mem, at, d);
      BlitAdjacent(mem, at, d, next.data);
    }
  }

  /** Where the blob of `e` goes, relative to the boot entry, in 32 bits. */
  function Target(e: TocEntry, boot: TocEntry): uint32 {
    (e.loadaddr - boot.loadaddr) % 0x1_0000_0000
  }

  /** `n` bytes of the firmware from `offset` on, of which there must be as many. */
  function Blob(firmware: seq<byte>, offset: nat, n: nat): seq<byte>
    requires n > 0 ==> offset + n <= |firmware|
  {
    if n == 0 then [] else firmware[offset..offset + n]
  }

  /** The driver's offset counts from the boot entry, both in 32 bits. */
  lemma TargetAgrees(e: TocEntry, boot: TocEntry)
    ensures (boot.loadaddr + Target(e, boot)) % 0x1_0000_0000 == e.loadaddr
  {
  }

  /** Call `i` of an upload: 62 KiB of the blob, or what is left of it, at the offset that
      many bytes behind the target, in 32 bits. */
  predicate ChunkCall(firmware: seq<byte>, offset: nat, size: nat, start: nat, i: nat,
                      call: BootCall)
  {
    var done := 63488 * i;
    var end := if done + 63488 < size then done + 63488 else size;
    && done < size && offset + end <= |firmware|
    && call.mOffset == (start + done) % 0x1_0000_0000
    && call.data == firmware[offset + done..offset + end]
  }

  /** The calls of an upload up to `stored` bytes. */
  ghost predicate Chunks(firmware: seq<byte>, offset: nat, size: nat, start: nat,
                         sent: seq<BootCall>, stored: nat)
  {
    && stored == (if 63488 * |sent| < size then 63488 * |sent| else size)
    && forall i | 0 <= i < |sent| :: ChunkCall(firmware, offset, size, start, i, sent[i])
  }

  lemma ChunksGrow(firmware: seq<byte>, offset: nat, size: nat, start: nat,
                   sent: seq<BootCall>, stored: nat, call: BootCall)
    requires Chunks(firmware, offset, size, start, sent, stored) && stored < size
    requires ChunkCall(firmware, offset, size, start, |sent|, call)
    ensures Chunks(firmware, offset, size, start, sent + [call], stored + |call.data|)
  {
  }

  /** `upload_chunk`, with reads that deliver what they are asked for as far as the firmware
      goes; `None` means that it never returns.  The chunks tile the blob: `stored` bytes of
      it are in memory from its target on and nothing else changed, as long as that window
      does not wrap around 32 bits; on success it is the whole blob.  Without a boot entry
      the other one is not looked for. */
  method UploadChunk(device: BootDevice, firmware: seq<byte>, toc: seq<TocEntry>, name: CString,
                     boot: CString)
    returns (rc: Option<int>, ghost entry: Option<nat>, ghost bootEntry: Option<nat>,
             ghost sent: seq<BootCall>, ghost stored: nat)
    requires |toc| == N_TOC_ENTRIES
    modifies device`calls
    ensures rc in {None, Some(0), Some(-1)}
    ensures device.calls == old(device.calls) + sent
    ensures Found(toc, boot, bootEntry)
    ensures if bootEntry.Some? then Found(toc, name, entry) else entry.None?
    ensures entry.None? ==> rc == Some(-1) && sent == []
    ensures entry.Some? ==>
              var e := toc[entry.value];
              var at := Target(e, toc[bootEntry.value]);
              && stored <= e.size && (stored > 0 ==> e.offset + stored <= |firmware|)
              && Chunks(firmware, e.offset, e.size, at, sent, stored)
              && (at + e.size <= 0x1_0000_0000 ==>
                    Loads(sent, at, Blob(firmware, e.offset, stored)))
              && (rc == Some(0) ==> stored == e.size)
              && (rc == None ==> e.size > 0 && e.offset + e.size > |firmware|)
              && (!device.faults ==>
                    rc == if e.size > 0 && e.offset + e.size > |firmware| then None else Some(0))
  {
    sent, entry, stored := [], None, 0;
    var bootIndex := FindTocEntry(boot, toc);
    bootEntry := bootIndex;
    if bootIndex.None? {
      rc := Some(-1);
      return;
    }
    var index := FindTocEntry(name, toc);
    entry := index;
    if index.None? {
      rc := Some(-1);
      return;
    }
    var e := toc[index.value];
    ghost var at := Target(e, toc[bootIndex.value]);
    rc, sent, stored := SendBlob(device, firmware, e.offset, e.size,
                                 Target(e, toc[bootIndex.value]));
    if at + e.size <= 0x1_0000_0000 {
      ChunksLoad(firmware, e.offset, e.size, at, sent, stored);
    }
  }

  /** The chunk loop of `upload_chunk`; `position` is the read position in the blob.  At the
      end of the file the loop of `data_read` gets 0 bytes again and again. */
  method SendBlob(device: BootDevice, firmware: seq<byte>, offset: nat, size: nat, start: uint32)
    returns (rc: Option<int>, ghost sent: seq<BootCall>, ghost stored: nat)
    modifies device`calls
    ensures rc in {None, Some(0), Some(-1)}
    ensures device.calls == old(device.calls) + sent
    ensures stored <= size && (stored > 0 ==> offset + stored <= |firmware|)
    ensures Chunks(firmware, offset, size, start, sent, stored)
    ensures rc == Some(0) ==> stored == size
    ensures rc == None ==> size > 0 && offset + size > |firmware|
    ensures !device.faults ==>
              rc == if size > 0 && offset + size > |firmware| then None else Some(0)
  {
    sent, stored := [], 0;
    ghost var before := device.calls;
    var mOffset: uint32 := start;
    var position: nat, remaining: nat := 0, size;
    while remaining > 0
      invariant position + remaining == size && stored == position
      invariant position > 0 ==> offset + position <= |firmware|
      invariant Chunks(firmware, offset, size, start, sent, position)
      invariant mOffset == (start + position) % 0x1_0000_0000
      invariant device.calls == before + sent
    {
      var len := Min(remaining, MAX_CHUNK_LEN);
      if offset + position + len > |firmware| {
        return None, sent, stored;
      }
      var done;
      done, sent := SendChunk(device, firmware, offset, size, start, position, mOffset, before, sent);
      if done == -1 {
        return Some(-1), sent, stored;
      }
      mOffset := (mOffset + len) % 0x1_0000_0000;
      position := position + len;
      remaining := remaining - len;
      stored := position;
    }
    rc := Some(0);
  }

  /** One pass of the loop; `sent` are the calls before it. */
  method SendChunk(device: BootDevice, firmware: seq<byte>, offset: nat, size: nat, ghost start: nat,
                   position: nat, mOffset: uint32, ghost before: seq<BootCall>,
                   ghost sent: seq<BootCall>)
    returns (rc: int, ghost now: seq<BootCall>)
    requires position < size && offset + position + Min(size - position, 63488) <= |firmware|
    requires Chunks(firmware, offset, size, start, sent, position)
    requires mOffset == (start + position) % 0x1_0000_0000 && device.calls == before + sent
    modifies device`calls
    ensures rc == 0 || rc == -1
    ensures device.calls == before + now
    ensures if rc == -1 then now == sent
            else Chunks(firmware, offset, size, start, now, position + Min(size - position, 63488))
    ensures !device.faults ==> rc == 0
  {
    var len := Min(size - position, MAX_CHUNK_LEN);
    var call := BootCall(mOffset, firmware[offset + position..offset + position + len]);
    rc := device.Ioctl(call);
    now := sent;
    if rc == 0 {
      ChunksGrow(firmware, offset, size, start, sent, position, call);
      now := sent + [call];
    }
  }

  /** Without a wrap around 32 bits the chunks tile the blob. */
  lemma {:induction false} ChunksLoad(firmware: seq<byte>, offset: nat, size: nat, start: nat,
                                      sent: seq<BootCall>, stored: nat)
    requires Chunks(firmware, offset, size, start, sent, stored)
    requires start + size <= 0x1_0000_0000 && (stored > 0 ==> offset + stored <= |firmware|)
    ensures Loads(sent, start, Blob(firmware, offset, stored))
    decreases |sent|
  {
    if sent == [] {
      LoadsNothing(start);
    } else {
      var n := |sent| - 1;
      var before := LastChunk(firmware, offset, size, start, sent, stored);
      ChunksLoad(firmware, offset, size, start, sent[..n], before);
      BlobGrows(sent[..n], start, firmware, offset, before, sent[n]);
      assert sent[..n] + [sent[n]] == sent;
    }
  }

  lemma LastChunk(firmware: seq<byte>, offset: nat, size: nat, start: nat,
                  sent: seq<BootCall>, stored: nat)
    returns (before: nat)
    requires Chunks(firmware, offset, size, start, sent, stored) && sent != []
    ensures var n, call := |sent| - 1, sent[|sent| - 1];
            && Chunks(firmware, offset, size, start, sent[..n], before)
            && before < stored == before + |call.data| <= size && offset + stored <= |firmware|
            && call.mOffset == (start + before) % 0x1_0000_0000
            && call.data == firmware[offset + before..offset + stored]
  {
    var n := |sent| - 1;
    before := 63488 * n;
    assert ChunkCall(firmware, offset, size, start, n, sent[n]);
  }

  lemma BlobGrows(sent: seq<BootCall>, start: nat, firmware: seq<byte>, offset: nat, n: nat,
                  call: BootCall)
    requires n > 0 ==> offset + n <= |firmware|
    requires Loads(sent, start, Blob(firmware, offset, n)) && call.mOffset == start + n
    requires call.data != [] && offset + n + |call.data| <= |firmware|
    requires call.data == firmware[offset + n..offset + n + |call.data|]
    ensures Loads(sent + [call], start, Blob(firmware, offset, n + |call.data|))
  {
    LoadsMore(sent, start, Blob(firmware, offset, n), call);
    Adjacent(firmware, offset, n, |call.data|);
  }

  lemma Adjacent(s: seq<byte>, i: nat, n: nat, m: nat)
    requires i + n + m <= |s|
    ensures s[i..i + n] + s[i + n..i + n + m] == s[i..i + (n + m)]
    ensures [] + s[i + n..i + n + m] == s[i + n..i + n + m]
  {
  }
}
