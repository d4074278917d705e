/** The senders of samsung-ipc/modems/xmm626: they cut images into commands and write one
    packet a command. */
module FlashLoader {
  import opened Bytes
  import opened Flash
  import opened NvModel
  import opened NvStore

  /** The boot device: each write is one packet, and a short write leaves a packet that is
      cut short; acknowledgements come from the modem and may be missing or wrong. */
  class BootDevice {
    var faults: bool
    var packets: seq<seq<byte>>
    ghost var awaited: seq<ushort>    // the commands whose acknowledgement was read

    constructor (faults: bool)
      ensures this.faults == faults && packets == [] && awaited == []
    {
      this.faults, packets, awaited := faults, [], [];
    }

    method Write(p: seq<byte>) returns (rc: int, ghost sent: seq<seq<byte>>)
      requires p != []
      modifies `packets
      ensures -1 <= rc <= |p|
      ensures packets == old(packets) + sent && CutOff(sent, [p])
      ensures rc == |p| <==> sent == [p]
      ensures !faults ==> rc == |p|
    {
      var broken: bool := *;
      if faults && broken {
        rc :| -1 <= rc <= |p| by { assert -1 <= 0 <= |p|; }
      } else {
        rc := |p|;
      }
      ShortWrite(p, rc);
      assert p[..|p|] == p;
      sent := if rc > 0 then [p[..rc]] else [];
      packets := packets + if rc > 0 then [p[..rc]] else [];
    }

    /** Waiting for the reply to `code` and comparing it. */
    method AckRead(code: ushort) returns (ok: bool)
      modifies `awaited
      ensures awaited == old(awaited) + [code]
      ensures !faults ==> ok
    {
      awaited := awaited + [code];
      var broken: bool := *;
      ok := !(faults && broken);
    }
  }

  /** The beginnings that `write` can leave of a single packet. */
  lemma ShortWrite(p: seq<byte>, rc: int)
    requires -1 <= rc <= |p|
    ensures CutOff(if rc > 0 then [p[..rc]] else [], [p])
  {
  }

  // ---------------------------------------------------------------- HSIC

  /** `xmm626_hsic_command_send`.  The loop counter of the checksum is a C `int`. */
  method HsicCommandSend(device: BootDevice, code: ushort, data: seq<byte>,
                         commandDataSize: nat, ack: bool)
    returns (rc: int, ghost sent: seq<seq<byte>>)
    requires |data| < 0x8000_0000
    modifies device`packets, device`awaited
    ensures rc == 0 || rc == -1
    ensures device.packets == old(device.packets) + sent
    ensures if |data| <= commandDataSize
            then CutOff(sent, [HsicPacket(Command(code, data), commandDataSize)])
            else sent == []
    ensures rc == 0 ==>
              && 0 < |data| <= commandDataSize
              && sent == [HsicPacket(Command(code, data), commandDataSize)]
    ensures if ack then rc == 0 ==> device.awaited == old(device.awaited) + [code]
            else device.awaited == old(device.awaited)
    ensures !ack && |data| <= commandDataSize ==>
              (sent == [HsicPacket(Command(code, data), commandDataSize)] ==> rc == 0)
    ensures !device.faults ==> (rc == 0 <==> 0 < |data| <= commandDataSize)
  {
    sent := [];
    if |data| == 0 || commandDataSize == 0 || commandDataSize < |data| {
      rc := -1;
      return;
    }
    var checksum := ChecksumLoop(code, data);
    var header := U16(checksum) + U16(code) + U32(|data|);
    var length := commandDataSize + HSIC_HEADER_SIZE;
    var buffer := new byte[length](_ => 0);
    forall k | 0 <= k < HSIC_HEADER_SIZE {
      buffer[k] := header[k];
    }
    forall k | 0 <= k < |data| {
      buffer[HSIC_HEADER_SIZE + k] := data[k];
    }
    assert buffer[..] == HsicPacket(Command(code, data), commandDataSize);
    rc, sent := device.Write(buffer[..]);
    if rc < length {
      rc := -1;
      return;
    }
    rc := 0;
    if !ack {
      return;
    }
    var ok := device.AckRead(code);
    rc := if ok then 0 else -1;
  }

  /** `xmm626_hsic_modem_data_send`: what is written is the beginning of the packet stream of
      the image, its last packet possibly cut short, and all of it on success. */
  method HsicModemDataSend(device: BootDevice, data: seq<byte>, address: int)
    returns (rc: int, ghost sent: seq<seq<byte>>)
    modifies device`packets, device`awaited
    ensures rc == 0 || rc == -1
    ensures device.packets == old(device.packets) + sent
    ensures CutOff(sent, HsicStream(address, data))
    ensures rc == 0 ==> data != [] && sent == HsicStream(address, data)
    ensures rc == 0 ==> device.awaited == old(device.awaited) + [0x802]
    ensures !device.faults ==> (rc == 0 <==> data != [])
  {
    sent := [];
    if |data| == 0 {
      rc := -1;
      return;
    }
    ghost var before, stream := device.packets, HsicStream(address, data);
    rc, sent := HsicAddressSend(device, data, address);
    if rc < 0 {
      return;
    }
    rc, sent := HsicBlocksSend(device, data, before, sent, stream);
  }

  /** The set-address command, which is the first packet of the stream. */
  method HsicAddressSend(device: BootDevice, ghost data: seq<byte>, address: int)
    returns (rc: int, ghost sent: seq<seq<byte>>)
    modifies device`packets, device`awaited
    ensures rc == 0 || rc == -1
    ensures device.packets == old(device.packets) + sent
    ensures CutOff(sent, HsicStream(address, data))
    ensures rc == 0 ==> HsicStream(address, data) == sent + HsicBlocks(data)
    ensures rc == 0 ==> device.awaited == old(device.awaited) + [FLASH_SET_ADDRESS]
    ensures !device.faults ==> rc == 0
  {
    HsicStreamUnfolds(address, data);
    rc, sent := HsicCommandSend(device, FLASH_SET_ADDRESS, U32(AddressWord(address)),
                               HSIC_COMMAND_DATA_SIZE, true);
    CutOffEarly(sent, HsicStream(address, data));
  }

  /** The chunk loop of `xmm626_hsic_modem_data_send`: of `stream`, `done` has gone out. */
  method HsicBlocksSend(device: BootDevice, data: seq<byte>, ghost before: seq<seq<byte>>,
                        ghost done: seq<seq<byte>>, ghost stream: seq<seq<byte>>)
    returns (rc: int, ghost sent: seq<seq<byte>>)
    requires device.packets == before + done && stream == done + HsicBlocks(data)
    modifies device`packets, device`awaited
    ensures rc == 0 || rc == -1
    ensures device.packets == before + sent
    ensures CutOff(sent, stream)
    ensures rc == 0 ==> sent == stream
    ensures device.awaited == old(device.awaited)
    ensures !device.faults ==> rc == 0
  {
    sent := done;
    var p := data;
    var c := 0;
    while c < |data|
      invariant c + |p| == |data|
      invariant device.packets == before + sent
      invariant device.awaited == old(device.awaited)
      invariant stream == sent + HsicBlocks(p)
    {
      var count := Min(HSIC_CHUNK, |data| - c);
      rc, sent := HsicBlockSend(device, p, count, before, sent, stream);
      if rc < 0 {
        return;
      }
      p := p[count..];
      c := c + count;
    }
    rc := 0;
    assert sent + [] == sent;
  }

  /** One pass of the loop: the first block of what is left. */
  method HsicBlockSend(device: BootDevice, p: seq<byte>, count: nat,
                       ghost before: seq<seq<byte>>, ghost done: seq<seq<byte>>,
                       ghost stream: seq<seq<byte>>)
    returns (rc: int, ghost sent: seq<seq<byte>>)
    requires 0 < count == Min(HSIC_CHUNK, |p|)
    requires device.packets == before + done && stream == done + HsicBlocks(p)
    modifies device`packets, device`awaited
    ensures rc == 0 || rc == -1
    ensures device.packets == before + sent
    ensures CutOff(sent, stream)
    ensures rc == 0 ==> stream == sent + HsicBlocks(p[count..])
    ensures device.awaited == old(device.awaited)
    ensures !device.faults ==> rc == 0
  {
    ghost var now;
    rc, now := HsicCommandSend(device, FLASH_WRITE_BLOCK, p[..count], HSIC_COMMAND_DATA_SIZE,
                               false);
    CutOffEarly(now, HsicBlocks(p));
    CutOffBehind(done, now, HsicBlocks(p));
    sent := done + now;
  }

  /** The packets of the blocks of `d`. */
  function HsicBlocks(d: seq<byte>): seq<seq<byte>> {
    if d == [] then []
    else
      var n := Min(HSIC_CHUNK, |d|);
      [HsicPacket(Command(FLASH_WRITE_BLOCK, d[..n]), HSIC_COMMAND_DATA_SIZE)] + HsicBlocks(d[n..])
  }

  lemma {:induction false} HsicBlocksArePackets(d: seq<byte>)
    requires forall c | c in Blocks(d, HSIC_CHUNK) :: |c.data| <= HSIC_COMMAND_DATA_SIZE
    ensures HsicBlocks(d) == HsicPackets(Blocks(d, HSIC_CHUNK))
    decreases |d|
  {
    if d != [] {
      var rest := Blocks(d[Min(HSIC_CHUNK, |d|)..], HSIC_CHUNK);
      assert Blocks(d, HSIC_CHUNK)[1..] == rest;
      HsicBlocksArePackets(d[Min(HSIC_CHUNK, |d|)..]);
    }
  }

  lemma HsicStreamUnfolds(address: int, d: seq<byte>)
    ensures var setAddress := Command(FLASH_SET_ADDRESS, U32(AddressWord(address)));
            HsicStream(address, d) == [HsicPacket(setAddress, HSIC_COMMAND_DATA_SIZE)] + HsicBlocks(d)
  {
    FlashCommandsAreSmall(address, d, HSIC_CHUNK);
    BlocksAreSmall(d, HSIC_CHUNK);
    HsicBlocksArePackets(d);
  }

  /** `xmm626_hsic_firmware_send`. */
  method HsicFirmwareSend(device: BootDevice, firmware: seq<byte>) returns (rc: int)
    modifies device`packets, device`awaited
    ensures rc == 0 || rc == -1
    ensures rc == 0 ==> firmware != []
    ensures rc == 0 ==>
              device.packets == old(device.packets) + HsicStream(FIRMWARE_ADDRESS, firmware)
    ensures !device.faults ==> (rc == 0 <==> firmware != [])
  {
    if |firmware| == 0 {
      return -1;
    }
    ghost var sent;
    rc, sent := HsicModemDataSend(device, firmware, FIRMWARE_ADDRESS);
  }

  /** `xmm626_hsic_nv_data_send`: on success the modem that replays the packets holds, in
      its nv_data window and nowhere else, the contents of a primary file that matches its
      digest. */
  method HsicNvDataSend(device: BootDevice, store: NvStore) returns (rc: int)
    requires store.c.Distinct()
    modifies device`packets, device`awaited, store.fs`files, store.fs`history, store.fs`emptyWrites
    ensures rc == 0 || rc == -1
    ensures rc == 0 ==> PrimaryValid(store.c, store.fs.files)
    ensures rc == 0 ==>
              var image := store.fs.files[store.c.path];
              && device.packets == old(device.packets) + HsicStream(NV_DATA_ADDRESS, image)
              && forall m: Modem {:trigger HsicReplay(m, HsicStream(NV_DATA_ADDRESS, image))} ::
                   HsicReplay(m, HsicStream(NV_DATA_ADDRESS, image))
                   == Modem(NV_DATA_ADDRESS + |image|, Blit(m.mem, NV_DATA_ADDRESS, image))
    ensures !device.faults && !store.fs.faults && store.c.Usable() ==>
              (rc == 0 <==> SomeCopy(store.c, old(store.fs.files)))
  {
    if store.c.size == 0 {
      return -1;
    }
    var nvData := store.Load();
    if nvData.None? {
      return -1;
    }
    ghost var sent;
    rc, sent := HsicModemDataSend(device, nvData.value, NV_DATA_ADDRESS);
    forall m: Modem
      ensures HsicReplay(m, HsicStream(NV_DATA_ADDRESS, nvData.value))
              == Modem(NV_DATA_ADDRESS + |nvData.value|,
                       Blit(m.mem, NV_DATA_ADDRESS, nvData.value))
    {
      FlashStreamsAgree(m, NV_DATA_ADDRESS, nvData.value);
    }
  }

  // ---------------------------------------------------------------- MIPI

  /** The buffer that `xmm626_mipi_command_send` builds. */
  method MipiBuffer(code: ushort, data: seq<byte>, shortFooter: bool)
    returns (buffer: array<byte>)
    ensures fresh(buffer) && buffer.Length >= MIPI_HEADER_SIZE
    ensures buffer[..] == MipiPacket(Command(code, data), shortFooter)
  {
    var header := U32(|data| + MIPI_HEADER_SIZE) + U16(MIPI_HEADER_MAGIC) + U16(code)
                  + U16(|data|);
    var checksum := ChecksumLoop(code, data);
    var footer := U16(checksum) + U16(MIPI_FOOTER_MAGIC) + U16(MIPI_FOOTER_UNKNOWN);
    var footerLength := |footer|;
    if shortFooter {
      footerLength := footerLength - 2;
    }
    var length := MIPI_HEADER_SIZE + |data| + footerLength;
    buffer := new byte[length](_ => 0);
    forall k | 0 <= k < MIPI_HEADER_SIZE {
      buffer[k] := header[k];
    }
    forall k | 0 <= k < |data| {
      buffer[MIPI_HEADER_SIZE + k] := data[k];
    }
    forall k | 0 <= k < footerLength {
      buffer[MIPI_HEADER_SIZE + |data| + k] := footer[k];
    }
    assert footer[..footerLength] == MipiFooter(Command(code, data), shortFooter);
    assert buffer[..] == header + data + footer[..footerLength];
    assert buffer[..] == MipiPacket(Command(code, data), shortFooter);
  }

  /** The send half of `xmm626_mipi_command_send`, and its reply. */
  method MipiCommandSend(device: BootDevice, code: ushort, data: seq<byte>, ack: bool,
                         shortFooter: bool)
    returns (rc: int, ghost sent: seq<seq<byte>>)
    requires |data| < 0x8000_0000 - MIPI_HEADER_SIZE
    modifies device`packets, device`awaited
    ensures rc == 0 || rc == -1
    ensures device.packets == old(device.packets) + sent
    ensures CutOff(sent, [MipiPacket(Command(code, data), shortFooter)])
    ensures rc == 0 ==> data != [] && sent == [MipiPacket(Command(code, data), shortFooter)]
    ensures if ack then rc == 0 ==> device.awaited == old(device.awaited) + [code]
            else device.awaited == old(device.awaited)
    ensures !ack && sent == [MipiPacket(Command(code, data), shortFooter)] ==> rc == 0
    ensures !device.faults ==> (rc == 0 <==> data != [])
  {
    sent := [];
    if |data| == 0 {
      rc := -1;
      return;
    }
    var buffer := MipiBuffer(code, data, shortFooter);
    rc, sent := device.Write(buffer[..]);
    if rc < buffer.Length {
      rc := -1;
      return;
    }
    rc := 0;
    if !ack {
      return;
    }
    var ok := device.AckRead(code);
    rc := if ok then 0 else -1;
  }

  /** `xmm626_mipi_modem_data_send`: what is written is the beginning of the packet stream of
      the image, its last packet possibly cut short, and all of it on success. */
  method MipiModemDataSend(device: BootDevice, data: seq<byte>, address: int)
    returns (rc: int, ghost sent: seq<seq<byte>>)
    modifies device`packets, device`awaited
    ensures rc == 0 || rc == -1
    ensures device.packets == old(device.packets) + sent
    ensures CutOff(sent, MipiStream(address, data))
    ensures rc == 0 ==> data != [] && sent == MipiStream(address, data)
    ensures rc == 0 ==> device.awaited == old(device.awaited) + MipiAcks(|sent|)
    ensures !device.faults ==> (rc == 0 <==> data != [])
  {
    sent := [];
    if |data| == 0 {
      rc := -1;
      return;
    }
    ghost var before, stream := device.packets, MipiStream(address, data);
    rc, sent := MipiAddressSend(device, data, address);
    if rc < 0 {
      return;
    }
    rc, sent := MipiBlocksSend(device, data, before, sent, stream);
  }

  /** The set-address command, which is the first packet of the stream. */
  method MipiAddressSend(device: BootDevice, ghost data: seq<byte>, address: int)
    returns (rc: int, ghost sent: seq<seq<byte>>)
    modifies device`packets, device`awaited
    ensures rc == 0 || rc == -1
    ensures device.packets == old(device.packets) + sent
    ensures CutOff(sent, MipiStream(address, data))
    ensures rc == 0 ==> MipiStream(address, data) == sent + MipiBlocks(data)
    ensures rc == 0 ==> |sent| == 1 && device.awaited == old(device.awaited) + [FLASH_SET_ADDRESS]
    ensures !device.faults ==> rc == 0
  {
    MipiStreamUnfolds(address, data);
    rc, sent := MipiCommandSend(device, FLASH_SET_ADDRESS, U32(AddressWord(address)), true,
                               false);
    CutOffEarly(sent, MipiStream(address, data));
  }

  /** The chunk loop of `xmm626_mipi_modem_data_send`: of `stream`, `done` has gone out. */
  method MipiBlocksSend(device: BootDevice, data: seq<byte>, ghost before: seq<seq<byte>>,
                        ghost done: seq<seq<byte>>, ghost stream: seq<seq<byte>>)
    returns (rc: int, ghost sent: seq<seq<byte>>)
    requires device.packets == before + done && stream == done + MipiBlocks(data)
    requires done != []
    modifies device`packets, device`awaited
    ensures rc == 0 || rc == -1
    ensures device.packets == before + sent
    ensures CutOff(sent, stream)
    ensures rc == 0 ==> sent == stream
    ensures rc == 0 ==>
              device.awaited == old(device.awaited) + MipiAcks(|sent|)[|done|..]
    ensures !device.faults ==> rc == 0
  {
    sent := done;
    var p := data;
    var c := 0;
    while c < |data|
      invariant c + |p| == |data|
      invariant device.packets == before + sent
      invariant |done| <= |sent|
      invariant device.awaited == old(device.awaited) + MipiAcks(|sent|)[|done|..]
      invariant stream == sent + MipiBlocks(p)
    {
      var count := Min(MIPI_CHUNK, |data| - c);
      MipiAcksNext(|sent|, |done|);
      rc, sent := MipiBlockSend(device, p, count, before, sent, stream);
      if rc < 0 {
        return;
      }
      p := p[count..];
      c := c + count;
    }
    rc := 0;
    assert sent + [] == sent;
  }

  /** One pass of the loop: the first block of what is left. */
  method MipiBlockSend(device: BootDevice, p: seq<byte>, count: nat,
                       ghost before: seq<seq<byte>>, ghost done: seq<seq<byte>>,
                       ghost stream: seq<seq<byte>>)
    returns (rc: int, ghost sent: seq<seq<byte>>)
    requires 0 < count == Min(MIPI_CHUNK, |p|)
    requires device.packets == before + done && stream == done + MipiBlocks(p)
    modifies device`packets, device`awaited
    ensures rc == 0 || rc == -1
    ensures device.packets == before + sent
    ensures CutOff(sent, stream)
    ensures rc == 0 ==> stream == sent + MipiBlocks(p[count..])
    ensures rc == 0 ==> |sent| == |done| + 1
    ensures rc == 0 ==> device.awaited == old(device.awaited) + [FLASH_WRITE_BLOCK]
    ensures !device.faults ==> rc == 0
  {
    ghost var now;
    rc, now := MipiCommandSend(device, FLASH_WRITE_BLOCK, p[..count], true, true);
    CutOffEarly(now, MipiBlocks(p));
    CutOffBehind(done, now, MipiBlocks(p));
    sent := done + now;
  }

  /** What is acknowledged to the first `n` packets of an image: all of them. */
  function MipiAcks(n: nat): seq<ushort> {
    seq(n, i => if i == 0 then 0x802 else 0x804)
  }

  lemma MipiAcksNext(n: nat, m: nat)
    requires 0 < n && m <= n
    ensures MipiAcks(n + 1)[m..] == MipiAcks(n)[m..] + [FLASH_WRITE_BLOCK]
  {
  }

  /** The packets of the blocks of `d`. */
  function MipiBlocks(d: seq<byte>): seq<seq<byte>> {
    if d == [] then []
    else
      var n := Min(MIPI_CHUNK, |d|);
      [MipiPacket(Command(FLASH_WRITE_BLOCK, d[..n]), true)] + MipiBlocks(d[n..])
  }

  lemma {:induction false} MipiBlocksArePackets(d: seq<byte>)
    ensures MipiBlocks(d) == MipiPackets(Blocks(d, MIPI_CHUNK))
    decreases |d|
  {
    if d != [] {
      var rest := Blocks(d[Min(MIPI_CHUNK, |d|)..], MIPI_CHUNK);
      assert Blocks(d, MIPI_CHUNK)[1..] == rest;
      MipiBlocksArePackets(d[Min(MIPI_CHUNK, |d|)..]);
    }
  }

  lemma MipiStreamUnfolds(address: int, d: seq<byte>)
    ensures var setAddress := Command(FLASH_SET_ADDRESS, U32(AddressWord(address)));
            MipiStream(address, d) == [MipiPacket(setAddress, false)] + MipiBlocks(d)
  {
    MipiBlocksArePackets(d);
  }

  /** `xmm626_mipi_firmware_send`. */
  method MipiFirmwareSend(device: BootDevice, firmware: seq<byte>) returns (rc: int)
    modifies device`packets, device`awaited
    ensures rc == 0 || rc == -1
    ensures rc == 0 ==>
              device.packets == old(device.packets) + MipiStream(FIRMWARE_ADDRESS, firmware)
    ensures !device.faults ==> (rc == 0 <==> firmware != [])
  {
    if |firmware| == 0 {
      return -1;
    }
    ghost var sent;
    rc, sent := MipiModemDataSend(device, firmware, FIRMWARE_ADDRESS);
  }

  /** `xmm626_mipi_nv_data_send`. */
  method MipiNvDataSend(device: BootDevice, store: NvStore) returns (rc: int)
    requires store.c.Distinct()
    modifies device`packets, device`awaited, store.fs`files, store.fs`history, store.fs`emptyWrites
    ensures rc == 0 || rc == -1
    ensures rc == 0 ==> PrimaryValid(store.c, store.fs.files)
    ensures rc == 0 ==>
              device.packets == old(device.packets)
                                + MipiStream(NV_DATA_ADDRESS, store.fs.files[store.c.path])
    ensures !device.faults && !store.fs.faults && store.c.Usable() ==>
              (rc == 0 <==> SomeCopy(store.c, old(store.fs.files)))
  {
    if store.c.size == 0 {
      return -1;
    }
    var nvData := store.Load();
    if nvData.None? {
      return -1;
    }
    ghost var sent;
    rc, sent := MipiModemDataSend(device, nvData.value, NV_DATA_ADDRESS);
  }

  /** `xmm626_mipi_mps_data_send`. */
  method MipiMpsDataSend(device: BootDevice, mps: seq<byte>) returns (rc: int)
    modifies device`packets, device`awaited
    ensures rc == 0 || rc == -1
    ensures rc == 0 ==>
              device.packets == old(device.packets) + MipiStream(MPS_DATA_ADDRESS, mps)
    ensures !device.faults ==> (rc == 0 <==> mps != [])
  {
    if |mps| == 0 {
      return -1;
    }
    ghost var sent;
    rc, sent := MipiModemDataSend(device, mps, MPS_DATA_ADDRESS);
  }

  /** Replaying `sent` from any state leaves the three images in memory at once. */
  ghost predicate LoadsAll(sent: seq<seq<byte>>, firmware: seq<byte>, nvData: seq<byte>,
                           mps: seq<byte>)
  {
    forall m: Modem {:trigger MipiReplay(m, sent)} ::
      var mem := MipiReplay(m, sent).mem;
      && Holds(mem, FIRMWARE_ADDRESS, firmware)
      && Holds(mem, NV_DATA_ADDRESS, nvData)
      && Holds(mem, MPS_DATA_ADDRESS, mps)
  }

  function AllStreams(firmware: seq<byte>, nvData: seq<byte>, mps: seq<byte>): seq<seq<byte>> {
    MipiStream(FIRMWARE_ADDRESS, firmware) + MipiStream(NV_DATA_ADDRESS, nvData)
    + MipiStream(MPS_DATA_ADDRESS, mps)
  }

  lemma AllStreamsLoadAll(firmware: seq<byte>, nvData: seq<byte>, mps: seq<byte>)
    requires |firmware| <= NV_DATA_ADDRESS - FIRMWARE_ADDRESS
    requires |nvData| <= MPS_DATA_ADDRESS - NV_DATA_ADDRESS
    ensures LoadsAll(AllStreams(firmware, nvData, mps), firmware, nvData, mps)
  {
    forall m: Modem
      ensures var mem := MipiReplay(m, AllStreams(firmware, nvData, mps)).mem;
              && Holds(mem, FIRMWARE_ADDRESS, firmware)
              && Holds(mem, NV_DATA_ADDRESS, nvData)
              && Holds(mem, MPS_DATA_ADDRESS, mps)
    {
      ThreeImages(m, firmware, nvData, mps);
    }
  }

  /** The flash part of the Maguro boot sequence: firmware, nv_data and MPS data in turn.
      On success the modem that replays the packets holds all three at once. */
  method MaguroImagesSend(device: BootDevice, store: NvStore, firmware: seq<byte>,
                          mps: seq<byte>)
    returns (rc: int)
    requires store.c.Distinct()
    requires |firmware| <= NV_DATA_ADDRESS - FIRMWARE_ADDRESS
    requires store.c.size <= MPS_DATA_ADDRESS - NV_DATA_ADDRESS
    modifies device`packets, device`awaited, store.fs`files, store.fs`history, store.fs`emptyWrites
    ensures rc == 0 || rc == -1
    ensures rc == 0 ==> PrimaryValid(store.c, store.fs.files)
    ensures rc == 0 ==>
              var image := store.fs.files[store.c.path];
              && device.packets == old(device.packets) + AllStreams(firmware, image, mps)
              && LoadsAll(AllStreams(firmware, image, mps), firmware, image, mps)
    ensures !device.faults && !store.fs.faults && store.c.Usable() ==>
              (rc == 0 <==> firmware != [] && mps != []
                            && SomeCopy(store.c, old(store.fs.files)))
  {
    ghost var before := device.packets;
    rc := MipiFirmwareSend(device, firmware);
    if rc < 0 {
      return -1;
    }
    rc := MipiNvDataSend(device, store);
    if rc < 0 {
      return -1;
    }
    ghost var image := store.fs.files[store.c.path];
    ghost var a, b := MipiStream(FIRMWARE_ADDRESS, firmware), MipiStream(NV_DATA_ADDRESS, image);
    assert device.packets == before + a + b;
    rc := MipiMpsDataSend(device, mps);
    if rc < 0 {
      return -1;
    }
    ConcatFour(before, a, b, MipiStream(MPS_DATA_ADDRESS, mps));
    AllStreamsLoadAll(firmware, image, mps);
  }

  lemma ConcatFour<T>(a: seq<T>, b: seq<T>, c: seq<T>, d: seq<T>)
    ensures a + b + c + d == a + (b + c + d)
  {
  }
}
