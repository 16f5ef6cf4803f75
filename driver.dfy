/**
  The SSD1322 framebuffer driver: `ssd1322_cmd` (allocate, encode, one SPI
  transfer), the initialisation sequence, the display update, framebuffer
  read and write with offset clipping, and the grey-level check of
  `setcolreg`.

  What goes out on the bus is recorded in the bus's log; `IsRun` says which
  logs a list of commands sent with stop-at-first-error can leave behind.
 */
module Driver {
  import opened Ssd1322Defs
  import opened Kernel
  import Packer
  import FrameConvert

  /** One call of `ssd1322_cmd`: an opcode and its parameter bytes. */
  datatype Invocation = Invocation(opcode: bv8, params: seq<bv8>)

  /** The buffer `ssd1322_cmd` transmits for an invocation. */
  function Wire(inv: Invocation): seq<bv8>
  {
    Packer.Encode(inv.opcode, inv.params)
  }

  /** The invocations of `ssd1322_init`, in order. */
  function InitSequence(): seq<Invocation>
  {
    [Invocation(CmdDisplayOn, []),
     Invocation(CmdCommandLock, [0x12]),
     Invocation(CmdSetClockDiv, [DisplayClockFrequency]),
     Invocation(CmdSetMultiplexRatio, [MultiplexRatio]),
     Invocation(CmdSetDisplayOffset, [DisplayOffset]),
     Invocation(CmdFunctionSelection, [FunctionSelection]),
     Invocation(CmdSetStartLine, [StartLine]),
     Invocation(CmdSetRemap, RemapSettings),
     Invocation(CmdMasterContrast, [MasterContrastLevel]),
     Invocation(CmdContrastControl, [ContrastControlLevel]),
     Invocation(CmdPhaseLength, [PhaseLength]),
     Invocation(CmdPrechargeVoltage, [PrechargeVoltageLevel]),
     Invocation(CmdExternalVsl, ExternalVsl),
     Invocation(CmdVcomhVoltage, [VcomhVoltageLevel]),
     Invocation(CmdDisplayMode, []),
     Invocation(CmdExitPartialDisplay, []),
     Invocation(CmdDisplayEnhancement, [DisplayEnhancementA, DisplayEnhancementB]),
     Invocation(CmdSetGpio, [GpioSetting]),
     Invocation(CmdDefaultGrayscale, []),
     Invocation(CmdSecondPrecharge, [SecondPrechargePeriod]),
     Invocation(CmdDisplayOn, [])]
  }

  /** Column range `0x1C..0x5B` and row range `0x00..0x3F` of a full-screen update. */
  const ColumnRange: seq<bv8> := [0x1C, 0x5B]
  const RowRange: seq<bv8> := [0x00, 0x3F]

  /** The invocations of `ssd1322fb_update_display` for framebuffer `fb`. */
  function UpdateCommands(fb: seq<bv8>): seq<Invocation>
  {
    [Invocation(CmdSetColumnAddr, ColumnRange),
     Invocation(CmdSetRowAddr, RowRange),
     Invocation(CmdWriteRam, FrameConvert.Expand(fb))]
  }

  /** The log of `cmds` when every transfer succeeds. */
  function OkTransfers(cmds: seq<Invocation>): (r: seq<Transfer>)
    ensures |r| == |cmds|
  {
    seq(|cmds|, i requires 0 <= i < |cmds| => Transfer(Wire(cmds[i]), 0))
  }

  /**
    What one `ssd1322_cmd` leaves in the log and returns: nothing and
    `-ENOMEM` when the buffer cannot be allocated, otherwise the encoded
    transfer and the status `spi_sync` gave it.
   */
  predicate CmdSent(inv: Invocation, sent: seq<Transfer>, ret: int)
  {
    || (sent == [] && ret == -ENOMEM)
    || (ret <= 0 && sent == [Transfer(Wire(inv), ret)])
  }

  /**
    `sent` and `ret` are what sending `cmds` one after the other leaves,
    stopping at the first non-zero return and returning it.
   */
  predicate IsRun(cmds: seq<Invocation>, sent: seq<Transfer>, ret: int)
  {
    if cmds == [] then sent == [] && ret == 0
    else
      || (ret != 0 && CmdSent(cmds[0], sent, ret))
      || (sent != [] && sent[0] == Transfer(Wire(cmds[0]), 0) && IsRun(cmds[1..], sent[1..], ret))
  }

  /** A run returns 0 exactly when every command went out and succeeded. */
  lemma {:induction false} RunOk(cmds: seq<Invocation>, sent: seq<Transfer>)
    ensures IsRun(cmds, sent, 0) <==> sent == OkTransfers(cmds)
  {
    if cmds != [] {
      RunOk(cmds[1..], if sent == [] then [] else sent[1..]);
      if sent != [] {
        assert OkTransfers(cmds) == [Transfer(Wire(cmds[0]), 0)] + OkTransfers(cmds[1..]);
      }
    }
  }

  /**
    A failing run sent the commands in order up to the failing one and
    nothing after it: every earlier transfer succeeded, and the error
    returned is the status of the last transfer, or `-ENOMEM` if the failing
    command never reached the bus.
   */
  lemma {:induction false} RunFails(cmds: seq<Invocation>, sent: seq<Transfer>, ret: int)
    requires IsRun(cmds, sent, ret) && ret != 0
    ensures ret < 0 && |sent| <= |cmds|
    ensures forall i | 0 <= i < |sent| :: sent[i].tx == Wire(cmds[i])
    ensures forall i | 0 <= i < |sent| - 1 :: sent[i].status == 0
    ensures sent != [] && sent[|sent| - 1].status != 0 ==> ret == sent[|sent| - 1].status
    ensures sent == [] || sent[|sent| - 1].status == 0 ==> ret == -ENOMEM && |sent| < |cmds|
  {
    if !(ret != 0 && CmdSent(cmds[0], sent, ret)) {
      RunFails(cmds[1..], sent[1..], ret);
      forall i | 1 <= i < |sent|
        ensures sent[i].tx == Wire(cmds[i])
      {
        assert sent[i] == sent[1..][i - 1];
      }
    }
  }

  /** A run of `cmds[i..]` after `i` successful commands is a run of `cmds`. */
  lemma {:induction false} RunAfter(cmds: seq<Invocation>, i: nat, tail: seq<Transfer>, ret: int)
    requires i <= |cmds| && IsRun(cmds[i..], tail, ret)
    ensures IsRun(cmds, OkTransfers(cmds[..i]) + tail, ret)
  {
    if i > 0 {
      assert cmds[1..][i - 1..] == cmds[i..];
      RunAfter(cmds[1..], i - 1, tail, ret);
      OkCons(cmds, i);
      var rest := OkTransfers(cmds[1..][..i - 1]) + tail;
      assert OkTransfers(cmds[..i]) + tail == [Transfer(Wire(cmds[0]), 0)] + rest;
    } else {
      assert cmds[i..] == cmds && OkTransfers(cmds[..i]) + tail == tail;
    }
  }

  /** The successes of the first `i` commands: the first one, then those of the next `i - 1`. */
  lemma OkCons(cmds: seq<Invocation>, i: nat)
    requires 0 < i <= |cmds|
    ensures OkTransfers(cmds[..i]) == [Transfer(Wire(cmds[0]), 0)] + OkTransfers(cmds[1..][..i - 1])
  {
  }

  /** One more success extends the log of successes. */
  lemma OkSnoc(cmds: seq<Invocation>, i: nat)
    requires i < |cmds|
    ensures OkTransfers(cmds[..i + 1]) == OkTransfers(cmds[..i]) + [Transfer(Wire(cmds[i]), 0)]
  {
  }

  /**
    Command `i` of `cmds` was issued after `i` successes took the log from
    `start` to `before`: if it failed the run stops with its error, if it
    succeeded the log holds `i + 1` successes.
   */
  lemma AfterCmd(start: seq<Transfer>, before: seq<Transfer>, after: seq<Transfer>, cmds: seq<Invocation>, i: nat, ret: int)
    requires i < |cmds| && before == start + OkTransfers(cmds[..i])
    requires before <= after && CmdSent(cmds[i], after[|before|..], ret)
    ensures start <= after
    ensures ret != 0 ==> IsRun(cmds, after[|start|..], ret)
    ensures ret == 0 ==> after == start + OkTransfers(cmds[..i + 1])
  {
    var sent := after[|before|..];
    assert after == start + OkTransfers(cmds[..i]) + sent;
    assert after[|start|..] == OkTransfers(cmds[..i]) + sent;
    if ret != 0 {
      RunAfter(cmds, i, sent, ret);
    } else {
      OkSnoc(cmds, i);
    }
  }

  /** A command whose buffer could not be allocated ends the run with `-ENOMEM`. */
  lemma NoMemAt(start: seq<Transfer>, log: seq<Transfer>, cmds: seq<Invocation>, i: nat)
    requires i < |cmds| && log == start + OkTransfers(cmds[..i])
    ensures start <= log && IsRun(cmds, log[|start|..], -ENOMEM)
  {
    assert log[|start|..] == OkTransfers(cmds[..i]) + [];
    RunAfter(cmds, i, [], -ENOMEM);
  }

  /** All commands succeeded: the run returns 0. */
  lemma AllDone(start: seq<Transfer>, log: seq<Transfer>, cmds: seq<Invocation>)
    requires log == start + OkTransfers(cmds[..|cmds|])
    ensures start <= log && IsRun(cmds, log[|start|..], 0)
  {
    assert cmds[..|cmds|] == cmds;
    assert log[|start|..] == OkTransfers(cmds);
    RunOk(cmds, OkTransfers(cmds));
  }

  /** The number of bytes a read or write at `ppos` moves: `count`, cut at the end of the framebuffer. */
  function Clip(count: nat, ppos: nat, len: nat): (r: nat)
    requires ppos < len
    ensures r <= count && ppos + r <= len
    ensures r == count || ppos + r == len
  {
    if ppos + count > len then len - ppos else count
  }

  /** `ssd1322fb_setcolreg`: only the grey level in `red` is checked, against 16 levels. */
  function Setcolreg(regno: nat, red: nat, green: nat, blue: nat, transp: nat): (r: int)
    ensures r == 0 || r == -EINVAL
    ensures r == -EINVAL <==> red >= Grayscale
  {
    if red >= Grayscale then -EINVAL else 0
  }

  /** The other arguments have no effect. */
  lemma SetcolregIgnoresOthers(regno: nat, red: nat, green: nat, blue: nat, transp: nat,
                               regno': nat, green': nat, blue': nat, transp': nat)
    ensures Setcolreg(regno, red, green, blue, transp) == Setcolreg(regno', red, green', blue', transp')
  {
  }

  /** The initialisation table: 21 commands, opening and closing with DISPLAY_ON and never DISPLAY_OFF. */
  lemma InitSequenceShape()
    ensures |InitSequence()| == 21
    ensures InitSequence()[0] == InitSequence()[20] == Invocation(0xAF, [])
    ensures InitSequence()[7] == Invocation(0xA0, [0x16, 0x11])
    ensures InitSequence()[12] == Invocation(0xB4, [0xA0, 0xFD])
    ensures InitSequence()[16] == Invocation(0xD1, [0xA2, 0x20])
    ensures forall i | 0 <= i < |InitSequence()| :: InitSequence()[i].opcode != CmdDisplayOff
    ensures forall i | 0 <= i < |InitSequence()| :: |InitSequence()[i].params| <= 2
  {
  }

  /** The driver state: the framebuffer memory `screen_base` and the SPI device it drives. */
  class Ssd1322Fb {
    const screen: array<bv8>
    const bus: SpiBus

    predicate Valid()
    {
      screen.Length == SmemLen
    }

    /** The zeroed video memory of the probe, `smem_len` bytes. */
    constructor (bus: SpiBus)
      ensures Valid() && this.bus == bus && fresh(screen)
      ensures forall i | 0 <= i < screen.Length :: screen[i] == 0
    {
      this.bus := bus;
      screen := new bv8[SmemLen](_ => 0);
    }

    /** `ssd1322_cmd`: allocate the transmit buffer, encode, send it in one transfer. */
    method Cmd(cmd: bv8, data: seq<bv8>) returns (ret: int)
      modifies bus
      ensures old(bus.log) <= bus.log
      ensures CmdSent(Invocation(cmd, data), bus.log[|old(bus.log)|..], ret)
    {
      var totalBits := (|data| + 1) * 9;
      var totalBytes := (totalBits + 7) / 8;
      var txBuf := Kmalloc(totalBytes);
      if txBuf == null {
        return -ENOMEM;
      }
      Memset(txBuf);
      Packer.FillCommand(txBuf, totalBytes, cmd, data);
      ret := bus.Sync(txBuf[..]);
      assert bus.log[|old(bus.log)|..] == [Transfer(Wire(Invocation(cmd, data)), ret)];
    }

    /** `ssd1322_init`: the initialisation table, stopping at the first error. */
    method Init() returns (ret: int)
      modifies bus
      ensures old(bus.log) <= bus.log
      ensures IsRun(InitSequence(), bus.log[|old(bus.log)|..], ret)
    {
      ghost var start := bus.log;
      var i := 0;
      while i < |InitSequence()|
        invariant 0 <= i <= |InitSequence()|
        invariant bus.log == start + OkTransfers(InitSequence()[..i])
      {
        ghost var before := bus.log;
        ret := Cmd(InitSequence()[i].opcode, InitSequence()[i].params);
        AfterCmd(start, before, bus.log, InitSequence(), i, ret);
        if ret != 0 {
          return;
        }
        i := i + 1;
      }
      AllDone(start, bus.log, InitSequence());
      ret := 0;
    }

    /**
      `ssd1322fb_update_display`: set the column and row window, expand the
      framebuffer into a fresh buffer and write it to display RAM, stopping
      at the first error.  The framebuffer itself is only read.
     */
    method UpdateDisplay() returns (ret: int)
      requires Valid()
      modifies bus
      ensures old(bus.log) <= bus.log
      ensures IsRun(UpdateCommands(screen[..]), bus.log[|old(bus.log)|..], ret)
    {
      ghost var start := bus.log;
      ghost var cmds := UpdateCommands(screen[..]);
      assert start == start + OkTransfers(cmds[..0]);
      ret := Cmd(CmdSetColumnAddr, ColumnRange);
      AfterCmd(start, start, bus.log, cmds, 0, ret);
      if ret != 0 {
        return;
      }
      ghost var before := bus.log;
      ret := Cmd(CmdSetRowAddr, RowRange);
      AfterCmd(start, before, bus.log, cmds, 1, ret);
      if ret != 0 {
        return;
      }
      var dup := Kmalloc(DeviceLen);
      if dup == null {
        NoMemAt(start, bus.log, cmds, 2);
        return -ENOMEM;
      }
      Memset(dup);
      FrameConvert.DuplicateImage(screen, dup);
      before := bus.log;
      ret := Cmd(CmdWriteRam, dup[..]);
      AfterCmd(start, before, bus.log, cmds, 2, ret);
      if ret != 0 {
        return;
      }
      AllDone(start, bus.log, cmds);
    }

    /**
      `ssd1322fb_read`: copy `count` bytes from `ppos`, cut at the end of the
      framebuffer, to the user; nothing at or past the end.
     */
    method Read(count: nat, ppos: nat) returns (ret: int, out: seq<bv8>, newPpos: nat)
      requires Valid()
      ensures ppos >= SmemLen ==> ret == 0 && out == [] && newPpos == ppos
      ensures ppos < SmemLen ==>
        var n := Clip(count, ppos, SmemLen);
        || (ret == n && out == screen[ppos..ppos + n] && newPpos == ppos + n)
        || (ret == -EFAULT && out < screen[ppos..ppos + n] && newPpos == ppos)
    {
      if ppos >= screen.Length {
        return 0, [], ppos;
      }
      var n := count;
      if ppos + n > screen.Length {
        n := screen.Length - ppos;
      }
      var notCopied;
      out, notCopied := CopyToUser(screen[ppos..ppos + n]);
      if notCopied != 0 {
        return -EFAULT, out, ppos;
      }
      ret, newPpos := n, ppos + n;
    }

    /**
      `ssd1322fb_write`: copy the user's bytes to the framebuffer at `ppos`,
      cut at its end, then update the display and return the byte count
      whatever the update returned.  At or past the end: `-ENOSPC`.
     */
    method Write(buf: seq<bv8>, ppos: nat) returns (ret: int, newPpos: nat)
      requires Valid()
      modifies screen, bus
      ensures ppos >= SmemLen ==>
        ret == -ENOSPC && newPpos == ppos && screen[..] == old(screen[..]) && bus.log == old(bus.log)
      ensures ppos < SmemLen ==>
        var n := Clip(|buf|, ppos, SmemLen);
        || (&& ret == n && newPpos == ppos + n
            && screen[..] == old(screen[..ppos]) + buf[..n] + old(screen[ppos + n..])
            && old(bus.log) <= bus.log
            && exists status :: IsRun(UpdateCommands(screen[..]), bus.log[|old(bus.log)|..], status))
        || (&& ret == -EFAULT && newPpos == ppos && bus.log == old(bus.log)
            && screen[..ppos] == old(screen[..ppos]) && screen[ppos + n..] == old(screen[ppos + n..]))
    {
      if ppos >= screen.Length {
        return -ENOSPC, ppos;
      }
      var n := |buf|;
      if ppos + n > screen.Length {
        n := screen.Length - ppos;
      }
      assert n == Clip(|buf|, ppos, SmemLen);
      var notCopied := CopyFromUser(screen, ppos, buf[..n]);
      if notCopied != 0 {
        assert screen[..ppos] == old(screen[..ppos]);
        assert screen[ppos + n..] == old(screen[ppos + n..]);
        return -EFAULT, ppos;
      }
      assert buf[..n][..n - notCopied] == buf[..n] && Zeros(0) == [];
      assert screen[..] == old(screen[..ppos]) + buf[..n] + old(screen[ppos + n..]);
      newPpos := ppos + n;
      var status := UpdateDisplay();
      ret := n;
      assert screen[..] == old(screen[..ppos]) + buf[..n] + old(screen[ppos + n..]);
      assert exists st :: IsRun(UpdateCommands(screen[..]), bus.log[|old(bus.log)|..], st);
    }
  }
}
