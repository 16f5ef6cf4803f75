/**
  The constants of `ssd1322fb.h`: the panel geometry, the SSD1322 command
  opcodes, the parameter bytes the driver sends with them, and the kernel
  error numbers the driver returns (as positive values; the driver returns
  their negation).
 */
module Ssd1322Defs {

  // Geometry of the NHD-2.7-12864WD panel.
  const Width: nat := 128
  const Height: nat := 64
  const Grayscale: nat := 16

  /** `smem_len` set by the probe: two 4-bit pixels per byte. */
  const SmemLen: nat := Width * Height / 2

  /** Size of the device buffer `update_display` sends: one byte per pixel. */
  const DeviceLen: nat := Width * Height

  // SSD1322 command opcodes.
  const CmdDisplayOff: bv8 := 0xAE
  const CmdCommandLock: bv8 := 0xFD
  const CmdSetClockDiv: bv8 := 0xB3
  const CmdSetMultiplexRatio: bv8 := 0xCA
  const CmdSetDisplayOffset: bv8 := 0xA2
  const CmdFunctionSelection: bv8 := 0xAB
  const CmdSetStartLine: bv8 := 0xA1
  const CmdSetRemap: bv8 := 0xA0
  const CmdMasterContrast: bv8 := 0xC7
  const CmdContrastControl: bv8 := 0xC1
  const CmdPhaseLength: bv8 := 0xB1
  const CmdPrechargeVoltage: bv8 := 0xBB
  const CmdExternalVsl: bv8 := 0xB4
  const CmdVcomhVoltage: bv8 := 0xBE
  const CmdDisplayMode: bv8 := 0xA6
  const CmdExitPartialDisplay: bv8 := 0xA9
  const CmdDisplayEnhancement: bv8 := 0xD1
  const CmdSetGpio: bv8 := 0xB5
  const CmdDefaultGrayscale: bv8 := 0xB9
  const CmdSecondPrecharge: bv8 := 0xB6
  const CmdDisplayOn: bv8 := 0xAF
  const CmdSetColumnAddr: bv8 := 0x15
  const CmdSetRowAddr: bv8 := 0x75
  const CmdWriteRam: bv8 := 0x5C

  /** All 24 opcodes, in the order the header defines them. */
  const Opcodes: seq<bv8> := [
    CmdDisplayOff, CmdCommandLock, CmdSetClockDiv, CmdSetMultiplexRatio,
    CmdSetDisplayOffset, CmdFunctionSelection, CmdSetStartLine, CmdSetRemap,
    CmdMasterContrast, CmdContrastControl, CmdPhaseLength, CmdPrechargeVoltage,
    CmdExternalVsl, CmdVcomhVoltage, CmdDisplayMode, CmdExitPartialDisplay,
    CmdDisplayEnhancement, CmdSetGpio, CmdDefaultGrayscale, CmdSecondPrecharge,
    CmdDisplayOn, CmdSetColumnAddr, CmdSetRowAddr, CmdWriteRam]

  // Parameter bytes. The two-byte macros expand to a comma-separated pair.
  const DisplayClockFrequency: bv8 := 0x91
  const MultiplexRatio: bv8 := 0x3F
  const DisplayOffset: bv8 := 0x00
  const FunctionSelection: bv8 := 0x01
  const StartLine: bv8 := 0x00
  const RemapSettings: seq<bv8> := [0x16, 0x11]
  const MasterContrastLevel: bv8 := 0x0F
  const ContrastControlLevel: bv8 := 0x9F
  const PhaseLength: bv8 := 0x72
  const PrechargeVoltageLevel: bv8 := 0x1F
  const ExternalVsl: seq<bv8> := [0xA0, 0xFD]
  const VcomhVoltageLevel: bv8 := 0x04
  const DisplayModeNormal: bv8 := 0xA6
  const DisplayEnhancementA: bv8 := 0xA2
  const DisplayEnhancementB: bv8 := 0x20
  const GpioSetting: bv8 := 0x00
  const SecondPrechargePeriod: bv8 := 0x08

  // Linux error numbers.
  const ENOMEM: int := 12
  const EFAULT: int := 14
  const EINVAL: int := 22
  const ENOSPC: int := 28

  /** The packed framebuffer is 4096 bytes, the device buffer twice that, and a row of bytes is `Height` long. */
  lemma Geometry()
    ensures SmemLen == 4096 && DeviceLen == 8192 && DeviceLen == 2 * SmemLen
    ensures Width / 2 == Height
    ensures Grayscale * Grayscale == 256
  {
  }

  /** The 24 opcodes are pairwise distinct byte values. */
  lemma OpcodesDistinct()
    ensures |Opcodes| == 24
    ensures forall i, j | 0 <= i < j < |Opcodes| :: Opcodes[i] != Opcodes[j]
  {
  }

  /** The two-byte parameter macros expand to exactly two bytes, and the normal display mode value is the display-mode opcode itself. */
  lemma ParameterShapes()
    ensures |RemapSettings| == 2 && |ExternalVsl| == 2
    ensures DisplayModeNormal == CmdDisplayMode
  {
  }
}
