# SSD1322 framebuffer driver, modelled in Dafny

This project models the Linux framebuffer driver for the SSD1322 OLED controller. The panel is an NHD-2.7-12864WD, 128x64 pixels with 16 grey levels. The model also covers the helper script that packs an image into the driver's framebuffer format.

- **`ssd1322_cmd`** (module `Packer`, method `Driver.Ssd1322Fb.Cmd`) turns a command byte and its parameter bytes into one SPI message of nine-bit words.
  - Each word is a D/C flag followed by a byte, most significant bit first: flag 0 for the command, flag 1 for each data byte.
  - The words are packed into a zeroed buffer of `ceil(9(n+1)/8)` bytes.
  - `Packer.Encode` is the specification, defined through a bit view of the buffer (module `BitView`).
  - `Packer.FillCommand` is the driver's in-place loop over an array, with a running `bit_offset`, proved to produce `Encode`.
  - A decoder that drops every ninth bit recovers the command and its data, and accepts nothing else.
- **`ssd1322fb_update_display`** (module `FrameConvert`, method `Driver.Ssd1322Fb.UpdateDisplay`) sets the column and row window, then writes display RAM.
  - It expands the 4096-byte framebuffer, two 4-bit pixels per byte, into 8192 device bytes, each grey level repeated in both nibbles.
  - The source reads its input with the literal stride `i * SSD1322_HEIGHT + j`. The model keeps that stride and proves it equal to row-major order, because `WIDTH / 2 == HEIGHT`.
- **`ssd1322_init`** sends a fixed table of 21 commands and stops at the first error.
- **`ssd1322fb_read` and `ssd1322fb_write`** copy between user memory and the framebuffer at offset `ppos`.
  - The count is clipped at the end of the framebuffer.
  - A write at or past the end returns `-ENOSPC`; a read there returns 0.
  - A write triggers a display update and returns the byte count whatever the update returned.
- **`ssd1322fb_setcolreg`** rejects grey levels of 16 and above.
- **Constants:** the geometry, the 24 opcodes and the parameter values of `ssd1322fb.h` (module `Ssd1322Defs`).
- **`png-to-128x64.py`** (module `PngPack`) reduces each 8-bit grey pixel to 4 bits, packs pixel pairs row by row (left pixel in the upper nibble) and derives the default output name.
  - A cross-file lemma shows what the panel receives once the driver expands a packed image: device byte `128y + x` is `0x11 * (pixel(x, y) // 16)`.

## Kernel services

The kernel services the driver calls are in module `Kernel`. Each one is reduced to what the driver can observe, and the kernel's choice is nondeterministic, so every driver contract holds for all choices.

- `spi_sync` returns an arbitrary status of 0 or below, and a ghost log records every buffer sent together with its status.
- `kmalloc` may return null.
- `copy_to_user` and `copy_from_user` may fault after copying any prefix.

The predicate `Driver.IsRun` states what a list of commands sent with stop-at-first-error leaves in that log, and what it returns.

## Model

| member | source | states |
|---|---|---|
| Ssd1322Defs.Geometry | ssd1322fb.h:53-55 | the packed framebuffer is 4096 bytes, the device buffer 8192 = 2 x 4096, `WIDTH / 2 == HEIGHT`, and 16 x 16 grey levels fill a byte |
| Ssd1322Defs.OpcodesDistinct | ssd1322fb.h:58-81 | the 24 command opcodes are pairwise distinct bytes |
| Ssd1322Defs.ParameterShapes | ssd1322fb.h:89-96 | `REMAP_SETTINGS` and `EXTERNAL_VSL` expand to two bytes each; `DISPLAY_MODE_NORMAL` is the display-mode opcode 0xA6 |
| Packer.TotalBits | ssd1322fb.c:313 | nine bits per word: the D/C flag and eight payload bits, for the command and each of the `n` data bytes |
| Packer.TotalBytes | ssd1322fb.c:314 | the bit count rounded up to whole bytes |
| Packer.Encode | ssd1322fb.c:313-349 | the transmitted buffer has `TotalBytes(n)` bytes |
| Packer.Stream | ssd1322fb.h:205-207 | the wire stream is the D/C flag and command, then one flagged word per data byte, zero-padded to whole bytes |
| Packer.TotalBytesBounds | ssd1322fb.c:313-314 | at least two bytes; fewer than 8 padding bits; the bytes hold exactly `n + 1` whole words |
| Packer.EncodeLength | ssd1322fb.c:313-314 | the encoding is `((n + 1) * 9 + 7) / 8` bytes long |
| Packer.EncodeBit | ssd1322fb.c:322-349 | bit `k` of the buffer, read MSB-first, is bit `k` of the wire stream |
| Packer.EncodeBits | ssd1322fb.c:322-349 | the buffer's bits are exactly the wire stream |
| Packer.FlagOfWord | ssd1322fb.c:323-340 | the flag bit of word `w` is 0 for the command and 1 for every data word |
| Packer.PayloadOfWord | ssd1322fb.c:326-346 | bit `9w + 1 + m` is bit `m` of the command (`w = 0`) or of `data[w - 1]`, MSB first |
| Packer.PaddingIsZero | ssd1322fb.c:318 | every bit after the last word is zero |
| Packer.CommandBytes | ssd1322fb.c:323-329 | `buf[0] == cmd >> 1` and the top bit of `buf[1]` is `cmd & 1` |
| Packer.EncodeWithoutData | ssd1322fb.c:323-329 | a command without parameters is the two bytes `cmd >> 1`, `(cmd & 1) << 7` |
| Packer.DecodeEncode | ssd1322fb.c:313-349 | decoding the encoding of `(cmd, data)` gives back `(cmd, data)` |
| Packer.DecodeSound | ssd1322fb.c:313-349 | any buffer that decodes to `(cmd, data)` is the encoding of `(cmd, data)` |
| Packer.EncodeInjective | ssd1322fb.c:313-349 | distinct invocations give distinct buffers |
| Packer.GuardHolds | ssd1322fb.c:336-345 | the guard `byte_index + 1 < total_bytes` holds for every word, so no payload bit is dropped |
| Packer.WriteCommand | ssd1322fb.c:323-329 | the command word at bit offset 1: `cmd >> 1` ORed into byte 0 and `cmd << 7`, cut to eight bits, into byte 1; the length is unchanged |
| Packer.WriteData | ssd1322fb.c:333-347 | one data word with its flag at bit `bit_index` of byte `byte_index`: the flag `1 << (7 - bit_index)`, then `x >> (bit_index + 1)` into that byte and `x << (7 - bit_index)` into the next when `bit_index < 7`, or all of `x` into the next when `bit_index == 7`; the write into the next byte only when it is inside the buffer; the length is unchanged |
| Packer.Written | ssd1322fb.c:318-349 | the zeroed `total_bytes` buffer after the command word and the first `n` data words, word `n` placed at bit offset `9n` (byte `9n / 8`, bit `9n % 8`); it has `TotalBytes` bytes |
| Packer.WriteCommandValues | ssd1322fb.c:326-329 | the command is ORed into bytes 0 and 1 as `cmd >> 1` and `cmd << 7`; the other bytes are unchanged |
| Packer.WriteCommandFills | ssd1322fb.c:323-331 | after the command word, the zeroed buffer's first 9 bits are the stream's and the rest are zero |
| Packer.WriteDataValues | ssd1322fb.c:334-347 | the flag and the split payload are ORed into bytes `byte_index` and `byte_index + 1`, with both branches on `bit_index < 7` |
| Packer.WriteDataFrame | ssd1322fb.c:334-347 | one data word changes no byte other than those two |
| Packer.WriteDataFills | ssd1322fb.c:334-348 | writing data word `w` extends the correctly filled prefix from `9w` to `9w + 9` bits |
| Packer.WrittenStep | ssd1322fb.c:332-349 | at `bit_offset == 9(i + 1)`, the turn for data word `i` stays inside the buffer and writing the word at byte `bit_offset / 8`, bit `bit_offset % 8` gives the next `Written` |
| Packer.WrittenFills | ssd1322fb.c:323-349 | after the command and `n` data words, the first `9(n + 1)` bits are the stream's and the rest are zero |
| Packer.WrittenIsEncode | ssd1322fb.c:318-349 | the driver's sequence of ORs produces exactly `Encode(cmd, data)` |
| Packer.FilledIsEncode | ssd1322fb.c:318-349 | a buffer of the right size filled through the last word is the encoding |
| Packer.FilledStreamBit | ssd1322fb.c:318-349 | in a buffer filled through the last word, every clocked bit is the wire stream's bit |
| Packer.ZeroFilled | ssd1322fb.c:318 | the zeroed buffer holds no bit yet |
| Packer.PutDataWord | ssd1322fb.c:334-347 | one iteration of the data loop on the array is `WriteData` on its contents |
| Packer.PutDataWords | ssd1322fb.c:332-349 | the data loop turns the buffer holding the command word into the fully written buffer |
| Packer.FillCommand | ssd1322fb.c:318-349 | filling the zeroed array as the driver does leaves exactly `Encode(cmd, data)` in it |
| Kernel.SpiBus.Sync | ssd1322fb.c:351-359 | one transfer of `tx` is appended to the log with the status returned, which is 0 or negative |
| Kernel.Kmalloc | ssd1322fb.c:315-317 | the allocation either fails (null) or gives a fresh buffer of the requested size |
| Kernel.Memset | ssd1322fb.c:318 | every byte of the buffer becomes 0 |
| Kernel.CopyFromUser | ssd1322fb.c:208 | a prefix of the source is copied to `dst + off`, the rest of that range is zero-filled, and nothing outside it changes |
| Kernel.CopyToUser | ssd1322fb.c:168 | a prefix of the source reaches the user, and the count of bytes not copied is returned |
| FrameConvert.Upper | ssd1322fb.c:272 | `(b & 0xF0) >> 4` is `b / 16`, below 16 |
| FrameConvert.Lower | ssd1322fb.c:273 | `b & 0x0F` is `b % 16`, below 16 |
| FrameConvert.Dup | ssd1322fb.c:276-279 | `(n << 4) \| n` is `0x11 * n`, with `n` in both nibbles |
| FrameConvert.Expand | ssd1322fb.c:252-281 | the device buffer is twice the framebuffer's length |
| FrameConvert.ExpandAt | ssd1322fb.c:269-279 | device bytes `2k` and `2k + 1` repeat the upper and lower nibble of framebuffer byte `k` |
| FrameConvert.ExpandValues | ssd1322fb.c:272-279 | device bytes `2k` and `2k + 1` are `0x11 * (fb[k] >> 4)` and `0x11 * (fb[k] & 0xF)` |
| FrameConvert.ExpandEqualNibbles | ssd1322fb.c:276-279 | every device byte has equal nibbles |
| FrameConvert.Join | ssd1322fb.c:272-279 | inverse of the duplication: the upper nibble of one device byte and the lower of the next rebuild a framebuffer byte |
| FrameConvert.Compress | ssd1322fb.c:265-281 | inverse of the expansion: one framebuffer byte per pair of device bytes |
| FrameConvert.CompressExpand | ssd1322fb.c:265-281 | compressing the expanded buffer gives the framebuffer back, so no pixel is lost |
| FrameConvert.DuplicatedNibbles | ssd1322fb.c:272-279 | the driver's shift-and-OR expressions compute the duplicated nibbles |
| FrameConvert.SourceIndex | ssd1322fb.c:269 | the framebuffer index the loop reads for row `i`, byte `j`: the literal `i * SSD1322_HEIGHT + j` |
| FrameConvert.StrideIsRowMajor | ssd1322fb.c:269 | the literal index `i * HEIGHT + j` is the row-major `i * (WIDTH / 2) + j`; the loops visit framebuffer bytes 0..4095 once each, in order, writing device bytes `2k` and `2k + 1` |
| FrameConvert.DuplicateImage | ssd1322fb.c:265-281 | the nested loops fill the device array with exactly `Expand` of the framebuffer |
| FrameConvert.DuplicateRow | ssd1322fb.c:267-280 | the inner loop for row `i` writes the expansion of that row and keeps the earlier rows |
| Driver.UpdateCommands | ssd1322fb.c:233-285 | the three invocations of the update: SET_COLUMN_ADDR `0x15` with `[0x1C, 0x5B]`, SET_ROW_ADDR `0x75` with `[0x00, 0x3F]`, then WRITE_RAM `0x5C` with `Expand(fb)` |
| Driver.CmdSent | ssd1322fb.c:315-364 | one `ssd1322_cmd`: either the allocation fails, nothing is sent and `-ENOMEM` is returned, or the encoded buffer goes out in one transfer and its status (0 or a negative error) is returned |
| Driver.IsRun | ssd1322fb.c:48-148 | a list of commands sent one after the other, stopping at the first non-zero return and returning it; 0 after the last one |
| Driver.RunOk | ssd1322fb.c:44-149 | a run of commands returns 0 exactly when every command went out once, in order, with status 0 |
| Driver.RunFails | ssd1322fb.c:44-149 | a failing run sent the commands in order up to the failing one and nothing after; it returns that transfer's error, or `-ENOMEM` if the failing command never reached the bus |
| Driver.RunAfter | ssd1322fb.c:239-292 | a run of the remaining commands after `i` successes is a run of the whole list |
| Driver.AfterCmd | ssd1322fb.c:239-292 | after command `i` the run either stops with that command's error or has `i + 1` successes |
| Driver.NoMemAt | ssd1322fb.c:253-258 | an allocation failure after `i` successes ends the run with `-ENOMEM` |
| Driver.AllDone | ssd1322fb.c:143-148 | when every command succeeded, the run returns 0 |
| Driver.InitSequence | ssd1322fb.c:48-143 | the 21 invocations of `ssd1322_init` in order: DISPLAY_ON, COMMAND_LOCK `[0x12]`, the clock, multiplex, offset, function, start-line, remap, contrast, phase, precharge, VSL, VCOMH, display-mode, exit-partial, enhancement, GPIO, default-grayscale and second-precharge settings, then DISPLAY_ON again |
| Driver.InitSequenceShape | ssd1322fb.c:48-143 | the table has 21 commands, the first and last 0xAF without parameters, REMAP `[0x16, 0x11]`, EXTERNAL_VSL `[0xA0, 0xFD]`, ENHANCEMENT `[0xA2, 0x20]`, no DISPLAY_OFF and at most two parameter bytes each |
| Driver.Clip | ssd1322fb.c:160-162 | the clipped count is `min(count, len - ppos)` |
| Driver.Setcolreg | ssd1322fb.c:368-379 | the result is `-EINVAL` exactly when `red >= 16`, and 0 otherwise |
| Driver.SetcolregIgnoresOthers | ssd1322fb.c:368-379 | `regno`, `green`, `blue` and `transp` do not affect the result |
| Driver.Ssd1322Fb.constructor | ssd1322fb.c:408-421 | the video memory is `smem_len` = 4096 zero bytes |
| Driver.Ssd1322Fb.Cmd | ssd1322fb.c:300-365 | either nothing is sent and `-ENOMEM` is returned, or exactly the encoded buffer is sent once and `spi_sync`'s status is returned unchanged |
| Driver.Ssd1322Fb.Init | ssd1322fb.c:44-149 | the log grows by a run of the 21-command table: all of it with result 0, or up to the first failure with that failure's error |
| Driver.Ssd1322Fb.UpdateDisplay | ssd1322fb.c:221-298 | the log grows by a run of column `[0x1C, 0x5B]`, row `[0x00, 0x3F]`, then RAM write of the expanded framebuffer, stopping at the first error; the framebuffer is not changed |
| Driver.Ssd1322Fb.Read | ssd1322fb.c:151-175 | at or past the end: 0 and no data. Otherwise either the clipped range `screen[ppos..ppos + n]` and `ppos + n`, or `-EFAULT` with a strict prefix of it and `ppos` unchanged |
| Driver.Ssd1322Fb.Write | ssd1322fb.c:178-219 | at or past the end: `-ENOSPC` and nothing changes. On success exactly `screen[ppos..ppos + n]` is replaced by the first `n` user bytes, `ppos` advances by `n`, the update of the new contents runs, and `n` is returned whatever the update gave. On `-EFAULT` `ppos` is unchanged, nothing is sent and nothing outside the range changes |
| PngPack.ProcessPixel | png-to-128x64.py:5-7 | the result is the floor of `v / 16`, so 0..255 maps into 0..15 |
| PngPack.ProcessPixelMonotone | png-to-128x64.py:5-7 | a brighter pixel never gives a darker level |
| PngPack.ShiftOr | png-to-128x64.py:42 | `(a << 4) \| b` puts `a` in the upper nibble and `b` in the lower |
| PngPack.CombineByte | png-to-128x64.py:42 | the combined byte is `16 * first + second`, and the driver's nibble split gives back `first` and `second` |
| PngPack.PairByte | png-to-128x64.py:34-42 | the byte for pixels `(x, y)` and `(x + 1, y)`: the left pixel's level in the upper nibble, the right one's in the lower |
| PngPack.PackedImage | png-to-128x64.py:31-45 | the packed image is 4096 bytes |
| PngPack.PackedAt | png-to-128x64.py:31-45 | the byte for pixels `(x, y)` and `(x + 1, y)` sits at index `y * 64 + x / 2` |
| PngPack.PackImage | png-to-128x64.py:28-45 | the nested loops append exactly the bytes of `PackedImage`, in row-major order |
| PngPack.RFind | png-to-128x64.py:54 | the index of the last occurrence of a character, or -1 |
| PngPack.SplitExt | png-to-128x64.py:54 | POSIX `os.path.splitext`: the extension is the last dot of the final path component and what follows, unless that component is only dots before it; otherwise the extension is empty |
| PngPack.SplitExtParts | png-to-128x64.py:54 | `splitext` splits the path into root and extension with nothing lost; a non-empty extension is a dot and no further dot or separator, after a name that is not only dots |
| PngPack.SplitExtOf | png-to-128x64.py:54 | conversely, every split of that shape is the one `splitext` returns |
| PngPack.DefaultOutputPath | png-to-128x64.py:53-55 | without an output path, the image path with its extension replaced by `-4bit.bin` |
| PngPack.DefaultOutputPathShape | png-to-128x64.py:52-55 | the default name ends in `-4bit.bin`, and putting the extension back in its place gives the input path |
| PngPack.ConvertImage | png-to-128x64.py:28-59 | the length check never fails; the 4096 packed bytes are saved under the given path, or the default one when none is given |
| PngPack.PackThenExpand | png-to-128x64.py:31-45 | after the driver's expansion of the packed image, device byte `128y + x` is `0x11 * (img[y][x] // 16)` |

## Left out

- The SPI message set-up (`spi_message_init`, the `spi_transfer` fields) and `kfree` are not modelled. The bus only records which bytes went out in one transfer and the status it returned.
- Error and debug logging (`dev_err`, `dev_info`, `dev_dbg`) and the script's `print` calls are left out.
- Probe and remove are left out: `register_framebuffer`, `fb_ops`, the drawing helpers, the device-tree and SPI tables, and the module macros. Only the video memory set up at ssd1322fb.c:408-421 is kept, as the class constructor.
- `ppos` and `count` are naturals. The negative offsets and the `*ppos + count` wrap-around that `loff_t` and `size_t` would allow are not modelled, because the VFS layer rules them out.
- `data_len`, `total_bits`, `bit_offset` and the loop indices are unbounded integers. The C `int` and `size_t` overflow for gigantic parameter lists is not modelled.
- `ssd1322_cmd` puts no upper bound on `data_len`, and neither does the model: `Packer.Encode` and `Driver.Ssd1322Fb.Cmd` accept parameter lists of any length.
- Kernel.CopyFromUser: the bytes that could not be copied are zero-filled, as the Linux `copy_from_user` does. A user buffer is the sequence of the `count` bytes it holds.
- Driver.Ssd1322Fb.Write: on `-EFAULT` the contract leaves the bytes of `[ppos, ppos + n)` unspecified, although `Kernel.CopyFromUser` fixes them (the copied prefix, then zeros), because the driver gives no guarantee about a partial write.
- Kernel.SpiBus.Sync: which status `spi_sync` returns is left open, apart from being 0 or a negative error number.
- The image loading of `png-to-128x64.py` is left out: `Image.open`, alpha compositing on white, `convert('L')` and `resize((128, 64))` are library calls. `PngPack.ConvertImage` takes the resulting 128x64 array of grey levels 0..255.
- Writing the output file and the command-line handling (`sys.argv`, usage text, exit codes) are left out; the output path is an optional argument.
- PngPack.SplitExt follows the POSIX `os.path.splitext`, with `/` as the only separator. The Windows variant is not modelled.
