# AlienFX and GT683R LED drivers in Dafny

This project models the deterministic core of two small Linux HID LED drivers.

**AlienFX** (`hid-alienfx.c`) drives the lighting zones of an Alienware M11x:
- a static table of named zones, each with a protocol id and a pending-colour slot (`-1` means nothing pending);
- four fixed 9-byte commands: reset, execute, loop and set-colour;
- a set-colour encoder that writes the region (three bytes, big-endian) and a 12-bit colour (two bytes) into a shared global buffer;
- the LED core's `brightness_set` callback, which stores a colour in the matching zone's slot;
- the deferred work run, which sends reset, then a set-colour/loop pair for each pending zone in table order, then execute, and clears every consumed slot.

**GT683R** (`old/alienfx_test.c`) drives the three panels of an MSI GT683R:
- per-panel brightness;
- a device mode exposed as a sysfs value 0..2;
- a work step that builds an 8-byte buffer holding the bitmask of lit panels and hands it to the message routine;
- a second buffer holding the device mode, or "off" when no panel is lit, handed over the same way.

The message routine itself never reads the buffers it is handed; see "## Left out".

## Structure

- `wrappers.dfy`, module `Wrappers`: `Option`.
- `bytes.dfy`, module `Bytes`: `uint8`.
- `alienfx_codec.dfy`, module `AlienFxCodec`:
  - the command constants;
  - the byte fields the driver computes with shifts and masks, taken from the 32-bit two's-complement pattern of a C `int`;
  - the set-colour buffer writer;
  - a command datatype with `Encode`/`Decode` and both round trips.
- `alienfx_zones.dfy`, module `AlienFxZones`:
  - the `m11x_leds` table;
  - the probe-time slot initialisation;
  - `alienfx_color_set`.
- `alienfx_work.dfy`, module `AlienFxWork`:
  - `alienfx_work` as a function from driver state to (new state, packets sent);
  - reference definitions `Pending` and `Transaction` that the run is proved equal to.

  The run takes a `ReadOrder`:
  - `ClearThenRead` is the code as written;
  - `ReadThenClear` is the evidently intended order.
- `gt683r.dfy`, module `Gt683r`:
  - brightness set;
  - `mode_show`/`mode_store`;
  - the panel bitmask;
  - the two buffer builders with a decoder;
  - the work step.

Modelling choices:
- The LED class device the LED core passes to a callback is embedded in a table entry. It is modelled as that entry's index; any other value matches no entry.
- Whether a `kzalloc` succeeds is a parameter (`Gt683r.Alloc`).
- C shifts on `int` are read on the 32-bit two's-complement pattern (`AlienFxCodec.Bits32`). This assumes what GCC, the kernel's compiler, defines: `>>` of a negative `int` is arithmetic, and `<<` of a negative `int` shifts its two's-complement pattern. ISO C leaves the first implementation-defined and makes the second undefined.
- Each transaction holds exactly one reset. A set-colour packet for keyboard and 0x0fff is `02 03 00 00 00 01 FF F0 00`: byte 2 stays zero, the region is in bytes 3-5, and the colour in bytes 6-7.
- The result of the decimal parse in `mode_store` is a parameter: `None` when the parse fails.

## Model

| member | source | states |
|---|---|---|
| AlienFxCodec.Bits32 | hid-alienfx.c:87-94 | the bit pattern the shifts act on is the value for 32-bit non-negative ints and the value plus 2^32 for negative ints, so `-1` is all ones |
| AlienFxCodec.RegionPacking | hid-alienfx.c:89-91 | bytes 3, 4 and 5 read back big-endian give exactly the low 24 bits of the region |
| AlienFxCodec.ColorPacking | hid-alienfx.c:93-94 | bytes 6 and 7 read back as `(b6 << 4) \| (b7 >> 4)` give exactly the low 12 bits of the colour, and byte 7's low nibble is zero |
| AlienFxCodec.ColorRoundTrip | hid-alienfx.c:93-94 | every colour in 0..4095 is recovered unchanged from bytes 6-7 |
| AlienFxCodec.ColorTruncation | hid-alienfx.c:93-94 | for every brightness up to 65535 (the zones' `max_brightness`), only the colour modulo 4096 reaches the packet |
| AlienFxCodec.SentinelColorBytes | hid-alienfx.c:93-94 | the "nothing pending" value -1 packs to colour bytes `FF F0` |
| AlienFxCodec.WriteSetColor | hid-alienfx.c:87-98 | writing into the shared buffer keeps its length, leaves bytes 0, 1, 2 and 8 untouched, and puts the low 24 bits of the region in bytes 3-5 and the low 12 bits of the colour in bytes 6-7 |
| AlienFxCodec.EncodeSetColor | hid-alienfx.c:68 | a set-colour packet is 9 bytes, starts `02 03 00`, ends `00`, and carries the region and colour as above |
| AlienFxCodec.EncodeSetColorBytes | hid-alienfx.c:68 | the set-colour packet byte by byte: `02 03 00`, the three region bytes, the two colour bytes, `00` |
| AlienFxCodec.SetColorBufferNoLeak | hid-alienfx.c:87-96 | a write to any buffer of set-colour shape yields the same packet as a fresh encoding of (region, colour), so nothing from earlier calls leaks; `block` has no effect; the buffer stays in shape for the next call |
| AlienFxCodec.Encode | hid-alienfx.c:65-68 | every command is 9 bytes with report id `0x02`; the opcodes are reset 7, execute 5, loop 4 and set-colour 3; only reset has argument `0x04` in byte 2; the fixed commands are zero from byte 3 on |
| AlienFxCodec.DecodeEncode | hid-alienfx.c:65-68 | every command with a 24-bit region and a 12-bit colour decodes back from its packet |
| AlienFxCodec.EncodeDecode | hid-alienfx.c:65-68 | every packet that decodes is exactly the encoding of a well-formed command |
| AlienFxZones.Probe | hid-alienfx.c:203-205 | probe keeps every zone's name and id and sets every slot to -1, so nothing is pending |
| AlienFxZones.ColorSet | hid-alienfx.c:100-121 | the matching zone's slot gets the colour and becomes pending; every other zone is unchanged; a device matching no zone leaves the table unchanged; valid slots stay valid |
| AlienFxZones.ColorSetLastWriteWins | hid-alienfx.c:109-120 | of two sets of the same zone, only the last survives |
| AlienFxZones.ColorSetCommutes | hid-alienfx.c:109-120 | sets of different zones commute |
| AlienFxZones.M11xIdsDistinct | hid-alienfx.c:51-63 | the protocol ids of the ten zones are pairwise distinct |
| AlienFxZones.M11xGroupMasks | hid-alienfx.c:52-61 | "all-but-power" (0x0961) is the bitwise or of the five non-power zones; "all" (0xe961) is the or of all eight single zones |
| AlienFxWork.Attach | hid-alienfx.c:189-205 | the driver state after probe has a well-formed buffer, valid slots and nothing pending |
| AlienFxWork.SetColorPairsAt | hid-alienfx.c:136-143 | in the zone loop's output, position 2k is the set-colour packet of the k-th setting and position 2k+1 a loop mark |
| AlienFxWork.TransactionAt | hid-alienfx.c:132-145 | in a transaction, the k-th setting's set-colour packet is at position 2k+1, followed by a loop mark |
| AlienFxWork.EmitZones | hid-alienfx.c:136-143 | the zone loop keeps the buffer in shape and every zone's name and id; it leaves no zone pending, sets every pending slot to -1 and leaves every other zone unchanged |
| AlienFxWork.EmitZonesSends | hid-alienfx.c:136-143 | the zone loop sends exactly a set-colour/loop pair for each pending zone, in table order, whatever the buffer held before |
| AlienFxWork.WorkRun | hid-alienfx.c:123-149 | a run sends reset, one set-colour/loop pair per pending zone in table order, and execute; afterwards every slot is -1 and the state is still valid |
| AlienFxWork.Work | hid-alienfx.c:132-145 | as written, the run names every pending zone in table order but encodes the cleared slot, so every set-colour packet it sends carries colour bytes `FF F0`; afterwards every zone keeps its name and id and its slot is -1 |
| AlienFxWork.WorkIntended | hid-alienfx.c:132-145 | the intended run sends each pending zone's id and colour, in table order, between reset and execute; afterwards every zone keeps its name and id and its slot is -1 |
| AlienFxWork.ClearedTransactionColorBytes | hid-alienfx.c:138-139 | every packet of a transaction of cleared settings is 9 bytes, and every set-colour packet among them has colour bytes `FF F0` |
| AlienFxWork.PendingEmpty | hid-alienfx.c:136-137 | no zone is pending exactly when the run has no setting to consume |
| AlienFxWork.PendingAppend | hid-alienfx.c:136-137 | the pending settings of a split table are those of the two parts, concatenated in order |
| AlienFxWork.EmptyRun | hid-alienfx.c:132-145 | with nothing pending, a run sends only reset and execute |
| AlienFxWork.SecondRunEmpty | hid-alienfx.c:136-145 | a second run with no set in between sends only reset and execute |
| AlienFxWork.AttachRunEmpty | hid-alienfx.c:204 | a run right after probe sends only reset and execute |
| AlienFxWork.PendingOnly | hid-alienfx.c:136-137 | if exactly one zone is pending, the run consumes exactly that zone's setting |
| AlienFxWork.PendingSplit | hid-alienfx.c:136-137 | the pending settings of a table are those of its first j zones followed by those of the rest |
| AlienFxWork.PendingTwo | hid-alienfx.c:136-137 | if exactly two zones are pending, the run consumes exactly their two settings, in table order |
| AlienFxWork.PendingAfterTwoSets | hid-alienfx.c:109-120 | two sets of different zones on an idle table, in either order, make the next run consume exactly those two settings, in table order |
| AlienFxWork.KeyboardAndLogo | hid-alienfx.c:51-61 | after probe, setting "keyboard" to 0x0fff and "logo" to 0 leaves exactly (0x0001, 0x0fff) and (0x0100, 0) pending |
| AlienFxWork.ScenarioPackets | hid-alienfx.c:87-94 | the concrete set-colour packets for keyboard 0x0fff (`02 03 00 00 00 01 FF F0 00`), logo 0 and the cleared slots |
| AlienFxWork.IntendedKeyboardAndLogo | hid-alienfx.c:132-145 | the intended run for that state sends reset, keyboard `FF F0`, loop, logo `00 00`, loop, execute |
| AlienFxWork.AsWrittenKeyboardAndLogo | hid-alienfx.c:138-139 | the run as written sends logo's colour as `FF F0`, and so differs from the intended run |
| Gt683r.Probe | old/alienfx_test.c:401-408 | probe leaves three zeroed brightnesses and the normal mode |
| Gt683r.BrightnessSet | old/alienfx_test.c:71-88 | only the matching panel's brightness changes; a device matching no panel changes nothing; the mode is kept |
| Gt683r.BrightnessSetLastWriteWins | old/alienfx_test.c:79-87 | of two sets of the same panel, only the last survives |
| Gt683r.BrightnessSetCommutes | old/alienfx_test.c:79-87 | sets of different panels commute |
| Gt683r.ModeShow | old/alienfx_test.c:90-107 | the shown value is at most 2; it is 0 exactly for normal and 1 exactly for audio |
| Gt683r.ModeOfSysfs | old/alienfx_test.c:124-129 | the sysfs values 0, 1 and 2 select normal, audio and breathing; an accepted value never selects the off mode |
| Gt683r.SysfsModeValues | old/alienfx_test.c:37-42 | the sysfs values 0, 1 and 2 select normal (5), audio (2) and breathing (3) |
| Gt683r.ShowAfterStore | old/alienfx_test.c:99-104 | reading back a stored value 0..2 gives that value |
| Gt683r.StoreAfterShow | old/alienfx_test.c:99-129 | storing the shown value restores the mode exactly when the mode is not off |
| Gt683r.ModeStore | old/alienfx_test.c:109-135 | a failed parse or a value above 2 returns `-EINVAL` and changes nothing; otherwise the input is consumed, the brightnesses are kept and the new mode shows as the stored value |
| Gt683r.PanelMask | old/alienfx_test.c:357-360 | the mask of n panels is below 2^n |
| Gt683r.PanelMaskBits | old/alienfx_test.c:357-360 | bit i of the mask is set exactly when panel i is lit |
| Gt683r.PanelMaskZero | old/alienfx_test.c:357-360 | the mask is zero exactly when no panel is lit |
| Gt683r.EncodeGt | old/alienfx_test.c:309-346 | each buffer is 8 bytes starting `01 02` with the argument in byte 3 and bytes 5-7 zero |
| Gt683r.DecodeEncodeGt | old/alienfx_test.c:314-341 | the leds buffer `01 02 30 l 00 00 00 00` and the mode buffer `01 02 20 m 01 00 00 00` decode to their commands |
| Gt683r.EncodeDecodeGt | old/alienfx_test.c:314-341 | every buffer that decodes is exactly the one built for its command |
| Gt683r.HandOver | old/alienfx_test.c:309-346 | a builder returns 0 and hands over a buffer exactly when the allocation succeeds, otherwise it returns `-ENOMEM` and hands over nothing; the buffer it hands over is the built layout and decodes to its command |
| Gt683r.Work | old/alienfx_test.c:348-373 | the mask is below 8 and bit i is set exactly when panel i is lit; if the leds call fails, the mode call is skipped; otherwise the mode handed over is off when no panel is lit and the stored mode otherwise |
| Gt683r.ProbeWorkTurnsOff | old/alienfx_test.c:357-370 | a work step right after probe hands over the mask 0 and then the off mode |

## Left out

- HID transport and debug output: `alienfx_send_cmd` always returns 0 and only prints, so sending is appending a packet to the output.
- `gt683r_led_snd_msg` is not modelled. It ignores the buffer it is given and sends random exploratory packets. Only its constant return value 0 is used.
- Locking, deferred-work scheduling and the 1 ms delay after reset: each set call and each run is one atomic step.
- Probe and remove plumbing is not modelled:
  - HID parse/start/stop;
  - LED class device registration and its failure path;
  - device-name formatting;
  - sysfs attribute groups;
  - device-id tables;
  - raw-event handlers.

  Only the per-zone slot initialisation and the GT683R initial mode are modelled.
- `kstrtou8` is not modelled. Its outcome is an input to `Gt683r.ModeStore`.
- The `state` field of a zone is not modelled. It is written at probe but never read, and its one other write is commented out.
- `Gt683r.ModeShow`: the `scnprintf` formatting of the value into the sysfs buffer and its byte count are not modelled. Only the value shown is.
- `AlienFxCodec.Decode` accepts exactly the packets `Encode` can produce. The driver itself never decodes.

## Findings

| source | as written | input that shows it | evidently intended | confidence | as-written member | corrected member |
|---|---|---|---|---|---|---|
| hid-alienfx.c:138-139 | the slot is set to -1 before it is passed to the encoder, so every set-colour packet carries colour `-1`, i.e. bytes `FF F0` | after probe, set "keyboard" to 0x0fff and "logo" to 0, then run: logo's packet is `02 03 00 00 01 00 FF F0 00` instead of `02 03 00 00 01 00 00 00 00` | read the colour, send it, then clear the slot | high, not executed | AlienFxWork.Work, AlienFxWork.AsWrittenKeyboardAndLogo | AlienFxWork.WorkIntended, AlienFxWork.IntendedKeyboardAndLogo |
