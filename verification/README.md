# px68k in Dafny

px68k emulates the Sharp X68000. This project models nine of its cores and proves what
they are for: the scan line a sprite and background unit draws, the floppy image that
comes back as it was saved, sample memory that is a byte array behind eight bit planes,
an FM envelope that always falls silent, calendars that invert each other, a backward
text scan that agrees with reading forward, a voice that neither loses nor invents
samples while its ring has room, timers that do not notice how time is cut, an envelope
catch-up that equals the steps it skips, and display geometry that agrees with its
registers.

Code that changes state in place is a class or an array method here, proved against a
function of what was there before; the laws are lemmas about those functions. Machine
integers are `int` with explicit ranges (`u8`, `u16`, `u32` in `CInt`), wrap-around is
written as `U16`/`U32`, C division as `CDiv`, and masks and shifts as `/` and `%`.
`dafny verify dfyconfig.toml` checks everything.

| file | core |
|---|---|
| `CInt`, `Wrappers` | machine integers, truncating division, bits; optional values |
| `Pcg`, `Layers`, `Scanline`, `Bg` | sprites and background planes: pattern caches, the five layers as a picture, the scene they are drawn from, the unit itself |
| `D88`, `D88Disk`, `D88Drive` | floppy images: the file format, a mounted disk as a value, the linked lists that hold it |
| `AdpcmB`, `AdpcmPlayer` | ADPCM-B memory as bit planes, and the nibble player |
| `Envelope`, `LogTable` | FM operator envelope; logarithm and sine tables |
| `DosTime`, `ShiftJis` | time conversion with its caches; double-byte text scans |
| `Msm6258`, `Msm6258Voice` | ADPCM decoder, rate conversion, interpolation and filter; the unit with its ring buffer |
| `FmTimer`, `Psg`, `Crtc` | OPM timers, PSG envelope, CRTC registers |

Where the code does not do what one would expect of it, the exact condition is proved and
an input on which it fails is given:

- `D88Disk.SessionRoundTrip`: mounting again finds what the session left if and only if the
  tracks are well-formed or, on a write-protected drive, unchanged. A protected drive formats
  all the same and then loses it (`ProtectedFormatIsLost`); without a format its tracks do not
  change (`ProtectedKeepsTracks`).
- `AdpcmPlayer.StopsIff`: playback that does not repeat ends if and only if it is not
  `Endless`: the limit address is not met before the stop address both from the start and
  from 0, where the limit sends it. For the addresses the registers give (`EndlessIs`) it is
  endless exactly when the limit is a multiple of 64 below the stop address and the start is
  below the limit or not below the stop. `LimitOnTheWay` and `LimitAfterWrap` are one
  playback of each kind that never ends.
- `ShiftJis.Kanji1st`: right if and only if some byte up to the position is outside the
  lead range; `FirstByteLeads` is a text on which it errs.
- `DosTime.DosClock.Unix2DosTime`: the cached date is the date computed afresh except on
  day 0 before any other day has been converted, when it is 0; `FirstDayDiffers` shows that
  0 is not the date of that day.
- `D88.RoundTrip`: an image loads back to its tracks if and only if every track is
  well-formed, that is, its sector counts stop the loader behind its last sector and
  each size field is the length of its data. `D88Disk.BigSectorIsLost` is a formatted track
  for which that fails.
- `LogTable.MonotoneIff`: the whole table falls if and only if its base does and ends no
  lower than half of where it starts; `SteepBaseRises` is a falling base whose table rises.
- `Psg.CatchUpIsSteps`: on whole units the catch-up equals the steps it replaces if and only
  if the 32-bit sum does not, by wrapping, forget that a shape stays in its second half;
  `SumForgets` is a case in which it does.
- `Psg.CallsAreSteps`: over any calls the counter is where stepping would have left it a stated
  lag earlier, except that a shape that stays is half a turn behind from a call whose sum forgets
  until it gets to its second half again (`Strayed`). The lag is what unheard calls drop of
  periods that are not whole units: `OddPeriodLags` is such a call.
- `Crtc.HeightsAgreeIff`: when two byte accesses, in either order, leave the height of the word
  access, for every register and every state; `HalvedTwice` reaches from power-on a word and two
  bytes that leave different heights. Their widths always agree.
- `Crtc.EarlyReturnSkipsNothing`: the early return is without effect except over an empty
  vertical range with a scaling mode and a height that is not 0, where the switch would scale
  once more; `SecondTimeReturns` reaches it from power-on.
- `Msm6258Voice.TakeAllAppends`: samples are queued if and only if the ring has room for them;
  `QueueLength` tells how many are left, and `LongRunsOverflow` gives data that overflow it.
- `Msm6258Voice.RestartIff`: the mark for "no interpolation yet" is -1, which is also a
  decoder value, so the interpolation restarts whenever a -1 gets to the front
  (`MinusOneRestarts`); two nibbles after a start put one there (`MinusOneReached`).

## Model

| member | source | states |
|---|---|---|
| `Pcg.Chr16Bijection` | x68k/bg.c:265-267 | The address permutation of the 16x16 cache maps [0,0x8000) one to one onto the even cells below 0x10000; `Chr16Address` is its inverse both ways. |
| `Pcg.StoreKeepsCoherence` | x68k/bg.c:256-267 | Storing a byte and its two nibbles keeps both caches equal to the nibbles of pattern memory, for every address and value. |
| `Layers.SpritePassIsLayer` | x68k/bg.c:300-363 | Painting sprites 127 down to 0 against the priority buffer leaves the pixel of the lowest sprite of the class opaque there, if it improves the column. |
| `Layers.LowestOfClasses` | x68k/bg.c:516-528 | The lowest sprite of all classes is the minimum of the lowest of each of the three passes. |
| `Layers.StackOfFive` | x68k/bg.c:516-528 | The five passes one after another leave the colour and priority of the layer that is in front, given the lowest sprite of each class. |
| `Layers.LineIsFrontToBack` | x68k/bg.c:496-529 | The five layers painted back to front equal the picture read front to back, and the priority is 8 times the lowest opaque sprite of any class, else 0xffff. |
| `Layers.OrderOfLayers` | x68k/bg.c:516-528 | BG0 lies before BG1; a lone sprite of class 3 before both, of class 2 between them, of class 1 behind both. |
| `Layers.SpotRule` | x68k/bg.c:349-359 | A sprite of the pass takes a column whose priority is at least 8 times its number, and no other. |
| `Layers.GlyphRule` | x68k/bg.c:365-390 | A plane takes a column with every nonzero low nibble; with a low nibble 0 only the variant that is not see-through does, on unmarked columns and for a palette bank other than 0. |
| `Layers.FlagBits` | x68k/bg.c:354-356 | Marking a column sets bit 1 of its flags and no other; marked means that bit. |
| `Scanline.Chr16Pixel` | x68k/bg.c:329-347 | With coherent caches the cell a sprite reads is the pattern pixel in raw pattern memory. |
| `Scanline.Chr8Pixel` | x68k/bg.c:260-264 | The same for the 8x8 cache over the first 8 KB of pattern memory. |
| `Scanline.WindowCovered` | x68k/bg.c:402-405 | The tile walk starts at or left of column 16 and reaches the end of the window if and only if TextDotX mod tile size is at most the part of the first tile that is visible; so it always does when TextDotX is a multiple of the tile size. |
| `Scanline.WalkColumn` | x68k/bg.c:400-429 | Pixel j of the k-th tile of the walk is the plane column under its own buffer column, scroll, adjustment and wrap-around included. |
| `Scanline.GlyphOfWalk` | x68k/bg.c:392-470 | What the walk draws there is the plane pixel at ((t-16+scroll-adjust) mod plane, (scroll+line) mod plane). |
| `Scanline.SpriteInBytes` | x68k/bg.c:300-361 | A sprite over every column, from its eight bytes of memory and the bytes of its pattern: position, line, pattern, bank, class, and bits 6 and 7 of the control byte as its flips. |
| `Scanline.MirroredSprite` | x68k/bg.c:329-347 | Changing bit 6 of the control byte mirrors the sixteen columns and changes no other sprite. |
| `Scanline.UpturnedSprite` | x68k/bg.c:329-347 | Changing bit 7 shows the row that is as far from the other end, and changes no other sprite. |
| `Scanline.PlaneInBytes8` | x68k/bg.c:392-430 | A plane of 8x8 tiles over every column, from the two bytes of its map entry and the bytes of the pattern: scroll, flips, bank, window. |
| `Scanline.PlaneInBytes16` | x68k/bg.c:432-470 | The same for 16x16 tiles. |
| `Bg.SpriteUnit.constructor` | x68k/bg.c:43-55 | The power-on state satisfies the invariant: caches coherent, registers masked, planes in range. |
| `Bg.SpriteUnit.Read` | x68k/bg.c:61-86 | The bus reads the byte its address decodes to, 0xff elsewhere. |
| `Bg.SpriteUnit.Write` | x68k/bg.c:101-286 | A write changes the byte at its own address, cut to the bits it keeps, and no other byte the bus can read; a changed control register updates what is derived from it; the caches stay coherent. |
| `Bg.DecodeIs` | x68k/bg.c:61-86 | Which addresses are sprite, control and pattern bytes, and that no others are. |
| `Bg.KeptBits` | x68k/bg.c:113-175 | The bits each of the eight sprite bytes and each control register keeps, bit by bit. |
| `Bg.SpriteUnit.SpriteOnBus` | x68k/bg.c:61-361 | What a sprite shows, from its eight bytes as the bus reads them, high bytes first. |
| `Bg.SpriteUnit.WriteSpriteReg` | x68k/bg.c:113-143 | Only the bits a sprite register has are kept. |
| `Bg.SpriteUnit.WritePattern` | x68k/bg.c:256-267 | A pattern byte reaches memory and both caches, which stay coherent. |
| `Bg.SpriteUnit.WriteBgReg` | x68k/bg.c:146-255 | A changed control register updates exactly the values derived from it. |
| `Bg.SpriteUnit.DerivedIs` | x68k/bg.c:146-206 | In numbers: scroll values of two bytes cut to the plane, tile size by two bits, and which registers set which distance. |
| `Bg.SpriteUnit.PlanesInRegisters` | x68k/bg.c:207-234 | Which bits of register 9 switch the planes on and place their maps at 0x4000 or 0x6000, and which adjustment each plane is drawn with. |
| `Bg.SpriteUnit.Adjustments` | x68k/bg.c:184-206 | The distances between planes and display in pixels and lines, halved towards 0 unless bit 2 of register 17 is set. |
| `Bg.SpriteUnit.WriteScroll` | x68k/bg.c:152-175 | A scroll register pair gives the scroll value masked to the plane size; the other three values stay. |
| `Bg.SpriteUnit.WritePlanes` | x68k/bg.c:207-248 | The plane register places both planes. |
| `Bg.SpriteUnit.WriteMode` | x68k/bg.c:177-206 | Tile size, scroll mask and both adjustments follow the mode registers. |
| `Bg.SpriteUnit.DrawSpriteCells` | x68k/bg.c:349-359 | The sixteen-cell walk in either direction paints each column from its own cell, 0 being transparent. |
| `Bg.SpriteUnit.DrawSpriteRow` | x68k/bg.c:323-360 | A sprite's row is drawn from raw pattern memory with both flips and its palette bank. |
| `Bg.SpriteUnit.DrawSprite` | x68k/bg.c:307-361 | Every column of the buffer is the one before painted with the sprite's spot there, if it is of the class and on the line. |
| `Bg.SpriteUnit.SpriteDrawLine` | x68k/bg.c:300-363 | A whole sprite pass is the layer of its class over every column. |
| `Bg.SpriteUnit.DrawTileCells` | x68k/bg.c:365-390 | Both variants of the inner loop: opaque code or, see-through, opaque cell. |
| `Bg.SpriteUnit.DrawLoopX8` | x68k/bg.c:392-430 | The 8x8 walk draws the plane layer over every column of the buffer, inside its reach the pixel of the plane, outside nothing. |
| `Bg.SpriteUnit.DrawLoopX16` | x68k/bg.c:432-470 | The same for 16x16 tiles. |
| `Bg.SpriteUnit.DrawBg1` | x68k/bg.c:517-519 | The front plane, only in 8x8 mode and when on. |
| `Bg.SpriteUnit.DrawBg0` | x68k/bg.c:521-527 | The back plane; its see-through 16x16 variant takes adjustment 0. |
| `Bg.SpriteUnit.ResetLine` | x68k/bg.c:502-511 | The visible columns start from the backdrop or the text layer with priority 0xffff. |
| `Bg.SpriteUnit.DrawLine` | x68k/bg.c:496-529 | Every visible column is the declarative picture: its priority is that of the lowest opaque sprite of any class, its colour that of the layer in front; on every line that fits the 1600 columns and whose planes end within the text flags. |
| `Bg.LineFits` | x68k/bg.c:392-470 | The planes of any line of up to 1092 pixels do; none does on a line of 1124 or more. |
| `D88.HeaderRoundTrip` | x68k/disk_d88.c:8-21 | A sector header survives its 16 bytes. |
| `D88.HeaderLayout` | x68k/disk_d88.c:8-21 | Which of the sixteen bytes holds which field, little-endian. |
| `D88.SectorLengths` | x68k/disk_d88.c:222-223 | 128 bytes for n = 0, doubled for each n more. |
| `D88.HeaderFields` | x68k/disk_d88.c:117-130 | The total size and the pointer of every track in a written header are the file size and the position at which the second pass writes that track, 0 if empty. |
| `D88.ReadSector` | x68k/disk_d88.c:81-94 | A sector written at a position is read back from there and its count decides whether the loop goes on. |
| `D88.SectorsRoundTrip` | x68k/disk_d88.c:79-94 | A written track is read back sector by sector when its counts end the loop behind its last sector. |
| `D88.ParsedSectors` | x68k/disk_d88.c:79-94 | Any track the loader reads, from any file, ends by its own counts. |
| `D88.LoadedIsWellFormed` | x68k/disk_d88.c:74-96 | Whatever the loader accepts can be saved and loaded again. |
| `D88.TrackRoundTrip` | x68k/disk_d88.c:74-140 | One well-formed track among any others loads back. |
| `D88.RoundTrip` | x68k/disk_d88.c:53-141 | The image loads back to the same tracks, whatever longer file it overwrote, if and only if every track is well-formed. |
| `D88.ImageLayout` | x68k/disk_d88.c:117-140 | Where everything stands in the image: title, size at 28, pointers from 32 on, and at its pointer every sector of a track behind those before it, header and data. |
| `D88.TrackPresent` | x68k/disk_d88.c:74-80 | A track is read exactly when its pointer lies between the header and the size the header gives. |
| `D88.EndsEarly` | x68k/disk_d88.c:68-91 | A file that ends within the header or a sector does not load. |
| `D88Disk.RotationAt` | x68k/disk_d88.c:186-204 | After some ReadID commands the cursor is where counting round the track puts it. |
| `D88Disk.FullRotation` | x68k/disk_d88.c:186-204 | As many ReadID commands as the track has sectors meet each sector once and end where they began. |
| `D88Disk.SeekMoves` | x68k/disk_d88.c:159-172 | Seeking the track under the head changes nothing; another one that has sectors comes under the head at its first sector; any other seek leaves the disk. |
| `D88Disk.ReadIdsRotate` | x68k/fdc.c:284-291 | READ ID of the controller, a seek and a read each time, brings sector k modulo the track length the k-th time, so each sector answers once in a turn. |
| `D88Disk.FoundMoves` | x68k/disk_d88.c:250-319 | A read or write takes the first sector with that very ID and leaves the one behind it under the head. |
| `D88Disk.MissedMoves` | x68k/disk_d88.c:250-319 | One that finds none goes back to the first sector; without a track under the head, or writing to a protected disk, nothing moves. |
| `D88Disk.FormatLays` | x68k/disk_d88.c:207-242 | Every field and byte of the sectors a format lays down, where it puts the head, and that other tracks stay. |
| `D88Disk.StatusBits` | x68k/disk_d88.c:199-203 | The status of a sector from its deleted flag and its error code. |
| `D88Disk.ReadAfterWrite` | x68k/disk_d88.c:250-319 | A write that finds its sector is read back with its bytes and deleted flag; every other sector, field and track stays. |
| `D88Disk.StepKeepsValid` | x68k/disk_d88.c:159-319 | No command takes the cursor off the track under the head. |
| `D88Disk.RunInvariant` | x68k/disk_d88.c:159-319 | Over any sequence of commands the cursor stays on the track under the head and well-formed tracks stay well-formed. |
| `D88Disk.SessionRoundTrip` | x68k/disk_d88.c:53-319 | Whatever image mounts: mount, any session, eject, mount again. The second mount sees what the session left if and only if, on a drive that may write, the tracks are well-formed, as they are when every format fits its fields; on a write-protected drive, which writes no image, if and only if the tracks are those of the first mount. |
| `D88Disk.ProtectedKeepsTracks` | x68k/disk_d88.c:159-319 | A write-protected drive keeps its tracks over any session without a format. |
| `D88Disk.ProtectedFormatIsLost` | x68k/disk_d88.c:107-247 | Whatever image is mounted write-protected, there is a format that is carried out and lost at eject. |
| `D88Disk.LoadedIsValid` | x68k/disk_d88.c:53-104 | Whatever the loader accepts is a valid disk at rest. |
| `D88Disk.BigSectorIsLost` | x68k/disk_d88.c:222-242 | A track formatted with one 64 KB sector, whose 16-bit size field is 0, does not load back. |
| `D88Drive.Append` | x68k/disk_d88.c:84-93 | A sector hung behind the last one extends the list by that sector. |
| `D88Drive.LoadTrack` | x68k/disk_d88.c:79-94 | The list built from a file holds exactly the sectors parsed from it. |
| `D88Drive.LoadSector` | x68k/disk_d88.c:81-94 | One turn of that loop: the sector the parser finds, in a new node behind the last one, or failure when the file ends early. |
| `D88Drive.FormatTrack` | x68k/disk_d88.c:222-242 | The list a format builds holds exactly the formatted sectors. |
| `D88Drive.Drive.SetFD` | x68k/disk_d88.c:53-104 | Succeeds exactly when the image loads; the lists then hold its tracks, and a failure leaves the drive write-protected. |
| `D88Drive.Drive.Seek` | x68k/disk_d88.c:159-172 | Moves the head to a track that has sectors, resets the cursor only on a change, and returns the ID at the cursor. |
| `D88Drive.Drive.ReadID` | x68k/disk_d88.c:186-204 | Returns ID and status at the cursor and moves it on, round the list. |
| `D88Drive.Drive.ReadDiag` | x68k/disk_d88.c:276-296 | Transfers the sector at the cursor and moves it on. |
| `D88Drive.Drive.Read` | x68k/disk_d88.c:250-273 | Data and status of the first sector with the ID, the cursor behind it; otherwise failure and the cursor at the start. |
| `D88Drive.Drive.Write` | x68k/disk_d88.c:299-319 | Overwrites that sector in its node and nothing else, unless the drive is empty or write-protected. |
| `D88Drive.Drive.WriteID` | x68k/disk_d88.c:207-247 | Replaces the list of a track by the formatted one and puts the head there. |
| `D88Drive.Drive.LayOut` | x68k/disk_d88.c:117-130 | The first pass: pointers and total size of the header. |
| `D88Drive.Drive.Eject` | x68k/disk_d88.c:107-156 | The image written is the serialized disk; a write-protected drive writes none; the track table ends empty. |
| `AdpcmB.PutBitLaw` | fmgen/opna.cpp:774-784 | Masking one bit into a cell sets that bit and leaves the other seven. |
| `AdpcmB.StoredBit` | fmgen/opna.cpp:772-784 | After some planes of a byte are stored, exactly their bits of that byte have changed. |
| `AdpcmB.StoreLoad` | fmgen/opna.cpp:772-836 | In 8-bit mode the memory is 2^18 independent bytes: a load gives the last byte stored at that address. |
| `AdpcmPlayer.RunValid` | fmgen/opna.cpp:858-874 | From any decoder in range, the decoder stays in its ranges over any number of calls. |
| `AdpcmPlayer.Playing` | fmgen/opna.cpp:879-949 | Before the limit or the stop address is met, after n calls the player is n nibbles past the start, modulo 2^32, and has decoded exactly the nibbles before it. |
| `AdpcmPlayer.Stops` | fmgen/opna.cpp:927-946 | Playback that is not endless plays for exactly the nibbles of its one or two legs and then stops, having decoded the nibbles of the first leg from the start address and those of the second from address 0; it leaves the stop address in 18 bits, or 0 where that is the limit. |
| `AdpcmPlayer.StraightCalls` | fmgen/opna.cpp:927-946 | From a start below the stop with no limit between, those are (stop-start)/8 calls in 1-bit mode, stop-start in 8-bit mode. |
| `AdpcmPlayer.LoopsBelowLimit` | fmgen/opna.cpp:945-946 | With an aligned limit strictly between start and stop it plays for ever and stays below the limit. |
| `AdpcmPlayer.NeverEnds` | fmgen/opna.cpp:927-946 | From any address from which the limit comes first, as it also does from 0, it never stops. |
| `AdpcmPlayer.StopsIff` | fmgen/opna.cpp:927-946 | For all start, stop and limit addresses: it ends if and only if the limit does not come before the stop address both from the start and from 0. |
| `AdpcmPlayer.EndlessIs` | fmgen/opna.cpp:637-661 | In terms of the registers: the limit is a multiple of 64 below the stop address, and the start is below the limit or not below the stop. |
| `AdpcmPlayer.LimitOnTheWay` | fmgen/opna.cpp:945-946 | A playback that never ends, with the limit between start and stop. |
| `AdpcmPlayer.LimitAfterWrap` | fmgen/opna.cpp:927-946 | Another one, with the limit and the stop address below the start: the address first wraps to 0. |
| `AdpcmPlayer.RepeatsFromStart` | fmgen/opna.cpp:927-946 | In repeat mode every playback that is not endless comes back, on its one or two legs, to the state it started in, decoder included, and so goes on periodically for ever. |
| `AdpcmPlayer.UploadedByte` | fmgen/opna.cpp:760-805 | Consecutive byte writes are read back byte by byte. |
| `AdpcmPlayer.ByteInMemory` | fmgen/opna.cpp:809-836 | Which cell, or which bit of which plane, holds a byte in either mode. |
| `AdpcmPlayer.NibbleDue` | fmgen/opna.cpp:882-907 | The high nibble first, in either mode. |
| `AdpcmPlayer.ReadBack` | fmgen/opna.cpp:760-836 | In both modes what is written at an address is read there and every other byte stays. |
| `AdpcmPlayer.NextAccess` | fmgen/opna.cpp:769-803 | An access moves on by 16 or 2; the stop address wraps it in 22 bits, the limit address sends it to 0. |
| `AdpcmPlayer.AdpcmUnit.SettingBits` | fmgen/opna.cpp:614-636 | Which control bits choose the mode and repeating. |
| `AdpcmPlayer.UploadedNibble` | fmgen/opna.cpp:760-920 | What is uploaded in 8-bit mode is played high nibble first, then low, from every start address, round the end of the memory too. |
| `AdpcmPlayer.WritesAreUpload` | fmgen/opna.cpp:760-805 | A sequence of write accesses in 8-bit mode is such an upload, as long as it does not meet the limit; the stop address does not matter, being the same cell. |
| `AdpcmPlayer.WrittenIsPlayed` | fmgen/opna.cpp:760-920 | So what a sequence of accesses has written is what is played. |
| `AdpcmPlayer.AdpcmUnit.WriteRAM` | fmgen/opna.cpp:760-805 | A byte write in either mode, and the address after it. |
| `AdpcmPlayer.AdpcmUnit.ReadRAM` | fmgen/opna.cpp:809-855 | The byte at the address in either mode, and the address after it. |
| `AdpcmPlayer.AdpcmUnit.DecodeADPCMBSample` | fmgen/opna.cpp:858-874 | One step keeps both ranges, moves the sample up for nibbles below 8 and down for the others, by at most 15/8 of the step width, narrows the width for magnitudes 0..3 and widens it for 4..7; the result is that of the decoder function of the other laws. |
| `AdpcmPlayer.DecoderMoves` | fmgen/opna.cpp:858-874 | Those facts for every sample, width and nibble, and that no product or sum leaves 32 bits. |
| `AdpcmPlayer.OppositeNibbles` | fmgen/opna.cpp:858-874 | Nibbles that differ in the top bit move the sample by the same amount in opposite directions, clamping aside. |
| `AdpcmPlayer.DecoderTables` | fmgen/opna.cpp:860-872 | Both tables by magnitude: the eighths of the width the sample moves by and the 64ths the width changes to, with the clamps. |
| `AdpcmPlayer.LargerMagnitude` | fmgen/opna.cpp:860-872 | A larger magnitude moves the sample strictly further, in both directions, and from 3 on leaves a strictly larger width, clamping aside. |
| `AdpcmPlayer.AdpcmUnit.FetchNibble` | fmgen/opna.cpp:882-907 | The nibble due in either mode, and the address behind it. |
| `AdpcmPlayer.AdpcmUnit.ReadRAMN` | fmgen/opna.cpp:879-949 | One call equals one step of the player of which the laws above speak. |
| `AdpcmPlayer.AdpcmUnit.SetADPCMBReg` | fmgen/opna.cpp:614-695 | What each control and address register changes, field by field, and that memory, address, decoder and buffer stay unless that register is one that changes them. |
| `Envelope.EgCalcKeepsInv` | fmgen/fmgen.cpp:546-596 | One envelope step keeps the level, the table indices and the phase conditions; off stays off. |
| `Envelope.PrepareKeepsInv` | fmgen/fmgen.cpp:378-427 | Taking over changed parameters in any phase keeps them. |
| `Envelope.KeyKeepsInv` | fmgen/fmgeninl.h:51-75 | Key-on and key-off keep them. |
| `Envelope.ApplyKeepsInv` | fmgen/opm.cpp:271-313 | So does every register write; only key-on leaves off. |
| `Envelope.RunKeepsInv` | fmgen/fmgen.cpp:378-596 | Over any interleaving: level in [0,1023], output min(tl+level,0x3ff)*8, table indices in range, a released key means release or off, off is level 955. |
| `Envelope.EgCalcCourse` | fmgen/fmgen.cpp:430-596 | Samples alone take the phases in one order; a sustain that runs out goes off without a release, the attack falls to level 0, the sustain begins at its own level, and in between everything behind the attack only gets quieter. |
| `Envelope.AttackEndsIff` | fmgen/fmgen.cpp:546-558 | An attack ends if and only if its rate is 2 or more. |
| `Envelope.AttackEndsByRegister` | fmgen/fmgen.cpp:430-436 | An attack begun by key-on runs at the rate of the attack register and ends if and only if that register is not 0. |
| `Envelope.AttackLevel` | fmgen/fmgen.cpp:546-558 | One attack step takes off 1 and as many sixteenths of the level as the table says, down to 0, where the attack ends. |
| `Envelope.DecayLevel` | fmgen/fmgen.cpp:559-572 | One step behind the attack takes its table entry until the next phase, which begins at its own level. |
| `Envelope.StepTable` | fmgen/fmgen.cpp:72-106 | The steps of every rate, row by row. |
| `Envelope.EightSteps` | fmgen/fmgen.cpp:72-106 | Eight steps attenuate in proportion to 4, 5, 6 and 7, doubled from each four fast rates to the next. |
| `Envelope.RunKeepsDriven` | fmgen/fmgen.cpp:378-497 | Over any interleaving: between changes of parameters each phase runs at the rate of its own register and the key scale of the note. |
| `Envelope.PrepareTakes` | fmgen/fmgen.cpp:378-427 | Taking over parameters sets the rate of the phase that is on and the level of the total level, and leaves phase and level. |
| `Envelope.PrepareAfterKeyOn` | fmgen/fmgen.cpp:378-427 | Right after a key-on it leaves the rate. |
| `Envelope.KeyOnAlike` | fmgen/fmgeninl.h:51-65 | A key-on begins the same attack whatever the registers of the later phases hold. |
| `Envelope.AlikeStep` | fmgen/fmgen.cpp:378-596 | In every phase a sample and a take-over of parameters do not depend on the registers of the other phases. |
| `Envelope.AlikeWhileItLasts` | fmgen/fmgen.cpp:546-596 | So two operators that differ in those only have the same levels as long as the phase lasts. |
| `Envelope.KeyOffReleases` | fmgen/fmgeninl.h:68-75 | A key-off releases from the level there is, at the release rate; from level 955 on it switches off. |
| `Envelope.NothingAnew` | fmgen/fmgeninl.h:51-75 | A key event that changes nothing, and a take-over without a change, leave the operator. |
| `Envelope.RegisterFields` | fmgen/opm.cpp:271-313 | What each register write puts where. |
| `Envelope.TableFields` | fmgen/opm.cpp:273-277 | The sustain levels of the table, release rate and detune. |
| `Envelope.ResetIs` | fmgen/fmgen.cpp:308-325 | The state a reset leaves. |
| `Envelope.KeyOnStarts` | fmgen/fmgeninl.h:51-65 | Key-on takes over the latched total level and starts the attack where the release has got to; at the fastest rates it is at level 0 at once. |
| `Envelope.ReleaseProgress` | fmgen/fmgen.cpp:464-497 | In release every second envelope step attenuates, whatever is written meanwhile. |
| `Envelope.ReleaseCalc` | fmgen/fmgen.cpp:546-596 | A released step brings the operator nearer to silence, unless it is silent already. |
| `Envelope.Silence` | fmgen/fmgen.cpp:464-596 | A released operator is off once as many steps have passed as its level and step parity allow. |
| `Envelope.SilenceAfterKeyOff` | fmgen/fmgeninl.h:68-75 | From any reachable state, 2049 envelope steps after key-off the operator is off. |
| `Envelope.Operator.ShiftPhase` | fmgen/fmgen.cpp:430-497 | The switch with its fall-through enters the phase the functions describe. |
| `Envelope.Operator.DoEgCalc` | fmgen/fmgen.cpp:546-596 | One step in place equals the function of the laws and keeps the invariant. |
| `Envelope.Operator.DoPrepare` | fmgen/fmgen.cpp:378-427 | The same for the parameter take-over. |
| `Envelope.Operator.DoKeyOn` | fmgen/fmgeninl.h:51-65 | The same for key-on. |
| `Envelope.Operator.DoKeyOff` | fmgen/fmgeninl.h:68-75 | The same for key-off. |
| `Envelope.Operator.SetParameter` | fmgen/opm.cpp:271-313 | The same for the register writes. |
| `Envelope.Operator.Reset` | fmgen/fmgen.cpp:308-325 | Reset re-establishes the invariant from any parameters in range. |
| `LogTable.EntryMagnitude` | fmgen/fmgen.cpp:335-346 | Every odd entry is the negation of the even one before it, for the whole halved table. |
| `LogTable.MonotoneIff` | fmgen/fmgen.cpp:335-346 | Magnitudes fall over the whole table if and only if the base falls and ends at half its start or above. |
| `LogTable.SteepBaseRises` | fmgen/fmgen.cpp:335-346 | A base that falls from 8 to 1, whose table rises where the halves begin. |
| `LogTable.HalfPeriod` | fmgen/fmgen.cpp:335-361 | Half a period on, the sample changes sign, for every even attenuation. |
| `LogTable.MagnitudeIs` | fmgen/fmgen.cpp:335-346 | 256 steps halve a base entry, rounding down, as often as there are. |
| `LogTable.SampleIs` | fmgen/fmgen.cpp:327-361 | One sample in closed form. |
| `LogTable.NeverLouder` | fmgen/fmgen.cpp:518-525 | More attenuation is never louder, at any phase, over the end of the table too. |
| `LogTable.MakeTable` | fmgen/fmgen.cpp:327-361 | The loops build these tables. |
| `LogTable.LogToLin` | fmgen/fmgen.cpp:518-525 | The lookup the operators use gives the attenuated sample these laws speak of, and silence behind the table. |
| `DosTime.DaysInjective` | win32api/dosio.c:538-549 | No two dates have the same day number. |
| `DosTime.DateFields` | win32api/dosio.c:550-559 | Packed date fields never overlap from 1980 to 2107. |
| `DosTime.MonthTotals` | win32api/dosio.c:482-493 | The days before each month by the usual table, one more behind February in a leap year. |
| `DosTime.FromMarch` | win32api/dosio.c:482-493 | From March on five months have 153 days. |
| `DosTime.YearTotals` | win32api/dosio.c:538-543 | 365 days a year and one for every fourth, from 1970 and from 1980. |
| `DosTime.FourYears` | win32api/dosio.c:540-540 | Four years are 1461 days wherever they begin. |
| `DosTime.DosDateIs` | win32api/dosio.c:535-559 | The date a time is converted to, in closed form, for every civil date up to 2107. |
| `DosTime.DosTimeIs` | win32api/dosio.c:526-528 | The time fields of every hour, minute and second. |
| `DosTime.UnixTimeIs` | win32api/dosio.c:599-629 | The time that fields of any value are converted to, in closed form, in 32 bits. |
| `DosTime.TimeRoundTrip` | win32api/dosio.c:526-528 | The packed time gives back the even second of the day. |
| `DosTime.UnixRoundTrip` | win32api/dosio.c:509-630 | Every time from 1980 to the end of 32 bits survives the trip through DOS date, time and hundredths. |
| `DosTime.DosRoundTrip` | win32api/dosio.c:509-630 | Every date and second of the DOS range that fits 32 bits survives the trip the other way. |
| `DosTime.DosClock.Unix2DosTime` | win32api/dosio.c:509-568 | For any history of calls the answer is the one computed afresh, with the exact exception of day 0 before any other day, when the date is 0. |
| `DosTime.FirstDayDiffers` | win32api/dosio.c:535-559 | Day 0 packs to 0x21, which a clock that has converted nothing does not give for it. |
| `DosTime.DosClock.FreshDate` | win32api/dosio.c:538-559 | The open-ended year loop ends and gives the one date with that day number. |
| `DosTime.DosClock.Dos2UnixTime` | win32api/dosio.c:585-630 | Nothing for an empty date field, otherwise the answer computed afresh, whatever was cached. |
| `DosTime.DosClock.FreshSeconds` | win32api/dosio.c:610-627 | The year sum and the month sum. |
| `DosTime.DosClock.UnixThroughDos` | win32api/dosio.c:509-630 | For any history of calls, every time from 1980 to the end of 32 bits survives both conversions with their caches. |
| `DosTime.DosClock.DosThroughUnix` | win32api/dosio.c:509-630 | So does every date and second of the DOS range the other way. |
| `ShiftJis.ParityOfRun` | win32api/dosio.c:298-326 | At every position of every text, forward lexing (Shift_JIS, Annex 1 of JIS X 0208:1997, with the wider lead range of the code) gives a trail byte exactly when the run of lead-range bytes before it is odd. |
| `ShiftJis.LeadRange` | win32api/dosio.c:298-326 | The sixty bytes of the lead range. |
| `ShiftJis.Lexed` | win32api/dosio.c:298-326 | Forward lexing, character by character: one byte or two in front of a text are a character and leave its roles. |
| `ShiftJis.SecondIff` | win32api/dosio.c:313-326 | A byte trails if and only if its predecessor leads and does not trail. |
| `ShiftJis.Kanji2nd` | win32api/dosio.c:313-326 | 1 exactly for trail bytes. |
| `ShiftJis.Kanji1st` | win32api/dosio.c:298-311 | Agrees with forward lexing about lead bytes if and only if some byte up to the position is not in the lead range. |
| `ShiftJis.FirstByteLeads` | win32api/dosio.c:298-311 | A text whose first byte leads although every byte up to it is in the lead range, where kanji1st errs. |
| `Msm6258.DecoderKeeps` | x68k/adpcm.c:197-203 | Every nibble keeps the output in 12 bits and the step on a table row. |
| `Msm6258.DecoderLaw` | x68k/adpcm.c:197-203 | Output and step after a nibble by the tables, with their clamps. |
| `Msm6258.InitTable` | x68k/adpcm.c:66-89 | The difference table, from the 49 step sizes. |
| `Msm6258.EntryIs` | x68k/adpcm.c:66-89 | An entry is the odd multiple of an eighth of the step size that its magnitude names, negative for the upper nibbles. |
| `Msm6258.RateExact` | x68k/adpcm.c:217-234 | After n nibbles the accumulator is below the clock rate and the samples emitted are ceil((n*rate - start)/clock), exactly. |
| `Msm6258.InterpolateConstant` | x68k/adpcm.c:22-25 | A constant signal comes out unchanged at every ratio. |
| `Msm6258.InterpolateLinear` | x68k/adpcm.c:22-25 | Values on a line come out on it, rounded to the nearest. |
| `Msm6258.InterpolateIsCubic` | x68k/adpcm.c:22-25 | For all values and ratios the result is, to within 2, the cubic of Lagrange through the four values. |
| `Msm6258.InterpolateFits` | x68k/adpcm.c:22-25 | For decoder values no intermediate leaves 32 bits. |
| `Msm6258.FilterBounded` | x68k/adpcm.c:141-147 | With the volume in 0..16 the filter state stays within 138000 for every input and every sum fits 32 bits. |
| `Msm6258.FilterLaw` | x68k/adpcm.c:141-147 | What the filter puts out and keeps. |
| `Msm6258.FilterConstant` | x68k/adpcm.c:139-150 | A constant passes the filter at the level it has without it. |
| `Msm6258.SideLaw` | x68k/adpcm.c:139-161 | What enters the delay line, with and without the filter. |
| `Msm6258.RunBounded` | x68k/adpcm.c:141-166 | So over any run of samples. |
| `Msm6258.OutputIsDelay` | x68k/adpcm.c:152-179 | The output stage is a delay of two samples and a clamp to 16 bits. |
| `Msm6258Voice.RingCell` | x68k/adpcm.c:222-231 | Values stored in the ring land in order behind the write pointer; other cells keep what they held. |
| `Msm6258Voice.TakeAllCounts` | x68k/adpcm.c:197-235 | While playing, a run of nibbles moves the write pointer of the ring by exactly ceil((n*rate - start)/clock). |
| `Msm6258Voice.StoreAppends` | x68k/adpcm.c:131-231 | Until it overflows the ring is a queue: storing appends and disturbs nothing. |
| `Msm6258Voice.DueAllCounts` | x68k/adpcm.c:197-235 | The samples a run of nibbles makes are as many as the rate asks for while playing, none otherwise. |
| `Msm6258Voice.TakeAllAppends` | x68k/adpcm.c:197-235 | A run of nibbles appends exactly its samples to both queues, silenced by the pan bits, and disturbs nothing, if and only if the ring has room for all of them. |
| `Msm6258Voice.QueueLength` | x68k/adpcm.c:222-232 | What is left to read is the sum modulo the ring: an overflow loses whole turns. |
| `Msm6258Voice.LongRunsOverflow` | x68k/adpcm.c:217-235 | At every setting that plays, long enough runs overflow the ring; no code prevents it. |
| `Msm6258Voice.SampleFits` | x68k/adpcm.c:219-221 | The interpolation ratio never leaves the interval, so no sample overflows. |
| `Msm6258Voice.MixReads` | x68k/adpcm.c:131-139 | Frames take the queues from the front, left and right exchanged, and repeat the last sample when they are empty. |
| `Msm6258Voice.MixIsSideRun` | x68k/adpcm.c:124-187 | Each output side is the filter and delay run over what its queue delivers. |
| `Msm6258Voice.VoiceDelivers` | x68k/adpcm.c:117-235 | Until the ring overflows, from nibbles to frames: what each side puts out is the filter and delay run over what was queued before followed by the panned samples of every nibble, each once and in order. |
| `Msm6258Voice.SoundedAt` | x68k/adpcm.c:124-187 | With at most one window full, every frame is found where it was put in the caller's wrapping buffer. |
| `Msm6258Voice.FrameLaw` | x68k/adpcm.c:176-187 | A frame is right, then left, delayed and cut to 16 bits, or silence when stopped. |
| `Msm6258Voice.Voice.WriteOne` | x68k/adpcm.c:197-235 | A nibble: decoder, accumulator, and the samples due stored on both channels by the pan bits. |
| `Msm6258Voice.TakeFields` | x68k/adpcm.c:197-215 | Decoder and interpolation values after a nibble, field by field. |
| `Msm6258Voice.SampleAt` | x68k/adpcm.c:217-221 | The k-th sample of a nibble, at its own ratio, cut to 12 bits. |
| `Msm6258Voice.PanBits` | x68k/adpcm.c:222-231 | Which pan bit silences which buffer, and where the write pointer goes. |
| `Msm6258Voice.ClockRates` | x68k/adpcm.c:31-32 | The eight clock rates as twelve times 8 or 4 MHz over their dividers. |
| `Msm6258Voice.Voice.Command` | x68k/adpcm.c:246-258 | Start clears the decoder only when nothing played; it always restarts the interpolation. |
| `Msm6258Voice.RestartIff` | x68k/adpcm.c:205-215 | A value fills the whole interpolation if and only if the mark -1 is at its front, or nothing would change by pushing it. |
| `Msm6258Voice.MinusOneRestarts` | x68k/adpcm.c:205-215 | A -1 that the decoder puts out restarts the interpolation four values later, with no start command. |
| `Msm6258Voice.MinusOneReached` | x68k/adpcm.c:197-215 | Nibbles 15 and 3 after a start make it put out -1. |
| `Msm6258Voice.Voice.DataOut` | x68k/adpcm.c:259-264 | Two nibbles, the low one first; ignored when stopped. |
| `Msm6258Voice.Voice.Update` | x68k/adpcm.c:117-191 | Mixer state, caller's buffer and fill count after any number of frames. |
| `Msm6258Voice.Voice.SetPan` | x68k/adpcm.c:313-320 | A change of divider restarts the accumulator; bounds hold over rate changes. |
| `Msm6258Voice.Voice.SetClock` | x68k/adpcm.c:327-334 | The same for the clock select. |
| `FmTimer.AdvanceTwice` | fmgen/fmtimer.cpp:59-92 | One counter does not notice how the time is cut, and fires in the parts if and only if it fires in the whole. |
| `FmTimer.AdvanceIs` | fmgen/fmtimer.cpp:59-92 | A counter goes down by the time and is refilled by the fewest periods that make it positive; whole periods leave it. |
| `FmTimer.CallLaw` | fmgen/fmtimer.cpp:59-92 | When each timer fires, in units to the microsecond, and what a fire raises. |
| `FmTimer.RunIsOneCall` | fmgen/fmtimer.cpp:59-92 | Any way of cutting the time ends in the counters, status bits, interrupts and events of one call; the calls of the code are below 32768 us while timer A runs and below 524288 us while timer B does, from where the shifted time leaves 32 bits. |
| `FmTimer.ClocksConserved` | fmgen/fmg_wrap.cpp:77-82 | Ten times the microseconds delivered and the change of the carry are the clocks that came in. |
| `FmTimer.ClockChunks` | fmgen/fmg_wrap.cpp:77-82 | Two ways of cutting the same clocks end in the same timers, events and carry. |
| `FmTimer.NextEventExact` | fmgen/fmtimer.cpp:97-102 | A call reports an event exactly from the answered time on; the answer is 0 if and only if both timers are off, and then no call ever does. |
| `FmTimer.Timer.SetTimerControl` | fmgen/fmtimer.cpp:17-31 | Loads, stops and status resets; a counter is nonzero exactly when its load bit is set. |
| `FmTimer.Timer.SetTimerA` | fmgen/fmtimer.cpp:38-45 | The period from its ten bits, leaving a running counter. |
| `FmTimer.Timer.SetTimerB` | fmgen/fmtimer.cpp:50-54 | The period of timer B. |
| `FmTimer.Timer.Count` | fmgen/fmtimer.cpp:59-92 | One call equals the step of the laws and keeps an enabled counter off 0. |
| `FmTimer.Timer.FlagBits` | fmgen/fmtimer.cpp:74-87 | Which control bits let a fire raise its status. |
| `FmTimer.Timer.Count2` | fmgen/fmg_wrap.cpp:77-82 | The carry between calls. |
| `FmTimer.Timer.GetNextEvent` | fmgen/fmtimer.cpp:97-102 | The unsigned minimum is the least time at which a call fires. |
| `FmTimer.Refill` | fmgen/fmtimer.cpp:71-72 | The catch-up loop ends in 1..period, congruent to where it began. |
| `Psg.FoldAdd` | fmgen/psg.cpp:323-329 | Folding the counter early does not change where a count lands, for shapes that swing and shapes that stay. |
| `Psg.StepsIsFold` | fmgen/psg.cpp:323-329 | Any number of steps is one fold of the unbounded count. |
| `Psg.FoldIs` | fmgen/psg.cpp:323-329 | Where a count past the top lands, by its low 29 or 30 bits. |
| `Psg.LevelIs` | fmgen/psg.cpp:321-324 | A step adds the period, and a level is that of the position 24 bits up. |
| `Psg.ForgetsIs` | fmgen/psg.cpp:305-311 | The coarse sum, and when it forgets. |
| `Psg.CatchUpIsSteps` | fmgen/psg.cpp:305-312 | On whole units the catch-up equals the four steps of every sample it replaces, multiple turns included, if and only if the wrapped sum does not forget the turn. |
| `Psg.SumForgets` | fmgen/psg.cpp:305-312 | 4096 samples at period 0x4000000: the sum wraps to 0 and a shape that stays is at its start again; the counter has strayed. |
| `Psg.LagBounded` | fmgen/psg.cpp:305-312 | In general the coarse count never runs ahead and lags by at most 255+252n. |
| `Psg.CallsAreSteps` | fmgen/psg.cpp:219-357 | For every period and all calls, with the envelope heard, unheard or idle: the counter is where stepping all the time would have left it a stated lag earlier if and only if it has not strayed, and half a turn before that otherwise. |
| `Psg.NotStrayed` | fmgen/psg.cpp:305-312 | The two shapes that swing never stray, and the others only in an unheard call long enough for the sum to leave 32 bits. |
| `Psg.LagRange` | fmgen/psg.cpp:305-312 | That lag is at most 255+252n summed over the unheard calls of n samples, and 0 when period and counter are whole units. |
| `Psg.WholeCallsAreSteps` | fmgen/psg.cpp:219-357 | On whole units calls of all kinds leave the counter exactly where stepping would if and only if it has not strayed. |
| `Psg.OddPeriodLags` | fmgen/psg.cpp:305-312 | One unheard sample at period 63: the counter stays at 0, where stepping gives 252. |
| `Psg.RowIsAy` | fmgen/psg.cpp:118-137 | The two halves of every table row are the first two cycles of the AY-3-8910 shape with those continue, attack, alternate and hold bits. |
| `Psg.ShapeTable` | fmgen/psg.cpp:118-137 | The sixteen shapes, cycle by cycle: down, up, low or high. |
| `Psg.CounterReadsAy` | fmgen/psg.cpp:322-329 | Reading the table by the folded counter gives the unbounded AY-3-8910 envelope after every number of steps; the index is below 64. |
| `Psg.EnvelopeUnbroken` | fmgen/psg.cpp:219-357 | From a write of the shape on, for every period and all calls, a heard call continues that envelope wherever the calls before it have brought it: at the time stepped, less the lag, which is 0 for periods that are multiples of 64; a counter that has strayed continues it half a turn late. |
| `Psg.MakeEnvelopTable` | fmgen/psg.cpp:115-138 | The ramps fill the table, the running byte being below 32 at every use. |
| `Psg.Unit.SetReg` | fmgen/psg.cpp:145-200 | Shape restarts the counter; the period registers set the step. |
| `Psg.Unit.Mix` | fmgen/psg.cpp:219-357 | The levels of a call are those of the AY-3-8910 envelope, and the counter after it that of the call's kind. |
| `Psg.Unit.ChannelBits` | fmgen/psg.cpp:224-243 | Which register and mask bits make a call sound and listen to the envelope. |
| `Crtc.WriteStores` | x68k/crtc.c:257-264 | Every access leaves the written bytes cut to the bits their register keeps, early return or not. |
| `Crtc.MaskTable` | x68k/crtc.c:266-430 | The bits every register keeps. |
| `Crtc.ByteStored` | x68k/crtc.c:238-430 | A byte access stores exactly the kept bits of its own register and leaves every other byte. |
| `Crtc.EarlyReturnSkipsNothing` | x68k/crtc.c:264 | Taking the early return changes nothing and skips nothing, with the exact exception of an empty vertical range under a scaling mode with a height other than 0. |
| `Crtc.SecondTimeReturns` | x68k/crtc.c:264-321 | Reached from power-on: half height set twice leaves 256, where the switch run a second time would leave 128. |
| `Crtc.WriteKeepsInStep` | x68k/crtc.c:248-431 | Every access keeps width and height those of the ranges that are not empty. |
| `Crtc.SizesInBytes` | x68k/crtc.c:274-372 | The sizes of ranges that are not empty, from the bytes of the registers and the two mode bits. |
| `Crtc.GeometryFromPowerOn` | x68k/crtc.c:248-431 | From power-on, over every sequence of byte and word accesses, the width is 8 times the horizontal range and the height the vertical range scaled by the mode bits. |
| `Crtc.BytesAreWord` | x68k/crtc.c:238-431 | Two byte accesses in either order end as the word access: same registers, same size of every range not empty in the end. |
| `Crtc.HeightsAgreeIff` | x68k/crtc.c:238-431 | For every register, state and order of the bytes: the exact condition for the same height as the word access. Over a range empty in the end it depends on the range in between, the mode bits, the height and the early returns. |
| `Crtc.WidthsAgree` | x68k/crtc.c:238-431 | Two byte accesses in either order always leave the width of the word access, for every register and every state: the high bytes of the horizontal pairs are cut to 0. |
| `Crtc.EmptyRangeScalesEachTime` | x68k/crtc.c:264-321 | Over an empty vertical range every access to a vertical register that runs the switch scales the height it finds; one that returns early leaves it. |
| `Crtc.EmptyRangeKeepsWidth` | x68k/crtc.c:266-301 | Over an empty horizontal range every access leaves the width. |
| `Crtc.HalvedTwice` | x68k/crtc.c:302-321 | From power-on, three accesses, of which the last as a word leaves height 256 and as two bytes 128. |
| `Crtc.Controller.constructor` | x68k/crtc.c:16-30 | The power-on values agree with cleared registers. |
| `Crtc.Controller.Write16` | x68k/crtc.c:248-431 | One access in place equals the function of the laws; line step, mode, scroll positions and interrupt line agree with the registers after it. |
| `Crtc.Controller.Write8` | x68k/crtc.c:238-246 | A byte access is the word access on its lane. |
| `Crtc.Controller.DerivedValues` | x68k/crtc.c:274-426 | Every derived value in the bytes of the registers: ranges, line step, interrupt line and all scroll positions. |
| `Crtc.ByteAddress` | x68k/crtc.c:238-250 | Addresses repeat every 64 bytes; the pair is the even address below. |

## Left out

- Bg.SpriteUnit.DrawLine: asks that the line fits the 1600 columns of the line buffers and that every plane that is on ends within the 1124 columns of the text flags (x68k/tvram.c:22), past which the code would write.
- Bg.SpriteUnit.Write: redraw marks (TVRAM_SetAllDirty, TextDirtyLine, Draw_DrawFlag) and BG_CHREND, which only decides about them, are not modelled.
- Palette, CRTC start positions, width and line number are fields the sprite unit reads; how the palette is computed is not part of this model.
- D88Drive.Drive.SetFD: models the evident intent "append behind the previous sector"; as written the previous-sector pointer is uninitialised (x68k/disk_d88.c:76, 93) and, when formatting, cleared on every turn (x68k/disk_d88.c:224). Files are byte sequences, allocation succeeds, a failed load says nothing about the partial lists, one object is one drive.
- D88Drive.Drive.Eject: the cursor it leaves behind is stale (x68k/disk_d88.c:107-156); runs begin at a fresh mount and end at the next eject.
- D88Drive.Drive.Read: asks that the sector found holds as many bytes as its ID says, since the code copies that many without looking; the same holds for writing and for ReadDiag.
- D88_GetCurrentID only reads what ReadID reads.
- AdpcmPlayer.AdpcmUnit.SetADPCMBReg: level, rate and flag registers, status bits, the granularity-0 branch of the OPNB and the interpolation of the mix are not part of the unit.
- Envelope.RunKeepsInv: SSG envelopes, the EGStep divider, phase generator and LFO are left out; the step counter is unbounded here, of which only the low three bits matter.
- LogTable.MakeTable: base entries and sine logarithms come from floating-point formulas and are parameters with the stated constraints.
- DosTime.DosClock.Dos2UnixTime: month fields 14 and 15 read past the month table and are excluded; time_t is not negative.
- Msm6258Voice.Voice.Update: DMA requests (also those of ADPCM_PreUpdate) and the floating-point volume curve are left out; the volume is any value in 0..16. Buffer positions count frames. The step sizes of the difference table come from a floating-point power and are parameters.
- FmTimer.Timer.Count: the CSM key-on of timer A is left out. The carry starts below 10; CurCount is not initialised (fmgen/fmg_wrap.cpp:53-56).
- Psg.Unit.Mix: tone and noise generators and the sum of the channels are left out.
- Crtc.Controller.Write16: raster copy, the mode port, fast clear, HLINE_TOTAL, VLINE_TOTAL and HSYNC_CLK (a division by a line total that may be 0), the adjustments BG_HAdjust and BG_VLINE, window changes and CRTC_Init are left out. The height that an empty range doubles again and again is not cut to 32 bits.
- The video controller registers, GVRAM, the processor, DMA and interrupt controllers, the front end and the file system layer are not part of this model.
