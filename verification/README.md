# OS101: models and proofs

OS101 is a small operating system with its own C library. This project models the parts of it that
finite tests cannot settle, in Dafny, and proves what they are for. Objects that change in place are
classes with the same fields, and loops are loops; each is proved against functions on values, and the
properties are proved of those. There are five groups.

**Numbers as text.** `Powers`, `Digits` and `Limbs` carry the arithmetic; `BigInt` is the fixed-capacity
big integer, `Doubles` the finite doubles as bit patterns with a correctly rounded multiply and divide,
`Decimals` the exact comparison of a double with a literal. `Guess`, `DecToDouble`, `DecFromDouble` and
`DecRound` are the conversions, `RoundTrip` the seventeen-digit law, `Sticky` and `Strtod` the reader,
`Emit` and `FloatText` the printer. `StrtodRight` says when what the reader reports is right, and
`StrtodMisread` where it is not. The ends of this group are `DecToDouble.DecToDouble` (correct rounding
of every literal, with the error analysis of the first guess), `StrtodRight.RightIff` and
`StrtodMisread.AlwaysRightIff` (when the same holds for literals of any length), `Emit.LayOut` (the text
denotes the correctly rounded number) and `FloatText.PrintAndRead` (`%.17g` and `strtod` are inverse, on
characters).

**The disk filesystem.** `Bytes`, `Bitmap` and `DiskLayout` are the formats, `Volume` what an image means,
`DiskSteps` what each phase of an operation does to it, `DiskFs` the filesystem over a device whose
every sector write leaves an image behind, and `DiskRuns` whole runs. `DiskFs.DiskFs.WriteFile` and
`Remove` refine a map from paths to bytes and say what a mount finds after any prefix of their writes:
a new file is there when its last sector is, a removal when its first is. `DiskRuns.Run` joins the two, with
power failures among the events of a run, and says of each step whether it takes effect.

**The heap allocator.** `Tiling` says what a well-formed heap is, `HeapSteps` what each change of a header
or a link does to it, `Malloc` is the allocator with an arbitrary `sbrk`.

**Memory and processes.** `FrameTree` has page tables as trees of frames, `Paging` the frame allocator and
the address spaces, `Processes` the queues and every operation on them, up to arbitrary runs:
`Processes.System.Run` says what each event does and, from the frames there are at the start, when a run
neither stops nor loses a frame.

**FAT32, sorting and time.** `FatChains` is chain surgery on the table, `FatTable` the table with its
copies and the contents along a chain, `FatNames` and `FatDirs` short names and directory records,
`FatTree` the whole volume as a tree over disjoint chains, `Fat32` reading and writing files by path,
with exactly when a write succeeds; `FatFull` and `FatSpoilt` are two volumes on which it goes wrong.
`Sorting` is `qsort`, `Calendar` the day numbers, `WallClock` the clock chip and the cached time.
`Results` holds the two result types.

Where the code and its documentation disagree the model follows the code:

- `strtod` says that clamping the exponent does not change the answer (os101-libc/src/stdlib.c:498-500,
  523-524). It does for literals with leading zeros and for clamped exponents that meet 99600 digits
  before the point, and ERANGE is set for a zero beyond the limit. `StrtodRight.RightIff` says exactly when
  value and ERANGE are right; `StrtodMisread.ZeroReadAsInfinity`, `ZeroOutOfRange` and `ClampedMisread` are
  texts for which they are not.
- Zeros in front also use up the 780 digits that are kept. `StrtodMisread.AlwaysRightIff`: all literals
  within the limit that have z zeros in front are read right if and only if z is at most 12 or at least 724;
  of a single one in between `StrtodRight.RightIff` says when it is.
- A shrinking `realloc` does not merge the tail it cuts off with a free block above it
  (os101-libc/src/malloc.c:391-394). `Malloc.Heap.Realloc` says exactly when free neighbours arise.
- A request that rounds up to 2^63 or more is passed to the kernel as a negative number
  (os101-libc/src/malloc.c:231). If the heap has that much, the kernel takes it back and `grow` does not
  notice: `Malloc.Heap.AskKernel`, `Malloc.HugeRequest`. `Malloc.Heap.Answerable` is the exact condition
  for the allocator's promises.
- Mapping a page that is mapped already loses the frame it had (kernel/src/memory.rs:188-192). A break that
  has been here before is said to be backed already (kernel/src/process.rs:500-501), but the pages between
  the old and the new break are mapped again (kernel/src/process.rs:502-506), after a shrink and also after
  a grow that ran out of frames part-way. The frame partition has a part for the frames lost so.
  `Processes.System.Sbrk` says which they are and that there are none exactly when the old break stands at
  the highest page the heap ever had; `Processes.RegrowLoses` loses one from boot on. An image loses frames
  likewise if it has a page twice, or one that its heap comes to. `Processes.System.Run` loses none when no
  heap is shrunk, images are not so, and there are as many frames at the start as its events need.
- A clock whose tick count has gone back is said to re-synchronise rather than give a wild answer
  (kernel/src/rtc.rs:151-152). It reads the hardware, but keeps the wild answer when that is later:
  `WallClock.StepBackAnswer` says exactly when, `WallClock.StepBackAtNewYear` is a case.
- `make_short_name` is said to be collision-free (kernel/src/fat32.rs:828-831). `FatNames.MakeShortName` says
  exactly when it is not, and `FatNames.CrowdCollides` has a directory for every name.
- A full FAT32 directory grows by one cluster without a check against the limit on reading it
  (kernel/src/fat32.rs:308-323,273-275). `Fat32.OutcomeReadable` says exactly when a successful write makes
  its directory unreadable, `Fat32.OutgrownUnread` what that means, and `FatFull.FullDirectory` is one.
- A file of more than 262144 clusters is refused when its first 262144 have been written
  (kernel/src/fat32.rs:542-543,435-437). If there was a file of the name its bytes are gone by then:
  `Fat32.Outcome` and `Fat32.Spoils` say exactly when and what is left, `FatSpoilt.RefusedAndSpoilt` is a case.
  A chain made so long cannot be cut by more than 262144 clusters either: `Fat32.Abandons` and
  `Fat32.AbandonedLoses` say when a later write breaks it, and that it breaks no other.

Reading conventions. A finite non-negative double is its bit pattern, and `Value` its real value; the two
floating-point operations of the code are the exact result, rounded to nearest even. Machine integers are
unbounded, with their width written out where it matters: limbs, 64-bit products and sizes, saturating and
wrapping counts. A crash is a prefix of the device's sector writes, each whole. Heap memory is one cell per
address, a header field or a link standing in the cell of its first byte. `ghost` parameters hand a
method the chain or the space that its caller knows it works on.

`dafny verify dfyconfig.toml` checks everything.

## Model

| member | source | states |
|---|---|---|
| `BigInt.Big.SetU64` | os101-libc/src/decimal.c:43-50 | the limbs hold exactly the 64-bit number, without a leading zero limb |
| `BigInt.Big.MulSmall` | os101-libc/src/decimal.c:56-70 | multiplication by a limb is exact modulo the capacity of 320 limbs, so exact when the product fits, and then leaves no leading zero limb |
| `BigInt.Big.AddSmall` | os101-libc/src/decimal.c:72-86 | addition of a limb is exact modulo the capacity and keeps the number normalised when nothing is dropped |
| `BigInt.Big.Shl` | os101-libc/src/decimal.c:88-121 | a left shift multiplies by the power of two, modulo the capacity; shifts of zero or less change nothing |
| `BigInt.Big.MulPow5` | os101-libc/src/decimal.c:125-140 | multiplies by 5^k, exactly when the product fits |
| `BigInt.Big.MulPow10` | os101-libc/src/decimal.c:142-149 | multiplies by 10^k, exactly when the product fits; k of zero or less changes nothing |
| `BigInt.Big.DivmodSmall` | os101-libc/src/decimal.c:151-165 | the limbs become the quotient and the result is the remainder; the quotient is normalised |
| `BigInt.Big.Cmp` | os101-libc/src/decimal.c:167-180 | the sign of the difference of the two numbers |
| `BigInt.Big.FromDigits` | os101-libc/src/decimal.c:182-201 | the number a decimal string spells, exactly when it fits |
| `BigInt.Big.ToDigits` | os101-libc/src/decimal.c:204-237 | the decimal digits of a number of at most 810 and `cap` digits, most significant first, without a leading zero; the rest of the buffer is untouched |
| `Doubles.NextUnits` | os101-libc/src/decimal.c:258-271 | the value `mant * 2^exp2` of consecutive bit patterns differs by one gap, across exponents and from subnormals to normals, and gaps never shrink going up |
| `Doubles.NearestInBracket` | os101-libc/src/decimal.c:527-550 | which side of the midpoint a number lies on, and evenness on it, decides the nearest double between two neighbours |
| `Doubles.NearestUnique` | os101-libc/src/decimal.c:430-563 | roundTiesToEven (section 4.3.1 of IEEE 754-2008) determines one double |
| `Doubles.RoundIsNearest` | os101-libc/src/decimal.c:411-428 | the rounding used for the multiplications and divisions of the code is to nearest even, and overflows from half a unit above the largest double on |
| `Decimals.Integers` | os101-libc/src/decimal.c:366-387 | comparing mant * 2^exp2 with 0.digits * 10^exp10 is comparing two integers in which only positive exponents are left |
| `Decimals.FitsCapacity` | os101-libc/src/decimal.c:366-387 | no intermediate of that comparison reaches 320 limbs, for every argument the reader passes |
| `Decimals.CmpScaled` | os101-libc/src/decimal.c:366-387 | the comparison is exact |
| `Decimals.CmpDouble` | os101-libc/src/decimal.c:389-400 | so is the comparison of a double with a literal |
| `Guess.Pow10Bits` | os101-libc/src/decimal.c:402-405 | each entry of the table up to 10^22 is that power of ten, exactly |
| `Guess.RoundError` | os101-libc/src/decimal.c:411-428 | a result that did not overflow is within half a gap of the exact value |
| `Guess.ScalePow10` | os101-libc/src/decimal.c:411-428 | scaling by 10^k in steps of at most 10^22 keeps a relative error below 96 * 2^-53 plus two smallest subnormals, overflow standing for anything near the top |
| `Guess.GuessIsNear` | os101-libc/src/decimal.c:488-500 | so the first guess is at most 299 doubles away from the place of the literal |
| `DecToDouble.Midpoint` | os101-libc/src/decimal.c:528-549 | twice the significand plus one, one binary place lower, is exactly halfway to the next double |
| `DecToDouble.Walk` | os101-libc/src/decimal.c:496-552 | from any start within 299 doubles the walk over neighbouring patterns ends, within its 300 steps, at the correctly rounded double, or at infinity above the largest |
| `DecToDouble.FastPath` | os101-libc/src/decimal.c:476-486 | an integer up to 2^53 times or over an exact power of ten is correctly rounded by the one operation |
| `DecToDouble.HugeOverflows` | os101-libc/src/decimal.c:456-461 | a non-zero leading digit with a decimal exponent above 400 is above the largest double |
| `DecToDouble.TinyRoundsToZero` | os101-libc/src/decimal.c:462-465 | with an exponent below -400 it rounds to zero |
| `DecToDouble.DecToDouble` | os101-libc/src/decimal.c:430-563 | for every literal of up to 1500 digits and every exponent the result is the nearest double, ties to even; above the largest double it is infinity with status 1, and a non-zero value that rounds to zero has status -1 |
| `DecFromDouble.WholeValue` | os101-libc/src/decimal.c:273-306 | the integer that is converted, with the decimal point put back, is the double |
| `DecFromDouble.LengthBound` | os101-libc/src/decimal.c:273-306 | it has at most 774 digits |
| `DecFromDouble.DecFromDouble` | os101-libc/src/decimal.c:273-306 | the exact decimal expansion of every finite double, in at most 774 digits without leading or trailing zero |
| `DecRound.HalfEvenIsNearest` | os101-libc/src/decimal.c:308-360 | no integer is nearer than the half-even quotient, and one that is as near is odd |
| `DecRound.RoundsUp` | os101-libc/src/decimal.c:308-360 | the first digit cut off, then the rest, then the parity of the last digit kept decide exactly as round-half-even does |
| `DecRound.DecRound` | os101-libc/src/decimal.c:308-360 | the digits become the half-even rounding to `keep` places, for `keep` of zero and below too, with a carry out of the leading digit moved into the exponent |
| `RoundTrip.SeventeenthDigit` | os101-libc/src/decimal.c:308-360 | half a unit of the seventeenth digit is less than half the gap below the double |
| `RoundTrip.NearestClose` | os101-libc/src/decimal.c:430-563 | a number nearer than half the gap below a double reads as that double |
| `RoundTrip.LargestRoundsDown` | os101-libc/src/decimal.c:308-360 | the largest double does not grow when rounded to seventeen digits, so it does not overflow on the way back |
| `RoundTrip.PrintAndRead` | os101-libc/src/stdio.c:298-393 | exact digits, rounded to seventeen, read back: the identity on every non-zero finite double |
| `Sticky.BoundaryAvoids` | os101-libc/src/stdlib.c:450-468 | no double and no midpoint of two lies strictly inside a unit of the 780th digit |
| `Sticky.SameRounding` | os101-libc/src/stdlib.c:450-517 | so two numbers inside one such unit round alike |
| `Sticky.CutInUnit` | os101-libc/src/stdlib.c:450-517 | cutting any literal to 780 digits and putting a one for a non-zero tail stays inside the unit of the 780th digit |
| `Sticky.CutKeepsEnough` | os101-libc/src/stdlib.c:450-468 | with at most twelve zeros in front 768 digits that count are kept, as many as BoundaryAvoids needs |
| `StrtodRight.KeptRoundsAlike` | os101-libc/src/stdlib.c:450-517 | rounding what is kept is rounding the literal, status included, however long it is, unless between 13 and 723 zeros stand in front of more than 780 digits |
| `Strtod.CollectDigits` | os101-libc/src/stdlib.c:450-468 | the scan keeps the first 780 digits, counts those before the point, and notes a non-zero tail |
| `Strtod.ReadExponent` | os101-libc/src/stdlib.c:478-513 | the working exponent, or a number on its side of the limits of 400: that of the literal with an exponent below -100000 clamped |
| `Strtod.ParseDecimal` | os101-libc/src/stdlib.c:450-539 | the part of the text taken, the sign, the value and ERANGE, for every text: by the working exponent infinity, zero, or the correctly rounded value of the kept digits |
| `StrtodRight.RightIff` | os101-libc/src/stdlib.c:450-539 | for every literal the value is right if and only if: above the limit of 400 the literal exceeds the largest double, told from its leading zeros, point and exponent; with a clamped exponent it does, or zero is what that gives; below the limit always; and within it unless between 13 and 723 zeros stand in front of more than 780 digits and a midpoint of doubles, or the largest, lies between the literal and the digits kept. ERANGE is right too except for a zero beyond the limits |
| `StrtodRight.AlikeIff` | os101-libc/src/stdlib.c:518-539 | two numbers round alike if and only if no midpoint of doubles, nor the largest double, lies between them, on it counting by evenness |
| `StrtodRight.TooLargeIs` | os101-libc/src/stdlib.c:523-528 | exceeding the largest double in terms of leading zeros, point, exponent and, for 309, the digits |
| `StrtodMisread.AlwaysRightIff` | os101-libc/src/stdlib.c:450-538 | every text with z zeros in front of its digits, within the limit of 400, is read as the nearest double if and only if z is at most 12 or at least 724: for each z in between there is a text that is not |
| `StrtodMisread.ZeroReadAsInfinity` | os101-libc/src/stdlib.c:523-528 | the documentation of the limit is wrong for leading zeros: "0e401" is zero and is reported as infinity |
| `StrtodMisread.ZeroOutOfRange` | os101-libc/src/stdlib.c:529-532 | and "0e-402" is read as zero with a range error |
| `StrtodMisread.ClampedMisread` | os101-libc/src/stdlib.c:498-510 | a one and 99999 zeros and "e-100200" means 10^-201 and is read as a tenth |
| `Strtod.Strtod` | os101-libc/src/stdlib.c:383-539 | blanks, sign, and a decimal literal from the start of a text, "0x" without a hexadecimal digit behind it included; "inf", "nan" and hexadecimal numbers are recognised and left to others |
| `Emit.WindowDenotes` | os101-libc/src/stdio.c:244-278 | the digits of a window, zeros outside it, with the point behind the integer part, denote the number they came from |
| `Emit.RoundedIsNearest` | os101-libc/src/stdio.c:354-379 | digits rounded to `keep` are the nearest integer of units of that place, even on a tie |
| `Emit.RoundedSignificantly` | os101-libc/src/stdio.c:335-352 | and for %g the number rounded to its significant digits |
| `Emit.LayOut` | os101-libc/src/stdio.c:298-393 | what %f, %e and %g print of a finite double denotes that double rounded half to even at the place asked for, in the form and with the exponent the conversion promises, stripped of zeros unless # is given |
| `Emit.StripZeros` | os101-libc/src/stdio.c:381-388 | stripping the zeros of %g leaves the number and only the fraction shorter, with no zero at its end |
| `FloatText.Sink.Put` | os101-libc/src/stdio.c:63-74 | a character is added to the output, whether it goes to a full or short buffer or to the console in stages |
| `FloatText.Sink.Finish` | os101-libc/src/stdio.c:90-98 | a buffer holds what fits and a terminator; the console has everything |
| `FloatText.ExponentSuffix` | os101-libc/src/stdio.c:280-296 | sign and at least two digits, three from a hundred on |
| `FloatText.ExponentDigitsValue` | os101-libc/src/stdio.c:280-296 | those digits spell the exponent |
| `FloatText.EmitDecimal` | os101-libc/src/stdio.c:244-278 | sign, integer part, point, fraction and suffix, padded to the width left, right or with zeros behind the sign |
| `FloatText.EmitFloat` | os101-libc/src/stdio.c:298-393 | the text of any double under any flags, width and precision |
| `FloatText.TextReads` | os101-libc/src/stdlib.c:450-513 | the text of a layout is one whole literal and means what the layout denotes |
| `FloatText.PrintAndRead` | os101-libc/src/stdio.c:298-393 | every finite double printed with %.17g, either case and any sign or point flags, is read back by strtod as itself, the text used up, no range error |
| `Bitmap.GetAfterPut` | kernel/src/diskfs.rs:314-330 | setting one bit changes that block and no other; blocks outside the bitmap read as used and are not written |
| `Bitmap.MarkRun` | kernel/src/diskfs.rs:332-336 | exactly the blocks of a run get the mark |
| `Bitmap.SpanCovers` | kernel/src/diskfs.rs:306-308 | the sector span covers the bytes and is no larger than it must be |
| `Bitmap.FindRun` | kernel/src/diskfs.rs:342-362 | the lowest run of free blocks of that length, or none exists |
| `DiskLayout.FreshIff` | kernel/src/diskfs.rs:424-438 | a device can be formatted exactly when it has between 8 and 959 * 32768 blocks |
| `DiskLayout.SuperblockRoundTrip` | kernel/src/diskfs.rs:440-508 | a geometry that passes the checks is parsed from its encoding |
| `DiskLayout.EntryRoundTrip` | kernel/src/diskfs.rs:540-591 | a writable entry is decoded from its slot as it was |
| `DiskLayout.DecodeWritable` | kernel/src/diskfs.rs:540-572 | whatever a slot holds, what is decoded from it can be written back |
| `Volume.DataPhase` | kernel/src/diskfs.rs:875-889 | data written into blocks that are free or belong to `p` disturbs no other file |
| `Volume.BitmapPhase` | kernel/src/diskfs.rs:891-906 | nor does rewriting the bitmap |
| `Volume.DirPhase` | kernel/src/diskfs.rs:976-995 | nor does rewriting the directory sector of p's slot |
| `Volume.FilesSet` | kernel/src/diskfs.rs:838-929 | with the three phases done exactly one file of the map has been set |
| `DiskSteps.MixedSafe` | kernel/src/diskfs.rs:957-972 | any mixture of the old and the new bitmap sectors leaves every live entry's blocks marked |
| `DiskSteps.DataSafe` | kernel/src/diskfs.rs:875-889 | while the data goes down every sector leaves a sound volume on which all other paths read as before |
| `DiskSteps.CreateAtomic` | kernel/src/diskfs.rs:875-928 | while a new file is written, a mount after any sector but the last finds the old directory and files, and after the last, the directory's, the new ones; the bitmap is between the two |
| `DiskSteps.RemoveAtomic` | kernel/src/diskfs.rs:931-954 | while one is removed, a mount after any sector finds the directory and the files without it: the first sector decides |
| `DiskSteps.NewExtent` | kernel/src/diskfs.rs:891-906 | the bitmap sectors a new file takes are those of the run it marks, which with its blocks and the directory sector gives the number of sectors written |
| `DiskSteps.EntryGone` | kernel/src/diskfs.rs:939-945 | with the entry of `p` off the disk, `p` is gone and nothing else |
| `DiskFs.Device.Write` | kernel/src/diskfs.rs:193-200 | sectors are written in order, each whole: the trail of images is what a power failure can leave |
| `DiskFs.DiskFs.FlushBitmap` | kernel/src/diskfs.rs:957-972 | the bitmap on the disk becomes the one in memory, sector by sector |
| `DiskFs.DiskFs.FlushDirEntry` | kernel/src/diskfs.rs:976-995 | the four slots of one sector become those in memory, in one write |
| `DiskFs.DiskFs.Allocate` | kernel/src/diskfs.rs:846-868 | the lowest room for the file, its own old blocks counted free, or there is none |
| `DiskFs.DiskFs.ReadFile` | kernel/src/diskfs.rs:807-836 | reads what the map holds, with the source's errors for anything else |
| `DiskFs.DiskFs.WriteFile` | kernel/src/diskfs.rs:838-929 | sets one key of the map from paths to bytes and changes no other, or is refused for a stated reason and changes nothing; the file has the lowest room there is, in its old slot or the first free one; after every prefix of its sector writes a mount reads every other path as before; a new path is there exactly when the last of a stated number of sectors is down, and before that a mount finds the old map; disk and memory agree and numbers stay above every entry's |
| `DiskFs.DiskFs.Remove` | kernel/src/diskfs.rs:931-954 | removes one key and gives back its blocks; after its first sector and every later one a mount finds a sound volume with the new map |
| `DiskFs.DiskFs.Format` | kernel/src/diskfs.rs:622-655 | makes an empty, sound volume; the first sector stays what it was until the superblock goes into it, and from then on a mount finds the empty volume |
| `DiskFs.DiskFs.Mount` | kernel/src/diskfs.rs:658-689 | memory is what the disk holds and the next number is above every live entry's; on a sound image the map is the same |
| `DiskFs.DiskFs.DecodeAll` | kernel/src/diskfs.rs:671-683 | every slot decoded and the highest number found |
| `DiskFs.DiskFs.Usage` | kernel/src/diskfs.rs:736-752 | bytes in use are 4096 for every marked block of the data area |
| `DiskRuns.UsageIsNeeded` | kernel/src/diskfs.rs:736-752 | when nothing has leaked that is the sum over live files of their lengths in blocks, rounded up |
| `DiskRuns.RoomIsSpace` | kernel/src/diskfs.rs:846-868 | when nothing has leaked, room is exactly where no other file has a block, so "disk full" is exact |
| `DiskRuns.Run` | kernel/src/diskfs.rs:622-954 | from a new volume on, through any writes, removals, remounts and power failures at any sector of a new write or a removal: each step takes effect exactly when it should (a whole one when it is not refused, a new write cut short when all its sectors are down, a removal when its first is) and makes of the volume what it says, up to the slot, the run and the bitmap; the files are those that the operations that took effect put there and the disk is coherent and sound; without power failures no space leaks |
| `DiskRuns.UsageCovers` | kernel/src/diskfs.rs:736-752 | the space in use is never less than the live files need |
| `Tiling.Covered` | os101-libc/src/malloc.c:13-60 | every address of the heap belongs to exactly one block |
| `Tiling.PayloadsApart` | os101-libc/src/malloc.c:13-60 | payloads in use are 16-byte aligned, inside the heap and pairwise disjoint |
| `Tiling.AllFreeIsOne` | os101-libc/src/malloc.c:155-175 | with nothing in use and no free neighbours the heap is one free block |
| `Malloc.NeededFor` | os101-libc/src/malloc.c:289-301 | room for the payload and the header, a multiple of 16 and at least 32, less than a block over; 0 exactly when it does not fit 64 bits |
| `Malloc.Heap.ListInsert` | os101-libc/src/malloc.c:116-126 | the block becomes the head of the doubly linked list and no cell but links changes |
| `Malloc.Heap.ListRemove` | os101-libc/src/malloc.c:128-140 | the block is taken out, wherever it is in the list, and no cell but links changes |
| `HeapSteps.NextFixed` | os101-libc/src/malloc.c:144-151 | with the block above told this one's size every header of the tiling is right again, and no payload has changed |
| `Malloc.Heap.Release` | os101-libc/src/malloc.c:155-175 | the block is free and merged with its free neighbours; every payload in use is untouched, and no free neighbours remain if there were none |
| `Malloc.Heap.Split` | os101-libc/src/malloc.c:180-195 | the block keeps less than 32 bytes over, its tail is free, and its first bytes are untouched |
| `Malloc.Heap.Trim` | os101-libc/src/malloc.c:199-221 | handing pages back to the kernel keeps the heap well formed and every payload |
| `Malloc.Heap.AskKernel` | os101-libc/src/malloc.c:224-239 | more memory at the break, or a refusal; for a request that is negative as a signed number an answer is a lower break |
| `Malloc.HugeRequest` | os101-libc/src/malloc.c:230-235 | malloc(2^64 - 8192) is such a request: the kernel is asked to take 4096 bytes back |
| `Malloc.Heap.Grow` | os101-libc/src/malloc.c:224-273 | a free block of the size needed, merged below, or nothing has changed |
| `Malloc.Heap.FindFit` | os101-libc/src/malloc.c:275-286 | the first block on the list that is large enough: all before it are smaller; 0 exactly if no free block is |
| `Malloc.Heap.Malloc` | os101-libc/src/malloc.c:303-332 | a new block in use, large enough and wasting less than a block, with every other payload untouched; NULL with ENOMEM changes nothing; a free block that fits is used without the kernel |
| `Malloc.Heap.Free` | os101-libc/src/malloc.c:334-349 | exactly that block is no longer in use; NULL or a block already free changes nothing |
| `Malloc.ProductChecked` | os101-libc/src/malloc.c:351-357 | dividing the truncated product back detects exactly the products that do not fit 64 bits |
| `Malloc.Heap.Calloc` | os101-libc/src/malloc.c:351-365 | like malloc of the product, zeroed, and refused when the product does not fit; a free block that fits is used |
| `Malloc.Heap.Realloc` | os101-libc/src/malloc.c:367-417 | keeps the first min(old, new) bytes on all three paths and every other payload; in place exactly when the block, or it and the free one above, is large enough; a free block that fits means success; no free neighbours arise, except in a cut whose block has a free one above: then exactly |
| `Malloc.CutExposed` | os101-libc/src/malloc.c:391-394 | that exception is real: cutting a block below a free one leaves two free neighbours |
| `Malloc.Heap.FindAligned` | os101-libc/src/malloc.c:461-470 | where the aligned payload goes, leaving nothing or at least a whole block in front |
| `Malloc.Heap.AlignedAlloc` | os101-libc/src/malloc.c:419-481 | a payload aligned to any power of two with the room asked for, everything else untouched; a failure is EINVAL exactly for an alignment above 16 that is no power of two, and no failure when a free block fits with the slack asked for |
| `FrameTree.IndexesIdentify` | kernel/src/memory.rs:168-231 | the nine-bit indexes of a page identify it |
| `FrameTree.OneParent` | kernel/src/memory.rs:168-231 | a frame of the trees has one parent entry |
| `FrameTree.ReachableIsOwn` | kernel/src/memory.rs:352-365 | whatever a page translates to belongs to the root it was translated from: no frame is reachable from two spaces |
| `FrameTree.LeafDecides` | kernel/src/memory.rs:207-224 | the permission in effect is that of the leaf, because every table entry above allows everything |
| `FrameTree.LeafMaps` | kernel/src/memory.rs:188-192 | setting a leaf makes that page translate to the frame and no other page anywhere to anything new |
| `FrameTree.HangTable` | kernel/src/memory.rs:194-206 | a new table under an empty entry changes no translation |
| `FrameTree.UnderIsOwned` | kernel/src/memory.rs:374-410 | the frames found by walking a space are exactly those it owns |
| `FrameTree.SpaceGone` | kernel/src/memory.rs:374-416 | removing one space leaves all other spaces as trees with the frames they had |
| `Paging.Memory.CarveContiguous` | kernel/src/memory.rs:103-125 | a run of frames never carved before, inside a usable region; there is one exactly when some region from the cursor on has room for it |
| `Paging.Memory.AllocateFrame` | kernel/src/memory.rs:138-145 | a frame from the free list or a new one: nobody else's; exactly when the supply, of both kinds together, is not empty, and then it is one less |
| `Paging.Memory.FreeFrame` | kernel/src/memory.rs:128-130 | the frame is on the free list; free, owned, kernel, lost and held frames partition those carved |
| `Paging.Memory.AllocDma` | kernel/src/memory.rs:485-496 | a contiguous run of new frames, enough for the bytes, the kernel's from then on; there is one exactly when some bytes are asked for and a region from the cursor on has room for them |
| `Paging.Memory.SupplyIsRest` | kernel/src/memory.rs:56-147 | frames that can be had, frames of spaces and frames lost are together all there are: a number that no operation but a driver's changes |
| `Paging.Memory.CreateAddressSpace` | kernel/src/memory.rs:334-346 | a new root that maps nothing; every other space is as it was |
| `Paging.Memory.ActiveReachesOwn` | kernel/src/memory.rs:352-365 | with a space in the user slot a user page reaches exactly what that space maps, always one of its own frames; with none, nothing |
| `Paging.Memory.MapPage` | kernel/src/memory.rs:168-231 | the page translates to the frame with the flags given and every other page of every space as before; a replaced frame, and only that, is lost |
| `Paging.Memory.MapUserPage` | kernel/src/memory.rs:253-276 | the same with a fresh frame; out of memory changes nothing, and comes only when no frame is left; three frames are enough |
| `Paging.Memory.Collect` | kernel/src/memory.rs:374-410 | the walk lists every frame below a table once |
| `Paging.Memory.DestroyAddressSpace` | kernel/src/memory.rs:374-416 | every frame of the space goes onto the free list exactly once, and no other space changes |
| `Processes.WakingSplits` | kernel/src/process.rs:767-780 | waking moves processes from one queue to the other and loses none |
| `Processes.RetainedCount` | kernel/src/process.rs:785-787 | retaining removes exactly the processes with the pid |
| `Processes.System.WakeOnWindow` | kernel/src/process.rs:767-780 | the sleepers on that window join the run queue in order; the others sleep on |
| `Processes.System.Dispatch` | kernel/src/process.rs:684-714 | the head of the run queue becomes current and its space active |
| `Processes.System.Resume` | kernel/src/process.rs:715-720 | back in the kernel no user space is active |
| `Processes.System.YieldCurrent` | kernel/src/process.rs:722-740 | the current process goes to the end of the run queue with the state it left |
| `Processes.System.SleepOnWindow` | kernel/src/process.rs:745-763 | or to the sleep queue with its window |
| `Processes.System.FreeProcessMemory` | kernel/src/process.rs:582-594 | the pid's space, and nothing else, is given back; a second call does nothing |
| `Processes.System.ExitCurrent` | kernel/src/process.rs:796-817 | the dying process is gone from queues and spaces and all its frames are free again; a fault does the same |
| `Processes.System.Terminate` | kernel/src/process.rs:785-794 | the pid is gone wherever it was, and its frames can be had again, each once |
| `Processes.System.LoadPages` | kernel/src/process.rs:288-291 | the pages are mapped as asked until no frame is left; the frames lost are those the pages translated to before, none exactly if none was mapped; three frames a page are enough |
| `Processes.System.SpawnIntoNewSpace` | kernel/src/process.rs:624-645 | a new pid with the pages asked for mapped as asked, or nothing: a failed load gives back every frame; other spaces are as they were; no frame is lost when the pages differ; three frames a page and one are enough, and a stop means that none is left |
| `Processes.System.PushRunQueue` | kernel/src/process.rs:557-575 | a fresh pid, in the run queue and in the spaces |
| `Processes.System.Sbrk` | kernel/src/process.rs:486-530 | the old break is returned and the new pages are mapped, within the limits of the heap; out of them nothing changes; a refusal changes no break and means that no frame is left; the pages mapped up to then stay; other spaces are as they were; the frames lost are those the new pages translated to, and none is exactly when the old break stands at the highest page the heap ever had; three frames a page are enough |
| `Processes.HeapGrown` | kernel/src/process.rs:496-519 | the heap's pages below its high-water mark stay mapped and those above it unmapped, whether a grow succeeds or fails part-way |
| `Processes.RegrowLoses` | kernel/src/process.rs:496-519 | from boot on a machine with eight frames: grow, shrink and grow again by one page and a frame is lost |
| `Processes.System.RunSchedulerOnce` | kernel/src/process.rs:684-720 | one turn of the scheduler: the head of the queue makes exactly these calls, each doing to queues, spaces, breaks, mappings and lost frames what it should, and gives up the processor. With the frames its calls need, counted before the turn, the kernel does not stop and no heap is left part-grown. A turn loses no frame unless it shrinks its heap, runs out of frames while growing it, or loads an image with a page twice or inside the heap |
| `Processes.System.Run` | kernel/src/process.rs:684-817 | so does every run: exactly these events happen, drivers' contiguous allocations included; each live pid in exactly one place, spaces exactly those of the live pids, frames partitioned. With the frames its events need, counted before the run, the kernel does not stop and no grow is cut short; a stop means that an event found fewer when all before it had happened, and that none is left; if moreover no heap is shrunk and no image has a page twice or inside the heap, no frame is lost. Without drivers the frames that can be had, are in spaces and are lost are together as many as before |
| `Processes.System.EachOnce` | kernel/src/process.rs:92-113 | at a kernel-loop point a live pid is once in the run or the sleep queue, under its own space |
| `Sorting.ScanDown` | os101-libc/src/stdlib.c:660-662 | the pivot in front stops the downward scan inside the run |
| `Sorting.PartAround` | os101-libc/src/stdlib.c:654-668 | nothing larger is left below the pivot and nothing smaller above it, all accesses inside the run |
| `Sorting.Partition` | os101-libc/src/stdlib.c:634-668 | the same with the median of three in front |
| `Sorting.LeftDone` | os101-libc/src/stdlib.c:672-675 | with the left part sorted, everything up to the pivot is finished |
| `Sorting.RightDone` | os101-libc/src/stdlib.c:676-679 | and likewise on the right |
| `Sorting.InsertionSort` | os101-libc/src/stdlib.c:682-692 | a short run is left sorted and rearranged only |
| `Sorting.DepthBound` | os101-libc/src/stdlib.c:670-679 | the side recursed into is less than half of the run, so a budget less by one is enough for it |
| `Sorting.QuickSort` | os101-libc/src/stdlib.c:630-693 | for every total preorder the run is a sorted rearrangement and nothing outside it changes; every call passes on a smaller budget, and the logarithm of the length is enough, so calls nest no deeper than that |
| `Sorting.QSort` | os101-libc/src/stdlib.c:695-702 | the array's first elements are sorted and a permutation, the rest untouched |
| `Calendar.YearFromCoordinates` | kernel/src/rtc.rs:505-511 | the correction terms find the year of every day of an era, the last day of leap years and of the era included |
| `Calendar.DateRoundTrip` | kernel/src/rtc.rs:484-517 | civil_from_days undoes days_from_civil on every date of the proleptic Gregorian calendar |
| `Calendar.NumberRoundTrip` | kernel/src/rtc.rs:484-517 | every integer is the number of a real date, and days_from_civil gives it back |
| `Calendar.NextDayNextNumber` | kernel/src/rtc.rs:484-496 | the next date under the leap-year rule has the next number, and 1970-01-01 has zero |
| `Calendar.NumbersInOrder` | kernel/src/rtc.rs:501-517 | a larger number is a later date |
| `WallClock.DateTimeRoundTrip` | kernel/src/rtc.rs:173-217 | a date and time of a year in 0..65535 survives the trip through milliseconds |
| `WallClock.MillisRoundTrip` | kernel/src/rtc.rs:173-217 | and milliseconds the trip through a date and time |
| `WallClock.MonthsCarry` | kernel/src/rtc.rs:191-217 | month 13 is January of the next year |
| `WallClock.DaysCarry` | kernel/src/rtc.rs:191-217 | day 32 is the day after the 31st: that many next dates on |
| `WallClock.WeekdayTurns` | kernel/src/rtc.rs:167-171 | the weekday advances with the date, from a Thursday at the epoch |
| `WallClock.PartsFit` | kernel/src/rtc.rs:112-122 | with the fields clamped nothing leaves 64 bits, whatever is passed |
| `WallClock.DecodeIsValid` | kernel/src/rtc.rs:399-420 | whatever the registers hold, a real date and time comes out and no byte overflows |
| `WallClock.DecodesReported` | kernel/src/rtc.rs:399-453 | in BCD or binary, with 12 or 24 hours, what a working chip reports is decoded as the moment it means |
| `WallClock.CarriedGrows` | kernel/src/rtc.rs:226-241 | a base carried forward never decreases with the ticks |
| `WallClock.Clock.Resync` | kernel/src/rtc.rs:243-274 | the larger of hardware and committed time; afterwards the state derives what was answered |
| `WallClock.Clock.UnixMillis` | kernel/src/rtc.rs:149-159 | the answer for any tick count, a lower one than at the last synchronisation included; never below what is already committed |
| `WallClock.Clock.Run` | kernel/src/rtc.rs:149-159 | over any run of non-decreasing ticks the answers do not decrease, whatever the chip reports |
| `WallClock.StepBackAnswer` | kernel/src/rtc.rs:151-159 | the comment is wrong about a tick count that has gone back: the answer is the hardware's reading if and only if that is at least the base carried 490 years ahead, and otherwise it is that |
| `WallClock.StepBackAtNewYear` | kernel/src/rtc.rs:151-159 | one tick back at New Year 2026 the answer is in 2515 |
| `FatChains.SameStart` | kernel/src/fat32.rs:192-198 | the table decides a chain |
| `FatChains.NoRepeats` | kernel/src/fat32.rs:238-254 | a chain that ends visits no cluster twice |
| `FatChains.ResizedSound` | kernel/src/fat32.rs:358-421 | changing one chain's length leaves every other chain as it was and the volume sound |
| `FatChains.Grown` | kernel/src/fat32.rs:371-410 | linking a free cluster behind a chain extends it by just that cluster |
| `FatChains.Cut` | kernel/src/fat32.rs:411-419 | ending a chain early and freeing its tail shortens it and frees exactly the surplus |
| `FatChains.ResizedFree` | kernel/src/fat32.rs:358-421 | what a chain gains the free clusters lose, and the other way round |
| `FatTable.PatchedCopies` | kernel/src/fat32.rs:170-190 | writing an entry to every copy keeps them in agreement and every copy's top four bits |
| `FatTable.FatVolume.WriteFatEntry` | kernel/src/fat32.rs:170-190 | one link changes, in all copies; all top bits stay |
| `FatTable.FatVolume.AllocCluster` | kernel/src/fat32.rs:210-236 | the first free cluster from the cursor on, once around; none only if none is free |
| `FatTable.FatVolume.FreeChain` | kernel/src/fat32.rs:238-254 | exactly the chain's clusters become free; a chain of more than 262144 is cut off there with an error |
| `FatTable.FatVolume.SetChainLength` | kernel/src/fat32.rs:358-421 | a chain of exactly the clusters the bytes need, sharing the old one's prefix, new clusters taken only from free ones, the surplus freed, nothing else changed; refused exactly when too few are free. A chain of more than 262144 clusters is left, cut, or given up on half way, as stated |
| `FatTable.ReadEnough` | kernel/src/fat32.rs:458-481 | once enough bytes are read the rest of the chain does not matter |
| `FatTable.LastChunk` | kernel/src/fat32.rs:423-456 | the bytes run out exactly when the chain does, and the chain then holds them |
| `FatTable.FatVolume.WriteFileChain` | kernel/src/fat32.rs:423-456 | the chain holds the bytes and no other cluster has changed; an error exactly for bytes beyond 262144 clusters, so many of which are written then |
| `FatTable.FatVolume.ReadFileChain` | kernel/src/fat32.rs:458-481 | the first bytes along the chain, as many as asked for or there are; an error exactly when they reach past the 262144th cluster |
| `FatTable.FatVolume.Usage` | kernel/src/fat32.rs:638-668 | counts exactly the clusters that are not free |
| `FatNames.CaseInfoIgnored` | kernel/src/fat32.rs:706-731 | the case flags do not change which name it is |
| `FatNames.MakeShortName` | kernel/src/fat32.rs:832-893 | the first candidate that no entry has, the bare one first if it fits, or else FILE~999; that is taken if and only if every candidate and FILE~999 are |
| `FatNames.CrowdCollides` | kernel/src/fat32.rs:828-893 | for every name there is a set of 10001 short names that makes it so: the documented freedom from collisions fails |
| `FatNames.PlainReadsBack` | kernel/src/fat32.rs:832-893 | the short name of a plain 8.3 name reads as that name, up to case |
| `FatDirs.FieldsReadBack` | kernel/src/fat32.rs:682-690 | first cluster and size are read back as written, and name and attributes stay |
| `FatDirs.ParseDirEntries` | kernel/src/fat32.rs:738-826 | all entries up to the end mark, in order |
| `FatDirs.FindEntry` | kernel/src/fat32.rs:514-521 | the first entry of its kind with the name, or there is none |
| `FatDirs.OthersFirst` | kernel/src/fat32.rs:541-558 | changing one file's record does not change what any other name finds |
| `FatDirs.EndCleared` | kernel/src/fat32.rs:337-346 | moving the end mark on shows no entry and hides none |
| `FatDirs.ZerosAdded` | kernel/src/fat32.rs:308-323 | nor does another cluster of zeros |
| `FatDirs.NotTaken` | kernel/src/fat32.rs:832-893 | the short form of a plain name is free unless an entry has the name |
| `FatTree.UnnoticedReads` | kernel/src/fat32.rs:358-410 | a chain that grew without being written to, or that no record names, is noticed by no reader |
| `FatTree.TurnTree` | kernel/src/fat32.rs:528-560 | a file's new chain and record leave directories and files a tree over disjoint chains |
| `FatTree.TurnReads` | kernel/src/fat32.rs:528-560 | every other name of every directory reads and leads as before |
| `FatTree.TurnItself` | kernel/src/fat32.rs:528-560 | and the name written reads as the bytes |
| `FatTree.ResolvesAlike` | kernel/src/fat32.rs:485-500 | every path leads where it led |
| `Fat32.OneClusterChanged` | kernel/src/fat32.rs:289-302 | writing back the one cluster that differs brings the directory on the disk up to date |
| `Fat32.BothSteps` | kernel/src/fat32.rs:528-560 | the file's chain and then the directory's have changed, and every other chain has come through |
| `Fat32.PathWritten` | kernel/src/fat32.rs:528-560 | on the map from paths to bytes a write sets one key, up to case, and no other |
| `Fat32.Fat32Fs.ReadDirClusters` | kernel/src/fat32.rs:259-286 | all of a directory of at most 65536 records; larger ones are refused |
| `Fat32.Fat32Fs.FlushDirRange` | kernel/src/fat32.rs:289-302 | the directory's clusters hold the buffer again |
| `Fat32.Fat32Fs.AppendDirCluster` | kernel/src/fat32.rs:308-323 | one zeroed cluster more behind the directory, unless none is free |
| `Fat32.Fat32Fs.FindOrMakeFreeSlot` | kernel/src/fat32.rs:329-353 | a record for a new entry, no entry shown or hidden; the directory grows by a cluster exactly when it has no such record; refused exactly when it must and no cluster is free |
| `Fat32.Fat32Fs.DirClusterFor` | kernel/src/fat32.rs:485-500 | the directory a path leads to |
| `Fat32.Fat32Fs.ReadFile` | kernel/src/fat32.rs:514-526 | what the file reads as, or nothing |
| `Fat32.NotOverwritten` | kernel/src/fat32.rs:528-560 | a refused overwrite changes nothing, unless the bytes need more than 262144 clusters, there is room, and the file's own chain is no longer than that, or the bytes need just one cluster more: then the file reads as the first of them, as many as it had |
| `Fat32.AbandonedLoses` | kernel/src/fat32.rs:358-421 | a file whose own chain is more than 262144 clusters longer than the bytes need is given up on: its chain is one no longer, and every other is |
| `Fat32.OutcomeReadable` | kernel/src/fat32.rs:308-353 | a written directory can be read afterwards if and only if it had a record left, or the name was there, or one more cluster keeps it within the limit |
| `Fat32.OutgrownUnread` | kernel/src/fat32.rs:259-286 | past that limit no file of the directory can be read and no path leads through it |
| `Fat32.Fat32Fs.WriteFile` | kernel/src/fat32.rs:528-560 | succeeds if and only if the bytes are not too many, the directory can be read, there are clusters for file and directory, and the file's own chain is at most 262144 clusters too long; then the name reads as the bytes and every other name of every directory as before, all copies of the table agreeing with their top bits kept; a chain longer than that is partly freed, and nothing else changes |
| `FatFull.FullDirectory` | kernel/src/fat32.rs:308-353 | a readable directory of 65536 differently named files in which one more can be made, and is then unreadable |
| `FatSpoilt.RefusedAndSpoilt` | kernel/src/fat32.rs:528-543 | a one-byte file over which 262145 clusters are written is spoilt by the refused write |
| `Fat32.Fat32Fs.WritePath` | kernel/src/fat32.rs:528-560 | the same by path |

## Left out

Across the repository: drivers, boot and interrupt code, inline assembly, the mathematical functions,
drawing, windows and applications, the read-only FAT32 and the package formats, TLS and the embedded
compiler. In the groups modelled:

- Strtod.Strtod: for "inf", "nan" and hexadecimal numbers it says only that they are recognised; converting them is a separate, shorter path.
- FloatText.EmitFloat: infinities and NaNs are written as the words the source writes; integer, string and pointer conversions and the parsing of a format string are not modelled.
- DecToDouble.DecToDouble: literals of more than 1500 digits are excluded, as the reader passes at most 781.
- DiskFs.DiskFs.WriteFile: an overwrite that is cut short between its bitmap and its directory write keeps every other file's bytes, but the bitmap may then not cover the old run of the file itself; soundness after every prefix is claimed for new paths and removals, which is all the source's ordering gives.
- DiskFs.DiskFs.Mount: device errors other than a crash, and choosing between mounting and formatting, are not modelled.
- DiskRuns.Run: a power failure while a file is overwritten comes before its first sector, as such a write is not all or nothing; of the bitmap after a power failure it says that every byte is the old or the new one; listing a directory is not modelled.
- Malloc.Heap.Grow: the break moves only through the allocator, so the wall around foreign memory is not modelled.
- Malloc.Heap.Malloc: requests that the kernel takes for a smaller break (`Answerable` fails) are excluded; what the allocator then writes lies above the break. So they are for Calloc, Realloc and AlignedAlloc.
- Malloc.Heap.Realloc: excludes the same requests as Malloc.
- Malloc.Heap.AlignedAlloc: alignments above 2^62 are excluded, where twice the alignment wraps.
- Malloc.Heap.Calloc: excludes the same requests as Malloc; payloads are cleared and copied cell by cell; the order in which a library copies is not stated.
- Paging.Memory.MapPage: pages of the user slot only, with the user flag, as every caller in this group passes; mapping kernel and device pages and the translation buffer are not modelled. Out of memory for a table stops the kernel, which is `Halted`.
- Paging.Memory.AllocDma: the contents of frames that are not page tables are not modelled, so neither is the zeroing of the run.
- Paging.Memory.Collect: the source's three nested loops are one recursion on the level.
- Processes.System.SpawnIntoNewSpace: the image loader is the list of pages it maps; parsing and relocating ELF files is not modelled.
- Processes.System.Run: process numbers do not wrap, and windows that a dying process owned are closed elsewhere. The frames counted for an event are enough for any state of the page tables, three for a page; a run may get by with fewer. When the kernel stops, the events before have happened and no frame is left; how far the last one got is not said.
- Sorting.QuickSort: elements are array cells; that the source swaps them byte by byte is not modelled.
- Calendar.DateRoundTrip: over all integers, so the 64-bit range of the source is a part of it; `WallClock.PartsFit` covers the products.
- WallClock.Clock.Resync: reading the registers until two readings agree is not modelled; any reading may come out.
- FatTable.FatVolume.WriteFatEntry: the table is its 32-bit words; their place in sectors, and the reading of the boot sector, are not modelled.
- FatTable.FatVolume.AllocCluster: keeping the last table sector in a buffer is a matter of speed and is not modelled.
- Fat32.Fat32Fs.WriteFile: for plain 8.3 names that no directory has. A failed call may leave clusters that no record names; after one that is given up on, what further calls do is not stated.
- Fat32.Fat32Fs.WritePath: a path comes as its parts; splitting it at slashes, creating and removing directories, and removing files are not modelled.
- FatDirs.ParseDirEntries: names that the source joins from long-name records are not modelled; `FatTree.Tree` excludes directories that have such records.
