# Boot-information abstraction layer of the utopia kernel, in Dafny

The kernel can be started by three bootloaders. Each one hands over its
boot information differently:

- the `bootloader_api` crate fills in a record;
- a Limine bootloader answers requests that the kernel linked into its image;
- a Multiboot2 bootloader leaves a tagged byte stream in memory.

The boot-information layer turns all three into the same five queries:
`framebuffer_info`, `framebuffer_address`, `memory_regions`, `rsdp_address`
and `command_line`. This project models that layer and proves what each
query answers. It also models the build script's Windows-to-WSL path
rewriting.

The project has six files:

- `wrappers.dfy`: `Option` and `Result`.
- `boot_records.dfy` (`BootRecords`): the shared records of
  `kernel/src/boot_info.rs` (`FrameBufferInfo`, `PixelFormat`, `MemoryRegion`),
  the machine integer widths, and the rounding arithmetic both Limine
  adapters use.
- `multiboot2.dfy` (`Multiboot2`): the Multiboot2 adapter. It follows
  section 3.6 of the Multiboot2 Specification.
  - The blob is a byte sequence with little-endian fields.
  - `for_each_tag` is a method with a `while` loop, proved against the list
    of tags the walk visits (`VisitedTags`). Its visitor is a
    state-passing function that stands for the Rust `FnMut` closure.
  - `get_tag` is a method that runs that walk with a match visitor.
  - The accessors, the header checksum (section 3.1.2) and the entry magic
    check (section 3.3) are functions.
- `boot_info.dfy`: two modules.
  - `BootloaderApi` holds the part of the `bootloader_api` crate's record
    that the layer reads.
  - `BootInfo` holds the layer's own Limine record with its accessors, and
    the `BootInfoWrapper` union that forwards each query to its arm.
- `limine_entry.dfy` (`LimineEntry`): the Limine request/response adapter.
  - The bootloader-written request records are an immutable snapshot, and a
    null pointer is `None`.
  - The request IDs follow the Limine Boot Protocol.
- `wsl_path.dfy` (`WslPath`): `windows_to_wsl_path` from `limine/build.rs`.

A Multiboot2 tag is named by its byte offset in the blob. Its address is
the blob's address plus that offset.

`get_tag` overwrites its result on every match and never stops early, so
it returns the LAST tag of the requested type, and `framebuffer_info`,
`framebuffer_address` and `rsdp_address` use the last matching tag.
`Multiboot2.GetTag` states this.

The worked blob of `Multiboot2.TextModeBlobWalk` and
`Multiboot2.TextModeBlobAccessors` is 48 bytes long: an 8-byte header, a
32-byte framebuffer tag whose fields run to byte 29, and an 8-byte end tag.

## Model

| member | source | states |
|---|---|---|
| `Multiboot2.LoadStoreU32` | kernel/src/multiboot2.rs:64-69 | a `u32` field stored little-endian anywhere in the blob reads back as the value stored |
| `Multiboot2.LoadStoreU64` | kernel/src/multiboot2.rs:79-84 | the same round trip for a `u64` field |
| `Multiboot2.AlignUp8` | kernel/src/multiboot2.rs:151-153 | `((size + 7) / 8) * 8` is the least multiple of 8 not below `size`, for every size that does not overflow `u32` |
| `Multiboot2.TagsFrom` | kernel/src/multiboot2.rs:140-154 | every tag the walk visits lies at or past its start, below `total_size`, has a readable non-end header and a size in 1..0xFFFFFFF8; the first visited tag is the start |
| `Multiboot2.TagsFromResidue` | kernel/src/multiboot2.rs:140-153 | from any start, visited offsets keep the start's residue mod 8 |
| `Multiboot2.TagsFromIncreasing` | kernel/src/multiboot2.rs:151-153 | from any start, visited offsets strictly increase, so no tag is visited twice |
| `Multiboot2.TagsFromChained` | kernel/src/multiboot2.rs:151-153 | each visited offset is the previous one plus the previous tag's aligned size |
| `Multiboot2.WalkShape` | kernel/src/multiboot2.rs:140-154 | the walk starts at offset 8 and visits nothing exactly when that offset is at or past `total_size` or holds an end tag; visited offsets are multiples of 8 below `total_size`, strictly increasing, chained by aligned size; no end tag is visited; the walk stops at `total_size` or in front of an end tag |
| `Multiboot2.WalkEndsAtEndTag` | kernel/src/multiboot2.rs:142-147 | after the last visited tag the cursor is at or past `total_size`, or on an end tag |
| `Multiboot2.ZeroSizeTagSpins` | kernel/src/multiboot2.rs:151-153 | a non-end tag of size 0 below `total_size` leaves the cursor where it is, so no blob containing one on the walk is walkable |
| `Multiboot2.ForEachTag` | kernel/src/multiboot2.rs:133-156 | the loop hands the visitor exactly the tags of `VisitedTags`, in order; the final closure state is the visitor replayed over them |
| `Multiboot2.LastIndexOfType` | kernel/src/multiboot2.rs:159-167 | the index found holds the requested type and no later tag does; -1 when none does |
| `Multiboot2.ReplayMatchIsLast` | kernel/src/multiboot2.rs:160-166 | running the overwrite-on-match closure over any tags ends on the last matching tag |
| `Multiboot2.GetTag` | kernel/src/multiboot2.rs:159-167 | `get_tag` returns `None` exactly when no visited tag has the type; otherwise a visited tag of that type at or after every other one |
| `Multiboot2.FindTagNone` | kernel/src/multiboot2.rs:159-167 | `get_tag` finds nothing exactly when no visited tag has the type |
| `Multiboot2.FramebufferTagRoundTrip` | kernel/src/multiboot2.rs:79-92 | a framebuffer tag laid out as a bootloader writes it reads back with its type, size, address, pitch, width, height, bpp and framebuffer type |
| `Multiboot2.PickedFramebufferTag` | kernel/src/multiboot2.rs:172-175 | a framebuffer tag is read exactly when the walk visits one |
| `Multiboot2.FramebufferAddress` | kernel/src/multiboot2.rs:192-198 | `None` exactly when no framebuffer tag is visited; otherwise the last one's `addr` |
| `Multiboot2.FrameBufferInfoOf` | kernel/src/multiboot2.rs:177-188 | pixel format always RGB; `bytes_per_pixel` is `bpp / 8` rounded down; `stride` is `pitch / bytes_per_pixel` rounded down; width, height and address copied |
| `Multiboot2.FramebufferInfo` | kernel/src/multiboot2.rs:171-190 | `None` exactly when no framebuffer tag is visited; otherwise the last tag described as above, at the address `framebuffer_address` reports |
| `Multiboot2.MemoryRegions` | kernel/src/multiboot2.rs:200-203 | always empty |
| `Multiboot2.RsdpAddress` | kernel/src/multiboot2.rs:205-223 | the new-ACPI tag (15) if any is visited, else the old-ACPI tag (14), else `None`; the address is the chosen tag's address plus its 8-byte header |
| `Multiboot2.CommandLine` | kernel/src/multiboot2.rs:225-228 | always absent |
| `Multiboot2.WrappingSub` | kernel/src/multiboot2.rs:238-240 | `wrapping_sub` undoes addition modulo 2^32 |
| `Multiboot2.HeaderChecksum` | kernel/src/multiboot2.rs:238-240 | magic + architecture + header length + checksum is 0 modulo 2^32 |
| `Multiboot2.HeaderIsValid` | kernel/src/multiboot2.rs:234-246 | the kernel's header carries the Multiboot2 magic, architecture i386 (0), length 24 (16 bytes of fields plus the 8-byte end tag), the checksum 0x17ADAF12, and an end tag of type 0, flags 0, size 8; magic + architecture + length + checksum is 0 modulo 2^32 |
| `Multiboot2.StartMultiboot2` | kernel/src/multiboot2.rs:250-262 | the entry halts, before any adapter exists, exactly when EAX is not 0x36D76289; otherwise the adapter wraps the blob unchanged |
| `Multiboot2.TextModeBlobWalk` | kernel/src/multiboot2.rs:140-154 | the walk over the worked blob visits just the framebuffer tag at offset 8 |
| `Multiboot2.TextModeBlobAccessors` | kernel/src/multiboot2.rs:170-223 | a blob with one 80x25 text-mode framebuffer tag at 0xB8000 and no ACPI tag yields framebuffer info (80, 25, stride 160, RGB, 1 byte per pixel, 0xB8000) and no RSDP |
| `BootRecords.WholeBytes` | kernel/src/boot_info.rs:198 | `(bpp + 7) / 8` is the bit depth rounded up to whole bytes |
| `BootInfo.LiminePixelFormat` | kernel/src/boot_info.rs:185-191 | RGB exactly for memory model 1 with an 8-bit red mask at bit 16; BGR exactly for memory model 1 with an 8-bit red mask at bit 0; never U8, so unknown otherwise |
| `BootInfo.LimineFrameBufferInfoOf` | kernel/src/boot_info.rs:193-200 | `bytes_per_pixel` is `bpp` rounded up to bytes; `stride` is `pitch / bytes_per_pixel` rounded down; the format follows the heuristic; width, height and address copied |
| `BootInfo.LimineFramebufferAddress` | kernel/src/boot_info.rs:204-206 | `None` exactly when no framebuffer is stored; otherwise its address |
| `BootInfo.LimineFramebufferInfo` | kernel/src/boot_info.rs:183-202 | `None` exactly when no framebuffer is stored; otherwise its description, at the address `framebuffer_address` reports |
| `BootInfo.LimineMemoryRegions` | kernel/src/boot_info.rs:208-210 | the stored memory map, unchanged |
| `BootInfo.LimineRsdpAddress` | kernel/src/boot_info.rs:212-214 | the stored RSDP address, unchanged |
| `BootInfo.LimineCommandLine` | kernel/src/boot_info.rs:216-218 | the stored command line, unchanged |
| `BootInfo.MapPixelFormat` | kernel/src/boot_info.rs:87-92 | Rgb, Bgr and U8 map to their namesakes and every other crate format maps to Unknown, each in both directions |
| `BootInfo.ApiFrameBufferInfo` | kernel/src/boot_info.rs:81-95 | the crate's width, height, stride and bytes per pixel are copied, the format is mapped, the address is the buffer start |
| `BootInfo.FramebufferInfo` | kernel/src/boot_info.rs:77-103 | the `bootloader_api` arm answers exactly when the crate has a framebuffer; the Limine and Multiboot2 arms answer what their adapters answer |
| `BootInfo.FramebufferAddress` | kernel/src/boot_info.rs:105-116 | the `bootloader_api` arm gives the buffer start exactly when there is a framebuffer; the other arms forward |
| `BootInfo.MemoryRegions` | kernel/src/boot_info.rs:118-131 | the `bootloader_api` arm is always empty; the other arms forward |
| `BootInfo.RsdpAddress` | kernel/src/boot_info.rs:133-142 | the `bootloader_api` arm gives the crate's RSDP address; the other arms forward |
| `BootInfo.CommandLine` | kernel/src/boot_info.rs:144-153 | the `bootloader_api` arm never has one; the other arms forward |
| `BootInfo.FramebufferQueriesAgree` | kernel/src/boot_info.rs:77-116 | on every arm the two framebuffer queries are both present or both absent, and the description's address is the reported address |
| `BootInfo.OnlyLimineCarriesMapAndCommandLine` | kernel/src/boot_info.rs:118-153 | outside the Limine arm there are no memory regions and no command line |
| `LimineEntry.RequestIdsDistinct` | kernel/src/limine_entry.rs:11-23 | the three request IDs are four words long, start with the common magic, and differ pairwise in their last two words |
| `LimineEntry.NewRequest` | kernel/src/limine_entry.rs:37-43 | a new request keeps its ID, asks for revision 0 and has no answer |
| `LimineEntry.LinkedRequests` | kernel/src/limine_entry.rs:46-57 | the linked framebuffer, memory-map and RSDP requests carry their IDs and no answer |
| `LimineEntry.ParseLimineInfo` | kernel/src/limine_entry.rs:170-207 | the framebuffer is the first array entry exactly when the request was answered, the count is nonzero, the array exists and its first entry is non-null; the RSDP is the answer's address exactly when the request was answered with a non-null address |
| `LimineEntry.GetFramebufferMut` | kernel/src/limine_entry.rs:209-223 | a framebuffer is found exactly under the same four conditions |
| `LimineEntry.FramebufferLookupsAgree` | kernel/src/limine_entry.rs:172-223 | `get_framebuffer_mut` and `parse_limine_info` find the same framebuffer |
| `LimineEntry.ParsedRsdpNeverNull` | kernel/src/limine_entry.rs:190-201 | the parsed RSDP address is never 0 |
| `LimineEntry.MemmapAnswerIgnored` | kernel/src/limine_entry.rs:170-207 | changing the memory-map answer never changes the parse |
| `LimineEntry.UnansweredRequestsParseEmpty` | kernel/src/limine_entry.rs:46-57 | if the bootloader answered nothing, there is no framebuffer and no RSDP |
| `LimineEntry.PixelFormatOf` | kernel/src/limine_entry.rs:117-125 | memory model 1 gives RGB exactly when red is at bit 16 and BGR at any other position whatever the mask size; any other model gives unknown |
| `LimineEntry.FrameBufferInfoOf` | kernel/src/limine_entry.rs:127-134 | `bytes_per_pixel` is `bpp` rounded up to bytes; `stride` is `pitch / bytes_per_pixel` rounded down; width, height and address copied |
| `LimineEntry.FramebufferAddress` | kernel/src/limine_entry.rs:138-140 | `None` exactly when no framebuffer was parsed; otherwise its address |
| `LimineEntry.FramebufferInfo` | kernel/src/limine_entry.rs:115-136 | `None` exactly when no framebuffer was parsed; otherwise its description, at the address `framebuffer_address` reports |
| `LimineEntry.MemoryRegions` | kernel/src/limine_entry.rs:142-144 | always empty |
| `LimineEntry.RsdpAddress` | kernel/src/limine_entry.rs:146-148 | the parsed RSDP address |
| `LimineEntry.CommandLine` | kernel/src/limine_entry.rs:150-152 | always absent |
| `LimineEntry.RsdpFromResponse` | kernel/src/limine_entry.rs:190-201 | end to end: the kernel learns an RSDP address exactly when the bootloader answered with a non-null one, and learns that one |
| `LimineEntry.PixelHeuristicsCompared` | kernel/src/limine_entry.rs:117-134 | this adapter's heuristic agrees with the layer's own on 8-bit red at bit 16 or 0 and on non-RGB models, and disagrees on every other RGB layout; the geometry is identical |
| `WslPath.ToLowerAscii` | limine/build.rs:362 | upper-case ASCII letters become lower-case; every other ASCII character stays |
| `WslPath.ReplaceBackslashes` | limine/build.rs:363 | same length; every backslash becomes a slash and every other character stays in place |
| `WslPath.ReplaceBackslashesNormalises` | limine/build.rs:366 | no backslash is left, and replacing again changes nothing |
| `WslPath.WindowsToWslPath` | limine/build.rs:357-368 | an error exactly when the path is not valid Unicode; a drive path becomes `/mnt/` + lower-case drive + the rest with slashes; any other path just gets slashes |
| `WslPath.NonDrivePathShape` | limine/build.rs:365-366 | a path without a drive keeps its length and every non-backslash character, and has no backslash left |
| `WslPath.DrivePathShape` | limine/build.rs:361-364 | a drive path becomes four characters longer, starts with `/mnt/`, has a lower-case letter next when the drive is a letter, and keeps a backslash only if the drive character was one |
| `WslPath.RewriteIsIdempotent` | limine/build.rs:357-368 | the output never looks like a drive path, and rewriting it again changes nothing unless the drive character was a backslash |
| `WslPath.DriveExample` | limine/build.rs:360-364 | `C:\Users` becomes `/mnt/c/Users` |

## Left out

- Entry-point plumbing is not modelled. That means serial initialisation, the link-section placement of the header and the requests, the panic handlers, and the `hlt` loops. They are hardware side effects. `Multiboot2.StartMultiboot2` models only the magic check and the adapter it builds.
- The Multiboot2 adapter holds a raw pointer. The model holds the bytes at that pointer and the pointer's value. Pointer casts and the `u64`→`usize` conversion are the identity on x86_64.
- Multiboot2.ForEachTag: it requires a well-formed blob (`WellFormedBlob`). Every header the walk reaches must lie in the blob, and every non-end tag below `total_size` must have a size in 1..0xFFFFFFF8. Otherwise the Rust loop either reads beyond the blob, spins forever on a zero size, or overflows `size + 7`. `Multiboot2.ZeroSizeTagSpins` states the spinning case.
- Multiboot2.FramebufferInfo: it requires the picked framebuffer tag to have `bpp >= 8`. A smaller `bpp` makes `bytes_per_pixel` 0, and the Rust code then divides by zero and panics. The model does not model that panic.
- Multiboot2.FramebufferAddress: it requires the picked framebuffer tag to lie wholly inside the blob. The Rust code reads the whole `FramebufferTag` there, whatever the tag's declared size.
- The colour information after the Multiboot2 framebuffer tag's fixed fields is not modelled. Neither is the reserved byte, and neither are the tag types the kernel never asks for. The kernel does not read them.
- BootInfo.LimineFramebufferInfo: it requires a nonzero `bpp`. A zero `bpp` divides by zero (a panic).
- LimineEntry.FramebufferInfo: it requires a nonzero `bpp`, for the same reason.
- LimineEntry.ParseLimineInfo: it requires that an answered framebuffer array holds `framebuffer_count` pointers. The Limine protocol guarantees this, and the Rust code reads the first pointer whenever the count is nonzero.
- LimineEntry.GetFramebufferMut: the result is the framebuffer's value. The model does not capture writes through the mutable reference the Rust function hands out.
- The Limine responses are written by the bootloader before the kernel runs. The kernel reads each request's `response` field with a plain load of an immutable `static` whose initialiser is null; nothing makes that read volatile. The model treats the requests as an immutable snapshot holding the bootloader's answers. So it assumes that these plain reads observe the bootloader's writes, which Rust does not guarantee: a compiler may fold them to the null initialiser. `LimineEntry.ParseLimineInfo`, `LimineEntry.GetFramebufferMut` and `LimineEntry.RsdpFromResponse` hold under that assumption.
- The padding bytes of the Limine framebuffer record are not modelled.
- Memory-map parsing is not modelled. `MemoryMapTag`, `MemoryMapEntry` and the Limine memory-map response are declared but never read. The model keeps the memory-map answer only to show that the parse ignores it.
- The `bootloader_api` crate's internals are not modelled. Its boot information is an input record holding just the fields the layer reads, plus its memory regions, which the layer ignores.
- WslPath.WindowsToWslPath: drive paths whose first character is not ASCII are excluded by a precondition. The Rust code tests the length in bytes and slices at byte 2. It lower-cases with Unicode case mapping. For such a path it can panic or produce several characters, and the model leaves that case out. Paths that are not drive paths may hold any characters.
- The rest of `limine/build.rs` is not modelled: file copying, WSL and child processes, disk images and directory probing. Neither are the QEMU launchers, `kernel/src/main.rs` and `kernel/src/error.rs`. They are host tooling and I/O, and the layer does not depend on them.
