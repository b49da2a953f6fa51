/**
 * The part of the `bootloader_api` crate's boot information that the
 * kernel's dispatch reads. Only its shape matters here: the crate itself
 * fills it in before the kernel runs.
 */
module BootloaderApi {
  import opened Wrappers
  import opened BootRecords

  /**
   * The crate's pixel format. `Unknown` carries the colour channel
   * positions; the crate may grow further variants, which the kernel's
   * wildcard treats like `Unknown`.
   */
  datatype PixelFormat =
    | Rgb
    | Bgr
    | U8
    | Unknown(redPosition: u8, greenPosition: u8, bluePosition: u8)

  datatype FrameBufferInfo = FrameBufferInfo(
    byteLen: usize,
    width: usize,
    height: usize,
    pixelFormat: PixelFormat,
    bytesPerPixel: usize,
    stride: usize)

  /** A framebuffer: where its pixel buffer starts, and how it is laid out. */
  datatype FrameBuffer = FrameBuffer(bufferStart: u64, info: FrameBufferInfo)

  datatype MemoryRegionKind = Usable | Bootloader | UnknownUefi(uefiType: u32) | UnknownBios(biosType: u32)

  datatype MemoryRegion = MemoryRegion(start: u64, end: u64, kind: MemoryRegionKind)

  datatype BootInfo = BootInfo(
    memoryRegions: seq<MemoryRegion>,
    framebuffer: Option<FrameBuffer>,
    rsdpAddr: Option<u64>)
}

/**
 * The boot-information abstraction layer (kernel/src/boot_info.rs): one
 * closed union over the supported bootloaders, each arm answering the same
 * five queries, plus the layer's own Limine record and its accessors.
 */
module BootInfo {
  import opened Wrappers
  import opened BootRecords
  import Api = BootloaderApi
  import MB = Multiboot2

  // ---------------------------------------------------------------------
  // The layer's own Limine record
  // ---------------------------------------------------------------------

  /** A Limine framebuffer as the layer stores it: a plain copy, no EDID. */
  datatype LimineFramebuffer = LimineFramebuffer(
    address: u64,
    width: u64,
    height: u64,
    pitch: u64,
    bpp: u16,
    memoryModel: u8,
    redMaskSize: u8,
    redMaskShift: u8,
    greenMaskSize: u8,
    greenMaskShift: u8,
    blueMaskSize: u8,
    blueMaskShift: u8)

  datatype LimineBootInfo = LimineBootInfo(
    framebuffer: Option<LimineFramebuffer>,
    memoryMap: seq<MemoryRegion>,
    rsdp: Option<u64>,
    cmdline: Option<string>)

  /**
   * The pixel-format heuristic: an RGB memory model (1) with an 8-bit red
   * mask is RGB when red sits at bit 16 and BGR when it sits at bit 0;
   * anything else is unknown. It never answers `U8`.
   */
  function LiminePixelFormat(fb: LimineFramebuffer): (r: PixelFormat)
    ensures r == Rgb <==> fb.memoryModel == 1 && fb.redMaskSize == 8 && fb.redMaskShift == 16
    ensures r == Bgr <==> fb.memoryModel == 1 && fb.redMaskSize == 8 && fb.redMaskShift == 0
    ensures r != U8
  {
    if fb.memoryModel == 1 && fb.redMaskSize == 8 && fb.redMaskShift == 16 then Rgb
    else if fb.memoryModel == 1 && fb.redMaskSize == 8 && fb.redMaskShift == 0 then Bgr
    else Unknown
  }

  /**
   * A Limine framebuffer as a `FrameBufferInfo`: `bytes_per_pixel` is the
   * bit depth rounded up to whole bytes, and `stride` is the pitch in bytes
   * divided by it, rounded down. A zero `bpp` would divide by zero.
   */
  function LimineFrameBufferInfoOf(fb: LimineFramebuffer): (r: FrameBufferInfo)
    requires fb.bpp >= 1
    ensures r.width == fb.width && r.height == fb.height && r.physicalAddress == fb.address
    ensures r.pixelFormat == LiminePixelFormat(fb)
    ensures r.bytesPerPixel * 8 - 8 < fb.bpp <= r.bytesPerPixel * 8
    ensures r.stride * r.bytesPerPixel <= fb.pitch < (r.stride + 1) * r.bytesPerPixel
  {
    var bytesPerPixel := WholeBytes(fb.bpp);
    DivBounds(fb.pitch, bytesPerPixel);
    FrameBufferInfo(fb.width, fb.height, fb.pitch / bytesPerPixel, LiminePixelFormat(fb), bytesPerPixel, fb.address)
  }

  /** The stored framebuffer, if any, has a nonzero bit depth. */
  predicate LimineFramebufferSound(info: LimineBootInfo)
  {
    info.framebuffer.Some? ==> info.framebuffer.value.bpp >= 1
  }

  /** `framebuffer_address`: the stored framebuffer's address. */
  function LimineFramebufferAddress(info: LimineBootInfo): (r: Option<u64>)
    ensures r.None? <==> info.framebuffer.None?
    ensures r.Some? ==> r.value == info.framebuffer.value.address
  {
    match info.framebuffer
    case None => None
    case Some(fb) => Some(fb.address)
  }

  /**
   * `framebuffer_info`: present exactly when a framebuffer is stored, and
   * then located where `framebuffer_address` says.
   */
  function LimineFramebufferInfo(info: LimineBootInfo): (r: Option<FrameBufferInfo>)
    requires LimineFramebufferSound(info)
    ensures r.None? <==> info.framebuffer.None?
    ensures r.Some? ==> r.value == LimineFrameBufferInfoOf(info.framebuffer.value)
    ensures r.Some? ==> LimineFramebufferAddress(info) == Some(r.value.physicalAddress)
  {
    match info.framebuffer
    case None => None
    case Some(fb) => Some(LimineFrameBufferInfoOf(fb))
  }

  /** `memory_regions`: the stored memory map, unchanged. */
  function LimineMemoryRegions(info: LimineBootInfo): (r: seq<MemoryRegion>)
    ensures r == info.memoryMap
  {
    info.memoryMap
  }

  /** `rsdp_address`: the stored RSDP address, unchanged. */
  function LimineRsdpAddress(info: LimineBootInfo): (r: Option<u64>)
    ensures r == info.rsdp
  {
    info.rsdp
  }

  /** `command_line`: the stored command line, unchanged. */
  function LimineCommandLine(info: LimineBootInfo): (r: Option<string>)
    ensures r == info.cmdline
  {
    info.cmdline
  }

  // ---------------------------------------------------------------------
  // The bootloader_api arm
  // ---------------------------------------------------------------------

  /** The crate's three named formats map to their namesakes; every other one is unknown. */
  function MapPixelFormat(p: Api.PixelFormat): (r: PixelFormat)
    ensures r == Rgb <==> p.Rgb?
    ensures r == Bgr <==> p.Bgr?
    ensures r == U8 <==> p.U8?
    ensures r == Unknown <==> p.Unknown?
  {
    match p
    case Rgb => Rgb
    case Bgr => Bgr
    case U8 => U8
    case _ => Unknown
  }

  /**
   * A `bootloader_api` framebuffer as a `FrameBufferInfo`: the layout fields
   * are copied, the format is mapped, and the address is where the pixel
   * buffer starts.
   */
  function ApiFrameBufferInfo(fb: Api.FrameBuffer): (r: FrameBufferInfo)
    ensures r.width == fb.info.width && r.height == fb.info.height && r.stride == fb.info.stride
    ensures r.bytesPerPixel == fb.info.bytesPerPixel
    ensures r.pixelFormat == MapPixelFormat(fb.info.pixelFormat)
    ensures r.physicalAddress == fb.bufferStart
  {
    FrameBufferInfo(
      fb.info.width, fb.info.height, fb.info.stride,
      MapPixelFormat(fb.info.pixelFormat), fb.info.bytesPerPixel, fb.bufferStart)
  }

  // ---------------------------------------------------------------------
  // The dispatching wrapper
  // ---------------------------------------------------------------------

  /** `BootInfoWrapper`: the boot information of whichever bootloader started the kernel. */
  datatype BootInfoWrapper =
    | BootloaderApi(api: Api.BootInfo)
    | Limine(limine: LimineBootInfo)
    | Multiboot2(multiboot2: MB.Multiboot2BootInfo)

  /** The Multiboot2 blob, if that is the arm, can be walked. */
  predicate Walkable(w: BootInfoWrapper)
  {
    w.Multiboot2? ==> MB.Valid(w.multiboot2)
  }

  /** The framebuffer, if any, can be located: for Multiboot2 its tag lies in the blob. */
  predicate FramebufferLocatable(w: BootInfoWrapper)
  {
    w.Multiboot2? ==> MB.Valid(w.multiboot2) && MB.FramebufferTagReadable(w.multiboot2)
  }

  /** The framebuffer, if any, can be described without dividing by zero. */
  predicate FramebufferDescribable(w: BootInfoWrapper)
  {
    && (w.Limine? ==> LimineFramebufferSound(w.limine))
    && (w.Multiboot2? ==> MB.Valid(w.multiboot2) && MB.FramebufferTagSound(w.multiboot2))
  }

  /** `framebuffer_info`, forwarded to the arm's adapter. */
  function FramebufferInfo(w: BootInfoWrapper): (r: Option<FrameBufferInfo>)
    requires FramebufferDescribable(w)
    ensures w.BootloaderApi? ==> (r.None? <==> w.api.framebuffer.None?)
    ensures w.BootloaderApi? && r.Some? ==> r.value == ApiFrameBufferInfo(w.api.framebuffer.value)
    ensures w.Limine? ==> r == LimineFramebufferInfo(w.limine)
    ensures w.Multiboot2? ==> r == MB.FramebufferInfo(w.multiboot2)
  {
    match w
    case BootloaderApi(api) =>
      (match api.framebuffer
       case None => None
       case Some(fb) => Some(ApiFrameBufferInfo(fb)))
    case Limine(info) => LimineFramebufferInfo(info)
    case Multiboot2(info) => MB.FramebufferInfo(info)
  }

  /** `framebuffer_address`, forwarded to the arm's adapter. */
  function FramebufferAddress(w: BootInfoWrapper): (r: Option<u64>)
    requires FramebufferLocatable(w)
    ensures w.BootloaderApi? ==> (r.None? <==> w.api.framebuffer.None?)
    ensures w.BootloaderApi? && r.Some? ==> r.value == w.api.framebuffer.value.bufferStart
    ensures w.Limine? ==> r == LimineFramebufferAddress(w.limine)
    ensures w.Multiboot2? ==> r == MB.FramebufferAddress(w.multiboot2)
  {
    match w
    case BootloaderApi(api) =>
      (match api.framebuffer
       case None => None
       case Some(fb) => Some(fb.bufferStart))
    case Limine(info) => LimineFramebufferAddress(info)
    case Multiboot2(info) => MB.FramebufferAddress(info)
  }

  /**
   * `memory_regions`, forwarded; the `bootloader_api` arm does not convert
   * the crate's memory map and answers with no regions at all.
   */
  function MemoryRegions(w: BootInfoWrapper): (r: seq<MemoryRegion>)
    ensures w.BootloaderApi? ==> r == []
    ensures w.Limine? ==> r == LimineMemoryRegions(w.limine)
    ensures w.Multiboot2? ==> r == MB.MemoryRegions(w.multiboot2)
  {
    match w
    case BootloaderApi(_) => []
    case Limine(info) => LimineMemoryRegions(info)
    case Multiboot2(info) => MB.MemoryRegions(info)
  }

  /** `rsdp_address`, forwarded; the `bootloader_api` arm reports the crate's value. */
  function RsdpAddress(w: BootInfoWrapper): (r: Option<u64>)
    requires Walkable(w)
    ensures w.BootloaderApi? ==> r == w.api.rsdpAddr
    ensures w.Limine? ==> r == LimineRsdpAddress(w.limine)
    ensures w.Multiboot2? ==> r == MB.RsdpAddress(w.multiboot2)
  {
    match w
    case BootloaderApi(api) => api.rsdpAddr
    case Limine(info) => LimineRsdpAddress(info)
    case Multiboot2(info) => MB.RsdpAddress(info)
  }

  /** `command_line`, forwarded; the `bootloader_api` arm never has one. */
  function CommandLine(w: BootInfoWrapper): (r: Option<string>)
    ensures w.BootloaderApi? ==> r.None?
    ensures w.Limine? ==> r == LimineCommandLine(w.limine)
    ensures w.Multiboot2? ==> r == MB.CommandLine(w.multiboot2)
  {
    match w
    case BootloaderApi(_) => None
    case Limine(info) => LimineCommandLine(info)
    case Multiboot2(info) => MB.CommandLine(info)
  }

  // ---------------------------------------------------------------------
  // Properties of the layer as a whole
  // ---------------------------------------------------------------------

  /**
   * Whichever bootloader ran, the two framebuffer queries agree: both are
   * present or both absent, and the description sits at the address.
   */
  lemma FramebufferQueriesAgree(w: BootInfoWrapper)
    requires FramebufferDescribable(w)
    ensures FramebufferInfo(w).None? <==> FramebufferAddress(w).None?
    ensures FramebufferInfo(w).Some? ==> FramebufferAddress(w) == Some(FramebufferInfo(w).value.physicalAddress)
  {
    match w
    case BootloaderApi(api) =>
    case Limine(info) =>
    case Multiboot2(info) =>
      MB.FindTagNone(info.blob, MB.TAG_FRAMEBUFFER_INFO);
  }

  /** Only the layer's own Limine record carries memory regions or a command line. */
  lemma OnlyLimineCarriesMapAndCommandLine(w: BootInfoWrapper)
    ensures !w.Limine? ==> MemoryRegions(w) == [] && CommandLine(w).None?
  {
  }
}
