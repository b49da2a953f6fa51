/**
 * The Limine entry adapter (kernel/src/limine_entry.rs). The kernel links
 * three request records into its image; before the kernel runs, the
 * Limine bootloader answers a request by pointing its `response` at a
 * response record. The kernel then reads those records once. Here the
 * records are an immutable snapshot, and a null pointer is `None`.
 * Request IDs and the response layouts follow the Limine Boot Protocol
 * (its request mechanism and the Framebuffer, Memory Map and RSDP features).
 */
module LimineEntry {
  import opened Wrappers
  import opened BootRecords
  import BootInfo

  // ---------------------------------------------------------------------
  // Requests
  // ---------------------------------------------------------------------

  /** The two words every Limine request ID starts with. */
  const COMMON_MAGIC: seq<u64> := [0xc7b1_dd30_df4c_8b88, 0x0a82_e883_a194_f07b]

  const FRAMEBUFFER_REQUEST_ID: seq<u64> := COMMON_MAGIC + [0x9d58_27dc_d881_dd75, 0xa314_8604_f6fa_b11b]
  const MEMMAP_REQUEST_ID: seq<u64> := COMMON_MAGIC + [0x67cf_3d9d_378a_806f, 0xe304_acdf_c50c_3c62]
  const RSDP_REQUEST_ID: seq<u64> := COMMON_MAGIC + [0xc5e7_7b6b_397e_7b21, 0x9e42_1c10_53fd_d180]

  /** A request ID: four words, the first two being the common magic. */
  predicate IsRequestId(id: seq<u64>)
  {
    |id| == 4 && id[..2] == COMMON_MAGIC
  }

  /**
   * The three IDs are request IDs and tell their features apart by their
   * last two words, so the bootloader cannot confuse one request for another.
   */
  lemma RequestIdsDistinct()
    ensures IsRequestId(FRAMEBUFFER_REQUEST_ID) && IsRequestId(MEMMAP_REQUEST_ID) && IsRequestId(RSDP_REQUEST_ID)
    ensures FRAMEBUFFER_REQUEST_ID[2..] != MEMMAP_REQUEST_ID[2..]
    ensures FRAMEBUFFER_REQUEST_ID[2..] != RSDP_REQUEST_ID[2..]
    ensures MEMMAP_REQUEST_ID[2..] != RSDP_REQUEST_ID[2..]
  {
  }

  /** `LimineRequest`: an ID, the base revision asked for, and the bootloader's answer. */
  datatype LimineRequest<R> = LimineRequest(id: seq<u64>, revision: u64, response: Option<R>)

  /** `LimineRequest::new`: revision 0 and no answer yet. */
  function NewRequest<R>(id: seq<u64>): (r: LimineRequest<R>)
    ensures r.id == id && r.revision == 0 && r.response.None?
  {
    LimineRequest(id, 0, None)
  }

  // ---------------------------------------------------------------------
  // Responses
  // ---------------------------------------------------------------------

  /** A framebuffer as the Limine protocol describes it; `address` 0 is null. */
  datatype LimineFramebuffer = LimineFramebuffer(
    address: u64,
    width: u64,
    height: u64,
    pitch: u64,
    bpp: u16,
    memoryModel: u8,
    redMaskSize: u8,
    redMaskShift: u8,
    greenMaskSize: u8,
    greenMaskShift: u8,
    blueMaskSize: u8,
    blueMaskShift: u8,
    edidSize: u64,
    edid: u64)

  /**
   * The framebuffer response: a count and a pointer to an array of
   * pointers to framebuffers, any of which may be null.
   */
  datatype FramebufferResponse = FramebufferResponse(
    revision: u64,
    framebufferCount: u64,
    framebuffers: Option<seq<Option<LimineFramebuffer>>>)

  datatype MemmapEntry = MemmapEntry(base: u64, length: u64, entryType: u64)

  datatype MemmapResponse = MemmapResponse(
    revision: u64,
    entryCount: u64,
    entries: Option<seq<Option<MemmapEntry>>>)

  /** The RSDP response; `address` 0 is a null pointer. */
  datatype RsdpResponse = RsdpResponse(revision: u64, address: u64)

  /** The kernel's three linked requests, as the bootloader left them. */
  datatype LimineRequests = LimineRequests(
    framebuffer: LimineRequest<FramebufferResponse>,
    memmap: LimineRequest<MemmapResponse>,
    rsdp: LimineRequest<RsdpResponse>)

  /** The requests as linked into the kernel image, before any answer. */
  function LinkedRequests(): (r: LimineRequests)
    ensures r.framebuffer.id == FRAMEBUFFER_REQUEST_ID && r.framebuffer.response.None?
    ensures r.memmap.id == MEMMAP_REQUEST_ID && r.memmap.response.None?
    ensures r.rsdp.id == RSDP_REQUEST_ID && r.rsdp.response.None?
  {
    LimineRequests(
      NewRequest(FRAMEBUFFER_REQUEST_ID), NewRequest(MEMMAP_REQUEST_ID), NewRequest(RSDP_REQUEST_ID))
  }

  /**
   * What the protocol guarantees of an answered framebuffer request: the
   * array, when there is one, holds `framebuffer_count` pointers.
   */
  predicate FramebufferArrayMatchesCount(reqs: LimineRequests)
  {
    match reqs.framebuffer.response
    case None => true
    case Some(resp) => resp.framebuffers.Some? ==> |resp.framebuffers.value| == resp.framebufferCount
  }

  // ---------------------------------------------------------------------
  // Parsing
  // ---------------------------------------------------------------------

  /** `LimineBootInfo` of this adapter: the first framebuffer and the RSDP address. */
  datatype LimineBootInfo = LimineBootInfo(framebuffer: Option<LimineFramebuffer>, rsdp: Option<u64>)

  /**
   * The four conditions under which the bootloader handed over a first
   * framebuffer: an answer, a nonzero count, an array, and a non-null first
   * entry.
   */
  predicate HasFirstFramebuffer(reqs: LimineRequests)
    requires FramebufferArrayMatchesCount(reqs)
  {
    var resp := reqs.framebuffer.response;
    && resp.Some?
    && resp.value.framebufferCount > 0
    && resp.value.framebuffers.Some?
    && resp.value.framebuffers.value[0].Some?
  }

  /**
   * `parse_limine_info`: the first framebuffer exactly when all four
   * conditions hold, and the RSDP address exactly when the request was
   * answered with a non-null address. The memory-map answer is not read.
   */
  function ParseLimineInfo(reqs: LimineRequests): (r: LimineBootInfo)
    requires FramebufferArrayMatchesCount(reqs)
    ensures r.framebuffer.Some? <==> HasFirstFramebuffer(reqs)
    ensures r.framebuffer.Some? ==> r.framebuffer == reqs.framebuffer.response.value.framebuffers.value[0]
    ensures r.rsdp.Some? <==> reqs.rsdp.response.Some? && reqs.rsdp.response.value.address != 0
    ensures r.rsdp.Some? ==> r.rsdp.value == reqs.rsdp.response.value.address
  {
    var framebuffer :=
      if reqs.framebuffer.response.Some? then
        var resp := reqs.framebuffer.response.value;
        if resp.framebufferCount > 0 && resp.framebuffers.Some? then
          var first := resp.framebuffers.value[0];
          if first.Some? then first else None
        else None
      else None;
    var rsdp :=
      if reqs.rsdp.response.Some? then
        var resp := reqs.rsdp.response.value;
        if resp.address != 0 then Some(resp.address) else None
      else None;
    LimineBootInfo(framebuffer, rsdp)
  }

  /**
   * `get_framebuffer_mut`: the same chain of null checks as the parser,
   * falling through to `None` from every failed check.
   */
  function GetFramebufferMut(reqs: LimineRequests): (r: Option<LimineFramebuffer>)
    requires FramebufferArrayMatchesCount(reqs)
    ensures r.Some? <==> HasFirstFramebuffer(reqs)
  {
    if reqs.framebuffer.response.Some? then
      var resp := reqs.framebuffer.response.value;
      if resp.framebufferCount > 0 && resp.framebuffers.Some? then
        var first := resp.framebuffers.value[0];
        if first.Some? then Some(first.value) else None
      else None
    else None
  }

  /** Both lookups find a framebuffer under the same conditions, and the same one. */
  lemma FramebufferLookupsAgree(reqs: LimineRequests)
    requires FramebufferArrayMatchesCount(reqs)
    ensures GetFramebufferMut(reqs) == ParseLimineInfo(reqs).framebuffer
  {
  }

  /** The parsed RSDP address is never null. */
  lemma ParsedRsdpNeverNull(reqs: LimineRequests)
    requires FramebufferArrayMatchesCount(reqs)
    ensures ParseLimineInfo(reqs).rsdp != Some(0)
  {
  }

  /** Whatever the bootloader put in the memory-map answer, the parse is the same. */
  lemma MemmapAnswerIgnored(reqs: LimineRequests, memmap: LimineRequest<MemmapResponse>)
    requires FramebufferArrayMatchesCount(reqs)
    ensures FramebufferArrayMatchesCount(reqs.(memmap := memmap))
    ensures ParseLimineInfo(reqs.(memmap := memmap)) == ParseLimineInfo(reqs)
  {
  }

  /** A bootloader that answered nothing leaves the kernel with no framebuffer and no RSDP. */
  lemma UnansweredRequestsParseEmpty()
    ensures FramebufferArrayMatchesCount(LinkedRequests())
    ensures ParseLimineInfo(LinkedRequests()) == LimineBootInfo(None, None)
  {
  }

  // ---------------------------------------------------------------------
  // The BootInfo accessors
  // ---------------------------------------------------------------------

  /**
   * This adapter's pixel-format heuristic: an RGB memory model (1) is RGB
   * when red sits at bit 16 and BGR for every other red position, whatever
   * the mask size; any other memory model is unknown.
   */
  function PixelFormatOf(fb: LimineFramebuffer): (r: PixelFormat)
    ensures r == Rgb <==> fb.memoryModel == 1 && fb.redMaskShift == 16
    ensures r == Bgr <==> fb.memoryModel == 1 && fb.redMaskShift != 16
    ensures r == Unknown <==> fb.memoryModel != 1
  {
    if fb.memoryModel == 1 then
      if fb.redMaskShift == 16 then Rgb else Bgr
    else Unknown
  }

  /**
   * A Limine framebuffer as a `FrameBufferInfo`: bytes per pixel is the bit
   * depth rounded up, the stride is the pitch divided by it rounded down,
   * and the address is the framebuffer's. A zero `bpp` would divide by zero.
   */
  function FrameBufferInfoOf(fb: LimineFramebuffer): (r: FrameBufferInfo)
    requires fb.bpp >= 1
    ensures r.width == fb.width && r.height == fb.height && r.physicalAddress == fb.address
    ensures r.pixelFormat == PixelFormatOf(fb)
    ensures r.bytesPerPixel * 8 - 8 < fb.bpp <= r.bytesPerPixel * 8
    ensures r.stride * r.bytesPerPixel <= fb.pitch < (r.stride + 1) * r.bytesPerPixel
  {
    var bytesPerPixel := WholeBytes(fb.bpp);
    DivBounds(fb.pitch, bytesPerPixel);
    FrameBufferInfo(fb.width, fb.height, fb.pitch / bytesPerPixel, PixelFormatOf(fb), bytesPerPixel, fb.address)
  }

  /** The parsed framebuffer, if any, has a nonzero bit depth. */
  predicate FramebufferSound(info: LimineBootInfo)
  {
    info.framebuffer.Some? ==> info.framebuffer.value.bpp >= 1
  }

  /** `framebuffer_address`: the parsed framebuffer's address. */
  function FramebufferAddress(info: LimineBootInfo): (r: Option<u64>)
    ensures r.None? <==> info.framebuffer.None?
    ensures r.Some? ==> r.value == info.framebuffer.value.address
  {
    match info.framebuffer
    case None => None
    case Some(fb) => Some(fb.address)
  }

  /**
   * `framebuffer_info`: present exactly when a framebuffer was parsed, and
   * located where `framebuffer_address` says.
   */
  function FramebufferInfo(info: LimineBootInfo): (r: Option<FrameBufferInfo>)
    requires FramebufferSound(info)
    ensures r.None? <==> info.framebuffer.None?
    ensures r.Some? ==> r.value == FrameBufferInfoOf(info.framebuffer.value)
    ensures r.Some? ==> FramebufferAddress(info) == Some(r.value.physicalAddress)
  {
    match info.framebuffer
    case None => None
    case Some(fb) => Some(FrameBufferInfoOf(fb))
  }

  /** `memory_regions`: this adapter parses no memory map. */
  function MemoryRegions(info: LimineBootInfo): (r: seq<MemoryRegion>)
    ensures |r| == 0
  {
    []
  }

  /** `rsdp_address`: the parsed RSDP address. */
  function RsdpAddress(info: LimineBootInfo): (r: Option<u64>)
    ensures r == info.rsdp
  {
    info.rsdp
  }

  /** `command_line`: this adapter has none. */
  function CommandLine(info: LimineBootInfo): (r: Option<string>)
    ensures r.None?
  {
    None
  }

  /**
   * End to end: the kernel learns an RSDP address exactly when the
   * bootloader answered with a non-null one, and then learns that one.
   */
  lemma RsdpFromResponse(reqs: LimineRequests)
    requires FramebufferArrayMatchesCount(reqs)
    ensures var r := RsdpAddress(ParseLimineInfo(reqs));
      && (r.Some? <==> reqs.rsdp.response.Some? && reqs.rsdp.response.value.address != 0)
      && (r.Some? ==> r.value == reqs.rsdp.response.value.address && r.value != 0)
  {
  }

  // ---------------------------------------------------------------------
  // The two Limine pixel heuristics side by side
  // ---------------------------------------------------------------------

  /** The same framebuffer as the layer's own Limine record stores it. */
  function AsStoredFramebuffer(fb: LimineFramebuffer): (s: BootInfo.LimineFramebuffer)
    ensures s.memoryModel == fb.memoryModel && s.redMaskSize == fb.redMaskSize && s.redMaskShift == fb.redMaskShift
    ensures s.address == fb.address && s.bpp == fb.bpp && s.pitch == fb.pitch
  {
    BootInfo.LimineFramebuffer(
      fb.address, fb.width, fb.height, fb.pitch, fb.bpp, fb.memoryModel,
      fb.redMaskSize, fb.redMaskShift, fb.greenMaskSize, fb.greenMaskShift,
      fb.blueMaskSize, fb.blueMaskShift)
  }

  /**
   * The two heuristics agree on every framebuffer with 8-bit red at bit 16
   * or bit 0, and on every non-RGB memory model; they part ways elsewhere:
   * this adapter calls any other RGB layout BGR, the layer's record calls
   * it unknown. The geometry both derive from a framebuffer is the same.
   */
  lemma PixelHeuristicsCompared(fb: LimineFramebuffer)
    requires fb.bpp >= 1
    ensures (fb.redMaskSize == 8 && (fb.redMaskShift == 16 || fb.redMaskShift == 0)) || fb.memoryModel != 1
      ==> PixelFormatOf(fb) == BootInfo.LiminePixelFormat(AsStoredFramebuffer(fb))
    ensures fb.memoryModel == 1 && !(fb.redMaskSize == 8 && (fb.redMaskShift == 16 || fb.redMaskShift == 0))
      ==> PixelFormatOf(fb) != BootInfo.LiminePixelFormat(AsStoredFramebuffer(fb))
    ensures var mine, theirs := FrameBufferInfoOf(fb), BootInfo.LimineFrameBufferInfoOf(AsStoredFramebuffer(fb));
      mine == theirs.(pixelFormat := mine.pixelFormat)
  {
  }
}
