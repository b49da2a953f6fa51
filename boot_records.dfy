/**
 * The value types shared by every boot protocol adapter: the framebuffer
 * descriptor, its pixel-format classification and the memory-region record
 * (kernel/src/boot_info.rs), together with the machine integer widths the
 * adapters read and produce.
 */
module BootRecords {

  const U64_LIMIT: int := 0x1_0000_0000_0000_0000

  type u8 = x: int | 0 <= x < 0x100
  type u16 = x: int | 0 <= x < 0x1_0000
  type u32 = x: int | 0 <= x < 0x1_0000_0000
  type u64 = x: int | 0 <= x < 0x1_0000_0000_0000_0000
  /** The kernel targets x86_64, where `usize` is 64 bits wide. */
  type usize = u64

  datatype PixelFormat = Rgb | Bgr | U8 | Unknown

  /**
   * A framebuffer as the kernel sees it. `stride` counts pixels per row,
   * not bytes; the record is recomputed on every query and never mutated.
   */
  datatype FrameBufferInfo = FrameBufferInfo(
    width: usize,
    height: usize,
    stride: usize,
    pixelFormat: PixelFormat,
    bytesPerPixel: usize,
    physicalAddress: usize)

  datatype MemoryRegionType =
    | Usable
    | Reserved
    | AcpiReclaimable
    | AcpiNvs
    | BadMemory
    | BootloaderReclaimable
    | KernelAndModules
    | Framebuffer

  /** A physical memory range `[start, end)` with its classification. */
  datatype MemoryRegion = MemoryRegion(start: u64, end: u64, regionType: MemoryRegionType)

  /** Division rounding down, as Rust's `/` on unsigned integers does. */
  lemma DivBounds(a: nat, d: nat)
    requires d > 0
    ensures (a / d) * d <= a < (a / d + 1) * d
    ensures a / d <= a
  {
    var q, r := a / d, a % d;
    assert a == q * d + r && 0 <= r < d;
    assert (q + 1) * d == q * d + d;
    MulMonotone(q, d);
  }

  lemma {:induction false} MulMonotone(q: nat, d: nat)
    requires d > 0
    ensures q <= q * d
  {
    if d > 1 {
      MulMonotone(q, d - 1);
      assert q * d == q * (d - 1) + q;
    }
  }

  /** `(bpp + 7) / 8`: a nonzero bit depth rounded up to whole bytes. */
  function WholeBytes(bpp: u16): (b: usize)
    requires bpp >= 1
    ensures b * 8 - 8 < bpp <= b * 8
    ensures 1 <= b
  {
    (bpp + 7) / 8
  }
}
