/**
 * The Multiboot2 adapter (kernel/src/multiboot2.rs): the boot-information
 * blob of section 3.6 of the Multiboot2 Specification, walked tag by tag,
 * and the five boot-information accessors built on that walk; the kernel's
 * own Multiboot2 header with its checksum (section 3.1.2); and the entry
 * point's magic-number check (section 3.3, i386 machine state, EAX).
 *
 * The blob is the memory at `infoPtr`, given as bytes; tags are named by
 * their byte offset inside it, so a tag's address is `infoPtr + offset`.
 */
module Multiboot2 {
  import opened Wrappers
  import opened BootRecords

  // Constants of the Multiboot2 Specification used by the kernel.
  const HEADER_MAGIC: u32 := 0xe852_50d6
  const ARCHITECTURE_I386: u32 := 0
  const HEADER_LENGTH: u32 := 24
  /** The value a compliant bootloader leaves in EAX. */
  const BOOTLOADER_MAGIC: u32 := 0x36d7_6289

  // Boot-information tag types the adapter looks for.
  const TAG_END: u32 := 0
  const TAG_FRAMEBUFFER_INFO: u32 := 8
  const TAG_ACPI_OLD_RSDP: u32 := 14
  const TAG_ACPI_NEW_RSDP: u32 := 15

  /** The blob starts with `total_size: u32` and a reserved `u32`. */
  const INFO_HEADER_SIZE: nat := 8
  /** Where the walk starts: right after the blob's own header. */
  const FIRST_TAG_OFFSET: nat := 8
  /** Every tag starts with `tag_type: u32` and `size: u32`. */
  const TAG_HEADER_SIZE: nat := 8
  /** The largest size for which `size + 7` does not overflow a `u32`. */
  const MAX_TAG_SIZE: u32 := 0xFFFF_FFF8
  /** `size_of::<FramebufferTag>()`: 31 bytes of fields, padded to 8-byte alignment. */
  const FRAMEBUFFER_TAG_SIZE: nat := 32

  // ---------------------------------------------------------------------
  // Little-endian fields
  // ---------------------------------------------------------------------

  function LoadU32(b: seq<u8>, at: nat): u32
    requires at + 4 <= |b|
  {
    b[at] as int + b[at + 1] as int * 0x100 + b[at + 2] as int * 0x1_0000 + b[at + 3] as int * 0x100_0000
  }

  function LoadU64(b: seq<u8>, at: nat): u64
    requires at + 8 <= |b|
  {
    LoadU32(b, at) + LoadU32(b, at + 4) * 0x1_0000_0000
  }

  function StoreU32(v: u32): (b: seq<u8>)
    ensures |b| == 4
  {
    var q1 := v / 0x100;
    var q2 := q1 / 0x100;
    [v % 0x100, q1 % 0x100, q2 % 0x100, q2 / 0x100]
  }

  function StoreU64(v: u64): (b: seq<u8>)
    ensures |b| == 8
  {
    StoreU32(v % 0x1_0000_0000) + StoreU32(v / 0x1_0000_0000)
  }

  /** Reading back a stored `u32`, wherever it sits in the blob, gives the value stored. */
  lemma LoadStoreU32(prefix: seq<u8>, v: u32, suffix: seq<u8>)
    ensures LoadU32(prefix + StoreU32(v) + suffix, |prefix|) == v
  {
    var b := prefix + StoreU32(v) + suffix;
    var k := |prefix|;
    var q1 := v / 0x100;
    var q2 := q1 / 0x100;
    assert b[k] == v % 0x100;
    assert b[k + 1] == q1 % 0x100;
    assert b[k + 2] == q2 % 0x100;
    assert b[k + 3] == q2 / 0x100;
    assert v == v % 0x100 + 0x100 * q1;
    assert q1 == q1 % 0x100 + 0x100 * q2;
    assert q2 == q2 % 0x100 + 0x100 * (q2 / 0x100);
  }

  /** Reading back a stored `u64`, wherever it sits in the blob, gives the value stored. */
  lemma LoadStoreU64(prefix: seq<u8>, v: u64, suffix: seq<u8>)
    ensures LoadU64(prefix + StoreU64(v) + suffix, |prefix|) == v
  {
    var lo, hi := StoreU32(v % 0x1_0000_0000), StoreU32(v / 0x1_0000_0000);
    assert prefix + StoreU64(v) + suffix == prefix + lo + (hi + suffix);
    LoadStoreU32(prefix, v % 0x1_0000_0000, hi + suffix);
    assert prefix + StoreU64(v) + suffix == (prefix + lo) + hi + suffix;
    LoadStoreU32(prefix + lo, v / 0x1_0000_0000, suffix);
  }

  // ---------------------------------------------------------------------
  // The tag stream
  // ---------------------------------------------------------------------

  function TotalSize(blob: seq<u8>): u32
    requires |blob| >= INFO_HEADER_SIZE
  {
    LoadU32(blob, 0)
  }

  function TagType(blob: seq<u8>, tag: nat): u32
    requires tag + TAG_HEADER_SIZE <= |blob|
  {
    LoadU32(blob, tag)
  }

  function TagSize(blob: seq<u8>, tag: nat): u32
    requires tag + TAG_HEADER_SIZE <= |blob|
  {
    LoadU32(blob, tag + 4)
  }

  /** `((size + 7) / 8) * 8` in `u32` arithmetic: the least multiple of 8 not below `size`. */
  function AlignUp8(size: u32): (r: u32)
    requires size <= MAX_TAG_SIZE
    ensures r % 8 == 0 && size <= r < size + 8
  {
    (size + 7) / 8 * 8
  }

  /** Where the tag after `tag` starts. */
  function NextTag(blob: seq<u8>, tag: nat): nat
    requires tag + TAG_HEADER_SIZE <= |blob| && TagSize(blob, tag) <= MAX_TAG_SIZE
  {
    tag + AlignUp8(TagSize(blob, tag))
  }

  /**
   * From `offset` on, the walk reads every tag header inside the blob, and
   * every non-end tag it reaches below `total_size` has a size in
   * `1..MAX_TAG_SIZE`. A size of 0 leaves the cursor where it is, so the loop
   * spins; a larger size overflows `size + 7`. This is exactly what makes the
   * walk terminate.
   */
  predicate WalkableFrom(blob: seq<u8>, offset: nat)
    requires |blob| >= INFO_HEADER_SIZE
    decreases TotalSize(blob) - offset
  {
    offset < TotalSize(blob) ==>
      && offset + TAG_HEADER_SIZE <= |blob|
      && (TagType(blob, offset) != TAG_END ==>
            && 0 < TagSize(blob, offset) <= MAX_TAG_SIZE
            && WalkableFrom(blob, NextTag(blob, offset)))
  }

  /** A blob the bootloader may hand over: a readable header and a walk that ends. */
  predicate WellFormedBlob(blob: seq<u8>)
  {
    |blob| >= INFO_HEADER_SIZE && WalkableFrom(blob, FIRST_TAG_OFFSET)
  }

  /** A tag the walk may hand to its visitor and step over: a readable, non-end header with a usable size. */
  predicate VisitableTag(blob: seq<u8>, tag: nat)
  {
    tag + TAG_HEADER_SIZE <= |blob| && TagType(blob, tag) != TAG_END && 0 < TagSize(blob, tag) <= MAX_TAG_SIZE
  }

  /** The tags the walk hands to its visitor from `offset` on, in order. */
  function TagsFrom(blob: seq<u8>, offset: nat): (tags: seq<nat>)
    requires |blob| >= INFO_HEADER_SIZE && WalkableFrom(blob, offset)
    ensures forall i :: 0 <= i < |tags| ==> offset <= tags[i] < TotalSize(blob) && VisitableTag(blob, tags[i])
    ensures |tags| > 0 ==> tags[0] == offset
    decreases TotalSize(blob) - offset
  {
    if offset >= TotalSize(blob) || TagType(blob, offset) == TAG_END then []
    else [offset] + TagsFrom(blob, NextTag(blob, offset))
  }

  /** The tags `for_each_tag` hands to its visitor. */
  function VisitedTags(blob: seq<u8>): seq<nat>
    requires WellFormedBlob(blob)
  {
    TagsFrom(blob, FIRST_TAG_OFFSET)
  }

  /** Stepping by a multiple of 8 keeps the residue modulo 8. */
  lemma StepKeepsResidue(a: nat, step: nat)
    requires step % 8 == 0
    ensures (a + step) % 8 == a % 8
  {
  }

  /** Every offset in `tags` has residue `residue` modulo 8. */
  predicate SameResidue(tags: seq<nat>, residue: nat)
  {
    forall i :: 0 <= i < |tags| ==> tags[i] % 8 == residue
  }

  /** `tags` strictly increases, so no offset occurs twice. */
  predicate StrictlyIncreasing(tags: seq<nat>)
  {
    forall i, j :: 0 <= i < j < |tags| ==> tags[i] < tags[j]
  }

  /** Each offset in `tags` is where the walk steps to from the one before. */
  predicate Chained(blob: seq<u8>, tags: seq<nat>)
  {
    forall i :: 0 <= i < |tags| - 1 ==> VisitableTag(blob, tags[i]) && tags[i + 1] == NextTag(blob, tags[i])
  }

  /** The walk from `offset` steps by multiples of 8, so its offsets keep `offset`'s residue. */
  lemma {:induction false} TagsFromResidue(blob: seq<u8>, offset: nat)
    requires |blob| >= INFO_HEADER_SIZE && WalkableFrom(blob, offset)
    ensures SameResidue(TagsFrom(blob, offset), offset % 8)
    decreases TotalSize(blob) - offset
  {
    var tags := TagsFrom(blob, offset);
    if tags != [] {
      var next := NextTag(blob, offset);
      TagsFromResidue(blob, next);
      var rest := TagsFrom(blob, next);
      assert tags == [offset] + rest;
      StepKeepsResidue(offset, AlignUp8(TagSize(blob, offset)));
      forall i | 0 <= i < |tags| ensures tags[i] % 8 == offset % 8 {
        if i > 0 {
          assert tags[i] == rest[i - 1];
        }
      }
    }
  }

  /** The walk from `offset` only moves forward, so its offsets strictly increase. */
  lemma {:induction false} TagsFromIncreasing(blob: seq<u8>, offset: nat)
    requires |blob| >= INFO_HEADER_SIZE && WalkableFrom(blob, offset)
    ensures StrictlyIncreasing(TagsFrom(blob, offset))
    decreases TotalSize(blob) - offset
  {
    var tags := TagsFrom(blob, offset);
    if tags != [] {
      var next := NextTag(blob, offset);
      TagsFromIncreasing(blob, next);
      var rest := TagsFrom(blob, next);
      assert tags == [offset] + rest;
      forall i, j | 0 <= i < j < |tags| ensures tags[i] < tags[j] {
        assert tags[j] == rest[j - 1] && next <= rest[j - 1];
        if i > 0 { assert tags[i] == rest[i - 1]; }
      }
    }
  }

  /** Each offset of the walk from `offset` is the previous one plus its aligned size. */
  lemma {:induction false} TagsFromChained(blob: seq<u8>, offset: nat)
    requires |blob| >= INFO_HEADER_SIZE && WalkableFrom(blob, offset)
    ensures Chained(blob, TagsFrom(blob, offset))
    decreases TotalSize(blob) - offset
  {
    var tags := TagsFrom(blob, offset);
    if tags != [] {
      var next := NextTag(blob, offset);
      TagsFromChained(blob, next);
      var rest := TagsFrom(blob, next);
      assert tags == [offset] + rest;
      forall i | 0 <= i < |tags| - 1 ensures VisitableTag(blob, tags[i]) && tags[i + 1] == NextTag(blob, tags[i]) {
        if i > 0 { assert tags[i] == rest[i - 1] && tags[i + 1] == rest[i]; }
      }
    }
  }

  /**
   * The shape of a walk: it starts at offset 8, its cursor only moves forward
   * by the aligned size of the tag just visited, every visited offset is a
   * multiple of 8 below `total_size` (so no tag is visited twice), no end tag
   * is visited, and it stops at the first end tag or at `total_size`.
   */
  lemma WalkShape(blob: seq<u8>)
    requires WellFormedBlob(blob)
    ensures var tags := VisitedTags(blob);
      && (tags == [] <==> FIRST_TAG_OFFSET >= TotalSize(blob) || TagType(blob, FIRST_TAG_OFFSET) == TAG_END)
      && (tags != [] ==> tags[0] == FIRST_TAG_OFFSET)
      && (forall i :: 0 <= i < |tags| ==> FIRST_TAG_OFFSET <= tags[i] < TotalSize(blob))
      && (forall i :: 0 <= i < |tags| ==> TagType(blob, tags[i]) != TAG_END)
      && SameResidue(tags, 0)
      && StrictlyIncreasing(tags)
      && Chained(blob, tags)
      && (tags != [] ==>
            var next := NextTag(blob, tags[|tags| - 1]);
            next >= TotalSize(blob) || (next + TAG_HEADER_SIZE <= |blob| && TagType(blob, next) == TAG_END))
  {
    TagsFromResidue(blob, FIRST_TAG_OFFSET);
    TagsFromIncreasing(blob, FIRST_TAG_OFFSET);
    TagsFromChained(blob, FIRST_TAG_OFFSET);
    if VisitedTags(blob) != [] {
      WalkEndsAtEndTag(blob, FIRST_TAG_OFFSET);
    }
  }

  /** The walk from `offset` stops at `total_size` or in front of an end tag. */
  lemma {:induction false} WalkEndsAtEndTag(blob: seq<u8>, offset: nat)
    requires |blob| >= INFO_HEADER_SIZE && WalkableFrom(blob, offset)
    requires TagsFrom(blob, offset) != []
    ensures var tags := TagsFrom(blob, offset);
      var next := NextTag(blob, tags[|tags| - 1]);
      next >= TotalSize(blob) || (next + TAG_HEADER_SIZE <= |blob| && TagType(blob, next) == TAG_END)
    decreases TotalSize(blob) - offset
  {
    var next := NextTag(blob, offset);
    if TagsFrom(blob, next) != [] {
      WalkEndsAtEndTag(blob, next);
    }
  }

  /** A non-end tag of size 0 below `total_size` leaves the cursor in place: the walk never ends. */
  lemma ZeroSizeTagSpins(blob: seq<u8>, offset: nat)
    requires |blob| >= INFO_HEADER_SIZE && offset < TotalSize(blob) && offset + TAG_HEADER_SIZE <= |blob|
    requires TagType(blob, offset) != TAG_END && TagSize(blob, offset) == 0
    ensures NextTag(blob, offset) == offset
    ensures !WalkableFrom(blob, offset)
  {
  }

  // ---------------------------------------------------------------------
  // for_each_tag and get_tag
  // ---------------------------------------------------------------------

  /**
   * The state a visitor reaches after seeing `tags` in order. A visitor is a
   * closure over some captured state `S`: it receives that state and a tag
   * and returns the updated state.
   */
  function Replay<S(!new)>(visit: (S, nat) --> S, init: S, tags: seq<nat>): S
    requires forall s, i :: 0 <= i < |tags| ==> visit.requires(s, tags[i])
    decreases |tags|
  {
    if tags == [] then init
    else visit(Replay(visit, init, tags[..|tags| - 1]), tags[|tags| - 1])
  }

  /**
   * `for_each_tag`: walk the tags from offset 8 while the cursor is below
   * `total_size`, stop at the first end tag without visiting it, and step by
   * the tag's size rounded up to 8.
   */
  method ForEachTag<S(!new)>(blob: seq<u8>, visit: (S, nat) --> S, init: S) returns (state: S)
    requires WellFormedBlob(blob)
    requires forall s, tag: nat :: tag + TAG_HEADER_SIZE <= |blob| ==> visit.requires(s, tag)
    ensures state == Replay(visit, init, VisitedTags(blob))
  {
    var totalSize := LoadU32(blob, 0);
    var offset: nat := FIRST_TAG_OFFSET;
    ghost var visited: seq<nat> := [];
    state := init;
    while offset < totalSize
      invariant WalkableFrom(blob, offset)
      invariant visited + TagsFrom(blob, offset) == VisitedTags(blob)
      invariant forall i :: 0 <= i < |visited| ==> visited[i] + TAG_HEADER_SIZE <= |blob|
      invariant state == Replay(visit, init, visited)
      decreases totalSize - offset
    {
      if LoadU32(blob, offset) == TAG_END {
        break;
      }
      state := visit(state, offset);
      VisitOneMore(blob, visited, offset);
      ReplaySnoc(visit, init, visited, offset);
      visited := visited + [offset];
      offset := offset + AlignUp8(LoadU32(blob, offset + 4));
    }
    assert TagsFrom(blob, offset) == [];
    assert visited + [] == visited;
  }

  /** One loop step: visiting the tag at `offset` moves it from the walk still ahead to the tags seen. */
  lemma VisitOneMore(blob: seq<u8>, visited: seq<nat>, offset: nat)
    requires |blob| >= INFO_HEADER_SIZE && WalkableFrom(blob, offset)
    requires offset < TotalSize(blob) && TagType(blob, offset) != TAG_END
    ensures VisitableTag(blob, offset) && WalkableFrom(blob, NextTag(blob, offset))
    ensures visited + TagsFrom(blob, offset) == (visited + [offset]) + TagsFrom(blob, NextTag(blob, offset))
  {
    assert TagsFrom(blob, offset) == [offset] + TagsFrom(blob, NextTag(blob, offset));
  }

  /** Replaying one more tag is one more visit. */
  lemma ReplaySnoc<S(!new)>(visit: (S, nat) --> S, init: S, tags: seq<nat>, tag: nat)
    requires forall s, i :: 0 <= i < |tags| ==> visit.requires(s, tags[i])
    requires forall s :: visit.requires(s, tag)
    ensures Replay(visit, init, tags + [tag]) == visit(Replay(visit, init, tags), tag)
  {
    assert (tags + [tag])[..|tags|] == tags;
  }

  /** The index of the last of `tags` whose type is `tagType`, or -1 when none has it. */
  function LastIndexOfType(blob: seq<u8>, tags: seq<nat>, tagType: u32): (k: int)
    requires forall i :: 0 <= i < |tags| ==> tags[i] + TAG_HEADER_SIZE <= |blob|
    ensures -1 <= k < |tags|
    ensures k >= 0 ==> TagType(blob, tags[k]) == tagType
    ensures forall j :: k < j < |tags| ==> TagType(blob, tags[j]) != tagType
    decreases |tags|
  {
    if tags == [] then -1
    else if TagType(blob, tags[|tags| - 1]) == tagType then |tags| - 1
    else LastIndexOfType(blob, tags[..|tags| - 1], tagType)
  }

  /** The last of `tags` whose type is `tagType`: what `get_tag` is meant to return. */
  function LastOfType(blob: seq<u8>, tags: seq<nat>, tagType: u32): Option<nat>
    requires forall i :: 0 <= i < |tags| ==> tags[i] + TAG_HEADER_SIZE <= |blob|
  {
    var k := LastIndexOfType(blob, tags, tagType);
    if k < 0 then None else Some(tags[k])
  }

  /** The closure `get_tag` passes to `for_each_tag`: overwrite the result on every match. */
  function MatchVisitor(blob: seq<u8>, tagType: u32): (Option<nat>, nat) --> Option<nat>
  {
    (found: Option<nat>, tag: nat) requires tag + TAG_HEADER_SIZE <= |blob| =>
      if TagType(blob, tag) == tagType then Some(tag) else found
  }

  /** The match visitor, run over any tags, ends on the last match. */
  lemma {:induction false} ReplayMatchIsLast(blob: seq<u8>, tags: seq<nat>, tagType: u32)
    requires forall i :: 0 <= i < |tags| ==> tags[i] + TAG_HEADER_SIZE <= |blob|
    ensures Replay(MatchVisitor(blob, tagType), None, tags) == LastOfType(blob, tags, tagType)
    decreases |tags|
  {
    if tags != [] {
      ReplayMatchIsLast(blob, tags[..|tags| - 1], tagType);
    }
  }

  /** The tag `get_tag(tagType)` returns. */
  function FindTag(blob: seq<u8>, tagType: u32): Option<nat>
    requires WellFormedBlob(blob)
  {
    LastOfType(blob, VisitedTags(blob), tagType)
  }

  /**
   * `get_tag`: the LAST visited tag of the requested type, because the
   * visitor overwrites its result on every match and the walk never stops
   * early; `None` when no visited tag has that type.
   */
  method GetTag(blob: seq<u8>, tagType: u32) returns (tag: Option<nat>)
    requires WellFormedBlob(blob)
    ensures tag == FindTag(blob, tagType)
    ensures var tags := VisitedTags(blob);
      && (tag.None? <==> forall i :: 0 <= i < |tags| ==> TagType(blob, tags[i]) != tagType)
      && (tag.Some? ==> tag.value in tags && TagType(blob, tag.value) == tagType)
      && (tag.Some? ==> forall i :: 0 <= i < |tags| && TagType(blob, tags[i]) == tagType ==> tags[i] <= tag.value)
  {
    tag := ForEachTag(blob, MatchVisitor(blob, tagType), None);
    var tags := VisitedTags(blob);
    ReplayMatchIsLast(blob, tags, tagType);
    TagsFromIncreasing(blob, FIRST_TAG_OFFSET);
    var k := LastIndexOfType(blob, tags, tagType);
    if k >= 0 {
      forall i | 0 <= i < |tags| && TagType(blob, tags[i]) == tagType ensures tags[i] <= tags[k] {
        if i < k { assert tags[i] < tags[k]; }
      }
    }
  }

  // ---------------------------------------------------------------------
  // The framebuffer tag (section 3.6.12)
  // ---------------------------------------------------------------------

  /** The fields of a framebuffer-info tag the adapter reads. */
  datatype FramebufferTag = FramebufferTag(
    addr: u64, pitch: u32, width: u32, height: u32, bpp: u8, framebufferType: u8)

  function ReadFramebufferTag(blob: seq<u8>, tag: nat): FramebufferTag
    requires tag + FRAMEBUFFER_TAG_SIZE <= |blob|
  {
    FramebufferTag(
      LoadU64(blob, tag + 8), LoadU32(blob, tag + 16), LoadU32(blob, tag + 20),
      LoadU32(blob, tag + 24), blob[tag + 28], blob[tag + 29])
  }

  /** The bytes of a framebuffer tag as a bootloader lays it out, declared size `size`. */
  function EncodeFramebufferTag(fb: FramebufferTag, size: u32): (b: seq<u8>)
    ensures |b| == FRAMEBUFFER_TAG_SIZE
  {
    StoreU32(TAG_FRAMEBUFFER_INFO) + StoreU32(size) + StoreU64(fb.addr)
      + StoreU32(fb.pitch) + StoreU32(fb.width) + StoreU32(fb.height)
      + [fb.bpp, fb.framebufferType, 0, 0]
  }

  /** A `u32` stored at `at` reads back, whatever surrounds it. */
  lemma LoadU32At(b: seq<u8>, at: nat, v: u32)
    requires at + 4 <= |b| && b[at..at + 4] == StoreU32(v)
    ensures LoadU32(b, at) == v
  {
    assert b == b[..at] + StoreU32(v) + b[at + 4..];
    LoadStoreU32(b[..at], v, b[at + 4..]);
  }

  /** A `u64` stored at `at` reads back, whatever surrounds it. */
  lemma LoadU64At(b: seq<u8>, at: nat, v: u64)
    requires at + 8 <= |b| && b[at..at + 8] == StoreU64(v)
    ensures LoadU64(b, at) == v
  {
    assert b == b[..at] + StoreU64(v) + b[at + 8..];
    LoadStoreU64(b[..at], v, b[at + 8..]);
  }

  /** Decoding an encoded framebuffer tag gives back its fields, type and size. */
  lemma FramebufferTagRoundTrip(prefix: seq<u8>, fb: FramebufferTag, size: u32, suffix: seq<u8>)
    ensures var blob := prefix + EncodeFramebufferTag(fb, size) + suffix;
      && ReadFramebufferTag(blob, |prefix|) == fb
      && TagType(blob, |prefix|) == TAG_FRAMEBUFFER_INFO
      && TagSize(blob, |prefix|) == size
  {
    var e := EncodeFramebufferTag(fb, size);
    var blob := prefix + e + suffix;
    var k := |prefix|;
    assert blob[k..k + 32] == e;
    assert e[0..4] == StoreU32(TAG_FRAMEBUFFER_INFO);
    assert e[4..8] == StoreU32(size);
    assert e[8..16] == StoreU64(fb.addr);
    assert e[16..20] == StoreU32(fb.pitch);
    assert e[20..24] == StoreU32(fb.width);
    assert e[24..28] == StoreU32(fb.height);
    LoadU32At(blob, k, TAG_FRAMEBUFFER_INFO);
    LoadU32At(blob, k + 4, size);
    LoadU64At(blob, k + 8, fb.addr);
    LoadU32At(blob, k + 16, fb.pitch);
    LoadU32At(blob, k + 20, fb.width);
    LoadU32At(blob, k + 24, fb.height);
    assert blob[k + 28] == e[28] == fb.bpp;
    assert blob[k + 29] == e[29] == fb.framebufferType;
  }

  // ---------------------------------------------------------------------
  // The adapter and its accessors
  // ---------------------------------------------------------------------

  /** `Multiboot2BootInfo`: the blob the bootloader left at `infoPtr`. */
  datatype Multiboot2BootInfo = Multiboot2BootInfo(infoPtr: u64, blob: seq<u8>)

  /** The blob is well formed and lies wholly inside the 64-bit address space. */
  predicate Valid(info: Multiboot2BootInfo)
  {
    WellFormedBlob(info.blob) && info.infoPtr + |info.blob| < U64_LIMIT
  }

  /** No tag the walk visits has type `tagType`. */
  predicate NoVisitedTag(blob: seq<u8>, tagType: u32)
    requires WellFormedBlob(blob)
  {
    var tags := VisitedTags(blob);
    forall i :: 0 <= i < |tags| ==> TagType(blob, tags[i]) != tagType
  }

  /** `get_tag` finds nothing exactly when no visited tag has the requested type. */
  lemma FindTagNone(blob: seq<u8>, tagType: u32)
    requires WellFormedBlob(blob)
    ensures FindTag(blob, tagType).None? <==> NoVisitedTag(blob, tagType)
  {
    var tags := VisitedTags(blob);
    var k := LastIndexOfType(blob, tags, tagType);
    if k >= 0 {
      assert TagType(blob, tags[k]) == tagType;
    }
  }

  /**
   * The framebuffer tag the accessors pick (if any) lies wholly in the blob:
   * both accessors take a reference to a whole `FramebufferTag` there.
   */
  predicate FramebufferTagReadable(info: Multiboot2BootInfo)
    requires Valid(info)
  {
    match FindTag(info.blob, TAG_FRAMEBUFFER_INFO)
    case None => true
    case Some(tag) => tag + FRAMEBUFFER_TAG_SIZE <= |info.blob|
  }

  /**
   * The tag `get_tag(FramebufferInfo)` returns, read as a `FramebufferTag`:
   * what both framebuffer accessors start from.
   */
  function PickedFramebufferTag(info: Multiboot2BootInfo): (fb: Option<FramebufferTag>)
    requires Valid(info) && FramebufferTagReadable(info)
    ensures fb.None? <==> NoVisitedTag(info.blob, TAG_FRAMEBUFFER_INFO)
  {
    FindTagNone(info.blob, TAG_FRAMEBUFFER_INFO);
    match FindTag(info.blob, TAG_FRAMEBUFFER_INFO)
    case None => None
    case Some(tag) => Some(ReadFramebufferTag(info.blob, tag))
  }

  /**
   * What `framebuffer_info` needs beyond a readable tag: its `bpp` is at
   * least 8, since `bpp / 8` is a divisor and a smaller `bpp` divides by zero.
   */
  predicate FramebufferTagSound(info: Multiboot2BootInfo)
    requires Valid(info)
  {
    && FramebufferTagReadable(info)
    && (PickedFramebufferTag(info).Some? ==> PickedFramebufferTag(info).value.bpp >= 8)
  }

  /**
   * `framebuffer_address`: the `addr` field of the last framebuffer tag, or
   * `None` when the walk visits none.
   */
  function FramebufferAddress(info: Multiboot2BootInfo): (r: Option<u64>)
    requires Valid(info) && FramebufferTagReadable(info)
    ensures r.None? <==> NoVisitedTag(info.blob, TAG_FRAMEBUFFER_INFO)
    ensures r.Some? ==> r.value == PickedFramebufferTag(info).value.addr
  {
    match PickedFramebufferTag(info)
    case None => None
    case Some(fb) => Some(fb.addr)
  }

  /**
   * The kernel's view of one framebuffer tag: the pixel format is always RGB
   * whatever the tag's colour layout, `bytes_per_pixel` is `bpp / 8` rounded
   * down and `stride` is `pitch / bytes_per_pixel` rounded down.
   */
  function FrameBufferInfoOf(fb: FramebufferTag): (r: FrameBufferInfo)
    requires fb.bpp >= 8
    ensures r.pixelFormat == Rgb
    ensures r.width == fb.width && r.height == fb.height && r.physicalAddress == fb.addr
    ensures r.bytesPerPixel * 8 <= fb.bpp < r.bytesPerPixel * 8 + 8
    ensures r.stride * r.bytesPerPixel <= fb.pitch < (r.stride + 1) * r.bytesPerPixel
  {
    var bytesPerPixel := fb.bpp / 8;
    DivBounds(fb.pitch, bytesPerPixel);
    FrameBufferInfo(fb.width, fb.height, fb.pitch / bytesPerPixel, Rgb, bytesPerPixel, fb.addr)
  }

  /**
   * `framebuffer_info`: the last framebuffer tag seen through
   * `FrameBufferInfoOf`, whose address agrees with `framebuffer_address`.
   */
  function FramebufferInfo(info: Multiboot2BootInfo): (r: Option<FrameBufferInfo>)
    requires Valid(info) && FramebufferTagSound(info)
    ensures r.None? <==> NoVisitedTag(info.blob, TAG_FRAMEBUFFER_INFO)
    ensures r.Some? ==> r.value == FrameBufferInfoOf(PickedFramebufferTag(info).value)
    ensures r.Some? ==> FramebufferAddress(info) == Some(r.value.physicalAddress)
  {
    match PickedFramebufferTag(info)
    case None => None
    case Some(fb) => Some(FrameBufferInfoOf(fb))
  }

  /** `memory_regions`: not parsed by this adapter, so always empty. */
  function MemoryRegions(info: Multiboot2BootInfo): (r: seq<MemoryRegion>)
    ensures |r| == 0
  {
    []
  }

  /**
   * `rsdp_address`: the address of the RSDP copy inside the last new-ACPI
   * tag (type 15), else inside the last old-ACPI tag (type 14), else `None`.
   * The copy starts right after the 8-byte tag header.
   */
  function RsdpAddress(info: Multiboot2BootInfo): (r: Option<u64>)
    requires Valid(info)
    ensures r.None? <==> NoVisitedTag(info.blob, TAG_ACPI_NEW_RSDP) && NoVisitedTag(info.blob, TAG_ACPI_OLD_RSDP)
    ensures !NoVisitedTag(info.blob, TAG_ACPI_NEW_RSDP) ==>
      r == Some(info.infoPtr + FindTag(info.blob, TAG_ACPI_NEW_RSDP).value + TAG_HEADER_SIZE)
    ensures NoVisitedTag(info.blob, TAG_ACPI_NEW_RSDP) && !NoVisitedTag(info.blob, TAG_ACPI_OLD_RSDP) ==>
      r == Some(info.infoPtr + FindTag(info.blob, TAG_ACPI_OLD_RSDP).value + TAG_HEADER_SIZE)
    ensures r.Some? ==> r.value >= info.infoPtr + FIRST_TAG_OFFSET + TAG_HEADER_SIZE
  {
    FindTagNone(info.blob, TAG_ACPI_NEW_RSDP);
    FindTagNone(info.blob, TAG_ACPI_OLD_RSDP);
    match FindTag(info.blob, TAG_ACPI_NEW_RSDP)
    case Some(tag) => Some(info.infoPtr + tag + TAG_HEADER_SIZE)
    case None =>
      match FindTag(info.blob, TAG_ACPI_OLD_RSDP)
      case Some(tag) => Some(info.infoPtr + tag + TAG_HEADER_SIZE)
      case None => None
  }

  /** `command_line`: not parsed by this adapter, so always absent. */
  function CommandLine(info: Multiboot2BootInfo): (r: Option<string>)
    ensures r.None?
  {
    None
  }

  // ---------------------------------------------------------------------
  // The kernel's Multiboot2 header (section 3.1.2)
  // ---------------------------------------------------------------------

  datatype HeaderTag = HeaderTag(tagType: u16, flags: u16, size: u32)

  datatype Multiboot2Header = Multiboot2Header(
    magic: u32, architecture: u32, headerLength: u32, checksum: u32, endTag: HeaderTag)

  /** `u32::wrapping_sub`. */
  function WrappingSub(a: u32, b: u32): (r: u32)
    ensures (r + b) % 0x1_0000_0000 == a
  {
    (a - b) % 0x1_0000_0000
  }

  /** `0 - magic - architecture - header_length`, each step wrapping. */
  function HeaderChecksum(magic: u32, architecture: u32, headerLength: u32): (c: u32)
    ensures (magic + architecture + headerLength + c) % 0x1_0000_0000 == 0
  {
    var c1 := WrappingSub(0, magic);
    var c2 := WrappingSub(c1, architecture);
    var c3 := WrappingSub(c2, headerLength);
    assert (c3 + headerLength) % 0x1_0000_0000 == c2;
    assert (c2 + architecture) % 0x1_0000_0000 == c1;
    assert (c1 + magic) % 0x1_0000_0000 == 0;
    c3
  }

  /** `MULTIBOOT2_HEADER`: the header placed in the `.multiboot2` section. */
  const MULTIBOOT2_HEADER: Multiboot2Header := Multiboot2Header(
    HEADER_MAGIC, ARCHITECTURE_I386, HEADER_LENGTH,
    HeaderChecksum(HEADER_MAGIC, ARCHITECTURE_I386, HEADER_LENGTH),
    HeaderTag(0, 0, 8))

  /**
   * The header a bootloader finds: the magic fields sum to 0 modulo 2^32,
   * `header_length` covers the four fields plus the end tag, and the end tag
   * has type 0 and size 8.
   */
  lemma HeaderIsValid()
    ensures var h := MULTIBOOT2_HEADER;
      && h.magic == HEADER_MAGIC && h.architecture == ARCHITECTURE_I386
      && (h.magic + h.architecture + h.headerLength + h.checksum) % 0x1_0000_0000 == 0
      && h.headerLength == 16 + h.endTag.size
      && h.endTag.tagType == 0 && h.endTag.flags == 0 && h.endTag.size == 8
      && h.checksum == 0x17ad_af12
  {
  }

  // ---------------------------------------------------------------------
  // Entry
  // ---------------------------------------------------------------------

  /** What `_start_multiboot2` does: halt, or hand an adapter to the kernel. */
  datatype EntryOutcome =
    | Halted(badMagic: u32)
    | KernelEntered(bootInfo: Multiboot2BootInfo)

  /**
   * `_start_multiboot2`: a magic word other than the one section 3.3 puts in
   * EAX halts (by panic) before any adapter exists; otherwise the adapter
   * wraps the blob pointer unchanged.
   */
  function StartMultiboot2(infoPtr: u64, blob: seq<u8>, magic: u32): (r: EntryOutcome)
    ensures r.KernelEntered? <==> magic == BOOTLOADER_MAGIC
    ensures r.Halted? ==> r.badMagic == magic
    ensures r.KernelEntered? ==> r.bootInfo.infoPtr == infoPtr && r.bootInfo.blob == blob
  {
    if magic != BOOTLOADER_MAGIC then Halted(magic)
    else KernelEntered(Multiboot2BootInfo(infoPtr, blob))
  }

  // ---------------------------------------------------------------------
  // A worked blob
  // ---------------------------------------------------------------------

  /** The VGA text-mode buffer described as a framebuffer tag. */
  const TEXT_MODE_TAG: FramebufferTag := FramebufferTag(0xB_8000, 160, 80, 25, 8, 0)

  /** Header (8 bytes), one framebuffer tag (32 bytes), end tag (8 bytes). */
  function TextModeBlob(): seq<u8>
  {
    StoreU32(48) + StoreU32(0) + EncodeFramebufferTag(TEXT_MODE_TAG, 32) + StoreU32(TAG_END) + StoreU32(8)
  }

  /** The header fields of the worked blob and the framebuffer tag in it. */
  lemma TextModeBlobFields()
    ensures var blob := TextModeBlob();
      && |blob| == 48 && TotalSize(blob) == 48
      && TagType(blob, 8) == TAG_FRAMEBUFFER_INFO && TagSize(blob, 8) == 32
      && TagType(blob, 40) == TAG_END
      && ReadFramebufferTag(blob, 8) == TEXT_MODE_TAG
  {
    var fbBytes := EncodeFramebufferTag(TEXT_MODE_TAG, 32);
    var endBytes := StoreU32(TAG_END) + StoreU32(8);
    var blob := TextModeBlob();
    assert blob == [] + StoreU32(48) + (StoreU32(0) + fbBytes + endBytes);
    LoadStoreU32([], 48, StoreU32(0) + fbBytes + endBytes);
    assert blob == (StoreU32(48) + StoreU32(0)) + fbBytes + endBytes;
    FramebufferTagRoundTrip(StoreU32(48) + StoreU32(0), TEXT_MODE_TAG, 32, endBytes);
    assert blob == (StoreU32(48) + StoreU32(0) + fbBytes) + StoreU32(TAG_END) + StoreU32(8);
    LoadStoreU32(StoreU32(48) + StoreU32(0) + fbBytes, TAG_END, StoreU32(8));
  }

  /** The walk over the worked blob visits just the framebuffer tag at offset 8. */
  lemma TextModeBlobWalk()
    ensures WellFormedBlob(TextModeBlob()) && VisitedTags(TextModeBlob()) == [8]
  {
    var blob := TextModeBlob();
    TextModeBlobFields();
    assert NextTag(blob, 8) == 40;
    assert WalkableFrom(blob, 40);
    assert WalkableFrom(blob, 8);
    assert TagsFrom(blob, 40) == [];
  }

  /** The text-mode tag describes an 80x25 buffer of one byte per pixel and 160 pixels per row. */
  lemma TextModeTagDescribed()
    ensures FrameBufferInfoOf(TEXT_MODE_TAG) == FrameBufferInfo(80, 25, 160, Rgb, 1, 0xB_8000)
  {
    assert TEXT_MODE_TAG.bpp / 8 == 1;
    assert TEXT_MODE_TAG.pitch / 1 == 160;
  }

  /**
   * The accessors over the worked blob report an 80x25 one-byte-per-pixel
   * buffer at 0xB8000 with a stride of 160 pixels, and no RSDP.
   */
  lemma TextModeBlobAccessors(infoPtr: u64)
    requires infoPtr + 48 < U64_LIMIT
    ensures var info := Multiboot2BootInfo(infoPtr, TextModeBlob());
      && Valid(info) && FramebufferTagSound(info)
      && FramebufferInfo(info) == Some(FrameBufferInfo(80, 25, 160, Rgb, 1, 0xB_8000))
      && RsdpAddress(info) == None
  {
    var blob := TextModeBlob();
    TextModeBlobFields();
    TextModeBlobWalk();
    TextModeTagDescribed();
    var info := Multiboot2BootInfo(infoPtr, blob);
    assert LastIndexOfType(blob, [8], TAG_FRAMEBUFFER_INFO) == 0;
    assert FindTag(blob, TAG_FRAMEBUFFER_INFO) == Some(8);
    assert FindTag(blob, TAG_ACPI_NEW_RSDP) == None;
    assert FindTag(blob, TAG_ACPI_OLD_RSDP) == None;
    assert PickedFramebufferTag(info) == Some(TEXT_MODE_TAG);
  }
}
