/**
 * Attribute dispatch of the fsinfo() query (fs/fsinfo.c): attribute tables,
 * the Nth/Mth validity rules, buffer-size negotiation, the de-duplicating
 * attribute-id list, and the filesystem-table-then-common-table fallback.
 *
 * The getters that read a superblock are one abstract handler per table:
 * a function from the attribute and the context to the value the getter
 * returns. Path lookup and the buffer itself are not modelled; the two
 * buffer contents the dispatcher writes on its own (the attribute-id list
 * and the attribute-info record) are fields of the context.
 */
module FsInfo {
  import opened KernelTypes
  import FsInfoFeatures

  // Attribute ids of include/uapi/linux/fsinfo.h.
  const ATTR_STATFS: nat := 0x00
  const ATTR_IDS: nat := 0x01
  const ATTR_LIMITS: nat := 0x02
  const ATTR_SUPPORTS: nat := 0x03
  const ATTR_TIMESTAMP_INFO: nat := 0x04
  const ATTR_VOLUME_ID: nat := 0x05
  const ATTR_VOLUME_UUID: nat := 0x06
  const ATTR_FEATURES: nat := 0x08
  const ATTR_SOURCE: nat := 0x09
  const ATTR_CONFIGURATION: nat := 0x0a
  const ATTR_FS_STATISTICS: nat := 0x0b
  const ATTR_ATTRIBUTE_INFO: nat := 0x100
  const ATTR_ATTRIBUTES: nat := 0x101
  const ATTR_MOUNT_INFO: nat := 0x200
  const ATTR_MOUNT_PATH: nat := 0x201
  const ATTR_MOUNT_POINT: nat := 0x202
  const ATTR_MOUNT_POINT_FULL: nat := 0x203
  const ATTR_MOUNT_TOPOLOGY: nat := 0x204
  const ATTR_MOUNT_CHILDREN: nat := 0x205
  const ATTR_MOUNT_ALL: nat := 0x206

  /** Attribute flags: the value has Nth instances, or Nth and Mth ones. */
  const FLAGS_N: bv8 := 1
  const FLAGS_NM: bv8 := 2

  /** The buffer size a string, opaque or list value is first offered. */
  const NORMAL_ATTR_MAX_SIZE: nat := 4096

  /** sizeof(__u32): one entry of the attribute-id list. */
  const ID_ENTRY_SIZE: nat := 4

  /** sizeof(struct fsinfo_attribute_info). */
  const ATTRIBUTE_INFO_SIZE: nat := 16

  /** sizeof(struct fsinfo_timestamp_info). */
  const TIMESTAMP_INFO_SIZE: nat := 96

  /** The value types; an attribute table may hold a type code outside the four known ones. */
  datatype ValueType = VStruct | String | Opaque | List | Unknown(code: nat)

  /** One entry of an attribute table (the getter is the table's handler). */
  datatype Attribute = Attribute(id: nat, vtype: ValueType, flags: bv8, size: nat)

  /**
   * struct fsinfo_context. `ids` stands for the u32 words the attribute-id
   * list has written at the start of the buffer, `info` for the
   * fsinfo_attribute_info record written by an ATTRIBUTE_INFO query.
   */
  datatype Context = Context(
    requestedAttr: nat,
    nth: nat,
    mth: nat,
    wantSizeOnly: bool,
    clearTail: bool,
    usage: nat,
    bufSize: nat,
    ids: seq<nat>,
    info: Option<Attribute>)

  /** A getter's int result: a size, or a negated errno. */
  datatype Ret = Value(n: nat) | Fail(err: Errno)

  /** A result and the context as the call leaves it. */
  datatype Reply = Reply(ret: Ret, ctx: Context)

  /** The getters of one attribute table. */
  type Handler = (Attribute, Context) -> Ret

  /** A filesystem's own table, consulted through its ->fsinfo hook. */
  datatype FsTable = FsTable(table: seq<Attribute>, get: Handler)

  /**
   * fsinfo_common_attributes; a struct's size field is the size of its
   * uapi struct, a string's is 0 and a list's is the size of one element.
   */
  const CommonAttributes: seq<Attribute> := SuperblockAttributes + MetaAttributes + MountAttributes

  /** The first group of fsinfo_common_attributes: the superblock's attributes. */
  const SuperblockAttributes: seq<Attribute> := [
    Attribute(ATTR_STATFS, VStruct, 0, 112),
    Attribute(ATTR_IDS, VStruct, 0, 48),
    Attribute(ATTR_LIMITS, VStruct, 0, 96),
    Attribute(ATTR_SUPPORTS, VStruct, 0, 40),
    Attribute(ATTR_TIMESTAMP_INFO, VStruct, 0, TIMESTAMP_INFO_SIZE),
    Attribute(ATTR_VOLUME_ID, String, 0, 0),
    Attribute(ATTR_VOLUME_UUID, VStruct, 0, 16),
    Attribute(ATTR_FEATURES, VStruct, 0, 12),
    Attribute(ATTR_SOURCE, String, 0, 0),
    Attribute(ATTR_CONFIGURATION, String, 0, 0),
    Attribute(ATTR_FS_STATISTICS, String, 0, 0)
  ]

  /** The second group: the attributes that describe attributes. */
  const MetaAttributes: seq<Attribute> := [
    Attribute(ATTR_ATTRIBUTES, List, 0, ID_ENTRY_SIZE),
    Attribute(ATTR_ATTRIBUTE_INFO, VStruct, FLAGS_N, ATTRIBUTE_INFO_SIZE)
  ]

  /** The third group: the mount's attributes. */
  const MountAttributes: seq<Attribute> := [
    Attribute(ATTR_MOUNT_INFO, VStruct, 0, 48),
    Attribute(ATTR_MOUNT_TOPOLOGY, VStruct, 0, 24),
    Attribute(ATTR_MOUNT_PATH, String, 0, 0),
    Attribute(ATTR_MOUNT_POINT, String, 0, 0),
    Attribute(ATTR_MOUNT_POINT_FULL, String, 0, 0),
    Attribute(ATTR_MOUNT_CHILDREN, List, 0, 24),
    Attribute(ATTR_MOUNT_ALL, List, 0, 24)
  ]

  // ---------------------------------------------------------------------
  // The uapi struct layouts the common table's sizes come from

  /** A member of a C struct: its size and its alignment, in bytes. */
  datatype Field = Field(size: nat, align: nat)

  const U8: Field := Field(1, 1)
  const U16: Field := Field(2, 2)
  const U32: Field := Field(4, 4)
  const U64: Field := Field(8, 8)
  /** struct fsinfo_u128: two __u64 halves. */
  const U128: Field := Field(16, 8)

  /** A byte array of n elements. */
  function Bytes(n: nat): Field {
    Field(n, 1)
  }

  /** n consecutive members of the same type. */
  function Repeat(f: Field, n: nat): (fields: seq<Field>)
    ensures |fields| == n && forall i :: 0 <= i < n ==> fields[i] == f
  {
    seq(n, i => f)
  }

  /** The least multiple of `align` at or above `off`. */
  function AlignUp(off: nat, align: nat): (r: nat)
    requires align > 0
    ensures off <= r < off + align
  {
    if off % align == 0 then off else off + (align - off % align)
  }

  lemma MulMono(p: nat, q: nat, a: nat)
    requires p <= q
    ensures p * a <= q * a
  {
  }

  /** A remainder is determined by any quotient-remainder split. */
  lemma DivModUnique(x: nat, a: nat, q: nat, r: nat)
    requires a > 0 && r < a && x == q * a + r
    ensures x % a == r
  {
    var q' := x / a;
    assert x == q' * a + x % a;
    if q' < q {
      MulMono(q' + 1, q, a);
    } else if q' > q {
      MulMono(q + 1, q', a);
    }
  }

  /** Every multiple of a is 0 modulo a. */
  lemma {:induction false} MulMod(k: nat, a: nat)
    requires a > 0
    ensures (k * a) % a == 0
    decreases k
  {
    if k > 0 {
      MulMod(k - 1, a);
      assert k * a == (k - 1) * a + a;
      DivModUnique(k * a, a, k, 0);
    }
  }

  /** Sums of aligned offsets stay aligned. */
  lemma ModAdd(x: nat, y: nat, a: nat)
    requires a > 0 && x % a == 0 && y % a == 0
    ensures (x + y) % a == 0
  {
    var p := x / a;
    var q := y / a;
    assert x == p * a;
    assert y == q * a;
    assert x + y == (p + q) * a;
    MulMod(p + q, a);
  }

  /**
   * AlignUp is aligned, leaves an aligned offset where it is, and is the
   * least aligned offset at or above `off`.
   */
  lemma AlignUpIsLeastMultiple(off: nat, align: nat)
    requires align > 0
    ensures AlignUp(off, align) % align == 0
    ensures off % align == 0 ==> AlignUp(off, align) == off
    ensures forall m: nat :: off <= m < AlignUp(off, align) ==> m % align != 0
  {
    var q := off / align;
    assert off == q * align + off % align;
    if off % align != 0 {
      assert AlignUp(off, align) == (q + 1) * align;
      MulMod(q + 1, align);
      forall m: nat | off <= m < AlignUp(off, align)
        ensures m % align != 0
      {
        DivModUnique(m, align, q, m - q * align);
      }
    }
  }

  /** Every member has a positive alignment. */
  predicate WellFormed(fields: seq<Field>) {
    forall i :: 0 <= i < |fields| ==> fields[i].align > 0
  }

  /** The offset just past the last member, laying the members out from `off`. */
  function LayoutEnd(fields: seq<Field>, off: nat): (r: nat)
    requires WellFormed(fields)
    ensures r >= off
    decreases |fields|
  {
    if fields == [] then off
    else LayoutEnd(fields[1..], AlignUp(off, fields[0].align) + fields[0].size)
  }

  /** The struct's alignment: that of its most aligned member. */
  function MaxAlign(fields: seq<Field>): (r: nat)
    requires WellFormed(fields)
    ensures r > 0 && forall i :: 0 <= i < |fields| ==> fields[i].align <= r
    decreases |fields|
  {
    if fields == [] then 1
    else var m := MaxAlign(fields[1..]);
      if fields[0].align > m then fields[0].align else m
  }

  /** sizeof: the members laid out in order, padded to the struct's alignment. */
  function StructSize(fields: seq<Field>): nat
    requires WellFormed(fields)
  {
    AlignUp(LayoutEnd(fields, 0), MaxAlign(fields))
  }

  /** A struct used as a member of another. */
  function Nested(fields: seq<Field>): Field
    requires WellFormed(fields)
  {
    Field(StructSize(fields), MaxAlign(fields))
  }

  /** Laying out two runs of members one after the other. */
  lemma {:induction false} LayoutAppend(a: seq<Field>, b: seq<Field>, off: nat)
    requires WellFormed(a) && WellFormed(b)
    ensures WellFormed(a + b)
    ensures LayoutEnd(a + b, off) == LayoutEnd(b, LayoutEnd(a, off))
    decreases |a|
  {
    if a != [] {
      assert (a + b)[1..] == a[1..] + b;
      LayoutAppend(a[1..], b, AlignUp(off, a[0].align) + a[0].size);
    } else {
      assert a + b == b;
    }
  }

  /**
   * n members of one type, starting at an offset aligned for it, occupy
   * exactly n times its size: no padding falls between them.
   */
  lemma {:induction false} LayoutRun(f: Field, n: nat, off: nat)
    requires f.align > 0 && f.size % f.align == 0 && off % f.align == 0
    ensures LayoutEnd(Repeat(f, n), off) == off + n * f.size
    decreases n
  {
    if n > 0 {
      AlignUpIsLeastMultiple(off, f.align);
      assert Repeat(f, n)[1..] == Repeat(f, n - 1);
      ModAdd(off, f.size, f.align);
      LayoutRun(f, n - 1, off + f.size);
    }
  }

  /** The alignment of two runs together is the larger of theirs. */
  lemma {:induction false} MaxAlignAppend(a: seq<Field>, b: seq<Field>)
    requires WellFormed(a) && WellFormed(b)
    ensures WellFormed(a + b)
    ensures MaxAlign(a + b) == if MaxAlign(a) > MaxAlign(b) then MaxAlign(a) else MaxAlign(b)
    decreases |a|
  {
    if a != [] {
      assert (a + b)[1..] == a[1..] + b;
      MaxAlignAppend(a[1..], b);
    } else {
      assert a + b == b;
    }
  }

  /** A run of one type is aligned like that type. */
  lemma {:induction false} MaxAlignRun(f: Field, n: nat)
    requires f.align > 0 && n > 0
    ensures MaxAlign(Repeat(f, n)) == f.align
    decreases n
  {
    if n > 1 {
      assert Repeat(f, n)[1..] == Repeat(f, n - 1);
      MaxAlignRun(f, n - 1);
    }
  }

  const StatfsLayout: seq<Field> := Repeat(U128, 6) + Repeat(U64, 2)
  /** struct fsinfo_ids: a 16-byte name, two __u64, four __u32 (the last padding). */
  const IdsLayout: seq<Field> := [Bytes(16)] + Repeat(U64, 2) + Repeat(U32, 4)
  const LimitsLayout: seq<Field> := Repeat(U128, 2) + Repeat(U64, 5) + Repeat(U32, 6)
  const SupportsLayout: seq<Field> := [U64] + Repeat(U32, 8)
  /** struct fsinfo_timestamp_one: two __s64, a __u16, an __s8 and five pad bytes. */
  const TimestampOneLayout: seq<Field> := Repeat(U64, 2) + [U16, U8, Bytes(5)]
  const VolumeUuidLayout: seq<Field> := [Bytes(16)]
  const FeaturesLayout: seq<Field> := [U32, Bytes(FsInfoFeatures.FEATURE_BYTES)]
  /** struct fsinfo_attribute_info: three unsigned ints and an enum. */
  const AttributeInfoLayout: seq<Field> := Repeat(U32, 4)
  const MountInfoLayout: seq<Field> := Repeat(U64, 2) + Repeat(U32, 8)
  const MountTopologyLayout: seq<Field> := Repeat(U32, 6)
  const MountChildLayout: seq<Field> := [U64] + Repeat(U32, 4)

  /**
   * The struct the header's FSINFO_ATTR_*__STRUCT names for an attribute
   * with a struct value or list elements.
   */
  function UapiLayout(id: nat): (fields: seq<Field>)
    ensures WellFormed(fields)
  {
    if id == ATTR_STATFS then StatfsLayout
    else if id == ATTR_IDS then IdsLayout
    else if id == ATTR_LIMITS then LimitsLayout
    else if id == ATTR_SUPPORTS then SupportsLayout
    else if id == ATTR_TIMESTAMP_INFO then Repeat(Nested(TimestampOneLayout), 4)
    else if id == ATTR_VOLUME_UUID then VolumeUuidLayout
    else if id == ATTR_FEATURES then FeaturesLayout
    else if id == ATTR_ATTRIBUTES then [U32]
    else if id == ATTR_ATTRIBUTE_INFO then AttributeInfoLayout
    else if id == ATTR_MOUNT_INFO then MountInfoLayout
    else if id == ATTR_MOUNT_TOPOLOGY then MountTopologyLayout
    else if id == ATTR_MOUNT_CHILDREN || id == ATTR_MOUNT_ALL then MountChildLayout
    else []
  }

  /** What the table declares for one entry, given the header's structs. */
  predicate MatchesHeader(a: Attribute) {
    && (a.vtype == VStruct || a.vtype == List ==> a.size == StructSize(UapiLayout(a.id)))
    && (a.vtype == String ==> a.size == 0)
    && a.flags == (if a.id == ATTR_ATTRIBUTE_INFO then FLAGS_N else 0)
  }

  /**
   * Each entry of the common table records the size of the struct the
   * header defines for it, and no id appears twice, so a lookup in the
   * common table finds the only entry with its id.
   */
  lemma CommonTableMatchesHeader()
    ensures forall a | a in CommonAttributes :: MatchesHeader(a)
    ensures forall j, k :: 0 <= j < k < |CommonAttributes| ==> CommonAttributes[j].id != CommonAttributes[k].id
  {
    CommonIdsDistinct();
    SuperblockMatchesHeader();
    MetaMatchesHeader();
    MountMatchesHeader();
  }

  lemma SuperblockMatchesHeader()
    ensures forall a | a in SuperblockAttributes :: MatchesHeader(a)
  {
    UapiSizes();
  }

  lemma MetaMatchesHeader()
    ensures forall a | a in MetaAttributes :: MatchesHeader(a)
  {
    UapiSizes();
  }

  lemma MountMatchesHeader()
    ensures forall a | a in MountAttributes :: MatchesHeader(a)
  {
    UapiSizes();
  }

  /** The size of each struct the header names, under natural alignment. */
  lemma UapiSizes()
    ensures StructSize(UapiLayout(ATTR_STATFS)) == 112
    ensures StructSize(UapiLayout(ATTR_IDS)) == 48
    ensures StructSize(UapiLayout(ATTR_LIMITS)) == 96
    ensures StructSize(UapiLayout(ATTR_SUPPORTS)) == 40
    ensures StructSize(UapiLayout(ATTR_TIMESTAMP_INFO)) == TIMESTAMP_INFO_SIZE
    ensures StructSize(UapiLayout(ATTR_VOLUME_UUID)) == 16
    ensures StructSize(UapiLayout(ATTR_FEATURES)) == 12
    ensures StructSize(UapiLayout(ATTR_ATTRIBUTES)) == ID_ENTRY_SIZE
    ensures StructSize(UapiLayout(ATTR_ATTRIBUTE_INFO)) == ATTRIBUTE_INFO_SIZE
    ensures StructSize(UapiLayout(ATTR_MOUNT_INFO)) == 48
    ensures StructSize(UapiLayout(ATTR_MOUNT_TOPOLOGY)) == 24
    ensures StructSize(UapiLayout(ATTR_MOUNT_CHILDREN)) == 24
    ensures StructSize(UapiLayout(ATTR_MOUNT_ALL)) == 24
  {
    StatfsSize();
    IdsSize();
    LimitsSize();
    SupportsSize();
    TimestampInfoSize();
    assert StructSize(VolumeUuidLayout) == 16;
    FeaturesSize();
    RunSize(U32, 1);
    assert [U32] == Repeat(U32, 1);
    RunSize(U32, 4);
    MountInfoSize();
    RunSize(U32, 6);
    MountChildSize();
  }

  /** No id appears twice in the common table. */
  lemma CommonIdsDistinct()
    ensures forall j, k :: 0 <= j < k < |CommonAttributes| ==> CommonAttributes[j].id != CommonAttributes[k].id
  {
  }

  /**
   * A leading part followed by a run of one type that starts aligned: the
   * run adds exactly its members' sizes, and the struct is aligned like
   * the more aligned of the two.
   */
  lemma SizeWithRun(a: seq<Field>, f: Field, n: nat)
    requires WellFormed(a) && n > 0
    requires f.align > 0 && f.size % f.align == 0 && LayoutEnd(a, 0) % f.align == 0
    ensures WellFormed(a + Repeat(f, n))
    ensures LayoutEnd(a + Repeat(f, n), 0) == LayoutEnd(a, 0) + n * f.size
    ensures MaxAlign(a + Repeat(f, n)) == if MaxAlign(a) > f.align then MaxAlign(a) else f.align
  {
    LayoutAppend(a, Repeat(f, n), 0);
    LayoutRun(f, n, LayoutEnd(a, 0));
    MaxAlignAppend(a, Repeat(f, n));
    MaxAlignRun(f, n);
  }

  /** A struct of n members of one type. */
  lemma RunSize(f: Field, n: nat)
    requires f.align > 0 && f.size % f.align == 0 && n > 0
    ensures StructSize(Repeat(f, n)) == AlignUp(n * f.size, f.align)
  {
    LayoutRun(f, n, 0);
    MaxAlignRun(f, n);
  }

  lemma StatfsSize()
    ensures StructSize(StatfsLayout) == 112
  {
    LayoutRun(U128, 6, 0);
    MaxAlignRun(U128, 6);
    SizeWithRun(Repeat(U128, 6), U64, 2);
  }

  lemma IdsSize()
    ensures StructSize(IdsLayout) == 48
  {
    SizeWithRun([Bytes(16)], U64, 2);
    SizeWithRun([Bytes(16)] + Repeat(U64, 2), U32, 4);
  }

  lemma LimitsSize()
    ensures StructSize(LimitsLayout) == 96
  {
    LayoutRun(U128, 2, 0);
    MaxAlignRun(U128, 2);
    SizeWithRun(Repeat(U128, 2), U64, 5);
    SizeWithRun(Repeat(U128, 2) + Repeat(U64, 5), U32, 6);
  }

  lemma SupportsSize()
    ensures StructSize(SupportsLayout) == 40
  {
    SizeWithRun([U64], U32, 8);
  }

  lemma TimestampInfoSize()
    ensures StructSize(UapiLayout(ATTR_TIMESTAMP_INFO)) == TIMESTAMP_INFO_SIZE
  {
    var tail := [U16, U8, Bytes(5)];
    LayoutRun(U64, 2, 0);
    MaxAlignRun(U64, 2);
    LayoutAppend(Repeat(U64, 2), tail, 0);
    MaxAlignAppend(Repeat(U64, 2), tail);
    assert tail[1..] == [U8, Bytes(5)] && tail[1..][1..] == [Bytes(5)] && [Bytes(5)][1..] == [];
    assert LayoutEnd([Bytes(5)], 19) == 24 && MaxAlign([Bytes(5)]) == 1;
    assert LayoutEnd([U8, Bytes(5)], 18) == 24 && MaxAlign([U8, Bytes(5)]) == 1;
    assert LayoutEnd(tail, 16) == 24 && MaxAlign(tail) == 2;
    var one := Nested(TimestampOneLayout);
    assert one == Field(24, 8);
    RunSize(one, 4);
  }

  lemma FeaturesSize()
    ensures StructSize(FeaturesLayout) == 12
  {
    var bitmap := Bytes(FsInfoFeatures.FEATURE_BYTES);
    assert bitmap == Field(7, 1);
    assert FeaturesLayout == [U32] + Repeat(bitmap, 1);
    SizeWithRun([U32], bitmap, 1);
  }

  lemma MountInfoSize()
    ensures StructSize(MountInfoLayout) == 48
  {
    LayoutRun(U64, 2, 0);
    MaxAlignRun(U64, 2);
    SizeWithRun(Repeat(U64, 2), U32, 8);
  }

  lemma MountChildSize()
    ensures StructSize(MountChildLayout) == 24
  {
    SizeWithRun([U64], U32, 4);
  }

  // ---------------------------------------------------------------------
  // Value helpers for getters

  /** What a getter stores: the int it returns and the bytes it copied. */
  datatype Stored<T> = Stored(ret: nat, copied: seq<T>)

  /**
   * fsinfo_opaque: a present blob reports its length and is copied unless
   * only the size is wanted; an absent one reports 0 and copies nothing.
   */
  function StoreOpaque<T>(s: Option<seq<T>>, len: nat, wantSizeOnly: bool): (r: Stored<T>)
    requires s.Some? ==> len <= |s.value|
    ensures s.None? ==> r == Stored(0, [])
    ensures s.Some? ==> r.ret == len
    ensures s.Some? && !wantSizeOnly ==> r.copied == s.value[..len]
    ensures wantSizeOnly ==> r.copied == []
  {
    match s
    case None => Stored(0, [])
    case Some(blob) => Stored(len, if wantSizeOnly then [] else blob[..len])
  }

  /** A C string in memory: the characters and the NUL terminator. */
  function WithNul(s: string): seq<char> {
    s + ['\0']
  }

  /**
   * fsinfo_string: an absent string reports 1 and writes nothing; a present
   * one is stored as an opaque blob of min(strlen + 1, buf_size) bytes.
   */
  function StoreString(s: Option<string>, bufSize: nat, wantSizeOnly: bool): (r: Stored<char>)
    ensures s.None? ==> r == Stored(1, [])
    ensures s.Some? ==> r.ret == Min(|s.value| + 1, bufSize) && r.ret <= bufSize
    ensures s.Some? && !wantSizeOnly ==> |r.copied| == r.ret && r.copied <= WithNul(s.value)
  {
    match s
    case None => Stored(1, [])
    case Some(str) => StoreOpaque(Some(WithNul(str)), Min(|str| + 1, bufSize), wantSizeOnly)
  }

  /**
   * A string that fits is stored whole with its terminator; one that does
   * not is cut to the buffer and carries no terminator at all.
   */
  lemma StringTruncation(s: string, bufSize: nat)
    requires '\0' !in s
    ensures var r := StoreString(Some(s), bufSize, false);
            && (bufSize > |s| ==> r.copied == WithNul(s) && r.ret == |s| + 1)
            && (bufSize <= |s| ==> r.copied == s[..bufSize] && '\0' !in r.copied)
  {
    var r := StoreString(Some(s), bufSize, false);
    if bufSize <= |s| {
      assert r.copied == WithNul(s)[..bufSize];
      assert WithNul(s)[..bufSize] == s[..bufSize];
      assert forall c :: c in s[..bufSize] ==> c in s;
    }
  }

  // ---------------------------------------------------------------------
  // Timestamp information

  const S64_MIN: int := -0x8000_0000_0000_0000
  const S64_MAX: int := 0x7FFF_FFFF_FFFF_FFFF

  /** The range and granularity (mantissa * 10^exponent seconds) of one timestamp. */
  datatype TimestampRange = TimestampRange(minimum: int, maximum: int, granMantissa: int, granExponent: int)

  datatype TimestampInfo = TimestampInfo(atime: TimestampRange, mtime: TimestampRange, ctime: TimestampRange, btime: TimestampRange)

  function Pow10(k: nat): (r: nat)
    ensures r >= 1
  {
    if k == 0 then 1 else 10 * Pow10(k - 1)
  }

  /**
   * fsinfo_generic_timestamp_info: full 64-bit range and mantissa 1 for all
   * four timestamps; a sub-second granularity (in nanoseconds) sets the
   * exponent to -9, -6 or -3, a coarser one leaves it 0.
   */
  function GenericTimestampInfo(timeGran: nat): (r: (TimestampInfo, nat))
    ensures r.1 == TIMESTAMP_INFO_SIZE
    ensures var t := r.0;
            && t.mtime == t.atime && t.ctime == t.atime && t.btime == t.atime
            && t.atime.minimum == S64_MIN && t.atime.maximum == S64_MAX
            && t.atime.granMantissa == 1
            && t.atime.granExponent in {-9, -6, -3, 0}
  {
    var base := TimestampRange(S64_MIN, S64_MAX, 1, 0);
    var exponent :=
      if timeGran < 1_000_000_000 then
        (if timeGran < 1000 then -9 else if timeGran < 1_000_000 then -6 else -3)
      else 0;
    var rng := base.(granExponent := exponent);
    (TimestampInfo(rng, rng, rng, rng), TIMESTAMP_INFO_SIZE)
  }

  /**
   * The reported granularity 10^e seconds is the power of a thousand just
   * at or below the real one: 10^(9+e) <= gran < 10^(12+e) nanoseconds for
   * a sub-second granularity; one second or coarser is reported as 10^0.
   */
  lemma TimestampExponentBand(timeGran: nat)
    requires timeGran >= 1
    ensures var e := GenericTimestampInfo(timeGran).0.atime.granExponent;
            && (timeGran < 1_000_000_000 ==>
                  -9 <= e < 0 && Pow10(9 + e) <= timeGran < Pow10(12 + e))
            && (timeGran >= 1_000_000_000 ==> e == 0)
  {
    assert Pow10(3) == 1000;
    assert Pow10(6) == 1_000_000;
    assert Pow10(9) == 1_000_000_000;
  }

  // ---------------------------------------------------------------------
  // One attribute

  /** Whether the requested Nth/Mth instance may exist for this attribute. */
  predicate InstanceAllowed(a: Attribute, nth: nat, mth: nat) {
    (nth == 0 || a.flags & (FLAGS_N | FLAGS_NM) != 0) && (mth == 0 || a.flags & FLAGS_NM != 0)
  }

  /** The buffer a known value type must be offered before its getter runs. */
  function MinBufferSize(a: Attribute): nat
    requires !a.vtype.Unknown?
  {
    if a.vtype == VStruct then a.size else NORMAL_ATTR_MAX_SIZE
  }

  /**
   * fsinfo_get_this_attribute: reject instances the attribute cannot have,
   * then ask for the minimum buffer before calling the getter. A struct
   * value also asks for the unused tail of the user buffer to be cleared.
   */
  function GetThisAttribute(ctx: Context, a: Attribute, get: Handler): (r: Reply)
    ensures !InstanceAllowed(a, ctx.nth, ctx.mth) ==> r == Reply(Fail(ENODATA), ctx)
    ensures InstanceAllowed(a, ctx.nth, ctx.mth) && a.vtype.Unknown? ==> r == Reply(Fail(ENOPKG), ctx)
    ensures r.ctx == ctx.(clearTail := ctx.clearTail || (InstanceAllowed(a, ctx.nth, ctx.mth) && a.vtype == VStruct))
    ensures InstanceAllowed(a, ctx.nth, ctx.mth) && !a.vtype.Unknown? && ctx.bufSize < MinBufferSize(a)
            ==> r.ret == Value(MinBufferSize(a))
    ensures InstanceAllowed(a, ctx.nth, ctx.mth) && !a.vtype.Unknown? && ctx.bufSize >= MinBufferSize(a)
            ==> r.ret == get(a, r.ctx)
  {
    if ctx.nth != 0 && a.flags & (FLAGS_N | FLAGS_NM) == 0 then Reply(Fail(ENODATA), ctx)
    else if ctx.mth != 0 && a.flags & FLAGS_NM == 0 then Reply(Fail(ENODATA), ctx)
    else if a.vtype.Unknown? then Reply(Fail(ENOPKG), ctx)
    else
      var c := if a.vtype == VStruct then ctx.(clearTail := true) else ctx;
      var need := MinBufferSize(a);
      if c.bufSize < need then Reply(Value(need), c) else Reply(get(a, c), c)
  }

  /**
   * The getter is consulted only for an instance the attribute can have,
   * of a known type, with at least the minimum buffer: whenever two getters
   * could give different outcomes, all three hold.
   */
  lemma HandlerOnlyWhenFits(ctx: Context, a: Attribute, g1: Handler, g2: Handler)
    requires GetThisAttribute(ctx, a, g1) != GetThisAttribute(ctx, a, g2)
    ensures InstanceAllowed(a, ctx.nth, ctx.mth)
    ensures !a.vtype.Unknown? && ctx.bufSize >= MinBufferSize(a)
  {
  }

  // ---------------------------------------------------------------------
  // The attribute-id list

  predicate Distinct(s: seq<nat>) {
    forall i, j :: 0 <= i < j < |s| ==> s[i] != s[j]
  }

  /** Whether another u32 fits after the words already used. */
  predicate HasRoom(ctx: Context) {
    ctx.usage + ID_ENTRY_SIZE <= ctx.bufSize
  }

  /**
   * fsinfo_attributes_insert. With no room for another word only the
   * usage grows, so that it keeps counting the bytes needed; with room an
   * id already in the list is skipped and a new one is appended. The list
   * scanned is the words written so far.
   */
  function AttributesInsert(ctx: Context, id: nat): (r: Context)
    ensures !HasRoom(ctx) ==> r == ctx.(usage := ctx.usage + ID_ENTRY_SIZE)
    ensures HasRoom(ctx) ==> r.usage == ctx.usage + (if id in ctx.ids then 0 else ID_ENTRY_SIZE)
    ensures HasRoom(ctx) ==> r.ids == (if id in ctx.ids then ctx.ids else ctx.ids + [id])
    ensures r == ctx.(usage := r.usage, ids := r.ids)
  {
    if ctx.usage >= ctx.bufSize || ctx.bufSize - ctx.usage < ID_ENTRY_SIZE then
      ctx.(usage := ctx.usage + ID_ENTRY_SIZE)
    else if id in ctx.ids then ctx
    else ctx.(ids := ctx.ids + [id], usage := ctx.usage + ID_ENTRY_SIZE)
  }

  /** The ids of a table, in table order. */
  function Ids(table: seq<Attribute>): (r: seq<nat>)
    ensures |r| == |table|
    ensures forall k :: 0 <= k < |table| ==> r[k] == table[k].id
  {
    seq(|table|, k requires 0 <= k < |table| => table[k].id)
  }

  /** Inserting each id of a list in turn. */
  function InsertAll(ctx: Context, xs: seq<nat>): (r: Context)
    ensures r == ctx.(usage := r.usage, ids := r.ids)
    ensures ctx.usage <= r.usage <= ctx.usage + ID_ENTRY_SIZE * |xs|
    ensures ctx.ids <= r.ids
    decreases |xs|
  {
    if xs == [] then ctx
    else AttributesInsert(InsertAll(ctx, xs[..|xs| - 1]), xs[|xs| - 1])
  }

  lemma {:induction false} InsertAllAppend(ctx: Context, xs: seq<nat>, ys: seq<nat>)
    ensures InsertAll(ctx, xs + ys) == InsertAll(InsertAll(ctx, xs), ys)
    decreases |ys|
  {
    if ys == [] {
      assert xs + ys == xs;
    } else {
      var ys' := ys[..|ys| - 1];
      assert (xs + ys)[..|xs + ys| - 1] == xs + ys';
      assert (xs + ys)[|xs + ys| - 1] == ys[|ys| - 1];
      InsertAllAppend(ctx, xs, ys');
    }
  }

  /** The distinct elements of a list, each where it first occurs. */
  function Dedup(xs: seq<nat>): (r: seq<nat>)
    ensures Distinct(r)
    ensures forall x :: x in r <==> x in xs
    ensures |r| <= |xs|
    decreases |xs|
  {
    if xs == [] then []
    else
      var p := xs[..|xs| - 1];
      var x := xs[|xs| - 1];
      assert xs == p + [x];
      var d := Dedup(p);
      if x in d then d else d + [x]
  }

  /** The position of the first occurrence of x. */
  function FirstIndex(xs: seq<nat>, x: nat): (k: nat)
    requires x in xs
    ensures k < |xs| && xs[k] == x
    ensures forall j :: 0 <= j < k ==> xs[j] != x
  {
    if xs[0] == x then 0 else 1 + FirstIndex(xs[1..], x)
  }

  /** Dedup keeps first-seen order: its entries occur first in xs in increasing positions. */
  lemma {:induction false} DedupFirstSeen(xs: seq<nat>)
    ensures forall i, j :: 0 <= i < j < |Dedup(xs)| ==>
              FirstIndex(xs, Dedup(xs)[i]) < FirstIndex(xs, Dedup(xs)[j])
    decreases |xs|
  {
    if xs != [] {
      var p := xs[..|xs| - 1];
      var x := xs[|xs| - 1];
      assert xs == p + [x];
      var d := Dedup(p);
      DedupFirstSeen(p);
      forall y | y in p
        ensures FirstIndex(xs, y) == FirstIndex(p, y)
      {
        FirstIndexPrefix(p, x, y);
      }
      if x in d {
        assert Dedup(xs) == d;
      } else {
        var D := Dedup(xs);
        assert D == d + [x];
        assert FirstIndex(xs, x) == |p| by {
          assert x !in p;
          FirstIndexAfter(p, x);
        }
        forall i | 0 <= i < |d|
          ensures FirstIndex(xs, D[i]) < FirstIndex(xs, x)
        {
          assert D[i] == d[i] && d[i] in p;
        }
      }
    }
  }

  /** Appending to a list leaves the first occurrence of what it already held. */
  lemma FirstIndexPrefix(p: seq<nat>, x: nat, y: nat)
    requires y in p
    ensures FirstIndex(p + [x], y) == FirstIndex(p, y)
  {
    var xs := p + [x];
    var f := FirstIndex(p, y);
    assert xs[f] == y;
    forall j | 0 <= j < f
      ensures xs[j] != y
    {
      assert xs[j] == p[j];
    }
  }

  /** A value first appended at the end is first found there. */
  lemma FirstIndexAfter(p: seq<nat>, x: nat)
    requires x !in p
    ensures FirstIndex(p + [x], x) == |p|
  {
    var xs := p + [x];
    forall j | 0 <= j < |p|
      ensures xs[j] != x
    {
      assert xs[j] == p[j];
    }
  }

  /** Each step of Dedup either keeps the list or appends one element. */
  lemma DedupStep(p: seq<nat>, x: nat)
    ensures Dedup(p + [x]) == (if x in Dedup(p) then Dedup(p) else Dedup(p) + [x])
  {
    var xs := p + [x];
    assert xs[..|xs| - 1] == p;
  }

  /**
   * The list built from an empty buffer: the stored ids are always a prefix
   * of the distinct ids in first-seen order, the usage never undercounts
   * the bytes those need, and when the usage fits the buffer the list is
   * complete and the usage exact.
   */
  lemma {:induction false} InsertAllBuildsDedup(ctx: Context, xs: seq<nat>)
    requires ctx.usage == 0 && ctx.ids == []
    ensures var r := InsertAll(ctx, xs);
            && r.ids <= Dedup(xs)
            && r.usage >= ID_ENTRY_SIZE * |Dedup(xs)|
            && (r.usage <= ctx.bufSize ==> r.ids == Dedup(xs) && r.usage == ID_ENTRY_SIZE * |Dedup(xs)|)
    decreases |xs|
  {
    if xs != [] {
      var p := xs[..|xs| - 1];
      var x := xs[|xs| - 1];
      assert xs == p + [x];
      InsertAllBuildsDedup(ctx, p);
      DedupStep(p, x);
      var rp := InsertAll(ctx, p);
      var dp := Dedup(p);
      assert dp <= Dedup(xs);
      if rp.usage <= ctx.bufSize {
        assert x in rp.ids <==> x in dp;
      }
    }
  }

  /** Without a buffer every insertion only counts its four bytes. */
  lemma {:induction false} InsertAllNoBuffer(ctx: Context, xs: seq<nat>)
    requires ctx.bufSize == 0
    ensures InsertAll(ctx, xs) == ctx.(usage := ctx.usage + ID_ENTRY_SIZE * |xs|)
    decreases |xs|
  {
    if xs != [] {
      InsertAllNoBuffer(ctx, xs[..|xs| - 1]);
    }
  }

  /** A buffer with a word for every id inserted never runs out of room. */
  lemma RoomForAll(ctx: Context, xs: seq<nat>)
    requires ctx.usage == 0 && ctx.ids == []
    requires ID_ENTRY_SIZE * |xs| <= ctx.bufSize
    ensures InsertAll(ctx, xs).usage <= ctx.bufSize
  {
  }

  /**
   * fsinfo_list_attributes: insert every id of the table, then report
   * EOPNOTSUPP so that the next table is listed too.
   */
  function ListAttributes(ctx: Context, table: seq<Attribute>): (r: Reply)
    ensures r.ret == Fail(EOPNOTSUPP)
    ensures r.ctx == InsertAll(ctx, Ids(table))
  {
    Reply(Fail(EOPNOTSUPP), InsertAll(ctx, Ids(table)))
  }

  // ---------------------------------------------------------------------
  // Table lookup and dispatch

  /** The index of the first entry with this id, or |table| when none has it. */
  function Lookup(table: seq<Attribute>, id: nat): (k: nat)
    ensures k <= |table|
    ensures k < |table| ==> table[k].id == id
    ensures forall j :: 0 <= j < k ==> table[j].id != id
  {
    if table == [] then 0
    else if table[0].id == id then 0
    else 1 + Lookup(table[1..], id)
  }

  /**
   * fsinfo_get_attribute_info: an empty buffer is asked to grow to one
   * record; otherwise the first entry whose id is Nth is described.
   */
  function GetAttributeInfo(ctx: Context, table: seq<Attribute>): (r: Reply)
    ensures ctx.bufSize == 0 ==> r == Reply(Value(ATTRIBUTE_INFO_SIZE), ctx)
    ensures ctx.bufSize > 0 && (forall k :: 0 <= k < |table| ==> table[k].id != ctx.nth)
            ==> r == Reply(Fail(EOPNOTSUPP), ctx)
    ensures ctx.bufSize > 0 && r.ret != Fail(EOPNOTSUPP) ==>
              r.ret == Value(ATTRIBUTE_INFO_SIZE) && r.ctx.info.Some?
              && r.ctx.info.value in table && r.ctx.info.value.id == ctx.nth
    ensures r.ctx == ctx.(info := r.ctx.info)
  {
    if ctx.bufSize == 0 then Reply(Value(ATTRIBUTE_INFO_SIZE), ctx)
    else
      var k := Lookup(table, ctx.nth);
      if k < |table| then Reply(Value(ATTRIBUTE_INFO_SIZE), ctx.(info := Some(table[k])))
      else Reply(Fail(EOPNOTSUPP), ctx)
  }

  /**
   * fsinfo_get_attribute: the two meta-attributes are answered from the
   * table itself; any other request goes to the first matching entry.
   */
  function GetAttribute(ctx: Context, table: seq<Attribute>, get: Handler): (r: Reply)
    ensures r.ctx.requestedAttr == ctx.requestedAttr && r.ctx.bufSize == ctx.bufSize
    ensures r.ctx.wantSizeOnly == ctx.wantSizeOnly
    ensures ctx.requestedAttr == ATTR_ATTRIBUTES ==> r == ListAttributes(ctx, table)
    ensures ctx.requestedAttr == ATTR_ATTRIBUTE_INFO ==> r == GetAttributeInfo(ctx, table)
    ensures ctx.requestedAttr != ATTR_ATTRIBUTES && ctx.requestedAttr != ATTR_ATTRIBUTE_INFO
            && (forall k :: 0 <= k < |table| ==> table[k].id != ctx.requestedAttr)
            ==> r == Reply(Fail(EOPNOTSUPP), ctx)
    ensures ctx.requestedAttr != ATTR_ATTRIBUTES && ctx.requestedAttr != ATTR_ATTRIBUTE_INFO
            && Lookup(table, ctx.requestedAttr) < |table|
            ==> r == GetThisAttribute(ctx, table[Lookup(table, ctx.requestedAttr)], get)
  {
    if ctx.requestedAttr == ATTR_ATTRIBUTE_INFO then GetAttributeInfo(ctx, table)
    else if ctx.requestedAttr == ATTR_ATTRIBUTES then ListAttributes(ctx, table)
    else
      var k := Lookup(table, ctx.requestedAttr);
      if k < |table| then GetThisAttribute(ctx, table[k], get)
      else Reply(Fail(EOPNOTSUPP), ctx)
  }

  /**
   * fsinfo_call: the filesystem's own table first, if it has one, then the
   * common table, each consulted only while the answer is EOPNOTSUPP; a
   * request neither answered ends as ENODATA (attribute info), the usage
   * (attribute list) or EOPNOTSUPP.
   */
  function FsinfoCall(ctx: Context, fs: Option<FsTable>, commonGet: Handler): (r: Reply)
    ensures r.ctx.requestedAttr == ctx.requestedAttr && r.ctx.bufSize == ctx.bufSize
    ensures r.ctx.wantSizeOnly == ctx.wantSizeOnly
  {
    var first := if fs.Some? then GetAttribute(ctx, fs.value.table, fs.value.get)
                 else Reply(Fail(EOPNOTSUPP), ctx);
    if first.ret != Fail(EOPNOTSUPP) then first
    else
      var common := GetAttribute(first.ctx, CommonAttributes, commonGet);
      if common.ret != Fail(EOPNOTSUPP) then common
      else if ctx.requestedAttr == ATTR_ATTRIBUTE_INFO then Reply(Fail(ENODATA), common.ctx)
      else if ctx.requestedAttr == ATTR_ATTRIBUTES then Reply(Value(common.ctx.usage), common.ctx)
      else common
  }

  /** The ids every listing covers: the filesystem's table, then the common one. */
  function AllIds(fs: Option<FsTable>): seq<nat> {
    (if fs.Some? then Ids(fs.value.table) else []) + Ids(CommonAttributes)
  }

  /**
   * Listing attributes from an empty buffer answers the usage: at least
   * four bytes per distinct id of both tables, exactly that when it fits
   * the buffer, with the ids of both tables stored once each in first-seen
   * order; a buffer of a word per table entry always fits.
   */
  lemma AttributeListIsUnion(ctx: Context, fs: Option<FsTable>, commonGet: Handler)
    requires ctx.requestedAttr == ATTR_ATTRIBUTES && ctx.usage == 0 && ctx.ids == []
    ensures var r := FsinfoCall(ctx, fs, commonGet);
            && r.ret == Value(r.ctx.usage)
            && r.ctx.usage >= ID_ENTRY_SIZE * |Dedup(AllIds(fs))|
            && (r.ctx.usage <= ctx.bufSize ==>
                  r.ctx.ids == Dedup(AllIds(fs)) && r.ctx.usage == ID_ENTRY_SIZE * |Dedup(AllIds(fs))|)
            && (ID_ENTRY_SIZE * |AllIds(fs)| <= ctx.bufSize ==> r.ctx.usage <= ctx.bufSize)
            && r.ctx == ctx.(usage := r.ctx.usage, ids := r.ctx.ids)
  {
    var fsIds := if fs.Some? then Ids(fs.value.table) else [];
    var first := InsertAll(ctx, fsIds);
    if fs.None? {
      assert first == ctx;
    }
    InsertAllAppend(ctx, fsIds, Ids(CommonAttributes));
    InsertAllBuildsDedup(ctx, AllIds(fs));
  }

  /**
   * Attribute info from a non-empty buffer describes the first entry with
   * id Nth in the filesystem's table, else in the common table, and is
   * ENODATA when neither has one.
   */
  lemma AttributeInfoLookup(ctx: Context, fs: Option<FsTable>, commonGet: Handler)
    requires ctx.requestedAttr == ATTR_ATTRIBUTE_INFO && ctx.bufSize > 0
    ensures var r := FsinfoCall(ctx, fs, commonGet);
            var fsTable := if fs.Some? then fs.value.table else [];
            var kf := Lookup(fsTable, ctx.nth);
            var kc := Lookup(CommonAttributes, ctx.nth);
            && (kf < |fsTable| ==> r == Reply(Value(ATTRIBUTE_INFO_SIZE), ctx.(info := Some(fsTable[kf]))))
            && (kf == |fsTable| && kc < |CommonAttributes| ==>
                  r == Reply(Value(ATTRIBUTE_INFO_SIZE), ctx.(info := Some(CommonAttributes[kc]))))
            && (kf == |fsTable| && kc == |CommonAttributes| ==> r == Reply(Fail(ENODATA), ctx))
  {
  }

  /**
   * An ordinary attribute in the filesystem's table is answered there
   * whenever that entry's answer is not EOPNOTSUPP: the common table's
   * getters cannot change the outcome.
   */
  lemma FsTableShadowsCommon(ctx: Context, fs: FsTable, g1: Handler, g2: Handler)
    requires ctx.requestedAttr != ATTR_ATTRIBUTES && ctx.requestedAttr != ATTR_ATTRIBUTE_INFO
    requires Lookup(fs.table, ctx.requestedAttr) < |fs.table|
    requires GetThisAttribute(ctx, fs.table[Lookup(fs.table, ctx.requestedAttr)], fs.get).ret != Fail(EOPNOTSUPP)
    ensures FsinfoCall(ctx, Some(fs), g1) == FsinfoCall(ctx, Some(fs), g2)
    ensures FsinfoCall(ctx, Some(fs), g1) == GetThisAttribute(ctx, fs.table[Lookup(fs.table, ctx.requestedAttr)], fs.get)
  {
  }

  /**
   * When the filesystem's entry for an ordinary attribute answers
   * EOPNOTSUPP, the common table answers instead, in the context the
   * filesystem's attempt left (clear_tail already set if that entry is an
   * allowed struct), and the request is EOPNOTSUPP if the common table
   * lacks it.
   */
  lemma FsDeclineFallsThrough(ctx: Context, fs: FsTable, commonGet: Handler)
    requires ctx.requestedAttr != ATTR_ATTRIBUTES && ctx.requestedAttr != ATTR_ATTRIBUTE_INFO
    requires Lookup(fs.table, ctx.requestedAttr) < |fs.table|
    requires GetThisAttribute(ctx, fs.table[Lookup(fs.table, ctx.requestedAttr)], fs.get).ret == Fail(EOPNOTSUPP)
    ensures var a := fs.table[Lookup(fs.table, ctx.requestedAttr)];
            var c := ctx.(clearTail := ctx.clearTail || (InstanceAllowed(a, ctx.nth, ctx.mth) && a.vtype == VStruct));
            var kc := Lookup(CommonAttributes, ctx.requestedAttr);
            var r := FsinfoCall(ctx, Some(fs), commonGet);
            && (kc < |CommonAttributes| ==> r == GetThisAttribute(c, CommonAttributes[kc], commonGet))
            && (kc == |CommonAttributes| ==> r == Reply(Fail(EOPNOTSUPP), c))
  {
  }

  /**
   * An ordinary attribute absent from the filesystem's table is answered
   * by the first common entry with its id, and is EOPNOTSUPP when the
   * common table lacks it too.
   */
  lemma CommonFallback(ctx: Context, fs: Option<FsTable>, commonGet: Handler)
    requires ctx.requestedAttr != ATTR_ATTRIBUTES && ctx.requestedAttr != ATTR_ATTRIBUTE_INFO
    requires fs.Some? ==> forall k :: 0 <= k < |fs.value.table| ==> fs.value.table[k].id != ctx.requestedAttr
    ensures var kc := Lookup(CommonAttributes, ctx.requestedAttr);
            var r := FsinfoCall(ctx, fs, commonGet);
            && (kc < |CommonAttributes| ==> r == GetThisAttribute(ctx, CommonAttributes[kc], commonGet))
            && (kc == |CommonAttributes| ==> r == Reply(Fail(EOPNOTSUPP), ctx))
  {
  }
}
