/**
 * The feature bitmap of struct fsinfo_features (include/linux/fsinfo.h):
 * feature f is bit f % 8 of byte f / 8 of a byte array sized for every
 * feature the interface defines.
 */
module FsInfoFeatures {

  /** FSINFO_FEAT__NR: the number of defined features. */
  const FEAT_NR: nat := 51

  /** The size of the bitmap: (FSINFO_FEAT__NR + 7) / 8 bytes. */
  const FEATURE_BYTES: nat := (FEAT_NR + 7) / 8

  // The features fsinfo_set_unix_features sets.
  const FEAT_UIDS: nat := 10
  const FEAT_GIDS: nat := 11
  const FEAT_DIRECTORIES: nat := 31
  const FEAT_SYMLINKS: nat := 32
  const FEAT_HARD_LINKS: nat := 33
  const FEAT_DEVICE_FILES: nat := 35
  const FEAT_UNIX_SPECIALS: nat := 36
  const FEAT_SPARSE: nat := 42
  const FEAT_HAS_ATIME: nat := 45
  const FEAT_HAS_CTIME: nat := 47
  const FEAT_HAS_MTIME: nat := 48
  const FEAT_HAS_INODE_NUMBERS: nat := 50

  const UnixFeatures: seq<nat> := [
    FEAT_UIDS, FEAT_GIDS, FEAT_DIRECTORIES, FEAT_SYMLINKS, FEAT_HARD_LINKS,
    FEAT_DEVICE_FILES, FEAT_UNIX_SPECIALS, FEAT_SPARSE, FEAT_HAS_ATIME,
    FEAT_HAS_CTIME, FEAT_HAS_MTIME, FEAT_HAS_INODE_NUMBERS
  ]

  /** struct fsinfo_features. */
  datatype Features = Features(nrFeatures: nat, bits: seq<bv8>)

  predicate WellSized(p: Features) {
    |p.bits| == FEATURE_BYTES
  }

  /** 1 << k within a byte. */
  function Bit(k: nat): bv8
    requires k < 8
  {
    (1 as bv8) << k
  }

  /** The reader's test: features[i / 8] & (1 << (i % 8)). Every bit of the array can be tested. */
  predicate Has(p: Features, i: nat)
    requires i < 8 * |p.bits|
  {
    p.bits[i / 8] & Bit(i % 8) != 0
  }

  /** Every defined feature indexes within the array. */
  lemma FeatureIndexInBounds(f: nat)
    requires f < FEAT_NR
    ensures f / 8 < FEATURE_BYTES
    ensures f < 8 * FEATURE_BYTES
  {
  }

  /** fsinfo_init_features: records the number of features; the bitmap is untouched. */
  function InitFeatures(p: Features): (r: Features)
    ensures r.nrFeatures == FEAT_NR
    ensures r.bits == p.bits
  {
    p.(nrFeatures := FEAT_NR)
  }

  /** Or-ing in bit k changes only bit k of a byte; and-ing with its complement likewise. */
  lemma ByteBits(b: bv8, k: nat, j: nat)
    requires k < 8 && j < 8
    ensures (b | Bit(k)) & Bit(j) != 0 <==> (j == k || b & Bit(j) != 0)
    ensures (b & !Bit(k)) & Bit(j) != 0 <==> (j != k && b & Bit(j) != 0)
  {
    assert 0 <= j < 8;
    if j == 0 { } else if j == 1 { } else if j == 2 { } else if j == 3 { }
    else if j == 4 { } else if j == 5 { } else if j == 6 { } else { }
  }

  /** fsinfo_set_feature: features[f / 8] |= 1 << (f % 8). */
  function SetFeature(p: Features, f: nat): (r: Features)
    requires f < 8 * |p.bits|
    ensures r.nrFeatures == p.nrFeatures && |r.bits| == |p.bits|
    ensures Has(r, f)
    ensures forall i :: 0 <= i < 8 * |p.bits| && i != f ==> (Has(r, i) <==> Has(p, i))
  {
    SetOnlyBit(p, f);
    p.(bits := p.bits[f / 8 := p.bits[f / 8] | Bit(f % 8)])
  }

  lemma SetOnlyBit(p: Features, f: nat)
    requires f < 8 * |p.bits|
    ensures var r := p.(bits := p.bits[f / 8 := p.bits[f / 8] | Bit(f % 8)]);
            forall i :: 0 <= i < 8 * |p.bits| ==> (Has(r, i) <==> (i == f || Has(p, i)))
  {
    var r := p.(bits := p.bits[f / 8 := p.bits[f / 8] | Bit(f % 8)]);
    forall i | 0 <= i < 8 * |p.bits|
      ensures Has(r, i) <==> (i == f || Has(p, i))
    {
      SameIndex(i, f);
      if i / 8 == f / 8 {
        ByteBits(p.bits[f / 8], f % 8, i % 8);
      }
    }
  }

  /** fsinfo_clear_feature: features[f / 8] &= ~(1 << (f % 8)). */
  function ClearFeature(p: Features, f: nat): (r: Features)
    requires f < 8 * |p.bits|
    ensures r.nrFeatures == p.nrFeatures && |r.bits| == |p.bits|
    ensures !Has(r, f)
    ensures forall i :: 0 <= i < 8 * |p.bits| && i != f ==> (Has(r, i) <==> Has(p, i))
  {
    ClearOnlyBit(p, f);
    p.(bits := p.bits[f / 8 := p.bits[f / 8] & !Bit(f % 8)])
  }

  lemma ClearOnlyBit(p: Features, f: nat)
    requires f < 8 * |p.bits|
    ensures var r := p.(bits := p.bits[f / 8 := p.bits[f / 8] & !Bit(f % 8)]);
            forall i :: 0 <= i < 8 * |p.bits| ==> (Has(r, i) <==> (i != f && Has(p, i)))
  {
    var r := p.(bits := p.bits[f / 8 := p.bits[f / 8] & !Bit(f % 8)]);
    forall i | 0 <= i < 8 * |p.bits|
      ensures Has(r, i) <==> (i != f && Has(p, i))
    {
      SameIndex(i, f);
      if i / 8 == f / 8 {
        ByteBits(p.bits[f / 8], f % 8, i % 8);
      }
    }
  }

  /** Two feature numbers are equal exactly when their byte and bit positions are. */
  lemma SameIndex(i: nat, f: nat)
    ensures i == f <==> (i / 8 == f / 8 && i % 8 == f % 8)
  {
    assert i == 8 * (i / 8) + i % 8;
    assert f == 8 * (f / 8) + f % 8;
  }

  /** Two bitmaps of one size with the same bits set are the same bytes. */
  lemma {:induction false} SameBitsSameBytes(p: Features, q: Features)
    requires |p.bits| == |q.bits|
    requires forall i :: 0 <= i < 8 * |p.bits| ==> (Has(p, i) <==> Has(q, i))
    ensures p.bits == q.bits
  {
    forall n | 0 <= n < |p.bits|
      ensures p.bits[n] == q.bits[n]
    {
      var a := p.bits[n];
      var b := q.bits[n];
      forall k | 0 <= k < 8
        ensures a & Bit(k) == b & Bit(k)
      {
        assert Has(p, 8 * n + k) <==> Has(q, 8 * n + k);
        assert (8 * n + k) / 8 == n && (8 * n + k) % 8 == k;
        BitIsZeroOrItself(a, k);
        BitIsZeroOrItself(b, k);
      }
      BytesFromBits(a, b);
    }
  }

  /** b & (1 << k) is either 0 or 1 << k. */
  lemma BitIsZeroOrItself(b: bv8, k: nat)
    requires k < 8
    ensures b & Bit(k) == 0 || b & Bit(k) == Bit(k)
  {
    if k == 0 { } else if k == 1 { } else if k == 2 { } else if k == 3 { }
    else if k == 4 { } else if k == 5 { } else if k == 6 { } else { }
  }

  /** Bytes that agree on all eight bits are equal. */
  lemma BytesFromBits(a: bv8, b: bv8)
    requires forall k :: 0 <= k < 8 ==> a & Bit(k) == b & Bit(k)
    ensures a == b
  {
    assert a & Bit(0) == b & Bit(0);
    assert a & Bit(1) == b & Bit(1);
    assert a & Bit(2) == b & Bit(2);
    assert a & Bit(3) == b & Bit(3);
    assert a & Bit(4) == b & Bit(4);
    assert a & Bit(5) == b & Bit(5);
    assert a & Bit(6) == b & Bit(6);
    assert a & Bit(7) == b & Bit(7);
  }

  /** Setting a feature twice is setting it once. */
  lemma SetFeatureIdempotent(p: Features, f: nat)
    requires f < 8 * |p.bits|
    ensures SetFeature(SetFeature(p, f), f) == SetFeature(p, f)
  {
    var q := SetFeature(p, f);
    SameBitsSameBytes(SetFeature(q, f), q);
  }

  /** Clearing a feature that was just set leaves the bitmap as clearing alone does. */
  lemma ClearUndoesSet(p: Features, f: nat)
    requires f < 8 * |p.bits|
    ensures ClearFeature(SetFeature(p, f), f) == ClearFeature(p, f)
  {
    SameBitsSameBytes(ClearFeature(SetFeature(p, f), f), ClearFeature(p, f));
  }

  /** Setting each feature of a list in turn. */
  function SetFeatures(p: Features, fs: seq<nat>): (r: Features)
    requires forall k :: 0 <= k < |fs| ==> fs[k] < 8 * |p.bits|
    ensures r.nrFeatures == p.nrFeatures && |r.bits| == |p.bits|
    decreases |fs|
  {
    if fs == [] then p else SetFeatures(SetFeature(p, fs[0]), fs[1..])
  }

  /** After setting a list of features exactly those and the bits already set are present. */
  lemma {:induction false} SetFeaturesSpec(p: Features, fs: seq<nat>)
    requires forall k :: 0 <= k < |fs| ==> fs[k] < 8 * |p.bits|
    ensures forall i :: 0 <= i < 8 * |p.bits| ==>
              (Has(SetFeatures(p, fs), i) <==> (Has(p, i) || i in fs))
    decreases |fs|
  {
    if fs != [] {
      var q := SetFeature(p, fs[0]);
      SetFeaturesSpec(q, fs[1..]);
      forall i | 0 <= i < 8 * |p.bits|
        ensures Has(SetFeatures(p, fs), i) <==> (Has(p, i) || i in fs)
      {
        assert i in fs <==> (i == fs[0] || i in fs[1..]);
      }
    }
  }

  /**
   * fsinfo_set_unix_features: the twelve standard UNIX features are added
   * on top of whatever is already set, and nothing else changes.
   */
  function SetUnixFeatures(p: Features): (r: Features)
    requires WellSized(p)
    ensures WellSized(r) && r.nrFeatures == p.nrFeatures
    ensures forall i :: 0 <= i < 8 * FEATURE_BYTES ==> (Has(r, i) <==> (Has(p, i) || i in UnixFeatures))
  {
    SetFeaturesSpec(p, UnixFeatures);
    SetFeatures(p, UnixFeatures)
  }
}
