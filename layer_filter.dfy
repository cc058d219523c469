/** CModel_filter_nodes: nodes whose names carry layer tags (`_ml0`, `_ml1`, `_mpu`,
    `_ctf`, `_sNN`) in 4-character segments are disabled when none of their layers is
    in the layer mask. Flags, the mask and the layer bits are 32-bit words. */
module LayerFilter {
  import opened Bits
  import opened Nodes

  /** A 32-bit word, as the set of the positions of its 1 bits: `|` is union, `&` is
      intersection, and a shift moves every position, dropping those that leave 0..31. */
  type Word = s: set<nat> | forall i :: i in s ==> i < 32

  /** `w << k` on an unsigned 32-bit word. */
  function ShiftLeft(w: Word, k: nat): (r: Word)
  {
    set i | i in w && i + k < 32 :: i + k
  }

  /** `w >> k` on an unsigned 32-bit word. */
  function ShiftRight(w: Word, k: nat): (r: Word)
  {
    set i | i in w && i >= k :: i - k
  }

  /** Bit `i` of `w << k` is bit `i - k` of `w`, and clear below `k`. */
  lemma ShiftLeftBit(w: Word, k: nat, i: nat)
    ensures i in ShiftLeft(w, k) <==> k <= i < 32 && i - k in w
  {
    if k <= i < 32 && i - k in w {
      assert (i - k) + k == i;
    }
  }

  /** Bit `i` of `w >> k` is bit `i + k` of `w`. */
  lemma ShiftRightBit(w: Word, k: nat, i: nat)
    ensures i in ShiftRight(w, k) <==> i + k in w
  {
    if i + k in w {
      assert (i + k) - k == i;
    }
  }

  /** The constant 0xC03F: bits 0..5, 14 and 15. */
  const KEPT_BITS: Word := {0, 1, 2, 3, 4, 5, 14, 15}

  /** The four layer bits, whose values the scene header file defines. */
  datatype LayerBits = LayerBits(ml0: Word, ml1: Word, mpu: Word, ctf: Word)

  const UNDERSCORE: Byte := 0x5F
  const CHAR_S: Byte := 0x73
  const DIGIT_ZERO: int := 0x30
  const TAG_ML0: seq<Byte> := [0x5F, 0x6D, 0x6C, 0x30]
  const TAG_ML1: seq<Byte> := [0x5F, 0x6D, 0x6C, 0x31]
  const TAG_MPU: seq<Byte> := [0x5F, 0x6D, 0x70, 0x75]
  const TAG_CTF: seq<Byte> := [0x5F, 0x63, 0x74, 0x66]

  /** The name field's byte at `i`: past the name's end the field holds NULs. */
  function At(name: seq<Byte>, i: nat): Byte
  {
    if i < |name| then name[i] else 0
  }

  /** A name byte as a (signed) char. */
  function SignedChar(b: Byte): (r: int)
    ensures -0x80 <= r < 0x80 && r % 0x100 == b
  {
    if b >= 0x80 then b - 0x100 else b
  }

  /** The four characters of the segment at `p`. */
  function Segment(name: seq<Byte>, p: nat): (r: seq<Byte>)
    ensures |r| == 4 && forall k :: 0 <= k < 4 ==> r[k] == At(name, p + k)
  {
    [At(name, p), At(name, p + 1), At(name, p + 2), At(name, p + 3)]
  }

  /** A segment starting "_s" carries a two-digit layer number. */
  predicate IsNumberTag(name: seq<Byte>, p: nat)
  {
    At(name, p) == UNDERSCORE && At(name, p + 1) == CHAR_S
  }

  /** The layer number of an "_s" segment: its third and fourth characters as decimal
      digits, computed on the raw characters. */
  function LayerNumber(name: seq<Byte>, p: nat): int
  {
    SignedChar(At(name, p + 3)) - DIGIT_ZERO + 10 * (SignedChar(At(name, p + 2)) - DIGIT_ZERO)
  }

  /** The segment's shift is defined: `1 << nr` on a signed 32-bit int needs a layer
      number from 0 to 30. */
  predicate SegmentDefined(name: seq<Byte>, p: nat)
  {
    IsNumberTag(name, p) ==> 0 <= LayerNumber(name, p) < 31
  }

  /** Every segment the scan from `p` visits is defined. */
  predicate ScanDefined(name: seq<Byte>, p: nat)
    decreases |name| - p
  {
    p >= |name| || At(name, p) != UNDERSCORE || (SegmentDefined(name, p) && ScanDefined(name, p + 4))
  }

  /** The flags after the segment at `p`: an "_sNN" tag with NN non-zero keeps the
      low six and the top two bits of the low half, and moves the eight bits 6..13
      back into place with bit NN added before the shift; each layer tag adds its bit. */
  function SegmentFlags(flags: Word, name: seq<Byte>, p: nat, bits: LayerBits): (r: Word)
    requires SegmentDefined(name, p)
    ensures !IsNumberTag(name, p) ==> flags <= r <= flags + bits.ml0 + bits.ml1 + bits.mpu + bits.ctf
    ensures Segment(name, p) == TAG_ML0 ==> r == flags + bits.ml0
    ensures Segment(name, p) == TAG_ML1 ==> r == flags + bits.ml1
    ensures Segment(name, p) == TAG_MPU ==> r == flags + bits.mpu
    ensures Segment(name, p) == TAG_CTF ==> r == flags + bits.ctf
    ensures (!IsNumberTag(name, p) && Segment(name, p) != TAG_ML0 && Segment(name, p) != TAG_ML1
             && Segment(name, p) != TAG_MPU && Segment(name, p) != TAG_CTF) ==> r == flags
    ensures IsNumberTag(name, p) && LayerNumber(name, p) == 0 ==> r == flags
    ensures IsNumberTag(name, p) && LayerNumber(name, p) != 0 ==> r == WithLayerNumber(flags, LayerNumber(name, p))
  {
    TagsDiffer();
    var nr := LayerNumber(name, p);
    var f := if IsNumberTag(name, p) && nr != 0 then WithLayerNumber(flags, nr) else flags;
    var tag := Segment(name, p);
    var f := if tag == TAG_ML0 then f + bits.ml0 else f;
    var f := if tag == TAG_ML1 then f + bits.ml1 else f;
    var f := if tag == TAG_MPU then f + bits.mpu else f;
    if tag == TAG_CTF then f + bits.ctf else f
  }

  /** The "_sNN" update: bits 6..13 of the flags, as a byte, gain bit `nr` and are
      put back at bit 6; bits 0..5 and 14..15 are kept and the rest cleared. */
  function WithLayerNumber(flags: Word, nr: int): Word
    requires 0 <= nr < 32
  {
    (flags * KEPT_BITS) + ShiftLeft(ShiftRight(ShiftLeft(flags, 18), 24) + Bit(nr), 6)
  }

  /** The word with only bit `nr` set. */
  function Bit(nr: int): (r: Word)
    requires 0 <= nr < 32
    ensures r == {nr}
  {
    {nr}
  }

  /** The segment loop from `p`: the flags it accumulates and the offset where it
      stops, which is `p` itself exactly when the segment at `p` does not start with '_'
      (or the name ends there). */
  function Scan(name: seq<Byte>, p: nat, flags: Word, bits: LayerBits): (r: (Word, nat))
    requires ScanDefined(name, p)
    ensures r.1 >= p
    ensures r.1 == p <==> p >= |name| || At(name, p) != UNDERSCORE
    decreases |name| - p
  {
    if p >= |name| || At(name, p) != UNDERSCORE then (flags, p)
    else Scan(name, p + 4, SegmentFlags(flags, name, p, bits), bits)
  }

  /** The five tags differ from each other: no segment carries two of them. */
  lemma TagsDiffer()
    ensures TAG_ML0 != TAG_ML1 && TAG_ML0 != TAG_MPU && TAG_ML0 != TAG_CTF
    ensures TAG_ML1 != TAG_MPU && TAG_ML1 != TAG_CTF && TAG_MPU != TAG_CTF
    ensures TAG_ML0[1] != CHAR_S && TAG_ML1[1] != CHAR_S && TAG_MPU[1] != CHAR_S && TAG_CTF[1] != CHAR_S
  {
    assert TAG_ML0[3] != TAG_ML1[3] && TAG_ML0[2] != TAG_MPU[2] && TAG_ML0[1] != TAG_CTF[1];
    assert TAG_ML1[2] != TAG_MPU[2] && TAG_ML1[1] != TAG_CTF[1] && TAG_MPU[1] != TAG_CTF[1];
  }

  /** Whether the filter keeps a node's `enabled` value: a name that is empty or does
      not start with '_' is kept, and otherwise the name is kept exactly when its
      flags meet the layer mask. */
  predicate Keep(name: seq<Byte>, layerMask: Word, bits: LayerBits): (r: bool)
    requires ScanDefined(name, 0)
    ensures r <==> |name| == 0 || name[0] != UNDERSCORE || Scan(name, 0, {}, bits).0 * layerMask != {}
  {
    |name| == 0 || (var r := Scan(name, 0, {}, bits); r.1 == 0 || r.0 * layerMask != {})
  }

  /** The filter's effect on one node: only `enabled` may change, and only to 0. */
  function Filtered(n: Node, layerMask: Word, bits: LayerBits): (r: Node)
    requires ScanDefined(n.name, 0)
    ensures r.(enabled := n.enabled) == n
    ensures r.enabled == n.enabled || r.enabled == 0
    ensures r.enabled != n.enabled ==> |n.name| > 0 && n.name[0] == UNDERSCORE
  {
    if Keep(n.name, layerMask, bits) then n else n.(enabled := 0)
  }

  /** CModel_filter_nodes. */
  method FilterNodes(nodes: array<Node>, layerMask: Word, bits: LayerBits)
    requires forall i :: 0 <= i < nodes.Length ==> ScanDefined(nodes[i].name, 0)
    modifies nodes
    ensures forall i :: 0 <= i < nodes.Length ==> nodes[i] == Filtered(old(nodes[i]), layerMask, bits)
  {
    var i := 0;
    while i < nodes.Length
      invariant i <= nodes.Length
      invariant forall k :: 0 <= k < i ==> nodes[k] == Filtered(old(nodes[k]), layerMask, bits)
      invariant forall k :: i <= k < nodes.Length ==> nodes[k] == old(nodes[k])
    {
      ghost var before := nodes[..];
      nodes[i] := FilterNode(nodes[i], layerMask, bits);
      assert forall k :: 0 <= k < nodes.Length && k != i ==> nodes[k] == before[k];
      i := i + 1;
    }
  }

  /** The filter's work on one node: `enabled` is cleared unless the name is kept. */
  method FilterNode(n: Node, layerMask: Word, bits: LayerBits) returns (r: Node)
    requires ScanDefined(n.name, 0)
    ensures r == Filtered(n, layerMask, bits)
  {
    r := n;
    var keep := KeepNode(n.name, layerMask, bits);
    if !keep {
      r := r.(enabled := 0);
    }
  }

  /** The filter's decision for one node name. */
  method KeepNode(name: seq<Byte>, layerMask: Word, bits: LayerBits) returns (keep: bool)
    requires ScanDefined(name, 0)
    ensures keep == Keep(name, layerMask, bits)
  {
    keep := true;
    if |name| > 0 {
      var flags, p := ScanTags(name, bits);
      keep := p == 0 || flags * layerMask != {};
    }
  }

  /** The segment loop of the filter over one non-empty name. */
  method ScanTags(name: seq<Byte>, bits: LayerBits) returns (flags: Word, p: nat)
    requires ScanDefined(name, 0)
    ensures (flags, p) == Scan(name, 0, {}, bits)
  {
    flags := {};
    p := 0;
    while p < |name|
      invariant ScanDefined(name, p)
      invariant Scan(name, p, flags, bits) == Scan(name, 0, {}, bits)
      decreases |name| - p
    {
      if name[p] != UNDERSCORE {
        break;
      }
      flags := ApplySegment(flags, name, p, bits);
      p := p + 4;
    }
  }

  /** The body of the segment loop for the segment at `p`. */
  method ApplySegment(flags0: Word, name: seq<Byte>, p: nat, bits: LayerBits) returns (flags: Word)
    requires SegmentDefined(name, p) && At(name, p) == UNDERSCORE
    ensures flags == SegmentFlags(flags0, name, p, bits)
  {
    flags := flags0;
    if At(name, p + 1) == CHAR_S {
      var nr := LayerNumber(name, p);
      if nr != 0 {
        flags := (flags * KEPT_BITS) + ShiftLeft(ShiftRight(ShiftLeft(flags, 18), 24) + Bit(nr), 6);
      }
    }
    var tag := Segment(name, p);
    if tag == TAG_ML0 {
      flags := flags + bits.ml0;
    }
    if tag == TAG_ML1 {
      flags := flags + bits.ml1;
    }
    if tag == TAG_MPU {
      flags := flags + bits.mpu;
    }
    if tag == TAG_CTF {
      flags := flags + bits.ctf;
    }
  }

  /** A name that is empty or does not start with '_' is always kept: its tags, such
      as the `_ml0` of `room_ml0`, are never looked at. */
  lemma PlainNamesKept(name: seq<Byte>, layerMask: Word, bits: LayerBits)
    requires ScanDefined(name, 0)
    requires |name| == 0 || name[0] != UNDERSCORE
    ensures Keep(name, layerMask, bits)
  {
  }

  /** A name starting with '_' is kept exactly when its tag flags meet the mask. */
  lemma TaggedNamesFollowFlags(name: seq<Byte>, layerMask: Word, bits: LayerBits)
    requires ScanDefined(name, 0)
    requires |name| > 0 && name[0] == UNDERSCORE
    ensures Keep(name, layerMask, bits) <==> Scan(name, 0, {}, bits).0 * layerMask != {}
  {
  }

  /** The scan stops at the first segment not starting with '_': whatever follows it
      does not change the flags. */
  lemma {:induction false} ScanStopsAtPlainSegment(pre: seq<Byte>, post1: seq<Byte>, post2: seq<Byte>, p: nat, flags: Word, bits: LayerBits)
    requires |pre| % 4 == 0 && p % 4 == 0 && p <= |pre|
    requires |post1| > 0 && post1[0] != UNDERSCORE && |post2| > 0 && post2[0] != UNDERSCORE
    requires ScanDefined(pre + post1, p) && ScanDefined(pre + post2, p)
    ensures Scan(pre + post1, p, flags, bits) == Scan(pre + post2, p, flags, bits)
    decreases |pre| - p
  {
    var n1, n2 := pre + post1, pre + post2;
    if p == |pre| {
      assert At(n1, p) == post1[0] && At(n2, p) == post2[0];
    } else {
      assert p + 4 <= |pre|;
      assert At(n1, p) == pre[p] == At(n2, p);
      assert At(n1, p + 1) == pre[p + 1] == At(n2, p + 1);
      assert At(n1, p + 2) == pre[p + 2] == At(n2, p + 2);
      assert At(n1, p + 3) == pre[p + 3] == At(n2, p + 3);
      assert Segment(n1, p) == Segment(n2, p);
      if At(n1, p) == UNDERSCORE {
        assert SegmentFlags(flags, n1, p, bits) == SegmentFlags(flags, n2, p, bits);
        ScanStopsAtPlainSegment(pre, post1, post2, p + 4, SegmentFlags(flags, n1, p, bits), bits);
      }
    }
  }

  /** "_ml0" carries the ML0 layer alone, so it is kept exactly when the mask has
      an ML0 bit. */
  lemma Ml0Tag(layerMask: Word, bits: LayerBits)
    ensures Scan(TAG_ML0, 0, {}, bits).0 == bits.ml0
    ensures Keep(TAG_ML0, layerMask, bits) <==> bits.ml0 * layerMask != {}
  {
    assert ScanDefined(TAG_ML0, 4);
    assert !IsNumberTag(TAG_ML0, 0);
    assert Segment(TAG_ML0, 0) == TAG_ML0;
    assert TAG_ML0 != TAG_ML1 && TAG_ML0 != TAG_MPU && TAG_ML0 != TAG_CTF by {
      assert TAG_ML0[3] != TAG_ML1[3] && TAG_ML0[2] != TAG_MPU[2] && TAG_ML0[1] != TAG_CTF[1];
    }
    assert SegmentFlags({}, TAG_ML0, 0, bits) == bits.ml0;
    assert Scan(TAG_ML0, 0, {}, bits) == (bits.ml0, 4);
  }

  /** The "_sNN" update round-trips bits 6..13 through the byte it builds, so it
      keeps the low half of the flags, clears the high half, and adds bit NN + 6
      (nothing when NN + 6 falls off the top of the word). */
  lemma LayerNumberUpdate(flags: Word, nr: int)
    requires 0 <= nr < 32
    ensures WithLayerNumber(flags, nr) == (set i | i in flags && i < 16) + (if nr < 26 then {nr + 6} else {})
  {
    var shifted := ShiftLeft(flags, 18);
    var byte := ShiftRight(shifted, 24) + Bit(nr);
    var r := (flags * KEPT_BITS) + ShiftLeft(byte, 6);
    var s := (set i | i in flags && i < 16) + (if nr < 26 then {nr + 6} else {});
    forall i: nat
      ensures i in r <==> i in s
    {
      ShiftLeftBit(byte, 6, i);
      if 6 <= i {
        ShiftRightBit(shifted, 24, i - 6);
        ShiftLeftBit(flags, 18, i + 18);
      }
    }
    assert r == s;
  }

  /** "_s05" sets bit 5 of the layer-number byte, which sits at bit 11 of the flags. */
  lemma NumberTagExample(bits: LayerBits)
    ensures Scan([0x5F, 0x73, 0x30, 0x35], 0, {}, bits).0 == {11}
  {
    var name: seq<Byte> := [0x5F, 0x73, 0x30, 0x35];
    assert LayerNumber(name, 0) == 5;
    assert ScanDefined(name, 4);
    assert Segment(name, 0) == name;
    LayerNumberUpdate({}, 5);
    assert SegmentFlags({}, name, 0, bits) == {11};
  }
}
