/**
  The record layout of the bit-packed player file: the ordered attribute
  fields of one player block with their widths, the block size and the
  offset of the first block.
 */
module PlayerLayout {

  /** One entry of a record layout: a field name and its width in bits. */
  datatype Field = Field(name: string, numBits: nat)

  /** Field `i` of the attribute layout of one player block, in file order. */
  function AttributeField(i: nat): (r: Field)
    requires i < 34
  {
    match i
    case 0 => Field("Attack", 7)
    case 1 => Field("Defense", 7)
    case 2 => Field("Balance", 7)
    case 3 => Field("Stamina", 7)
    case 4 => Field("Top Speed", 7)
    case 5 => Field("Acceleration", 7)
    case 6 => Field("Response", 7)
    case 7 => Field("Agility", 7)
    case 8 => Field("Dribble Accuracy", 7)
    case 9 => Field("Dribble Speed", 7)
    case 10 => Field("Short Pass Accuracy", 7)
    case 11 => Field("Short Pass Speed", 7)
    case 12 => Field("Long Pass Accuracy", 7)
    case 13 => Field("Long Pass Speed", 7)
    case 14 => Field("Shot Accuracy", 7)
    case 15 => Field("Shot Power", 7)
    case 16 => Field("Shot Technique", 7)
    case 17 => Field("Free Kick Accuracy", 7)
    case 18 => Field("Swerve", 7)
    case 19 => Field("Heading", 7)
    case 20 => Field("Jump", 7)
    case 21 => Field("Technique", 7)
    case 22 => Field("Aggression", 7)
    case 23 => Field("Mentality", 7)
    case 24 => Field("Goalkeeping Skills", 7)
    case 25 => Field("Team Work", 7)
    // the 4-bit ratings
    case 26 => Field("Weak Foot Accuracy", 4)
    case 27 => Field("Weak Foot Frequency", 4)
    case 28 => Field("Form", 4)
    case 29 => Field("Injury Resistance", 4)
    case 30 => Field("Registered Position", 5)
    case 31 => Field("Consistency", 2)
    case 32 => Field("Playable Positions", 22)
    case _ => Field("Special Abilities", 30)
  }

  /** The attribute layout of one player block: 34 fields, 257 bits in all (`AttributeStructureBits`). */
  const AttributeStructure: seq<Field> := seq(34, i requires 0 <= i < 34 => AttributeField(i))

  /** Size in bytes of one player block. */
  const PlayerBlockSize: nat := 156

  /** Byte offset of the first player block in the file. */
  const PlayerStartOffset: nat := 888

  /** Byte offset of the block of player `index`. */
  function BlockOffset(index: nat): (r: nat) {
    PlayerStartOffset + index * PlayerBlockSize
  }

  /** The bit offset of field `k`: the sum of the widths of the fields before it. */
  function FieldOffset(layout: seq<Field>, k: nat): (r: nat)
    requires k <= |layout|
  {
    if k == 0 then 0 else FieldOffset(layout, k - 1) + layout[k - 1].numBits
  }

  /** Fields further along the layout start no earlier. */
  lemma {:induction false} FieldOffsetMonotonic(layout: seq<Field>, j: nat, k: nat)
    requires j <= k <= |layout|
    ensures FieldOffset(layout, j) <= FieldOffset(layout, k)
    decreases k
  {
    if j < k {
      FieldOffsetMonotonic(layout, j, k - 1);
    }
  }

  ghost predicate DistinctNames(layout: seq<Field>) {
    forall i, j :: 0 <= i < j < |layout| ==> layout[i].name != layout[j].name
  }

  /** A layout whose fields are at most `w` bits wide spans at most `k * w` bits in its first `k` fields. */
  lemma {:induction false} FieldOffsetBound(layout: seq<Field>, k: nat, w: nat)
    requires k <= |layout|
    requires forall i :: 0 <= i < |layout| ==> layout[i].numBits <= w
    ensures FieldOffset(layout, k) <= k * w
  {
    if k > 0 {
      FieldOffsetBound(layout, k - 1, w);
    }
  }

  /** The configured layout lies inside one 156-byte block. */
  lemma AttributeStructureFits()
    ensures FieldOffset(AttributeStructure, |AttributeStructure|) <= 8 * PlayerBlockSize
  {
    FieldOffsetBound(AttributeStructure, |AttributeStructure|, 30);
  }

  /** The configured fields take 257 bits, the first 33 bytes of a block less 7 bits. */
  lemma AttributeStructureBits()
    ensures FieldOffset(AttributeStructure, |AttributeStructure|) == 257
  {
    SevenBitRatingsBits();
    assert AttributeStructure[26] == AttributeField(26);
    assert FieldOffset(AttributeStructure, 27) == 186;
    assert AttributeStructure[27] == AttributeField(27);
    assert FieldOffset(AttributeStructure, 28) == 190;
    assert AttributeStructure[28] == AttributeField(28);
    assert FieldOffset(AttributeStructure, 29) == 194;
    assert AttributeStructure[29] == AttributeField(29);
    assert FieldOffset(AttributeStructure, 30) == 198;
    assert AttributeStructure[30] == AttributeField(30);
    assert FieldOffset(AttributeStructure, 31) == 203;
    assert AttributeStructure[31] == AttributeField(31);
    assert FieldOffset(AttributeStructure, 32) == 205;
    assert AttributeStructure[32] == AttributeField(32);
    assert FieldOffset(AttributeStructure, 33) == 227;
    assert AttributeStructure[33] == AttributeField(33);
    assert FieldOffset(AttributeStructure, 34) == 257;
  }

  /** The 26 leading 7-bit ratings take 182 bits. */
  lemma SevenBitRatingsBits()
    ensures FieldOffset(AttributeStructure, 26) == 182
  {
    SevenBitRatings();
    FieldOffsetUniform(AttributeStructure, 26, 7);
  }

  lemma SevenBitRatings()
    ensures forall i :: 0 <= i < 26 ==> AttributeStructure[i].numBits == 7
  {
    forall i | 0 <= i < 26
      ensures AttributeStructure[i].numBits == 7
    {
      assert AttributeStructure[i] == AttributeField(i);
    }
  }

  /** A run of `k` leading fields all `w` bits wide spans `k * w` bits. */
  lemma {:induction false} FieldOffsetUniform(layout: seq<Field>, k: nat, w: nat)
    requires k <= |layout|
    requires forall i :: 0 <= i < k ==> layout[i].numBits == w
    ensures FieldOffset(layout, k) == k * w
  {
    if k > 0 {
      FieldOffsetUniform(layout, k - 1, w);
    }
  }

  lemma AttributeNamesDistinctFrom0()
    ensures forall i, j :: 0 <= i < 6 && i < j < 34 ==> AttributeField(i).name != AttributeField(j).name
  {
  }

  lemma AttributeNamesDistinctFrom6()
    ensures forall i, j :: 6 <= i < 12 && i < j < 34 ==> AttributeField(i).name != AttributeField(j).name
  {
  }

  lemma AttributeNamesDistinctFrom12()
    ensures forall i, j :: 12 <= i < 18 && i < j < 34 ==> AttributeField(i).name != AttributeField(j).name
  {
  }

  lemma AttributeNamesDistinctFrom18()
    ensures forall i, j :: 18 <= i < 24 && i < j < 34 ==> AttributeField(i).name != AttributeField(j).name
  {
  }

  lemma AttributeNamesDistinctFrom24()
    ensures forall i, j :: 24 <= i < 30 && i < j < 34 ==> AttributeField(i).name != AttributeField(j).name
  {
  }

  lemma AttributeNamesDistinctFrom30()
    ensures forall i, j :: 30 <= i < 34 && i < j < 34 ==> AttributeField(i).name != AttributeField(j).name
  {
  }

  /** No two fields of the configured layout share a name. */
  lemma AttributeStructureDistinct()
    ensures DistinctNames(AttributeStructure)
  {
    AttributeNamesDistinctFrom0();
    AttributeNamesDistinctFrom6();
    AttributeNamesDistinctFrom12();
    AttributeNamesDistinctFrom18();
    AttributeNamesDistinctFrom24();
    AttributeNamesDistinctFrom30();
  }
}
