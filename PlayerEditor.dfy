/**
  The bit-packed player record editor: a file buffer of fixed-size player
  blocks, starting at a fixed byte offset, each block holding a sequence of
  attribute fields packed with no gaps from bit 0, least significant bit
  first.
 */
module PlayerEditor {
  import opened BitCodec
  import opened Wrappers
  import opened PlayerLayout

  /** The value accepted for a field of `numBits` bits: `0 <= value <= 2^numBits - 1`. */
  predicate InRange(value: int, numBits: nat) {
    0 <= value <= Pow2(numBits) - 1
  }

  /** The update writes field `f`: its name is given, with a value that fits. */
  predicate Applies(attrs: map<string, int>, f: Field) {
    f.name in attrs && InRange(attrs[f.name], f.numBits)
  }

  /** The attribute map built from the first `k` fields of the layout (the decode loop). */
  function DecodeFields(block: seq<byte>, layout: seq<Field>, k: nat): (r: map<string, nat>)
    requires k <= |layout|
  {
    if k == 0 then map[]
    else DecodeFields(block, layout, k - 1)[layout[k - 1].name :=
           BitsValue(block, FieldOffset(layout, k - 1), layout[k - 1].numBits)]
  }

  /** The block after the first `k` fields of the layout are updated from `attrs` (the encode loop). */
  function ApplyFields(block: seq<byte>, layout: seq<Field>, attrs: map<string, int>, k: nat): (r: seq<byte>)
    requires k <= |layout|
    ensures |r| == |block|
  {
    if k == 0 then block
    else
      var prev := ApplyFields(block, layout, attrs, k - 1);
      var f := layout[k - 1];
      if Applies(attrs, f) then Written(prev, FieldOffset(layout, k - 1), f.numBits, attrs[f.name])
      else prev
  }

  /** Decoding yields exactly one entry per field name. */
  lemma {:induction false} DecodeFieldsKeys(block: seq<byte>, layout: seq<Field>, k: nat)
    requires k <= |layout|
    ensures DecodeFields(block, layout, k).Keys == set j | 0 <= j < k :: layout[j].name
  {
    if k > 0 {
      DecodeFieldsKeys(block, layout, k - 1);
    }
  }

  /** With distinct names, the entry of field `j` is the value of its bits. */
  lemma {:induction false} DecodeFieldsAt(block: seq<byte>, layout: seq<Field>, k: nat, j: nat)
    requires DistinctNames(layout)
    requires j < k <= |layout|
    ensures layout[j].name in DecodeFields(block, layout, k)
    ensures DecodeFields(block, layout, k)[layout[j].name]
         == BitsValue(block, FieldOffset(layout, j), layout[j].numBits)
  {
    if j < k - 1 {
      DecodeFieldsAt(block, layout, k - 1, j);
    }
  }

  /** Bits past the first `k` fields are untouched by the encode loop. */
  lemma {:induction false} ApplyFieldsBeyond(block: seq<byte>, layout: seq<Field>, attrs: map<string, int>, k: nat, q: nat)
    requires k <= |layout|
    requires q >= FieldOffset(layout, k)
    ensures GetBit(ApplyFields(block, layout, attrs, k), q) == GetBit(block, q)
  {
    if k > 0 {
      var f := layout[k - 1];
      var prev := ApplyFields(block, layout, attrs, k - 1);
      ApplyFieldsBeyond(block, layout, attrs, k - 1, q);
      if Applies(attrs, f) {
        WrittenBit(prev, FieldOffset(layout, k - 1), f.numBits, attrs[f.name], q);
      }
    }
  }

  /**
    Bit isolation across the record: a bit of field `j` ends up holding the
    matching bit of the new value when field `j` is written, and its old
    value otherwise, whatever the other fields do.
   */
  lemma {:induction false} ApplyFieldsInField(block: seq<byte>, layout: seq<Field>, attrs: map<string, int>,
                                              k: nat, j: nat, q: nat)
    requires j < k <= |layout|
    requires FieldOffset(layout, j) <= q < FieldOffset(layout, j + 1)
    ensures GetBit(ApplyFields(block, layout, attrs, k), q)
         == if Applies(attrs, layout[j]) && q / 8 < |block|
            then NatBit(attrs[layout[j].name], q - FieldOffset(layout, j))
            else GetBit(block, q)
  {
    var f := layout[k - 1];
    var prev := ApplyFields(block, layout, attrs, k - 1);
    var start := FieldOffset(layout, k - 1);
    if Applies(attrs, f) {
      WrittenBit(prev, start, f.numBits, attrs[f.name], q);
    }
    if j < k - 1 {
      FieldOffsetMonotonic(layout, j + 1, k - 1);
      assert GetBit(ApplyFields(block, layout, attrs, k), q) == GetBit(prev, q);
      ApplyFieldsInField(block, layout, attrs, k - 1, j, q);
    } else {
      ApplyFieldsBeyond(block, layout, attrs, k - 1, q);
      assert GetBit(prev, q) == GetBit(block, q);
    }
  }

  /** Round trip: a field written with a value that fits reads back as that value. */
  lemma FieldRoundTrip(block: seq<byte>, layout: seq<Field>, attrs: map<string, int>, j: nat)
    requires j < |layout|
    requires FieldOffset(layout, |layout|) <= 8 * |block|
    requires Applies(attrs, layout[j])
    ensures BitsValue(ApplyFields(block, layout, attrs, |layout|), FieldOffset(layout, j), layout[j].numBits)
         == attrs[layout[j].name]
  {
    var after := ApplyFields(block, layout, attrs, |layout|);
    var start, n, v := FieldOffset(layout, j), layout[j].numBits, attrs[layout[j].name];
    FieldOffsetMonotonic(layout, j + 1, |layout|);
    forall i | 0 <= i < n
      ensures NatBit(v, i) == GetBit(after, start + i)
    {
      ApplyFieldsInField(block, layout, attrs, |layout|, j, start + i);
    }
    BitsValueUnique(after, start, n, v);
  }

  /** A field that is absent from the update, or whose value does not fit, keeps its value. */
  lemma FieldKept(block: seq<byte>, layout: seq<Field>, attrs: map<string, int>, j: nat)
    requires j < |layout|
    requires !Applies(attrs, layout[j])
    ensures BitsValue(ApplyFields(block, layout, attrs, |layout|), FieldOffset(layout, j), layout[j].numBits)
         == BitsValue(block, FieldOffset(layout, j), layout[j].numBits)
  {
    var after := ApplyFields(block, layout, attrs, |layout|);
    forall q: nat | FieldOffset(layout, j) <= q < FieldOffset(layout, j) + layout[j].numBits
      ensures GetBit(after, q) == GetBit(block, q)
    {
      ApplyFieldsInField(block, layout, attrs, |layout|, j, q);
    }
    BitsValueFrame(after, block, FieldOffset(layout, j), layout[j].numBits);
  }

  /**
    Setting then getting attributes: every field whose name is given with a
    value that fits decodes as that value, and every other field decodes as
    it did before the update.
   */
  lemma RecordRoundTrip(block: seq<byte>, layout: seq<Field>, attrs: map<string, int>, j: nat)
    requires DistinctNames(layout)
    requires j < |layout|
    requires FieldOffset(layout, |layout|) <= 8 * |block|
    ensures layout[j].name in DecodeFields(ApplyFields(block, layout, attrs, |layout|), layout, |layout|)
    ensures layout[j].name in DecodeFields(block, layout, |layout|)
    ensures DecodeFields(ApplyFields(block, layout, attrs, |layout|), layout, |layout|)[layout[j].name]
         == if Applies(attrs, layout[j]) then attrs[layout[j].name]
            else DecodeFields(block, layout, |layout|)[layout[j].name]
  {
    var after := ApplyFields(block, layout, attrs, |layout|);
    DecodeFieldsAt(after, layout, |layout|, j);
    DecodeFieldsAt(block, layout, |layout|, j);
    if Applies(attrs, layout[j]) {
      FieldRoundTrip(block, layout, attrs, j);
    } else {
      FieldKept(block, layout, attrs, j);
    }
  }

  /**
    Setting then getting the attributes of a player block with the configured
    layout: a field given with a value that fits reads back as that value, any
    other field as it read before.
   */
  lemma AttributeStructureRoundTrip(block: seq<byte>, attrs: map<string, int>, j: nat)
    requires |block| == PlayerBlockSize
    requires j < |AttributeStructure|
    ensures var f := AttributeStructure[j];
            var after := ApplyFields(block, AttributeStructure, attrs, |AttributeStructure|);
            && f.name in DecodeFields(after, AttributeStructure, |AttributeStructure|)
            && f.name in DecodeFields(block, AttributeStructure, |AttributeStructure|)
            && DecodeFields(after, AttributeStructure, |AttributeStructure|)[f.name]
               == if Applies(attrs, f) then attrs[f.name]
                  else DecodeFields(block, AttributeStructure, |AttributeStructure|)[f.name]
  {
    AttributeStructureFits();
    AttributeStructureDistinct();
    RecordRoundTrip(block, AttributeStructure, attrs, j);
  }

  /** Distinct player blocks do not overlap. */
  lemma BlocksDisjoint(i: nat, j: nat)
    requires i != j
    ensures BlockOffset(i) + PlayerBlockSize <= BlockOffset(j) || BlockOffset(j) + PlayerBlockSize <= BlockOffset(i)
  {
  }

  /**
    The field loop of `set_player_attributes`: walks `layout` in order, keeping
    the running bit offset, and writes each field that `attrs` names with a
    value that fits into `buffer`; a value that does not fit is skipped.
   */
  method EncodeFields(buffer: array<byte>, layout: seq<Field>, attrs: map<string, int>)
    modifies buffer
    ensures buffer[..] == ApplyFields(old(buffer[..]), layout, attrs, |layout|)
  {
    ghost var block := buffer[..];
    var currentBitOffset := 0;
    for k := 0 to |layout|
      invariant buffer[..] == ApplyFields(block, layout, attrs, k)
      invariant currentBitOffset == FieldOffset(layout, k)
    {
      var field := layout[k];
      if field.name in attrs {
        var newValue := attrs[field.name];
        var maxValue := Pow2(field.numBits) - 1;
        // out of range: `set_player_attributes` prints a warning and skips this field
        if 0 <= newValue <= maxValue {
          WriteBits(buffer, currentBitOffset, field.numBits, newValue);
        }
      }
      currentBitOffset := currentBitOffset + field.numBits;
    }
  }

  /**
    The editor: owns the loaded file buffer and reads and writes player
    blocks and their attributes in place.
   */
  class PlayerEditor {
    const editBinData: array<byte>

    /** Wraps the bytes of a loaded file. */
    constructor (contents: seq<byte>)
      ensures fresh(editBinData)
      ensures editBinData[..] == contents
    {
      editBinData := new byte[|contents|](i requires 0 <= i < |contents| => contents[i]);
    }

    /** `get_player_block`: the bytes of block `index`, or None if it runs past the buffer. */
    function GetPlayerBlock(index: nat): (r: Option<seq<byte>>)
      reads editBinData
      ensures r.None? <==> BlockOffset(index) + PlayerBlockSize > editBinData.Length
      ensures r.Some? ==> |r.value| == PlayerBlockSize
      ensures r.Some? ==> forall i :: 0 <= i < PlayerBlockSize ==> r.value[i] == editBinData[BlockOffset(index) + i]
    {
      var offset := BlockOffset(index);
      if offset + PlayerBlockSize > editBinData.Length then None
      else Some(editBinData[offset .. offset + PlayerBlockSize])
    }

    /**
      `set_player_block`: replaces block `index` with `newBlockData`; refuses,
      changing nothing, when the block runs past the buffer or the new data
      has the wrong length.
     */
    method SetPlayerBlock(index: nat, newBlockData: seq<byte>) returns (ok: bool)
      modifies editBinData
      ensures ok <==> BlockOffset(index) + PlayerBlockSize <= editBinData.Length
                      && |newBlockData| == PlayerBlockSize
      ensures ok ==> editBinData[..] == old(editBinData[..BlockOffset(index)]) + newBlockData
                                        + old(editBinData[BlockOffset(index) + PlayerBlockSize..])
      ensures !ok ==> editBinData[..] == old(editBinData[..])
      ensures ok ==> GetPlayerBlock(index) == Some(newBlockData)
      ensures forall j: nat :: j != index ==> GetPlayerBlock(j) == old(GetPlayerBlock(j))
    {
      var offset := BlockOffset(index);
      if offset + PlayerBlockSize > editBinData.Length {
        return false;
      }
      if |newBlockData| != PlayerBlockSize {
        return false;
      }
      forall i | offset <= i < offset + PlayerBlockSize {
        editBinData[i] := newBlockData[i - offset];
      }
      ghost var updated := old(editBinData[..offset]) + newBlockData + old(editBinData[offset + PlayerBlockSize..]);
      assert |updated| == editBinData.Length;
      forall i | 0 <= i < editBinData.Length
        ensures editBinData[i] == updated[i]
      {
        if i < offset {
        } else if i < offset + PlayerBlockSize {
        } else {
        }
      }
      assert editBinData[..] == updated;
      forall j: nat | j != index
        ensures GetPlayerBlock(j) == old(GetPlayerBlock(j))
      {
        BlocksDisjoint(index, j);
        if BlockOffset(j) + PlayerBlockSize <= editBinData.Length {
          assert editBinData[BlockOffset(j) .. BlockOffset(j) + PlayerBlockSize]
              == old(editBinData[BlockOffset(j) .. BlockOffset(j) + PlayerBlockSize]);
        }
      }
      ok := true;
    }

    /**
      `get_player_attributes`: decodes every field of block `index` in layout
      order, or None if the block runs past the buffer.
     */
    method GetPlayerAttributes(index: nat) returns (r: Option<map<string, nat>>)
      ensures r.None? <==> GetPlayerBlock(index).None?
      ensures r.Some? ==> r.value == DecodeFields(GetPlayerBlock(index).value, AttributeStructure, |AttributeStructure|)
      ensures r.Some? ==> r.value.Keys == set j | 0 <= j < |AttributeStructure| :: AttributeStructure[j].name
      ensures r.Some? ==> forall j :: 0 <= j < |AttributeStructure| ==>
                AttributeStructure[j].name in r.value &&
                r.value[AttributeStructure[j].name]
                == BitsValue(GetPlayerBlock(index).value, FieldOffset(AttributeStructure, j), AttributeStructure[j].numBits)
    {
      var playerBlock := GetPlayerBlock(index);
      if playerBlock.None? {
        return None;
      }
      var attributes: map<string, nat> := map[];
      var currentBitOffset := 0;
      for k := 0 to |AttributeStructure|
        invariant attributes == DecodeFields(playerBlock.value, AttributeStructure, k)
        invariant currentBitOffset == FieldOffset(AttributeStructure, k)
      {
        var field := AttributeStructure[k];
        var value := ReadBits(playerBlock.value, currentBitOffset, field.numBits);
        attributes := attributes[field.name := value];
        currentBitOffset := currentBitOffset + field.numBits;
      }
      DecodeFieldsKeys(playerBlock.value, AttributeStructure, |AttributeStructure|);
      AttributeStructureDistinct();
      forall j | 0 <= j < |AttributeStructure|
        ensures AttributeStructure[j].name in attributes
        ensures attributes[AttributeStructure[j].name]
             == BitsValue(playerBlock.value, FieldOffset(AttributeStructure, j), AttributeStructure[j].numBits)
      {
        DecodeFieldsAt(playerBlock.value, AttributeStructure, |AttributeStructure|, j);
      }
      r := Some(attributes);
    }

    /**
      `set_player_attributes`: writes each field whose name is given with a
      value that fits into a copy of block `index` (a value that does not fit
      is skipped for that field alone), then stores the copy back. Fails,
      changing nothing, when the block runs past the buffer.
     */
    method SetPlayerAttributes(index: nat, newAttributes: map<string, int>) returns (ok: bool)
      modifies editBinData
      ensures ok <==> old(GetPlayerBlock(index)).Some?
      ensures ok ==> GetPlayerBlock(index)
                     == Some(ApplyFields(old(GetPlayerBlock(index)).value, AttributeStructure, newAttributes,
                                         |AttributeStructure|))
      ensures ok ==> editBinData[..]
                     == old(editBinData[..BlockOffset(index)])
                        + ApplyFields(old(GetPlayerBlock(index)).value, AttributeStructure, newAttributes,
                                      |AttributeStructure|)
                        + old(editBinData[BlockOffset(index) + PlayerBlockSize..])
      ensures !ok ==> editBinData[..] == old(editBinData[..])
      ensures forall j: nat :: j != index ==> GetPlayerBlock(j) == old(GetPlayerBlock(j))
    {
      var playerBlock := GetPlayerBlock(index);
      if playerBlock.None? {
        return false;
      }
      var block := playerBlock.value;
      var tempPlayerBlock := new byte[|block|](i requires 0 <= i < |block| => block[i]);
      assert tempPlayerBlock[..] == block;
      EncodeFields(tempPlayerBlock, AttributeStructure, newAttributes);
      ok := SetPlayerBlock(index, tempPlayerBlock[..]);
    }
  }
}
