/**
  The flat player-data editor: finds the block of a player by scanning a
  file buffer for the player's identifier at a ranked list of candidate
  offsets, and reads and patches five one-byte attributes of a block.
 */
module PlayerDataEditor {
  import opened BitCodec
  import opened Wrappers

  /** Default size in bytes of a scanned block (`block_size=64`). */
  const DefaultBlockSize: nat := 64

  /** Number of bytes read or written at a block offset by the attribute editor. */
  const BlockReadSize: nat := 64

  /** Offsets tried, in this order, for a 2-byte identifier. */
  const IdOffsets2Byte: seq<nat> := [0x6, 0xE, 0x2, 0xA, 0x7, 0x3, 0xB, 0xF, 0x4, 0x0, 0xC, 0xD, 0x9, 0x8, 0x5, 0x1]

  /** Offsets tried, in this order, for a 4-byte identifier, after every 2-byte one. */
  const IdOffsets4Byte: seq<nat> := [0xE, 0x2, 0x6, 0xA, 0x7, 0x3, 0xF, 0xB, 0x4, 0xC, 0x0, 0x8]

  /** A place where an identifier may be stored: an offset inside the block and a width in bytes. */
  datatype Candidate = Candidate(offset: nat, width: nat)

  /** The number of candidates tried in each block. */
  const NumCandidates: nat := |IdOffsets2Byte| + |IdOffsets4Byte|

  /** Candidate `k` in scan order: every 2-byte offset first, then every 4-byte offset. */
  function CandidateAt(k: nat): (r: Candidate)
    requires k < NumCandidates
  {
    if k < |IdOffsets2Byte| then Candidate(IdOffsets2Byte[k], 2)
    else Candidate(IdOffsets4Byte[k - |IdOffsets2Byte|], 4)
  }

  /** `struct.unpack('<H')` and `struct.unpack('<I')`: the unsigned little-endian value of some bytes. */
  function LittleEndian(bytes: seq<byte>): (r: nat)
  {
    if |bytes| == 0 then 0 else bytes[0] + 256 * LittleEndian(bytes[1..])
  }

  lemma LittleEndianTwo(bytes: seq<byte>)
    requires |bytes| == 2
    ensures LittleEndian(bytes) == bytes[0] as int + 256 * bytes[1] as int
  {
    var tail := bytes[1..];
    assert tail[1..] == [];
    assert LittleEndian(tail) == tail[0] as int + 256 * LittleEndian(tail[1..]);
  }

  lemma LittleEndianThree(bytes: seq<byte>)
    requires |bytes| == 3
    ensures LittleEndian(bytes) == bytes[0] as int + 256 * bytes[1] as int + 65536 * bytes[2] as int
  {
    LittleEndianTwo(bytes[1..]);
  }

  lemma LittleEndianFour(bytes: seq<byte>)
    requires |bytes| == 4
    ensures LittleEndian(bytes)
         == bytes[0] as int + 256 * bytes[1] as int + 65536 * bytes[2] as int + 16777216 * bytes[3] as int
  {
    var tail := bytes[1..];
    LittleEndianThree(tail);
  }

  /** The outcome of the scan: `(block_offset, offset, width)`, or `(None, None, None)`. */
  datatype ScanResult = NotFound | Found(blockOffset: nat, idOffset: nat, idSize: nat)

  /**
    Candidate `k` of block `i` holds `playerId`: the block is a whole block
    of the buffer, the candidate fits inside it, and its bytes decode to the
    identifier.
   */
  predicate MatchAt(content: seq<byte>, playerId: int, blockSize: nat, i: nat, k: nat)
    requires k < NumCandidates
  {
    var c := CandidateAt(k);
    var blockOffset := i * blockSize;
    && blockOffset + blockSize <= |content|
    && c.offset + c.width <= blockSize
    && LittleEndian(content[blockOffset .. blockOffset + blockSize][c.offset .. c.offset + c.width]) == playerId
  }

  /** No candidate of a block before `i`, and no candidate before `k` in block `i`, holds `playerId`. */
  predicate NoEarlierMatch(content: seq<byte>, playerId: int, blockSize: nat, i: nat, k: nat)
  {
    && (forall i', k' :: 0 <= i' < i && 0 <= k' < NumCandidates ==> !MatchAt(content, playerId, blockSize, i', k'))
    && (forall k' :: 0 <= k' < k && k' < NumCandidates ==> !MatchAt(content, playerId, blockSize, i, k'))
  }

  /** The result reported for candidate `k` of block `i`. */
  function FoundAt(blockSize: nat, i: nat, k: nat): (r: ScanResult)
    requires k < NumCandidates
  {
    Found(i * blockSize, CandidateAt(k).offset, CandidateAt(k).width)
  }

  /**
    The blocks the scan visits, `0 .. len(content) // block_size - 1`, are
    exactly the blocks that lie wholly inside the buffer: a trailing partial
    block is never visited.
   */
  lemma WholeBlocks(n: nat, blockSize: nat, i: nat)
    requires blockSize > 0
    ensures i < n / blockSize <==> i * blockSize + blockSize <= n
  {
    var q, r := n / blockSize, n % blockSize;
    assert n == q * blockSize + r && r < blockSize;
    if i < q {
      MulMonotonic(i + 1, q, blockSize);
    } else {
      MulMonotonic(q + 1, i + 1, blockSize);
    }
  }

  lemma {:induction false} MulMonotonic(a: nat, b: nat, c: nat)
    requires a <= b
    ensures a * c <= b * c
    decreases b
  {
    if a < b {
      MulMonotonic(a, b - 1, c);
      assert b * c == (b - 1) * c + c;
    }
  }

  /**
    `find_player_block_and_offset` over the bytes of the file: visits the
    whole blocks in order and, inside each, the 2-byte candidates then the
    4-byte ones, skipping those that do not fit in a block, and returns the
    first candidate whose little-endian value is `playerId`.
   */
  method FindPlayerBlockAndOffset(content: seq<byte>, playerId: int, blockSize: nat) returns (r: ScanResult)
    requires blockSize > 0
    ensures r.Found? ==>
              exists i, k :: 0 <= i < |content| / blockSize && 0 <= k < NumCandidates
                             && r == FoundAt(blockSize, i, k)
                             && MatchAt(content, playerId, blockSize, i, k)
                             && NoEarlierMatch(content, playerId, blockSize, i, k)
    ensures r.NotFound? <==>
              forall i, k :: 0 <= i && 0 <= k < NumCandidates ==> !MatchAt(content, playerId, blockSize, i, k)
  {
    var numBlocks := |content| / blockSize;
    for i := 0 to numBlocks
      invariant forall i', k :: 0 <= i' < i && 0 <= k < NumCandidates ==> !MatchAt(content, playerId, blockSize, i', k)
    {
      var blockOffset := i * blockSize;
      WholeBlocks(|content|, blockSize, i);
      var blockData := content[blockOffset .. blockOffset + blockSize];
      if |blockData| == blockSize {
        for j := 0 to |IdOffsets2Byte|
          invariant forall k :: 0 <= k < j ==> !MatchAt(content, playerId, blockSize, i, k)
        {
          var offset := IdOffsets2Byte[j];
          if offset + 2 <= blockSize {
            var currentId := LittleEndian(blockData[offset .. offset + 2]);
            if currentId == playerId {
              assert MatchAt(content, playerId, blockSize, i, j);
              return Found(blockOffset, offset, 2);
            }
          }
        }
        for j := 0 to |IdOffsets4Byte|
          invariant forall k :: 0 <= k < |IdOffsets2Byte| + j ==> !MatchAt(content, playerId, blockSize, i, k)
        {
          var offset := IdOffsets4Byte[j];
          ghost var k := |IdOffsets2Byte| + j;
          if offset + 4 <= blockSize {
            var currentId := LittleEndian(blockData[offset .. offset + 4]);
            if currentId == playerId {
              assert MatchAt(content, playerId, blockSize, i, k);
              return Found(blockOffset, offset, 4);
            }
          }
        }
      }
    }
    forall i, k | 0 <= i && 0 <= k < NumCandidates
      ensures !MatchAt(content, playerId, blockSize, i, k)
    {
      WholeBlocks(|content|, blockSize, i);
    }
    return NotFound;
  }

  /** Slicing a candidate out of a slice of the buffer slices it out of the buffer. */
  lemma SliceOfSlice(content: seq<byte>, blockOffset: nat, blockSize: nat, offset: nat, width: nat)
    requires blockOffset + blockSize <= |content| && offset + width <= blockSize
    ensures content[blockOffset .. blockOffset + blockSize][offset .. offset + width]
         == content[blockOffset + offset .. blockOffset + offset + width]
  {
    var block := content[blockOffset .. blockOffset + blockSize];
    var id := content[blockOffset + offset .. blockOffset + offset + width];
    forall t | 0 <= t < width
      ensures block[offset .. offset + width][t] == id[t]
    {
      assert block[offset + t] == content[blockOffset + (offset + t)];
    }
  }

  /** A reported 2-byte identifier is `content[o] + 256 * content[o + 1]` at its position `o`. */
  lemma MatchTwoByte(content: seq<byte>, playerId: int, blockSize: nat, i: nat, k: nat)
    requires k < |IdOffsets2Byte|
    requires MatchAt(content, playerId, blockSize, i, k)
    ensures var o := i * blockSize + IdOffsets2Byte[k];
            o + 2 <= |content| && content[o] as int + 256 * content[o + 1] as int == playerId
  {
    var blockOffset, offset := i * blockSize, IdOffsets2Byte[k];
    var o := blockOffset + offset;
    SliceOfSlice(content, blockOffset, blockSize, offset, 2);
    LittleEndianTwo(content[o .. o + 2]);
  }

  /** A reported 4-byte identifier is the little-endian value of the four bytes at its position. */
  lemma MatchFourByte(content: seq<byte>, playerId: int, blockSize: nat, i: nat, k: nat)
    requires |IdOffsets2Byte| <= k < NumCandidates
    requires MatchAt(content, playerId, blockSize, i, k)
    ensures var o := i * blockSize + IdOffsets4Byte[k - |IdOffsets2Byte|];
            o + 4 <= |content|
            && content[o] as int + 256 * content[o + 1] as int + 65536 * content[o + 2] as int
               + 16777216 * content[o + 3] as int == playerId
  {
    var blockOffset, offset := i * blockSize, IdOffsets4Byte[k - |IdOffsets2Byte|];
    var o := blockOffset + offset;
    SliceOfSlice(content, blockOffset, blockSize, offset, 4);
    var id := content[o .. o + 4];
    LittleEndianFour(id);
    assert id[0] == content[o] && id[1] == content[o + 1] && id[2] == content[o + 2] && id[3] == content[o + 3];
  }

  /** Offset of the first one-byte attribute in a block. */
  const AttributeBase: nat := 0x10

  /** The one-byte attributes, in block order: attribute `k` is byte `0x10 + k`. */
  const FlatAttributeNames: seq<string> := ["attack", "defense", "stamina", "top_speed", "dribble_accuracy"]

  /** The attributes decoded from a block by `read_player_data`. */
  datatype FlatAttributes = FlatAttributes(attack: byte, defense: byte, stamina: byte, topSpeed: byte,
                                           dribbleAccuracy: byte)

  /**
    Attribute `k` of a block: `struct.unpack('<B')` of the one-byte slice at
    `0x10 + k`, or 0 when the block is too short to hold it.
   */
  function ReadFlatAttribute(blockData: seq<byte>, k: nat): (r: byte)
    requires k < |FlatAttributeNames|
    ensures AttributeBase + k + 1 <= |blockData| ==> r == LittleEndian(blockData[AttributeBase + k .. AttributeBase + k + 1])
    ensures AttributeBase + k + 1 > |blockData| ==> r == 0
  {
    if AttributeBase + k + 1 <= |blockData| then
      assert blockData[AttributeBase + k .. AttributeBase + k + 1][1..] == [];
      blockData[AttributeBase + k]
    else 0
  }

  /**
    The attribute reads of `read_player_data`: a block holding byte `0x14`
    gives bytes `0x10` to `0x14`, and a block of at most `0x10` bytes gives
    all zeros.
   */
  function ReadFlatAttributes(blockData: seq<byte>): (r: FlatAttributes)
    ensures AttributeBase + |FlatAttributeNames| <= |blockData| ==>
              r == FlatAttributes(blockData[0x10], blockData[0x11], blockData[0x12], blockData[0x13], blockData[0x14])
    ensures |blockData| <= AttributeBase ==> r == FlatAttributes(0, 0, 0, 0, 0)
  {
    FlatAttributes(ReadFlatAttribute(blockData, 0), ReadFlatAttribute(blockData, 1), ReadFlatAttribute(blockData, 2),
                   ReadFlatAttribute(blockData, 3), ReadFlatAttribute(blockData, 4))
  }

  /** `struct.pack('<B', v)` accepts `v`. */
  predicate Packable(v: int) {
    0 <= v < 256
  }

  /** The update names attribute `k` and the block is long enough to hold its byte. */
  predicate Addressed(attrs: map<string, int>, len: nat, k: nat)
    requires k < |FlatAttributeNames|
  {
    FlatAttributeNames[k] in attrs && AttributeBase + k + 1 <= len
  }

  /**
    The first attribute, from `k` on, that the update addresses with a value
    `struct.pack('<B')` refuses; `|FlatAttributeNames|` when there is none.
   */
  function FirstRefused(attrs: map<string, int>, len: nat, k: nat): (r: nat)
    requires k <= |FlatAttributeNames|
    ensures k <= r <= |FlatAttributeNames|
    decreases |FlatAttributeNames| - k
  {
    if k == |FlatAttributeNames| then k
    else if Addressed(attrs, len, k) && !Packable(attrs[FlatAttributeNames[k]]) then k
    else FirstRefused(attrs, len, k + 1)
  }

  /**
    The attribute where the patch stops is refused, and every addressed
    attribute before it is accepted.
   */
  lemma {:induction false} FirstRefusedIsFirst(attrs: map<string, int>, len: nat, k: nat)
    requires k <= |FlatAttributeNames|
    ensures var r := FirstRefused(attrs, len, k);
            && (r < |FlatAttributeNames| ==> Addressed(attrs, len, r) && !Packable(attrs[FlatAttributeNames[r]]))
            && forall j :: k <= j < r && Addressed(attrs, len, j) ==> Packable(attrs[FlatAttributeNames[j]])
    decreases |FlatAttributeNames| - k
  {
    if k < |FlatAttributeNames| && !(Addressed(attrs, len, k) && !Packable(attrs[FlatAttributeNames[k]])) {
      FirstRefusedIsFirst(attrs, len, k + 1);
    }
  }

  /** The block after the patches of the first `k` attributes. */
  function Patched(block: seq<byte>, attrs: map<string, int>, k: nat): (r: seq<byte>)
    requires k <= |FlatAttributeNames|
    ensures |r| == |block|
  {
    if k == 0 then block
    else
      var prev := Patched(block, attrs, k - 1);
      var v := if FlatAttributeNames[k - 1] in attrs then attrs[FlatAttributeNames[k - 1]] else 0;
      if Addressed(attrs, |block|, k - 1) && Packable(v) then prev[AttributeBase + k - 1 := v] else prev
  }

  /** The patch changes no byte outside the attribute bytes it addresses. */
  lemma {:induction false} PatchedFrame(block: seq<byte>, attrs: map<string, int>, k: nat, p: nat)
    requires k <= |FlatAttributeNames|
    requires p < |block|
    requires !(AttributeBase <= p < AttributeBase + k && Addressed(attrs, |block|, p - AttributeBase))
    ensures Patched(block, attrs, k)[p] == block[p]
  {
    if k > 0 {
      PatchedFrame(block, attrs, k - 1, p);
    }
  }

  /**
    Patching then reading: an addressed attribute whose value fits in a
    byte reads back as that value; every other attribute reads as before.
   */
  lemma {:induction false} PatchedRead(block: seq<byte>, attrs: map<string, int>, k: nat, j: nat)
    requires j < k <= |FlatAttributeNames|
    ensures ReadFlatAttribute(Patched(block, attrs, k), j)
         == if Addressed(attrs, |block|, j) && Packable(attrs[FlatAttributeNames[j]])
            then attrs[FlatAttributeNames[j]]
            else ReadFlatAttribute(block, j)
  {
    if j < k - 1 {
      PatchedRead(block, attrs, k - 1, j);
    } else if AttributeBase + j + 1 <= |block| {
      PatchedFrame(block, attrs, k - 1, AttributeBase + j);
    }
  }

  /** What attribute `k` reads after the patch: the given value if it is addressed and fits a byte, else the old reading. */
  function PatchedValue(block: seq<byte>, attrs: map<string, int>, k: nat): (r: byte)
    requires k < |FlatAttributeNames|
  {
    if Addressed(attrs, |block|, k) && Packable(attrs[FlatAttributeNames[k]]) then attrs[FlatAttributeNames[k]]
    else ReadFlatAttribute(block, k)
  }

  /**
    Patching then reading the block: each of the five attributes is the given
    value when the update addresses it with a value that fits a byte, and
    otherwise what it read before. When no value is refused this is the
    block `write_player_data` writes back (see `PatchFlatAttributes`).
   */
  lemma PatchedReadAttributes(block: seq<byte>, attrs: map<string, int>)
    ensures ReadFlatAttributes(Patched(block, attrs, |FlatAttributeNames|))
         == FlatAttributes(PatchedValue(block, attrs, 0), PatchedValue(block, attrs, 1), PatchedValue(block, attrs, 2),
                           PatchedValue(block, attrs, 3), PatchedValue(block, attrs, 4))
  {
    PatchedRead(block, attrs, |FlatAttributeNames|, 0);
    PatchedRead(block, attrs, |FlatAttributeNames|, 1);
    PatchedRead(block, attrs, |FlatAttributeNames|, 2);
    PatchedRead(block, attrs, |FlatAttributeNames|, 3);
    PatchedRead(block, attrs, |FlatAttributeNames|, 4);
  }

  /** The dictionary of `read_player_data`, less the name, the identifier and the hex dump. */
  datatype PlayerInfo = PlayerInfo(blockOffset: nat, idInBlockOffset: nat, idSize: nat, attributes: FlatAttributes)

  /**
    `read_player_data` over the bytes of the file: scans with the default
    block size, reads at most 64 bytes at the block found and decodes the
    one-byte attributes; None when the player is not found.
   */
  method ReadPlayerData(content: seq<byte>, playerId: int) returns (r: Option<PlayerInfo>)
    ensures r.None? <==>
              forall i, k :: 0 <= i && 0 <= k < NumCandidates ==> !MatchAt(content, playerId, DefaultBlockSize, i, k)
    ensures r.Some? ==>
              exists i, k :: 0 <= k < NumCandidates
                             && FoundAt(DefaultBlockSize, i, k)
                                == Found(r.value.blockOffset, r.value.idInBlockOffset, r.value.idSize)
                             && MatchAt(content, playerId, DefaultBlockSize, i, k)
                             && NoEarlierMatch(content, playerId, DefaultBlockSize, i, k)
    ensures r.Some? ==>
              var o := r.value.blockOffset;
              o + BlockReadSize <= |content|
              && r.value.attributes
                 == FlatAttributes(content[o + 0x10], content[o + 0x11], content[o + 0x12], content[o + 0x13],
                                   content[o + 0x14])
  {
    var found := FindPlayerBlockAndOffset(content, playerId, DefaultBlockSize);
    if found.NotFound? {
      return None;
    }
    ghost var i, k :| 0 <= i < |content| / DefaultBlockSize && 0 <= k < NumCandidates
                      && found == FoundAt(DefaultBlockSize, i, k)
                      && MatchAt(content, playerId, DefaultBlockSize, i, k)
                      && NoEarlierMatch(content, playerId, DefaultBlockSize, i, k);
    var blockOffset := found.blockOffset;
    // `f.seek(block_offset)` then `f.read(64)`: fewer bytes at the end of the file
    var blockEnd := if blockOffset + BlockReadSize <= |content| then blockOffset + BlockReadSize else |content|;
    var blockData := content[blockOffset .. blockEnd];
    r := Some(PlayerInfo(blockOffset, found.idOffset, found.idSize, ReadFlatAttributes(blockData)));
  }

  /**
    The attribute patch of `write_player_data` on the bytes read from the
    file: for each attribute, in order, when the update names it and the
    block holds its byte, that byte becomes the given value. A value that
    `struct.pack('<B')` refuses raises, abandoning the rest of the update
    (reported as `false`, with the earlier attributes already patched).
   */
  method PatchFlatAttributes(blockData: array<byte>, newAttributes: map<string, int>) returns (ok: bool)
    modifies blockData
    ensures ok <==> FirstRefused(newAttributes, blockData.Length, 0) == |FlatAttributeNames|
    ensures blockData[..] == Patched(old(blockData[..]), newAttributes, FirstRefused(newAttributes, blockData.Length, 0))
    ensures ok ==> ReadFlatAttributes(blockData[..])
                   == FlatAttributes(PatchedValue(old(blockData[..]), newAttributes, 0),
                                     PatchedValue(old(blockData[..]), newAttributes, 1),
                                     PatchedValue(old(blockData[..]), newAttributes, 2),
                                     PatchedValue(old(blockData[..]), newAttributes, 3),
                                     PatchedValue(old(blockData[..]), newAttributes, 4))
  {
    ghost var block, len := blockData[..], blockData.Length;
    assert FlatAttributeNames == ["attack", "defense", "stamina", "top_speed", "dribble_accuracy"];
    if "attack" in newAttributes && 0x10 + 1 <= blockData.Length {
      var v := newAttributes["attack"];
      if !Packable(v) {
        assert FirstRefused(newAttributes, len, 0) == 0;
        return false;
      }
      blockData[0x10] := v;
    }
    assert FirstRefused(newAttributes, len, 0) == FirstRefused(newAttributes, len, 1);
    assert blockData[..] == Patched(block, newAttributes, 1);
    if "defense" in newAttributes && 0x11 + 1 <= blockData.Length {
      var v := newAttributes["defense"];
      if !Packable(v) {
        assert FirstRefused(newAttributes, len, 1) == 1;
        return false;
      }
      blockData[0x11] := v;
    }
    assert FirstRefused(newAttributes, len, 1) == FirstRefused(newAttributes, len, 2);
    assert blockData[..] == Patched(block, newAttributes, 2);
    if "stamina" in newAttributes && 0x12 + 1 <= blockData.Length {
      var v := newAttributes["stamina"];
      if !Packable(v) {
        assert FirstRefused(newAttributes, len, 2) == 2;
        return false;
      }
      blockData[0x12] := v;
    }
    assert FirstRefused(newAttributes, len, 2) == FirstRefused(newAttributes, len, 3);
    assert blockData[..] == Patched(block, newAttributes, 3);
    if "top_speed" in newAttributes && 0x13 + 1 <= blockData.Length {
      var v := newAttributes["top_speed"];
      if !Packable(v) {
        assert FirstRefused(newAttributes, len, 3) == 3;
        return false;
      }
      blockData[0x13] := v;
    }
    assert FirstRefused(newAttributes, len, 3) == FirstRefused(newAttributes, len, 4);
    assert blockData[..] == Patched(block, newAttributes, 4);
    if "dribble_accuracy" in newAttributes && 0x14 + 1 <= blockData.Length {
      var v := newAttributes["dribble_accuracy"];
      if !Packable(v) {
        assert FirstRefused(newAttributes, len, 4) == 4;
        return false;
      }
      blockData[0x14] := v;
    }
    assert FirstRefused(newAttributes, len, 4) == FirstRefused(newAttributes, len, 5);
    assert blockData[..] == Patched(block, newAttributes, 5);
    PatchedReadAttributes(block, newAttributes);
    return true;
  }
}
