# PES player editors: bit-packed records and flat player data

This project models the core of two editors for the player data files of a
football game.

**The bit-packed editor** (`PESPlayerEditor`) keeps the whole `EDIT.bin`
file in a byte buffer. Player `i` owns the 156-byte block at offset
`888 + 156 * i`. Each block starts with 34 attribute fields, packed with no
gaps from bit 0:

- the 7-bit ratings, from "Attack" to "Team Work";
- four 4-bit ratings;
- a 5-bit registered position;
- a 2-bit consistency;
- 22 bits of playable positions;
- 30 bits of special abilities.

Bit `p` of a buffer is bit `p % 8` of byte `p / 8`, least significant first.
A bit past the end of the buffer reads as 0, and a write to it is dropped.
The editor does the following:

- reads and writes whole blocks;
- decodes a block into a name-to-value map;
- writes a map back into a block, field by field, skipping any value that
  does not fit its field's width.

**The flat editor** (`pes_player_data_editor`) does two things:

- It finds a player by scanning a buffer in blocks of a given size (64 bytes
  by default). In each block it tries a ranked list of offsets for a 2-byte
  little-endian identifier, then a ranked list for a 4-byte one.
- It reads and patches five one-byte attributes at bytes `0x10`–`0x14` of a
  block.

Modules:

- `BitCodec`:
  - the bytes of a `bytearray` (`byte`);
  - Python's `|`, `& ~` and `(v >> i) & 1` on non-negative integers;
  - `_get_bit`;
  - the read loop (`ReadBits`) and the write loops (`WriteBits`, in place
    on an `array`), each proved against a specification function
    (`BitsValue`, `Written`) that is defined one bit at a time.
- `PlayerLayout`: the attribute layout, the block size and the start offset
  as constants; bit offsets of fields; facts about the configured layout.
- `PlayerEditor`:
  - the class `PlayerEditor`, whose `editBinData` array is the loaded file;
  - the decode and encode loops, specified by `DecodeFields` and
    `ApplyFields`;
  - the round-trip lemmas relating them.
- `PlayerDataEditor`:
  - the identifier scan, proved to return the first match in scan order;
  - the one-byte attribute reads, and the player lookup that combines the
    scan with the 64-byte read of the block found;
  - the in-place attribute patch.
- `Wrappers`: `Option`, for Python's `None`.

## Model

| member | source | states |
|---|---|---|
| BitCodec.GetBit | pes_player_editor_v2.py:75-80 | a buffer bit is 0 or 1, and any bit past the end of the buffer reads as 0 |
| BitCodec.Pow2Bit | pes_player_editor_v2.py:86 | `1 << k` has bit `k` set and every other bit clear |
| BitCodec.BitOrAddsBit | pes_player_editor_v2.py:86 | `value \|= 1 << i` on a value below `2^i` adds `2^i` |
| BitCodec.BitOrBit | pes_player_editor_v2.py:103 | bit `i` of `a \| b` is set exactly when bit `i` of `a` or of `b` is set |
| BitCodec.BitAndNotBit | pes_player_editor_v2.py:95 | bit `i` of `a & ~b` is set exactly when bit `i` of `a` is set and bit `i` of `b` is clear |
| BitCodec.ByteBitUpdate | pes_player_editor_v2.py:95-103 | `byte \|= 1 << k` sets and `byte &= ~(1 << k)` clears bit `k` of a byte; every other bit of the byte keeps its value |
| BitCodec.BitsValue | pes_player_editor_v2.py:82-87 | the value read from `n` bits is below `2^n` |
| BitCodec.BitsValueBit | pes_player_editor_v2.py:84-86 | bit `i` of the value read is buffer bit `start + i` |
| BitCodec.BitsValueUnique | pes_player_editor_v2.py:82-87 | a value below `2^n` whose bits match buffer bits `start ..` is the value read (the read is determined by those bits) |
| BitCodec.BitsValueFrame | pes_player_editor_v2.py:82-87 | two buffers that agree on bits `[start, start + n)` read the same value there |
| BitCodec.BitsValueSnoc | pes_player_editor_v2.py:84-86 | one more iteration of the read loop adds `2^i` exactly when bit `start + i` is set |
| BitCodec.ReadBits | pes_player_editor_v2.py:82-87 | the loop returns the little-endian value of bits `[start, start + n)`; it is below `2^n` and its bit `i` is buffer bit `start + i` |
| BitCodec.SetBitAt | pes_player_editor_v2.py:92-95 | setting or clearing one buffer bit changes that bit alone, and only when it lies inside the buffer |
| BitCodec.WrittenBit | pes_player_editor_v2.py:89-103 | after a write, each target bit inside the buffer holds the matching bit of the value, and every other bit is unchanged |
| BitCodec.WrittenRoundTrip | pes_player_editor_v2.py:82-103 | writing a value below `2^n` into a range inside the buffer, then reading the range, gives the value back |
| BitCodec.ClearStep | pes_player_editor_v2.py:91-95 | one iteration of the clearing loop extends the cleared prefix of the target bits by one bit and leaves every other bit alone |
| BitCodec.SetStep | pes_player_editor_v2.py:98-103 | one iteration of the setting loop copies one more bit of the value into the cleared range |
| BitCodec.ClearThenSet | pes_player_editor_v2.py:89-103 | clearing the range and then setting the value's one-bits gives the bit-by-bit write `Written` |
| BitCodec.WriteBits | pes_player_editor_v2.py:89-103 | the two loops update the array in place to `Written(old contents, start, n, value)` |
| PlayerLayout.FieldOffsetMonotonic | pes_player_editor_v2.py:128-133 | the running bit offset never decreases along the layout |
| PlayerLayout.FieldOffsetBound | pes_player_editor_v2.py:128-133 | the first `k` fields of a layout whose fields are at most `w` bits wide span at most `k * w` bits |
| PlayerLayout.AttributeStructureFits | pes_player_editor_v2.py:16-60 | the 34 configured fields fit inside one 156-byte block |
| PlayerLayout.AttributeStructureBits | pes_player_editor_v2.py:16-59 | the 34 configured fields take exactly 257 bits |
| PlayerLayout.AttributeStructureDistinct | pes_player_editor_v2.py:16-59 | no two configured fields share a name |
| PlayerEditor.ApplyFields | pes_player_editor_v2.py:142-154 | updating the copy of a block never changes its length |
| PlayerEditor.DecodeFieldsKeys | pes_player_editor_v2.py:127-135 | the decoded map has exactly one key per field name of the layout |
| PlayerEditor.DecodeFieldsAt | pes_player_editor_v2.py:127-135 | with distinct names, the entry of field `j` is the value of the field's own bits |
| PlayerEditor.ApplyFieldsBeyond | pes_player_editor_v2.py:143-154 | the first `k` fields' writes leave every bit past those fields unchanged |
| PlayerEditor.ApplyFieldsInField | pes_player_editor_v2.py:143-154 | a bit of field `j` ends up holding the new value's bit when the field is given with a value that fits, and its old bit otherwise |
| PlayerEditor.FieldRoundTrip | pes_player_editor_v2.py:137-156 | a field given with a value that fits reads back as that value after the update |
| PlayerEditor.FieldKept | pes_player_editor_v2.py:146-151 | a field that is not given, or whose value is out of range, keeps its old value |
| PlayerEditor.RecordRoundTrip | pes_player_editor_v2.py:122-156 | decoding after the update gives the given value for each field given with a value that fits, and the old decoded value for every other field |
| PlayerEditor.AttributeStructureRoundTrip | pes_player_editor_v2.py:122-156 | the same round trip, for the configured 34-field layout on a 156-byte block |
| PlayerEditor.BlocksDisjoint | pes_player_editor_v2.py:106-112 | the blocks of two different players do not overlap |
| PlayerEditor.EncodeFields | pes_player_editor_v2.py:143-154 | the field loop leaves the scratch block equal to `ApplyFields` of its old contents |
| PlayerEditor.PlayerEditor.constructor | pes_player_editor_v2.py:67 | the editor's buffer is a fresh array holding the file's bytes |
| PlayerEditor.PlayerEditor.GetPlayerBlock | pes_player_editor_v2.py:105-109 | None exactly when `888 + 156 * index + 156` exceeds the buffer length; otherwise the 156 bytes of the player's block |
| PlayerEditor.PlayerEditor.SetPlayerBlock | pes_player_editor_v2.py:111-120 | success exactly when the block lies in the buffer and the new data is 156 bytes long. On success, the block is replaced and every other byte is kept. On failure, nothing changes. Every other player's block is unchanged either way |
| PlayerEditor.PlayerEditor.GetPlayerAttributes | pes_player_editor_v2.py:122-135 | None exactly when the block is missing. Otherwise the map has exactly the layout's 34 names as keys, and each entry is the value of that field's bits |
| PlayerEditor.PlayerEditor.SetPlayerAttributes | pes_player_editor_v2.py:137-156 | success exactly when the block exists. On success, the block becomes `ApplyFields` of its old contents, where an out-of-range value skips only its own field. On failure, nothing changes. Every other player's block is unchanged |
| PlayerDataEditor.LittleEndianTwo | pes_player_data_editor.py:35 | `struct.unpack('<H')` of two bytes is `b0 + 256 * b1` |
| PlayerDataEditor.LittleEndianFour | pes_player_data_editor.py:45 | `struct.unpack('<I')` of four bytes is `b0 + 2^8 * b1 + 2^16 * b2 + 2^24 * b3` |
| PlayerDataEditor.WholeBlocks | pes_player_data_editor.py:20-30 | block `i` is visited (`i < len // block_size`) exactly when it lies wholly inside the buffer |
| PlayerDataEditor.FindPlayerBlockAndOffset | pes_player_data_editor.py:16-50 | a reported `(block offset, offset, width)` is a candidate of a whole block whose bytes decode to the identifier, and no candidate earlier in scan order matches. The scan reports not-found exactly when no candidate of any block matches |
| PlayerDataEditor.MatchTwoByte | pes_player_data_editor.py:32-37 | a matched 2-byte candidate at position `o` satisfies `content[o] + 256 * content[o + 1] == id` |
| PlayerDataEditor.MatchFourByte | pes_player_data_editor.py:42-47 | a matched 4-byte candidate at position `o` holds the identifier in its four little-endian bytes |
| PlayerDataEditor.FirstRefused | pes_player_data_editor.py:97-106 | the attribute where the patch stops lies between the starting attribute and the end of the list |
| PlayerDataEditor.FirstRefusedIsFirst | pes_player_data_editor.py:97-106 | the attribute where the patch stops is addressed with a value `struct.pack('<B')` refuses, and every addressed attribute before it is accepted |
| PlayerDataEditor.Patched | pes_player_data_editor.py:96-106 | patching never changes the block's length |
| PlayerDataEditor.PatchedFrame | pes_player_data_editor.py:96-106 | the patch changes no byte except the attribute bytes it addresses |
| PlayerDataEditor.ReadFlatAttribute | pes_player_data_editor.py:67-71 | attribute `k` is `struct.unpack('<B')` of the byte at `0x10 + k` when the block holds it, and 0 otherwise |
| PlayerDataEditor.ReadFlatAttributes | pes_player_data_editor.py:67-71 | a block that holds byte `0x14` decodes to its bytes `0x10` to `0x14`; a block of at most `0x10` bytes decodes to all zeros |
| PlayerDataEditor.ReadPlayerData | pes_player_data_editor.py:52-71 | None exactly when no candidate of any 64-byte block matches. Otherwise the result is the first match in scan order, its 64-byte block lies in the buffer, and the attributes are bytes `0x10` to `0x14` of that block |
| PlayerDataEditor.PatchedReadAttributes | pes_player_data_editor.py:67-71 | decoding a patched block gives, for each of the five attributes, the given value when it is addressed and fits a byte, and the old reading otherwise |
| PlayerDataEditor.PatchedRead | pes_player_data_editor.py:96-106 | reading an attribute after the patch gives the given value when it was addressed and fits in a byte, and the old reading otherwise (0 for a byte past the end of a short block) |
| PlayerDataEditor.PatchFlatAttributes | pes_player_data_editor.py:96-106 | success exactly when no addressed value is refused by `struct.pack('<B')`. The block becomes the patch of every attribute up to the first refused one, done in order, in place. On success, each of the five attributes then reads as the given value when addressed, and as before otherwise |

## Left out

- Loading and saving files, the `dt04.img` reader and the CSV loader are left out, because they are I/O. The buffer is given as bytes, both to the constructor and to the scan.
- Name lookup, the name placeholders, the hex dump of a block, the command-line driver, backups and every printed message are left out; none of them affects the edited bytes.
- A negative player index is left out; the index is modelled as a `nat`. In Python, indices -1 to -5 give offsets 732 down to 108, so they address header bytes before player 0. From -6 down the offset is negative, and Python's slicing counts from the end of the buffer. At -6 the slice is `[-48:108]`, which is empty for any file of 156 bytes or more. `get_player_block` then returns an empty block, and `set_player_block` inserts 156 bytes, which grows the buffer.
- BitCodec.WriteBits: the value is a `nat`. A negative Python integer would write its two's-complement bits, but the editor only writes values it has range-checked to `0 ..= 2^numBits - 1`.
- PlayerDataEditor.FindPlayerBlockAndOffset: the scan needs `block_size > 0`. Python raises `ZeroDivisionError` for 0 and never visits a block for a negative size, and callers only use the default 64. The `struct.error` handlers are left out because `unpack` is always given exactly 2 or 4 bytes and so cannot raise there. The `len(block_data) == block_size` test is kept, though it always holds for the blocks visited (see `WholeBlocks`).
- PlayerDataEditor.PatchFlatAttributes: `write_player_data` first reads 64 bytes at the block offset, and at the end writes the block back. Both steps are file I/O; the method models the patch between them on the block's bytes. When `struct.pack('<B')` raises, Python propagates the error and the file is not written. The method instead returns `false`, with the attributes before the refused one already patched in the local block.
- PlayerDataEditor.ReadPlayerData: the returned dictionary keeps the block offset, the identifier's placement and the five attributes. The `id` entry (the input), the `name` entry (a CSV lookup) and the `.hex()` dump of the block are not modelled.
- PlayerEditor.PlayerEditor.GetPlayerAttributes returns an unordered `map`. The Python dictionary also remembers insertion order, which is the layout order, and the demo prints the attributes in that order. The model does not capture that order.
