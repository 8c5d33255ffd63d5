/**
 The on-disk inode table: inodes as little-endian words, four slots of 128 bytes to a sector.
 */
module DiskFormat {
  import opened Words

  type Byte = b: nat | b < 256

  const SECTOR: nat := 512

  const SLOT: nat := 128

  const DIRECT_BLOCKS: nat := 12

  const MAX_INODES: nat := 512

  /** type, size, 12 block pointers, ctime, mtime, parent: 17 words of 4 bytes. */
  const FIELD_BYTES: nat := 68

  // ---------------------------------------------------------- words as bytes

  function LittleEndian(w: Word): (b: seq<Byte>)
    ensures |b| == 4
  {
    [w % 256, w / 256 % 256, w / 65536 % 256, w / 16777216]
  }

  function WordOf(b: seq<Byte>): (w: Word)
    requires |b| == 4
  {
    var b0: int, b1: int, b2: int, b3: int := b[0], b[1], b[2], b[3];
    b0 + 256 * b1 + 65536 * b2 + 16777216 * b3
  }

  lemma WordRoundTrip(w: Word)
    ensures WordOf(LittleEndian(w)) == w
  {
    var q1 := w / 256;
    var q2 := q1 / 256;
    assert w / 65536 == q2 && w / 16777216 == q2 / 256;
  }

  function EncodeWords(ws: seq<Word>): (b: seq<Byte>)
    ensures |b| == 4 * |ws|
  {
    if ws == [] then [] else LittleEndian(ws[0]) + EncodeWords(ws[1..])
  }

  function DecodeWords(b: seq<Byte>): (ws: seq<Word>)
    ensures |ws| == |b| / 4
    decreases |b|
  {
    if |b| < 4 then [] else [WordOf(b[..4])] + DecodeWords(b[4..])
  }

  lemma {:induction false} WordsRoundTrip(ws: seq<Word>)
    ensures DecodeWords(EncodeWords(ws)) == ws
    decreases |ws|
  {
    if ws != [] {
      var b := EncodeWords(ws);
      assert b[..4] == LittleEndian(ws[0]) && b[4..] == EncodeWords(ws[1..]);
      WordRoundTrip(ws[0]);
      WordsRoundTrip(ws[1..]);
    }
  }

  // -------------------------------------------------------------------- inodes

  datatype Inode = Inode(kind: Word, size: Word, blocks: seq<Word>, ctime: Word, mtime: Word, parent: Word,
      pad: seq<Byte>) {
    predicate Shaped() {
      |blocks| == DIRECT_BLOCKS
    }
  }

  function Fields(inode: Inode): (ws: seq<Word>)
    requires inode.Shaped()
    ensures |ws| == 17
  {
    [inode.kind, inode.size] + inode.blocks + [inode.ctime, inode.mtime, inode.parent]
  }

  /** The struct as it lies in memory and on disk. */
  function Encode(inode: Inode): (b: seq<Byte>)
    requires inode.Shaped()
    ensures |b| == FIELD_BYTES + |inode.pad|
  {
    EncodeWords(Fields(inode)) + inode.pad
  }

  function Decode(b: seq<Byte>): (inode: Inode)
    requires |b| >= FIELD_BYTES
    ensures inode.Shaped() && |inode.pad| == |b| - FIELD_BYTES
  {
    var ws := DecodeWords(b[..FIELD_BYTES]);
    Inode(ws[0], ws[1], ws[2..14], ws[14], ws[15], ws[16], b[FIELD_BYTES..])
  }

  lemma InodeRoundTrip(inode: Inode)
    requires inode.Shaped()
    ensures Decode(Encode(inode)) == inode
  {
    var b := Encode(inode);
    assert b[..FIELD_BYTES] == EncodeWords(Fields(inode)) && b[FIELD_BYTES..] == inode.pad;
    WordsRoundTrip(Fields(inode));
    assert Fields(inode)[2..14] == inode.blocks;
  }

  // --------------------------------------------------------------------- slots

  type Table = seq<seq<Byte>>

  predicate Sectors(table: Table) {
    forall s :: 0 <= s < |table| ==> |table[s]| == SECTOR
  }

  /** Byte offset of an inode's slot in its sector. */
  function Offset(ino: nat): nat { ino % 4 * SLOT }

  /** The inode-sized bytes at the inode's slot. */
  function ReadSlot(table: Table, ino: nat, size: nat): (b: seq<Byte>)
    requires Sectors(table) && ino / 4 < |table| && Offset(ino) + size <= SECTOR
    ensures |b| == size
  {
    table[ino / 4][Offset(ino)..Offset(ino) + size]
  }

  /** Read the sector, overwrite the bytes at the slot, write the sector back. */
  function WriteSlot(table: Table, ino: nat, bytes: seq<Byte>): (t: Table)
    requires Sectors(table) && ino / 4 < |table| && Offset(ino) + |bytes| <= SECTOR
    ensures |t| == |table| && Sectors(t)
  {
    var s := table[ino / 4];
    table[ino / 4 := s[..Offset(ino)] + bytes + s[Offset(ino) + |bytes|..]]
  }

  /** With inodes of at most 128 bytes a write changes its own slot and no other. */
  lemma SlotsIndependent(table: Table, ino: nat, bytes: seq<Byte>, ino': nat)
    requires Sectors(table) && ino / 4 < |table| && ino' / 4 < |table| && |bytes| <= SLOT
    ensures ReadSlot(WriteSlot(table, ino, bytes), ino', |bytes|) ==
            if ino' == ino then bytes else ReadSlot(table, ino', |bytes|)
  {
    var s := table[ino / 4];
    var s' := s[..Offset(ino)] + bytes + s[Offset(ino) + |bytes|..];
    if ino' == ino {
      assert s'[Offset(ino)..Offset(ino) + |bytes|] == bytes;
    } else if ino' / 4 == ino / 4 {
      assert Offset(ino') + |bytes| <= Offset(ino) || Offset(ino) + SLOT <= Offset(ino');
      assert s'[Offset(ino')..Offset(ino') + |bytes|] == s[Offset(ino')..Offset(ino') + |bytes|];
    }
  }

  /**
   With larger inodes, such as the 136 bytes the struct adds up to, writing inode 0 damages inode 1,
   and inode 3 runs past its sector.
   */
  lemma SlotsOverlap(size: nat)
    requires SLOT < size <= SECTOR - SLOT
    ensures Offset(3) + size > SECTOR
    ensures exists table: Table, bytes: seq<Byte> ::
              && |bytes| == size && |table| == 1 && Sectors(table)
              && ReadSlot(WriteSlot(table, 0, bytes), 1, size) != ReadSlot(table, 1, size)
  {
    var zero: seq<Byte> := seq(SECTOR, _ => 0);
    var one: seq<Byte> := seq(size, _ => 1);
    var table: Table := [zero];
    assert Sectors(table);
    assert ReadSlot(WriteSlot(table, 0, one), 1, size)[0] == 1;
    assert ReadSlot(table, 1, size)[0] == 0;
  }
}
