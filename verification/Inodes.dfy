/**
 Reading and writing files in filesys/inode.c.  The disk under the buffer cache is an array
 of sectors; a file is the flat array of bytes that its inode selects from them.
 */
module Inodes {
  import opened Base
  import opened FileSys

  type Sector = s: seq<Byte> | |s| == SECTOR_SIZE witness seq(SECTOR_SIZE, _ => 0)

  /** The file's sectors are sectors of the disk. */
  predicate Fits(sectors: seq<Sector>, d: DiskInode) {
    d.start + Sectors(d.length) <= |sectors|
  }

  /** `byte_to_sector` of a position in the file. */
  function SectorOf(d: DiskInode, pos: nat): (s: nat)
    ensures pos < d.length ==> Owns(d, s)
  {
    d.start + pos / SECTOR_SIZE
  }

  /** The file as a flat array of bytes. */
  ghost function Data(sectors: seq<Sector>, d: DiskInode): (b: seq<Byte>)
    requires Fits(sectors, d)
    ensures |b| == d.length && forall i :: 0 <= i < d.length ==> b[i] == sectors[SectorOf(d, i)][i % SECTOR_SIZE]
  {
    seq(d.length, i requires 0 <= i < d.length => sectors[SectorOf(d, i)][i % SECTOR_SIZE])
  }

  /** The bytes that a transfer of `size` bytes at `offset` moves. */
  function Moves(length: nat, size: nat, offset: nat): nat {
    Min(size, Max(0, length - offset))
  }

  /** A chunk of one sector is a slice of the file. */
  lemma ChunkIsSlice(sectors: seq<Sector>, d: DiskInode, pos: nat, n: nat)
    requires Fits(sectors, d) && pos + n <= d.length && pos % SECTOR_SIZE + n <= SECTOR_SIZE && n > 0
    ensures SectorOf(d, pos) < |sectors|
    ensures sectors[SectorOf(d, pos)][pos % SECTOR_SIZE..pos % SECTOR_SIZE + n] == Data(sectors, d)[pos..pos + n]
  {
    var chunk := sectors[SectorOf(d, pos)][pos % SECTOR_SIZE..pos % SECTOR_SIZE + n];
    forall i | 0 <= i < n ensures chunk[i] == Data(sectors, d)[pos + i] {
      assert (pos + i) / SECTOR_SIZE == pos / SECTOR_SIZE && (pos + i) % SECTOR_SIZE == pos % SECTOR_SIZE + i;
    }
  }

  /** The disk after `bytes` have gone into one sector of a file. */
  function Put(sectors: seq<Sector>, d: DiskInode, pos: nat, bytes: seq<Byte>): seq<Sector>
    requires SectorOf(d, pos) < |sectors| && pos % SECTOR_SIZE + |bytes| <= SECTOR_SIZE
  {
    var s := SectorOf(d, pos);
    sectors[s := Splice(sectors[s], pos % SECTOR_SIZE, bytes)]
  }

  /** It is a slice of the file that changed, */
  lemma PutIsSplice(sectors: seq<Sector>, d: DiskInode, pos: nat, bytes: seq<Byte>)
    requires Fits(sectors, d) && pos + |bytes| <= d.length && pos % SECTOR_SIZE + |bytes| <= SECTOR_SIZE && bytes != []
    ensures SectorOf(d, pos) < |sectors| && Fits(Put(sectors, d, pos, bytes), d)
    ensures Data(Put(sectors, d, pos, bytes), d) == Splice(Data(sectors, d), pos, bytes)
  {
    var sectors' := Put(sectors, d, pos, bytes);
    forall i | 0 <= i < d.length ensures Data(sectors', d)[i] == Splice(Data(sectors, d), pos, bytes)[i] {
      if i / SECTOR_SIZE == pos / SECTOR_SIZE {
        assert i - pos == i % SECTOR_SIZE - pos % SECTOR_SIZE;
      }
    }
  }

  /** and nothing of a file that shares no sector with the written one. */
  lemma WriteElsewhere(sectors: seq<Sector>, sectors': seq<Sector>, d: DiskInode, e: DiskInode)
    requires |sectors'| == |sectors| && Fits(sectors, e) && forall s: nat :: !(Owns(d, s) && Owns(e, s))
    requires forall s :: 0 <= s < |sectors| && !Owns(d, s) ==> sectors'[s] == sectors[s]
    ensures Data(sectors', e) == Data(sectors, e)
  {
    forall i | 0 <= i < e.length ensures sectors'[SectorOf(e, i)] == sectors[SectorOf(e, i)] {
      assert Owns(e, SectorOf(e, i));
    }
  }

  /** The bytes to move within one sector: of those asked for, no more than the file and the
      sector have left. */
  function Chunk(length: nat, left: nat, pos: nat): (n: int)
    requires left > 0
    ensures n <= left && n <= length - pos && n <= SECTOR_SIZE - pos % SECTOR_SIZE
    ensures n <= 0 <==> pos >= length
  {
    var inodeLeft, sectorLeft := length - pos, SECTOR_SIZE - pos % SECTOR_SIZE;
    var minLeft := if inodeLeft < sectorLeft then inodeLeft else sectorLeft;
    if left < minLeft then left else minLeft
  }

  /** The file after the first `n` bytes of `buffer` have been written at `offset`. */
  ghost function Written(was: seq<Byte>, buffer: seq<Byte>, offset: nat, n: nat): seq<Byte>
    requires n <= |buffer| && (n > 0 ==> offset + n <= |was|)
  {
    if n == 0 then was else Splice(was, offset, buffer[..n])
  }

  lemma WriteOn(was: seq<Byte>, buffer: seq<Byte>, offset: nat, n: nat, w: seq<Byte>, pos: nat, bytes: seq<Byte>)
    requires n + |bytes| <= |buffer| && pos == offset + n && pos + |bytes| <= |was| && bytes != []
    requires bytes == buffer[n..n + |bytes|] && w == Written(was, buffer, offset, n)
    ensures Splice(w, pos, bytes) == Written(was, buffer, offset, n + |bytes|)
  {
  }

  /** One more chunk of a write. */
  lemma PutOn(sectors: seq<Sector>, d: DiskInode, was: seq<Byte>, buffer: seq<Byte>, offset: nat, n: nat,
              pos: nat, bytes: seq<Byte>)
    requires Fits(sectors, d) && |was| == d.length && pos == offset + n && n + |bytes| <= |buffer|
    requires pos + |bytes| <= d.length && bytes != []
    requires bytes == buffer[n..n + |bytes|] && pos % SECTOR_SIZE + |bytes| <= SECTOR_SIZE
    requires Data(sectors, d) == Written(was, buffer, offset, n)
    ensures SectorOf(d, pos) < |sectors| && Owns(d, SectorOf(d, pos)) && Fits(Put(sectors, d, pos, bytes), d)
    ensures Data(Put(sectors, d, pos, bytes), d) == Written(was, buffer, offset, n + |bytes|)
  {
    PutIsSplice(sectors, d, pos, bytes);
    WriteOn(was, buffer, offset, n, Data(sectors, d), pos, bytes);
  }

  /** A write has got through the first `n` bytes of its buffer. */
  ghost predicate Progress(was: seq<Sector>, now: seq<Sector>, d: DiskInode, buffer: seq<Byte>, offset: nat, n: nat) {
    && Fits(was, d) && |now| == |was| && n <= |buffer| && (n > 0 ==> offset + n <= d.length)
    && Data(now, d) == Written(Data(was, d), buffer, offset, n)
    && forall s :: 0 <= s < |now| && !Owns(d, s) ==> now[s] == was[s]
  }

  lemma ProgressOn(was: seq<Sector>, now: seq<Sector>, d: DiskInode, buffer: seq<Byte>, offset: nat, n: nat,
                   pos: nat, bytes: seq<Byte>)
    requires Progress(was, now, d, buffer, offset, n) && pos == offset + n && n + |bytes| <= |buffer|
    requires pos + |bytes| <= d.length && bytes != []
    requires bytes == buffer[n..n + |bytes|] && pos % SECTOR_SIZE + |bytes| <= SECTOR_SIZE
    ensures SectorOf(d, pos) < |now| && Progress(was, Put(now, d, pos, bytes), d, buffer, offset, n + |bytes|)
  {
    PutOn(now, d, Data(was, d), buffer, offset, n, pos, bytes);
  }

  /** What was written is read back: a read of the written range returns the buffer's bytes,
      and one apart from it returns what was there before. */
  lemma ReadBack(was: seq<Byte>, buffer: seq<Byte>, offset: nat, from: nat, to: nat)
    requires from <= to <= |was|
    ensures var n := Moves(|was|, |buffer|, offset); var now := Written(was, buffer, offset, n);
            && (n > 0 ==> now[offset..offset + n] == buffer[..n])
            && (to <= offset || offset + n <= from ==> now[from..to] == was[from..to])
  {
  }

  /** The bytes read so far are the file's from `offset` up to `pos`. */
  ghost predicate Gathered(all: seq<Byte>, buffer: seq<Byte>, offset: nat, pos: nat) {
    pos == offset + |buffer| && (|buffer| > 0 ==> pos <= |all| && buffer == all[offset..pos])
  }

  lemma ReadOn(all: seq<Byte>, buffer: seq<Byte>, offset: nat, pos: nat, n: nat)
    requires Gathered(all, buffer, offset, pos) && pos + n <= |all| && n > 0
    ensures Gathered(all, buffer + all[pos..pos + n], offset, pos + n)
  {
    assert all[offset..pos + n] == all[offset..pos] + all[pos..pos + n];
  }

  const INODE_MAGIC := 0x494e4f44

  function Blank(): Sector {
    seq(SECTOR_SIZE, _ => 0)
  }

  /** `struct inode_disk` as it lies in its sector. */
  function HeaderBytes(d: DiskInode): Sector {
    Little(d.start, 4) + Little(d.length, 4) + Little(INODE_MAGIC, 4) + Blank()[12..]
  }

  /** The inode that `inode_open` reads from a sector. */
  function ReadHeader(s: Sector): DiskInode {
    DiskInode(Value(s[..4]), Value(s[4..8]))
  }

  /** An inode is read back as it was written, if its numbers have 32 bits. */
  lemma HeaderReads(d: DiskInode)
    requires d.start < 0x1_0000_0000 && d.length < 0x1_0000_0000
    ensures ReadHeader(HeaderBytes(d)) == d
  {
    assert Limit(4) == 0x1_0000_0000 by { assert Limit(2) == 0x1_0000; }
    LittleValue(d.start, 4);
    LittleValue(d.length, 4);
    assert HeaderBytes(d)[..4] == Little(d.start, 4) && HeaderBytes(d)[4..8] == Little(d.length, 4);
  }

  /** Sector `i` after `inode_create` of inode `d` with header `h`. */
  function AfterCreate(was: seq<Sector>, h: nat, d: DiskInode, i: nat): Sector
    requires i < |was|
  {
    if i == h then HeaderBytes(d) else if Owns(d, i) then Blank() else was[i]
  }

  /** The disk, as the buffer cache presents it, and one open inode on it. */
  class File {
    const data: DiskInode
    var sectors: seq<Sector>
    var denyWriteCnt: nat

    ghost predicate Valid()
      reads this
    {
      Fits(sectors, data)
    }

    constructor (d: DiskInode, disk: seq<Sector>)
      requires Fits(disk, d)
      ensures Valid() && data == d && sectors == disk && denyWriteCnt == 0
    {
      data, sectors, denyWriteCnt := d, disk, 0;
    }

    /** The part of `inode_create` that clears the new file. */
    method Clear()
      requires Valid()
      modifies this`sectors
      ensures Valid() && |sectors| == |old(sectors)|
      ensures forall i :: 0 <= i < data.length ==> Data(sectors, data)[i] == 0
      ensures forall s :: 0 <= s < |sectors| ==> sectors[s] == if Owns(data, s) then Blank() else old(sectors)[s]
    {
      for i := 0 to Sectors(data.length)
        invariant Valid() && |sectors| == |old(sectors)|
        invariant forall s :: 0 <= s < |sectors| ==>
                    sectors[s] == if data.start <= s < data.start + i then Blank() else old(sectors)[s]
      {
        sectors := sectors[data.start + i := Blank()];
      }
      forall i | 0 <= i < data.length ensures sectors[SectorOf(data, i)] == Blank() {
        assert Owns(data, SectorOf(data, i));
      }
    }

    /** What `inode_create` writes: the header, and zeros for the data. */
    method WriteNew(h: nat)
      requires Valid() && h < |sectors| && !Owns(data, h)
      modifies this`sectors
      ensures Valid() && |sectors| == |old(sectors)|
      ensures forall i :: 0 <= i < |sectors| ==> sectors[i] == AfterCreate(old(sectors), h, data, i)
    {
      sectors := sectors[h := HeaderBytes(data)];
      Clear();
    }

    /** `inode_read_at` */
    method ReadAt(size: nat, offset: nat) returns (buffer: seq<Byte>)
      requires Valid()
      ensures |buffer| == Moves(data.length, size, offset)
      ensures |buffer| > 0 ==> buffer == Data(sectors, data)[offset..offset + |buffer|]
    {
      buffer := [];
      var left, pos := size, offset;
      ghost var all := Data(sectors, data);
      while left > 0
        invariant left >= 0 && pos == offset + |buffer| && left == size - |buffer|
        invariant Gathered(all, buffer, offset, pos)
      {
        var n := Chunk(data.length, left, pos);
        if n <= 0 { break; }
        ChunkIsSlice(sectors, data, pos, n);
        ReadOn(all, buffer, offset, pos, n);
        buffer := buffer + sectors[SectorOf(data, pos)][pos % SECTOR_SIZE..pos % SECTOR_SIZE + n];
        left, pos := left - n, pos + n;
      }
    }

    /** The bytes of one sector in `inode_write_at`. */
    method WriteChunk(ghost was: seq<Sector>, buffer: seq<Byte>, offset: nat, written: nat, pos: nat, n: nat)
      requires Progress(was, sectors, data, buffer, offset, written) && pos == offset + written
      requires 0 < n <= data.length - pos && n <= |buffer| - written && n <= SECTOR_SIZE - pos % SECTOR_SIZE
      modifies this`sectors
      ensures Progress(was, sectors, data, buffer, offset, written + n)
    {
      var bytes := buffer[written..written + n];
      ProgressOn(was, sectors, data, buffer, offset, written, pos, bytes);
      sectors := Put(sectors, data, pos, bytes);
    }

    /** `inode_write_at`; an inode that is denied writing takes nothing. */
    method WriteAt(buffer: seq<Byte>, offset: nat) returns (written: nat)
      requires Valid()
      modifies this`sectors
      ensures Valid() && |sectors| == |old(sectors)|
      ensures written == if denyWriteCnt > 0 then 0 else Moves(data.length, |buffer|, offset)
      ensures Data(sectors, data) == Written(Data(old(sectors), data), buffer, offset, written)
      ensures forall s :: 0 <= s < |sectors| && !Owns(data, s) ==> sectors[s] == old(sectors)[s]
    {
      written := 0;
      if denyWriteCnt > 0 { return; }
      var left, pos := |buffer|, offset;
      while left > 0
        invariant Progress(old(sectors), sectors, data, buffer, offset, written)
        invariant left == |buffer| - written && pos == offset + written
      {
        var n := Chunk(data.length, left, pos);
        if n <= 0 { break; }
        WriteChunk(old(sectors), buffer, offset, written, pos, n);
        left, pos, written := left - n, pos + n, written + n;
      }
    }
  }
}
