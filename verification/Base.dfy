/** Types and small functions that the kernel's components share. */
module Base {
  type Byte = b: int | 0 <= b < 256

  datatype Option<+T> = None | Some(value: T)

  /** BLOCK_SECTOR_SIZE: the unit of transfer to a block device. */
  const SECTOR_SIZE := 512

  /** PGSIZE: the unit of virtual memory. */
  const PAGE_SIZE := 4096

  /** `data` with the bytes from `ofs` on overwritten by `bytes` (a memcpy into it). */
  function Splice<T>(data: seq<T>, ofs: nat, bytes: seq<T>): (r: seq<T>)
    requires ofs + |bytes| <= |data|
    ensures |r| == |data|
    ensures forall i :: 0 <= i < |data| ==> r[i] == if ofs <= i < ofs + |bytes| then bytes[i - ofs] else data[i]
  {
    data[..ofs] + bytes + data[ofs + |bytes|..]
  }

  function Min(a: int, b: int): int {
    if a < b then a else b
  }

  function Max(a: int, b: int): int {
    if a < b then b else a
  }

  /** The `n` bytes of a number, least significant first. */
  function Little(v: nat, n: nat): (b: seq<Byte>)
    ensures |b| == n
  {
    if n == 0 then [] else [v % 0x100] + Little(v / 0x100, n - 1)
  }

  function Value(b: seq<Byte>): nat {
    if b == [] then 0 else (b[0] as int) + 0x100 * Value(b[1..])
  }

  /** How many numbers `n` bytes can tell apart. */
  function Limit(n: nat): nat {
    if n == 0 then 1 else 0x100 * Limit(n - 1)
  }

  lemma {:induction false} LittleValue(v: nat, n: nat)
    requires v < Limit(n)
    ensures Value(Little(v, n)) == v
  {
    if n == 0 {
    } else {
      LittleValue(v / 0x100, n - 1);
      assert Little(v, n)[1..] == Little(v / 0x100, n - 1);
    }
  }
}
