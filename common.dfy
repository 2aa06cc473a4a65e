/** Shared vocabulary: guest bytes, the 32-bit guest integer width and
    the "write a run of bytes into memory" operation that every copy into
    guest memory performs. */
module Common {

  /** One byte of guest memory, or of a host string. */
  type Bytes = seq<bv8>

  /** The guest (an N64 program) is 32-bit: `u32`, `size_t` and
      `unsigned long` all wrap at this bound, and every integer the host
      returns through the ABI is narrowed to it. */
  const U32_LIMIT: nat := 0x1_0000_0000

  /** Narrowing of a host integer to the guest's 32-bit return register. */
  function U32(n: nat): (r: nat)
    ensures r < U32_LIMIT && r <= n
    ensures n < U32_LIMIT ==> r == n
  {
    n % U32_LIMIT
  }

  /** The directory separator the loader writes and strips: '/'. */
  const SLASH: bv8 := 0x2F

  /** The C string terminator. */
  const NUL: bv8 := 0

  function Min(a: nat, b: nat): (r: nat)
    ensures r <= a && r <= b && (r == a || r == b)
  {
    if a < b then a else b
  }

  /** Memory `mem` after `data` has been stored byte by byte from index
      `at` on: the bytes in `[at, at + |data|)` are `data`, all others are
      as before. */
  function Splice(mem: Bytes, at: nat, data: Bytes): (r: Bytes)
    requires at + |data| <= |mem|
    ensures |r| == |mem|
    ensures r[at..at + |data|] == data
    ensures forall k :: 0 <= k < |mem| && !(at <= k < at + |data|) ==> r[k] == mem[k]
  {
    mem[..at] + data + mem[at + |data|..]
  }

  /** Storing one more byte right after a stored run extends the run. */
  lemma SpliceStep(mem: Bytes, at: nat, data: Bytes, x: bv8)
    requires at + |data| < |mem|
    ensures Splice(mem, at, data + [x]) == Splice(mem, at, data)[at + |data| := x]
  {
    assert Splice(mem, at, data + [x]) == mem[..at] + data + [x] + mem[at + |data| + 1..];
  }
}
