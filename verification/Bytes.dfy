/** Bytes, little-endian words and the option type shared by the other modules. */
module Bytes {

  type Byte = b: int | 0 <= b < 256

  datatype Option<+T> = None | Some(value: T)

  /** The little-endian word of `n` bytes at offset `o`, as the host reads it through a cast pointer. */
  function Word(mem: seq<Byte>, o: nat, n: nat): (w: nat)
    requires o + n <= |mem|
    decreases n
  {
    if n == 0 then 0 else mem[o] + 256 * Word(mem, o + 1, n - 1)
  }

  /** The 16-bit word at offset `o`, without the recursion. */
  function Half(mem: seq<Byte>, o: nat): (h: nat)
    requires o + 2 <= |mem|
    ensures h < 65536
  {
    var high: nat := mem[o + 1];
    mem[o] + 256 * high
  }

  lemma HalfIsWord(mem: seq<Byte>, o: nat)
    requires o + 2 <= |mem|
    ensures Half(mem, o) == Word(mem, o, 2)
  {
    assert Word(mem, o + 1, 1) == mem[o + 1] + 256 * Word(mem, o + 2, 0);
  }

  /** The `n` little-endian bytes that store `v`. */
  function Put(v: nat, n: nat): (bytes: seq<Byte>)
    ensures |bytes| == n
  {
    if n == 0 then [] else [v % 256] + Put(v / 256, n - 1)
  }

  function Exp256(n: nat): (r: nat)
    ensures r >= 1
  {
    if n == 0 then 1 else 256 * Exp256(n - 1)
  }

  /** A word depends only on its own bytes. */
  lemma {:induction false} WordFrame(mem: seq<Byte>, o: nat, other: seq<Byte>, p: nat, n: nat)
    requires o + n <= |mem| && p + n <= |other|
    requires mem[o..o + n] == other[p..p + n]
    ensures Word(mem, o, n) == Word(other, p, n)
    decreases n
  {
    if n == 0 {
    } else {
      assert mem[o] == mem[o..o + n][0] == other[p..p + n][0] == other[p];
      assert mem[o + 1..o + 1 + (n - 1)] == mem[o..o + n][1..];
      assert other[p + 1..p + 1 + (n - 1)] == other[p..p + n][1..];
      WordFrame(mem, o + 1, other, p + 1, n - 1);
    }
  }

  /** Storing and reading back is the identity on every value that fits. */
  lemma {:induction false} WordOfPut(v: nat, n: nat)
    requires v < Exp256(n)
    ensures Word(Put(v, n), 0, n) == v
  {
    if n == 0 {
    } else {
      WordOfPut(v / 256, n - 1);
      WordFrame(Put(v, n), 1, Put(v / 256, n - 1), 0, n - 1);
    }
  }

  /** A word stored anywhere in memory reads back as its value. */
  lemma WordAt(mem: seq<Byte>, o: nat, v: nat, n: nat)
    requires o + n <= |mem| && v < Exp256(n)
    requires mem[o..o + n] == Put(v, n)
    ensures Word(mem, o, n) == v
  {
    assert Put(v, n)[0..n] == Put(v, n);
    WordFrame(mem, o, Put(v, n), 0, n);
    WordOfPut(v, n);
  }
}
