/** Bytes and little-endian 32-bit words: how a region header lies in the managed memory. */
module Words {

  /** One more than the largest `unsigned long` of the 32-bit target. */
  const WORD: nat := 0x1_0000_0000

  newtype byte = x: int | 0 <= x < 256

  type ulong = x: int | 0 <= x < WORD

  /** Unsigned addition and subtraction wrap around. */
  function Add(a: ulong, b: ulong): ulong { (a + b) % WORD }

  function Sub(a: ulong, b: ulong): ulong { (a - b) % WORD }

  function Load(s: seq<byte>, off: nat): ulong
    requires off + 4 <= |s|
  {
    s[off] as int + 0x100 * s[off + 1] as int + 0x1_0000 * s[off + 2] as int + 0x100_0000 * s[off + 3] as int
  }

  function Store(s: seq<byte>, off: nat, w: ulong): (r: seq<byte>)
    requires off + 4 <= |s|
    ensures |r| == |s|
    ensures forall i | 0 <= i < |s| && !(off <= i < off + 4) :: r[i] == s[i]
  {
    s[off := (w % 0x100) as byte]
     [off + 1 := (w / 0x100 % 0x100) as byte]
     [off + 2 := (w / 0x100 / 0x100 % 0x100) as byte]
     [off + 3 := (w / 0x100 / 0x100 / 0x100) as byte]
  }

  lemma Digits(w: ulong)
    ensures w == w % 0x100 + 0x100 * (w / 0x100 % 0x100) + 0x1_0000 * (w / 0x100 / 0x100 % 0x100)
                 + 0x100_0000 * (w / 0x100 / 0x100 / 0x100)
  {
    var a := w / 0x100;
    var b := a / 0x100;
    assert w == 0x100 * a + w % 0x100 && a == 0x100 * b + a % 0x100 && b == 0x100 * (b / 0x100) + b % 0x100;
  }

  lemma LoadStoreSame(s: seq<byte>, off: nat, w: ulong)
    requires off + 4 <= |s|
    ensures Load(Store(s, off, w), off) == w
  {
    Digits(w);
  }

  lemma LoadStoreOther(s: seq<byte>, off: nat, w: ulong, at: nat)
    requires off + 4 <= |s| && at + 4 <= |s|
    requires at + 4 <= off || off + 4 <= at
    ensures Load(Store(s, off, w), at) == Load(s, at)
  {
  }
}
