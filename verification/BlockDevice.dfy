/** Block pointers as their 128 raw bytes, and read_block seen from above: a device is a function from a
    pointer and a copy number to what the read of that copy does. */
module BlockDevice {
  import opened Bytes

  const BP_SIZE := 128

  type BlockPtr = bp: seq<byte> | |bp| == BP_SIZE witness seq(BP_SIZE, _ => 0)

  /** An exception, or what `read_block` returns: the block or nothing, and whether its checksum is right. */
  datatype Read = Throws | Got(data: Option<seq<byte>>, cksum: bool)

  type Vdev = (BlockPtr, nat) -> Read

  /** There are bytes; Python takes no bytes for false. */
  predicate HasData(r: Read) {
    r.Got? && r.data.Some? && r.data.value != []
  }

  predicate AllZero(s: seq<byte>) {
    forall i :: 0 <= i < |s| ==> s[i] == 0
  }

  /** An address without vdev, offset and size; its grid byte and its gang bit do not matter. */
  predicate NullDva(bp: BlockPtr, at: nat)
    requires at + 16 <= BP_SIZE
  {
    AllZero(bp[at..at + 3]) && AllZero(bp[at + 4..at + 15]) && bp[at + 15] % 128 == 0
  }

  predicate Embedded(bp: BlockPtr) {
    bp[52] >= 128
  }

  predicate Empty(bp: BlockPtr) {
    NullDva(bp, 0) && NullDva(bp, 16) && NullDva(bp, 32) && !Embedded(bp)
  }

  /** The length of the block a pointer stands for. */
  function LSize(bp: BlockPtr): nat {
    var b0: int, b1: int, b2: int, b3: int := bp[48], bp[49], bp[50], bp[51];
    if Embedded(bp) then b0 + 0x100 * b1 + 0x1_0000 * b2 + 0x100_0000 * (b3 % 2)
    else 512 * (1 + b0 + 0x100 * b1)
  }

  /** The length of what is stored for it. */
  function PSize(bp: BlockPtr): nat {
    var b2: int, b3: int := bp[50], bp[51];
    if Embedded(bp) then b3 / 2 else 512 * (1 + b2 + 0x100 * b3)
  }

  function LittleEndian(s: seq<byte>): (n: nat) {
    if s == [] then 0 else
      var low: int := s[0];
      low + 0x100 * LittleEndian(s[1..])
  }

  /** Where an address stands; there are three, and any other number means the first. */
  function DvaAt(dva: nat): (at: nat)
    ensures at + 16 <= BP_SIZE
  {
    if dva <= 2 then 16 * dva else 0
  }

  /** The byte offset of an address; an embedded pointer has none. */
  function Offset(bp: BlockPtr, dva: nat): nat {
    if Embedded(bp) then 0
    else 512 * (LittleEndian(bp[DvaAt(dva) + 8..DvaAt(dva) + 16]) % 0x8000_0000_0000_0000)
  }

  predicate Gang(bp: BlockPtr, dva: nat) {
    !Embedded(bp) && bp[DvaAt(dva) + 15] >= 128
  }

  function Compression(bp: BlockPtr): nat { bp[52] % 128 }

  function ChecksumKind(bp: BlockPtr): nat { bp[53] }

  /** The data inside an embedded pointer. */
  function EmbeddedData(bp: BlockPtr): seq<byte> {
    bp[..48] + bp[56..80] + bp[88..]
  }

  function Zeros(n: nat): seq<byte> {
    seq(n, _ => 0)
  }

  /** Pads with zero bytes, or cuts, to `size`. */
  function Normalise(data: seq<byte>, size: nat): (r: seq<byte>)
    ensures |r| == size
    ensures forall i :: 0 <= i < size ==> r[i] == if i < |data| then data[i] else 0
  {
    if |data| < size then data + Zeros(size - |data|) else data[..size]
  }
}
