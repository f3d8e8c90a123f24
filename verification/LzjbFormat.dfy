/** The LZJB stream: items grouped by eight under a byte of flags, and what decoding makes of them. */
module LzjbFormat {
  import opened Bytes
  import opened Copies

  const MATCH_MIN := 3
  const MATCH_MAX := 66
  const LEMPEL_SIZE := 1024

  datatype Item = Literal(b: byte) | Copy(length: nat, offset: nat)

  /** What a compressor emits: items, and at the end either success or an exception. */
  datatype Items = Done | Crash | Emit(first: Item, rest: Items)

  predicate Finishes(items: Items) {
    items.Done? || (items.Emit? && Finishes(items.rest))
  }

  /** A copy fits its fields: six bits of length, ten bits of offset. */
  predicate Fits(item: Item) {
    item.Copy? ==> 3 <= item.length <= 66 && 1 <= item.offset < 1024
  }

  predicate AllFit(items: Items) {
    items.Emit? ==> Fits(items.first) && AllFit(items.rest)
  }

  // ----- meaning -----

  function Apply(dst: seq<byte>, item: Item): (r: seq<byte>)
    requires item.Copy? ==> 1 <= item.offset <= |dst|
    ensures |r| == |dst| + Size(item) && dst <= r
  {
    match item
    case Literal(b) => dst + [b]
    case Copy(length, offset) =>
      CopyBackLength(dst, offset, length);
      CopyBack(dst, offset, length)
  }

  function Size(item: Item): nat {
    if item.Copy? then item.length else 1
  }

  predicate InRange(items: Items, n: nat) {
    items.Emit? ==> (items.first.Copy? ==> 1 <= items.first.offset <= n) && InRange(items.rest, n + Size(items.first))
  }

  function Expand(dst: seq<byte>, items: Items): (r: seq<byte>)
    requires InRange(items, |dst|)
    ensures dst <= r
    decreases items
  {
    if items.Emit? then Expand(Apply(dst, items.first), items.rest) else dst
  }

  // ----- bytes -----

  /** The flags of the items still to come under a flag byte whose first `k` bits are spoken for,
      moved down to bit 0. */
  function Flags(items: Items, k: nat): (f: nat)
    requires k <= 8
    ensures f < Pow2(8 - k)
    decreases 8 - k
  {
    if k == 8 || !items.Emit? then 0
    else (if items.first.Copy? then 1 else 0) + 2 * Flags(items.rest, k + 1)
  }

  lemma Pow2Eight()
    ensures Pow2(8) == 256
  {
    assert Pow2(4) == 16;
    assert Pow2(6) == 64;
  }

  function FlagByte(items: Items): byte {
    Pow2Eight();
    Flags(items, 0)
  }

  function ItemBytes(item: Item): (s: seq<byte>)
    requires Fits(item)
    ensures |s| == if item.Copy? then 2 else 1
  {
    match item
    case Literal(b) => [b]
    case Copy(length, offset) => [(length - 3) * 4 + offset / 256, offset % 256]
  }

  /** The bytes of the items when the current flag byte has room for `8 - k` of them (none is there yet
      if `k` is 0), followed by `tail`. */
  function Pack(items: Items, k: nat, tail: seq<byte>): seq<byte>
    requires k < 8 && AllFit(items)
    decreases items, 1
  {
    if !items.Emit? then tail
    else if k == 0 then [FlagByte(items)] + FromItem(items, k, tail)
    else FromItem(items, k, tail)
  }

  function FromItem(items: Items, k: nat, tail: seq<byte>): seq<byte>
    requires k < 8 && items.Emit? && AllFit(items)
    decreases items, 0
  {
    ItemBytes(items.first) + Pack(items.rest, (k + 1) % 8, tail)
  }

  lemma {:induction false} PackTail(items: Items, k: nat, tail: seq<byte>)
    requires k < 8 && AllFit(items)
    ensures Pack(items, k, tail) == Pack(items, k, []) + tail
    decreases items
  {
    if items.Emit? {
      PackTail(items.rest, (k + 1) % 8, tail);
      assert FromItem(items, k, tail) == FromItem(items, k, []) + tail;
    }
  }

  /** How many source bytes the items stand for. */
  function TotalSize(items: Items): nat {
    if items.Emit? then Size(items.first) + TotalSize(items.rest) else 0
  }

  function Ceil8(n: nat): nat { (n + 7) / 8 }

  /** Packing adds at most one byte for every eight. */
  lemma {:induction false} PackBound(items: Items, k: nat)
    requires k < 8 && AllFit(items)
    ensures |Pack(items, k, [])|
      <= TotalSize(items) + if k == 0 then Ceil8(TotalSize(items)) else Ceil8(TotalSize(items) + k) - 1
    decreases items
  {
    if items.Emit? {
      PackBound(items.rest, (k + 1) % 8);
    }
  }
}
