/** FatZap: parsing a leaf block fills the dictionary of entries. */
module FatZaps {
  import opened Bytes
  import opened ZapLeaf

  /** What a call leaves, against what the format says. */
  ghost predicate Fills(r: Option<Entries>, ok: bool, entries: Entries) {
    (ok <==> r.Some?) && (ok ==> entries == r.value)
  }

  class FatZap {
    const decode: seq<byte> -> string
    var entries: Entries

    constructor (decode: seq<byte> -> string)
      ensures this.decode == decode && entries == map[]
    {
      this.decode, entries := decode, map[];
    }

    /** Unpacks the entry at a chunk; `limit` counts the stack frames left. */
    method UnpackEntry(arr: seq<byte>, idx: nat, limit: nat) returns (step: Step)
      ensures step == ReadChunk(arr, idx, limit)
    {
      var begin := idx * CHUNK_SIZE;
      if begin >= |arr| { return Bad; }
      if arr[begin] != LEAF_ENTRY { return Other; }
      if begin + CHUNK_SIZE > |arr| { return Bad; }
      var f := FieldsAt(arr, begin);
      var name := FollowList(arr, f.nameChunk, limit);
      if name.None? { return Bad; }
      var value := FollowList(arr, f.valueChunk, limit);
      if value.None? { return Bad; }
      return Leads(Take(name.value, f.nameLength - 1), Take(value.value, f.valueLength * f.intSize), f.next);
    }

    /** False is an exception. */
    method FollowCollisionChain(arr: seq<byte>, idx: nat, limit: nat) returns (ok: bool)
      modifies `entries
      ensures Fills(FollowChain(arr, idx, limit, decode, old(entries)), ok, entries) == true
      decreases limit
    {
      if limit == 0 { return false; }
      ghost var m := entries;
      var step := UnpackEntry(arr, idx, limit - 1);
      FollowsEntry(arr, idx, limit, decode, m);
      if step.Bad? { return false; }
      ok := true;
      if step.Leads? {
        var value := if |step.value| != 8 then Raw(step.value) else Word(BigEndian(step.value));
        entries := entries[decode(step.name) := value];
        if step.next != NO_CHUNK {
          ok := FollowCollisionChain(arr, step.next, limit - 1);
        }
      }
    }

    method ParseZapBlock(data: seq<byte>, limit: nat) returns (ok: bool)
      modifies `entries
      ensures Fills(ParseBlock(data, limit, decode, old(entries)), ok, entries)
    {
      if |data| < CHUNKS { return false; }
      ghost var whole := FollowSlots(data, 0, limit, decode, entries);
      for i := 0 to SLOTS
        invariant whole == FollowSlots(data, i, limit, decode, entries)
      {
        var c := Half(data, TABLE + 2 * i);
        if c != NO_CHUNK {
          ok := FollowCollisionChain(data[CHUNKS..], c, limit);
          if !ok { return false; }
        }
      }
      return true;
    }
  }
}
