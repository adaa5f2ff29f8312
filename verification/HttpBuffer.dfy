/** The growable, always NUL-terminated output buffer of src/http.c. */
module HttpBuffer {
  import opened Bytes

  /** 256 doubled k times. */
  function Doubled(k: nat): (r: nat)
    ensures r >= 0x100
  {
    if k == 0 then 0x100 else 2 * Doubled(k - 1)
  }

  /** The capacities the doubling loop can produce. */
  ghost predicate IsCapacity(cap: nat) {
    cap == 0 || exists k: nat :: cap == Doubled(k)
  }

  /** Growth is at most twofold: no capacity is larger than it has to be. */
  ghost predicate Tight(cap: nat, need: nat) {
    cap <= 0x100 || cap < 2 * need
  }

  class Buffer {
    var data: array<byte>
    var len: nat

    /** The capacity `cap` of the source is `data.Length`; 0 stands for a null `data`. */
    ghost predicate Valid()
      reads this, data
    {
      && IsCapacity(data.Length)
      && Tight(data.Length, len + 1)
      && data.Length <= SIZE_MAX
      && (data.Length == 0 ==> len == 0)
      && (data.Length != 0 ==> len < data.Length && data[len] == NUL)
    }

    ghost function Contents(): Text
      reads this, data
      requires Valid()
    {
      data[..len]
    }

    constructor ()
      ensures Valid() && fresh(data) && Contents() == []
    {
      data := new byte[0];
      len := 0;
    }

    /** Grows the capacity to at least `need`, keeping the bytes. */
    method Reserve(need: nat, heap: Heap) returns (ok: bool)
      requires Valid() && len < need <= SIZE_MAX
      modifies this`data, heap
      ensures data == old(data) || fresh(data)
      ensures !ok ==> data == old(data)
      ensures !ok ==> heap.failed || need > 0x8000_0000_0000_0000
      ensures ok ==> heap.failed == old(heap.failed)
      ensures old(heap.failed) ==> heap.failed
      ensures ok ==> need <= data.Length <= SIZE_MAX && IsCapacity(data.Length)
      ensures ok ==> data == old(data) || Tight(data.Length, need)
      ensures ok && old(data.Length) == 0 && need <= 256 ==> data.Length == 256
      ensures ok ==> len <= data.Length && data[..len] == old(data[..len])
    {
      if data.Length >= need {
        return true;
      }
      var newCap := if data.Length == 0 then 0x100 else data.Length;
      assert newCap == Doubled(0) || IsCapacity(data.Length);
      ghost var k: nat :| newCap == Doubled(k);
      while newCap < need
        invariant newCap == Doubled(k) && newCap <= SIZE_MAX
        invariant newCap <= 0x100 || newCap == data.Length || newCap < 2 * need
        invariant newCap < need || newCap <= 0x100 || newCap < 2 * need
        decreases need - newCap
      {
        if newCap > SIZE_MAX / 2 {
          return false;
        }
        newCap := newCap * 2;
        k := k + 1;
      }
      var granted := heap.Request();
      if !granted {
        return false;
      }
      var newData := new byte[newCap];
      var i := 0;
      while i < len
        invariant 0 <= i <= len
        invariant newData[..i] == data[..i]
        modifies newData
      {
        newData[i] := data[i];
        i := i + 1;
      }
      data := newData;
      return true;
    }

    /** The copy of `http_buf_append`, behind the bytes already there. */
    method Fill(bytes: Text)
      requires len + |bytes| <= data.Length
      modifies data
      ensures data[..len + |bytes|] == old(data[..len]) + bytes
    {
      var i := 0;
      while i < |bytes|
        invariant 0 <= i <= |bytes|
        invariant data[..len] == old(data[..len])
        invariant data[len..len + i] == bytes[..i]
        modifies data
      {
        data[len + i] := bytes[i];
        assert data[len..len + i + 1] == data[len..len + i] + [bytes[i]];
        assert bytes[..i + 1] == bytes[..i] + [bytes[i]];
        i := i + 1;
      }
      assert bytes[..i] == bytes;
      assert data[..len + |bytes|] == data[..len] + data[len..len + |bytes|];
    }

    method Append(bytes: Text, heap: Heap) returns (ok: bool)
      requires Valid() && len + |bytes| + 1 <= SIZE_MAX
      modifies this, data, heap
      ensures Valid() && (data == old(data) || fresh(data))
      ensures Contents() == if ok then old(Contents()) + bytes else old(Contents())
      ensures !ok ==> heap.failed || old(len) + |bytes| + 1 > 0x8000_0000_0000_0000
      ensures ok ==> heap.failed == old(heap.failed)
      ensures old(heap.failed) ==> heap.failed
    {
      hide IsCapacity;
      ghost var before := Contents();
      ok := Reserve(len + |bytes| + 1, heap);
      if !ok {
        return;
      }
      Fill(bytes);
      ghost var filled := data[..];
      len := len + |bytes|;
      data[len] := NUL;
      assert data[..len] == filled[..len] == before + bytes;
    }
  }
}
