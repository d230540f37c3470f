/** The bucket object: a local depth, two bitmap bytes and fifteen slots, with the scans that
    search, removal, update and insertion perform on it. */
module BucketObject {
  import opened BitOps
  import opened Bitmaps
  import opened Buckets

  /** `temp >>= 1`. */
  method NextProbe(temp: bv8, ghost i: nat) returns (r: bv8)
    requires temp == Probe(i)
    ensures r == Probe(i + 1)
  {
    r := temp >> 1;
  }

  class Bucket {
    var localDepth: nat
    var bitmap0: bv8
    var bitmap1: bv8
    var slot: seq<KV>

    ghost function Val(): BucketVal
      reads this
    {
      BucketVal(localDepth, Bits(bitmap0, bitmap1), slot)
    }

    constructor ()
      ensures Val() == Blank()
    {
      localDepth := 0;
      bitmap0 := 0;
      bitmap1 := 0;
      slot := seq(15, i => KV(0, 0));
      FullValue();
    }

    /** `bitmap[0] == 255 && bitmap[1] == 254` says that all fifteen slots are taken. */
    method IsFull() returns (full: bool)
      requires Val().Wf()
      ensures full <==> Val().Full()
    {
      full := bitmap0 == 255 && bitmap1 == 254;
      FullBytes(bitmap0, bitmap1);
      if Val().Full() {
        assert Bits(bitmap0, bitmap1) == seq(16, i => i < 15);
      }
    }

    /** `bitmap[0] & temp` for the first eight slots, `bitmap[1] & temp` for the others. */
    method Probed(temp: bv8, s: nat) returns (live: bool)
      requires Val().Wf() && s < 15 && temp == Probe(if s < 8 then s else s - 8)
      ensures live == Val().live[s]
    {
      if s < 8 {
        live := bitmap0 & temp != 0;
        assert live == ByteBit(bitmap0, s);
      } else {
        live := bitmap1 & temp != 0;
        assert live == ByteBit(bitmap1, s - 8);
      }
    }

    /** The scan for a key, most significant bit of each byte first: slot index, or 15. */
    method FindSlot(key: uint64) returns (s: nat)
      requires Val().Wf()
      ensures s == Val().FindFrom(key, 0)
    {
      ghost var v := Val();
      var temp: bv8 := 128;
      s := 0;
      while s < 8
        invariant s <= 8 && temp == Probe(s)
        invariant v.FindFrom(key, 0) == v.FindFrom(key, s)
      {
        var live := Probed(temp, s);
        if live && slot[s].key == key {
          return;
        }
        temp := NextProbe(temp, s);
        s := s + 1;
      }
      temp := 128;
      while s < 15
        invariant 8 <= s <= 15 && temp == Probe(s - 8)
        invariant v.FindFrom(key, 0) == v.FindFrom(key, s)
      {
        var live := Probed(temp, s);
        if live && slot[s].key == key {
          return;
        }
        temp := NextProbe(temp, s - 8);
        s := s + 1;
      }
    }

    /** Claims the first free slot and returns its index, or 15 when the bucket is full. */
    method TakeFreeSlot() returns (s: nat)
      requires Val().Wf()
      modifies this
      ensures s == old(Val().FreeFrom(0))
      ensures localDepth == old(localDepth) && slot == old(slot)
      ensures Val().live == if s < 15 then old(Val().live)[s := true] else old(Val().live)
    {
      ghost var v := Val();
      var temp: bv8 := 128;
      s := 0;
      while s < 8
        invariant s <= 8 && temp == Probe(s) && Val() == v
        invariant v.FreeFrom(0) == v.FreeFrom(s)
      {
        var live := Probed(temp, s);
        if !live {
          SetBit(s);
          return;
        }
        temp := NextProbe(temp, s);
        s := s + 1;
      }
      MaskIsProbe(0);
      if temp == 0 {
        temp := 128;
        while s < 15
          invariant 8 <= s <= 15 && temp == Probe(s - 8) && Val() == v
          invariant v.FreeFrom(0) == v.FreeFrom(s)
        {
          var live := Probed(temp, s);
          if !live {
            SetBit(s);
            return;
          }
          temp := NextProbe(temp, s - 8);
          s := s + 1;
        }
      }
    }

    /** `bitmap[i] ^= (bitmap[i] & m) ^ m`. */
    method SetBit(s: nat)
      requires Val().Wf() && s < 15
      modifies this
      ensures Val() == BucketVal(old(localDepth), old(Val().live)[s := true], old(slot))
    {
      if s < 8 {
        SetFirst(bitmap0, bitmap1, s);
        bitmap0 := SetByte(bitmap0, s);
      } else {
        SetSecond(bitmap0, bitmap1, s - 8);
        bitmap1 := SetByte(bitmap1, s - 8);
      }
    }

    /** Stores a pair into the first free slot. */
    method Add(p: KV) returns (ghost s: nat)
      requires Val().Wf() && Val().FreeFrom(0) < 15
      modifies this
      ensures s == old(Val().FreeFrom(0)) && Val() == old(Val()).Put(s, p)
    {
      var free := TakeFreeSlot();
      slot := slot[free := p];
      s := free;
    }

    /** Clears the occupancy bit of slot s and leaves its contents. */
    method Clear(s: nat)
      requires Val().Wf() && s < 15
      modifies this
      ensures Val() == old(Val()).Drop(s)
    {
      if s < 8 {
        ClearFirst(bitmap0, bitmap1, s);
        bitmap0 := ClearByte(bitmap0, s);
      } else {
        ClearSecond(bitmap0, bitmap1, s - 8);
        bitmap1 := ClearByte(bitmap1, s - 8);
      }
    }

    method SetValue(s: nat, value: uint64)
      requires Val().Wf() && s < 15
      modifies this
      ensures Val() == old(Val()).Store(s, value)
    {
      slot := slot[s := KV(slot[s].key, value)];
    }
  }
}
