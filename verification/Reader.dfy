/** The pb_reader_t cursor. Each operation is proved against the wire functions of `Wire`. */
module Reading {
  import opened Bytes
  import opened Wire

  class Reader {
    const data: bytes
    var pos: nat
    const end: nat

    ghost predicate Valid()
      reads this
    {
      pos <= end <= |data|
    }

    /** The bytes not consumed yet. */
    ghost function Rest(): bytes
      requires Valid()
      reads this
    {
      data[pos..end]
    }

    constructor (data: bytes, from: nat, end: nat)
      requires from <= end <= |data|
      ensures this.data == data && this.pos == from && this.end == end
      ensures Valid() && Rest() == data[from..end]
    {
      this.data, this.pos, this.end := data, from, end;
    }

    method Varint() returns (ok: bool, value: u64)
      requires Valid()
      modifies this
      ensures Valid() && pos >= old(pos)
      ensures ok <==> ReadVarint(old(Rest())).Some?
      ensures ok ==> value == ReadVarint(old(Rest())).value.0
      ensures ok ==> Rest() == old(Rest())[ReadVarint(old(Rest())).value.1..]
    {
      hide Word, ReadPayload, ReadTag;
      ghost var s := Rest();
      value := 0;
      var scale: nat := 1; // 1 << shift
      for i := 0 to VARINT_MAX_BYTES
        invariant Valid() && pos == old(pos) + i && i <= |s|
        invariant forall k :: 0 <= k < i ==> s[k] >= 128
        invariant scale == Pow128(i)
        invariant value == Groups(s[..i]) % TWO64
      {
        if pos >= end {
          NoVarint(s, VARINT_MAX_BYTES);
          return false, 0;
        }
        var b := data[pos];
        pos := pos + 1;
        // The new group's bits are disjoint from those already set, so `|=` adds.
        NextGroup(s, i);
        value := (value + b as int % 128 * scale) % TWO64;
        if b < 128 {
          VarintFound(s, i + 1);
          return true, value;
        }
        scale := scale * 128;
      }
      NoVarint(s, VARINT_MAX_BYTES);
      return false, 0;
    }

    method Next() returns (rc: int, num: nat, wire: nat)
      requires Valid()
      modifies this
      ensures Valid() && pos >= old(pos)
      ensures rc == (match ReadTag(old(Rest())) case EndOfMessage => 0 case BadTag => -1 case GoodTag(_, _, _) => 1)
      ensures rc == 1 ==> num == ReadTag(old(Rest())).num && wire == ReadTag(old(Rest())).wire
      ensures rc == 1 ==> Rest() == old(Rest())[ReadTag(old(Rest())).used..]
      ensures rc == 1 ==> pos > old(pos)
    {
      if pos >= end { return 0, 0, 0; }
      var ok, key := Varint();
      if !ok { return -1, 0, 0; }
      wire := key % 8;
      num := key / 8 % TWO32;
      if num == 0 { return -1, 0, 0; }
      if wire != VARINT && wire != FIXED64 && wire != BYTES && wire != FIXED32 { return -1, 0, 0; }
      return 1, num, wire;
    }

    method Fixed32() returns (ok: bool, value: u64)
      requires Valid()
      modifies this
      ensures Valid() && pos >= old(pos)
      ensures ok <==> ReadPayload(FIXED32, old(Rest())).Some?
      ensures ok ==> Fixed32P(value) == ReadPayload(FIXED32, old(Rest())).value.val
      ensures ok ==> Rest() == old(Rest())[ReadPayload(FIXED32, old(Rest())).value.used..]
    {
      if end - pos < 4 { return false, 0; }
      ghost var w := Rest()[..4];
      FourBytes(w);
      value := data[pos] as int + data[pos + 1] as int * 0x100 + data[pos + 2] as int * 0x1_0000
               + data[pos + 3] as int * 0x100_0000;
      pos := pos + 4;
      return true, value;
    }

    method Fixed64() returns (ok: bool, value: u64)
      requires Valid()
      modifies this
      ensures Valid() && pos >= old(pos)
      ensures ok <==> ReadPayload(FIXED64, old(Rest())).Some?
      ensures ok ==> Fixed64P(value) == ReadPayload(FIXED64, old(Rest())).value.val
      ensures ok ==> Rest() == old(Rest())[ReadPayload(FIXED64, old(Rest())).value.used..]
    {
      hide ReadVarint, ReadTag;
      if end - pos < 8 { return false, 0; }
      ghost var w := data[pos..pos + 8];
      assert w == Rest()[..8];
      value := 0;
      var i := 7;
      while i >= 0
        invariant -1 <= i <= 7 && pos == old(pos)
        invariant value == LittleEndian(w[i + 1..])
      {
        hide LittleEndian, ReadPayload;
        NextByte(w, i);
        value := value * 256 + data[pos + i]; // value << 8 | byte
        i := i - 1;
      }
      assert w[0..] == w;
      hide LittleEndian;
      pos := pos + 8;
      assert Rest() == old(Rest())[8..];
      return true, value;
    }

    /** The borrowed pointer and length become the bytes they delimit. */
    method Bytes() returns (ok: bool, out: bytes)
      requires Valid()
      modifies this
      ensures Valid() && pos >= old(pos)
      ensures ok <==> ReadPayload(BYTES, old(Rest())).Some?
      ensures ok ==> BytesP(out) == ReadPayload(BYTES, old(Rest())).value.val
      ensures ok ==> Rest() == old(Rest())[ReadPayload(BYTES, old(Rest())).value.used..]
    {
      hide ReadVarint, ReadTag;
      var len;
      ok, len := Varint();
      if !ok || end - pos < len { return false, []; }
      ghost var n := ReadVarint(old(Rest())).value.1;
      assert pos == old(pos) + n;
      SliceOfSlice(data, old(pos), end, n, n + len);
      out := data[pos..pos + len];
      pos := pos + len;
    }

    /** A nested reader over the same buffer, inside this reader's own window. */
    method Submsg() returns (ok: bool, sub: Reader?)
      requires Valid()
      modifies this
      ensures Valid() && pos >= old(pos)
      ensures ok <==> ReadPayload(BYTES, old(Rest())).Some?
      ensures ok <==> sub != null
      ensures ok ==> fresh(sub) && sub.Valid() && sub.data == data
      ensures ok ==> BytesP(sub.Rest()) == ReadPayload(BYTES, old(Rest())).value.val
      ensures ok ==> Rest() == old(Rest())[ReadPayload(BYTES, old(Rest())).value.used..]
      ensures ok ==> old(pos) < sub.pos <= sub.end == pos <= end
    {
      hide ReadVarint, ReadTag;
      var len;
      ok, len := Varint();
      if !ok || end - pos < len { return false, null; }
      ghost var n := ReadVarint(old(Rest())).value.1;
      assert pos == old(pos) + n;
      sub := new Reader(data, pos, pos + len);
      SliceOfSlice(data, old(pos), end, n, n + len);
      pos := pos + len;
    }

    /** Skipping consumes exactly what the typed reader of that wire type would. */
    method Skip(wire: nat) returns (ok: bool)
      requires Valid()
      modifies this
      ensures Valid() && pos >= old(pos)
      ensures ok <==> ReadPayload(wire, old(Rest())).Some?
      ensures ok ==> Rest() == old(Rest())[ReadPayload(wire, old(Rest())).value.used..]
    {
      if wire == VARINT {
        var r, v := Varint();
        ok := r;
      } else if wire == FIXED64 {
        var r, v := Fixed64();
        ok := r;
      } else if wire == FIXED32 {
        var r, v := Fixed32();
        ok := r;
      } else if wire == BYTES {
        var r, v := Bytes();
        ok := r;
      } else {
        ok := false;
      }
    }
  }

  lemma {:induction false} NoVarint(s: bytes, limit: nat)
    requires forall k :: 0 <= k < |s| && k < limit ==> s[k] >= 128
    ensures VarintLen(s, limit) == 0
  {
    if limit > 0 && s != [] { NoVarint(s[1..], limit - 1); }
  }

  lemma VarintFound(s: bytes, n: nat)
    requires n <= |s| && IsVarint(s[..n])
    ensures ReadVarint(s) == Some((VarintValue(s[..n]), n))
  {
    assert s[..n] + s[n..] == s;
    ReadVarintExact(s[..n], s[n..]);
  }

  lemma NextGroup(s: bytes, i: nat)
    requires i < |s|
    ensures Groups(s[..i + 1]) % TWO64
            == (Groups(s[..i]) % TWO64 + s[i] as int % 128 * Pow128(i)) % TWO64
  {
    assert s[..i + 1] == s[..i] + [s[i]];
    GroupsSnoc(s[..i], s[i]);
    AddMod(Groups(s[..i]), s[i] as int % 128 * Pow128(i));
  }

  lemma AddMod(x: nat, y: nat)
    ensures (x + y) % TWO64 == (x % TWO64 + y) % TWO64
  {
  }

  lemma NextByte(w: bytes, i: nat)
    requires i < |w| <= 8
    ensures LittleEndian(w[i..]) == w[i] + 256 * LittleEndian(w[i + 1..])
    ensures LittleEndian(w[i..]) < TWO64
  {
    assert w[i..][1..] == w[i + 1..];
    var v := Word(w[i..]);
  }
}
