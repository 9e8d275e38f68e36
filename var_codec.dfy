/**
 * The variable-length integer and string codec of the log database
 * (BufferUtils): a 32-bit int is written as 1 to 5 bytes whose leading
 * byte carries a unary length prefix, and a string as the encoded length
 * of its bytes followed by those bytes.
 *
 * Bytes are modelled by their unsigned bit pattern (0..255); the
 * two's-complement bit pattern of an `Int32` is `Bits(v)`.
 */
module VarCodec {

  import opened JavaTypes

  datatype Error =
    | Underflow          // a read past the buffer's limit (BufferUnderflowException)
    | Overflow           // a write past the buffer's limit (BufferOverflowException)
    | BadPrefix(b: Byte) // a leading byte in 0xF0..0xFE: "Invalid int prefix"
    | BadLength          // a negative string length

  datatype Result<T> = Ok(value: T) | Err(error: Error)

  /** A decoded item together with the number of bytes it occupied. */
  datatype Decoded<T> = Decoded(value: T, size: nat)

  /** The low eight bits of `x`: Java's `(byte) x`. */
  function Lo8(x: int): (b: Byte)
    ensures b as int == x % 0x100
  {
    (x % 0x100) as Byte
  }

  /** The two's-complement bit pattern of a 32-bit int. */
  function Bits(v: Int32): (u: nat)
    ensures u < 0x1_0000_0000
    ensures u % 0x8000_0000 == v as int % 0x8000_0000
    ensures (u < 0x8000_0000) == (v >= 0)
  {
    if v < 0 then v as int + 0x1_0000_0000 else v as int
  }

  /** The 32-bit int whose bit pattern is `u`. */
  function FromBits(u: nat): (v: Int32)
    requires u < 0x1_0000_0000
    ensures Bits(v) == u
  {
    if u < 0x8000_0000 then u as Int32 else (u - 0x1_0000_0000) as Int32
  }

  /** The unsigned value of four bytes, most significant first. */
  function BigEndian(b1: Byte, b2: Byte, b3: Byte, b4: Byte): (u: nat)
    ensures u < 0x1_0000_0000
  {
    ((b1 as int * 0x100 + b2 as int) * 0x100 + b3 as int) * 0x100 + b4 as int
  }

  /**
   * The bytes `putInt(buf, v)` writes. A right shift `v >> k` is `v / 2^k`
   * (Dafny's division by a positive constant rounds down, as the arithmetic
   * shift does), and OR-ing a tag into a value below the tag's lowest bit
   * is adding it.
   */
  function EncodeInt(v: Int32): (r: seq<Byte>)
    ensures 1 <= |r| <= 5
    ensures |r| == 1 <==> 0 <= v < 0x80
    ensures |r| == 2 <==> 0x80 <= v < 0x4000
    ensures |r| == 3 <==> 0x4000 <= v < 0x20_0000
    ensures |r| == 4 <==> 0x20_0000 <= v < 0x1000_0000
    ensures |r| == 5 <==> v < 0 || 0x1000_0000 <= v
    // the leading byte's prefix: 0, 10, 110, 1110, and the escape byte 0xFF
    ensures |r| == 1 ==> r[0] < 0x80 && r[0] as int == v as int
    ensures |r| == 2 ==> 0x80 <= r[0] < 0xC0
    ensures |r| == 3 ==> 0xC0 <= r[0] < 0xE0
    ensures |r| == 4 ==> 0xE0 <= r[0] < 0xF0
    ensures |r| == 5 ==> r[0] == 0xFF
  {
    var x := v as int;
    if 0 <= x < 0x80 then
      [Lo8(x)]
    else if 0 <= x < 0x4000 then
      assert x / 0x100 < 0x40;
      [Lo8(x / 0x100 + 0x80), Lo8(x)]
    else if 0 <= x < 0x20_0000 then
      assert x / 0x1_0000 < 0x20;
      [Lo8(x / 0x1_0000 + 0xC0), Lo8(x / 0x100), Lo8(x)]
    else if 0 <= x < 0x1000_0000 then
      assert x / 0x100_0000 < 0x10;
      [Lo8(x / 0x100_0000 + 0xE0), Lo8(x / 0x1_0000), Lo8(x / 0x100), Lo8(x)]
    else
      [0xFF, Lo8(x / 0x100_0000), Lo8(x / 0x1_0000), Lo8(x / 0x100), Lo8(x)]
  }

  /**
   * What `getInt` reads from the front of `s`: the value and the number of
   * bytes it took. The tests `(b & 0x80) == 0`, `(b & 0xc0) == 0x80`,
   * `(b & 0xe0) == 0xc0` and `(b & 0xf0) == 0xe0` select the leading bytes
   * below 0x80, in 0x80..0xBF, in 0xC0..0xDF and in 0xE0..0xEF; masking the
   * tag off is subtracting it.
   */
  function DecodeInt(s: seq<Byte>): (r: Result<Decoded<Int32>>)
    ensures r.Ok? ==> 1 <= r.value.size <= |s| && r.value.size <= 5
    ensures r.Ok? && r.value.size < 5 ==> r.value.value >= 0
    ensures |s| > 0 && 0xF0 <= s[0] < 0xFF ==> r == Err(BadPrefix(s[0]))
    ensures s == [] ==> r == Err(Underflow)
  {
    if |s| == 0 then Err(Underflow)
    else
      var b := s[0] as int;
      if b < 0x80 then
        Ok(Decoded(b as Int32, 1))
      else if b < 0xC0 then
        if |s| < 2 then Err(Underflow)
        else Ok(Decoded(((b - 0x80) * 0x100 + s[1] as int) as Int32, 2))
      else if b < 0xE0 then
        if |s| < 3 then Err(Underflow)
        else Ok(Decoded((((b - 0xC0) * 0x100 + s[1] as int) * 0x100 + s[2] as int) as Int32, 3))
      else if b < 0xF0 then
        if |s| < 4 then Err(Underflow)
        else Ok(Decoded(((((b - 0xE0) * 0x100 + s[1] as int) * 0x100 + s[2] as int) * 0x100 + s[3] as int) as Int32, 4))
      else if b != 0xFF then
        Err(BadPrefix(s[0]))
      else if |s| < 5 then Err(Underflow)
      else Ok(Decoded(FromBits(BigEndian(s[1], s[2], s[3], s[4])), 5))
  }

  /** Dividing by 2^16 or 2^24 is dividing by 2^8 two or three times. */
  lemma NestedDiv(x: int)
    ensures x / 0x1_0000 == (x / 0x100) / 0x100
    ensures x / 0x100_0000 == (x / 0x1_0000) / 0x100
  {
    var a := x / 0x100;
    var b := a / 0x100;
    assert x == b * 0x1_0000 + (a % 0x100) * 0x100 + x % 0x100;
    var c := b / 0x100;
    assert x == c * 0x100_0000 + (b % 0x100) * 0x1_0000 + (a % 0x100) * 0x100 + x % 0x100;
  }

  /** Joining the low bytes of `x`'s shifts gives back `x` (up to the given width). */
  lemma JoinBytes(x: int)
    ensures (x / 0x100) * 0x100 + Lo8(x) as int == x
    ensures ((x / 0x1_0000) * 0x100 + Lo8(x / 0x100) as int) * 0x100 + Lo8(x) as int == x
    ensures (((x / 0x100_0000) * 0x100 + Lo8(x / 0x1_0000) as int) * 0x100 + Lo8(x / 0x100) as int) * 0x100
            + Lo8(x) as int == x
  {
    NestedDiv(x);
  }

  /** Splitting `u` into four bytes and joining them again gives `u`. */
  lemma BigEndianSplit(u: nat)
    requires u < 0x1_0000_0000
    ensures BigEndian(Lo8(u / 0x100_0000), Lo8(u / 0x1_0000), Lo8(u / 0x100), Lo8(u)) == u
  {
    JoinBytes(u);
    assert u / 0x100_0000 < 0x100;
  }

  /** Shifting an int and its bit pattern by the same amount keeps the same low byte. */
  lemma ShiftedLowByte(v: Int32, k: nat)
    requires k == 1 || k == 0x100 || k == 0x1_0000 || k == 0x100_0000
    ensures Lo8(v as int / k) == Lo8(Bits(v) / k)
  {
    if v < 0 {
      var x := v as int;
      assert Bits(v) == x + 0x1_0000_0000;
      if k == 1 {
        LowByteAddMultiple(x, 0x1_0000_0000);
      } else if k == 0x100 {
        assert Bits(v) / k == x / k + 0x100_0000;
        LowByteAddMultiple(x / k, 0x100_0000);
      } else if k == 0x1_0000 {
        assert Bits(v) / k == x / k + 0x1_0000;
        LowByteAddMultiple(x / k, 0x1_0000);
      } else {
        assert Bits(v) / k == x / k + 0x100;
        LowByteAddMultiple(x / k, 0x100);
      }
    }
  }

  /** Adding a multiple of 256 keeps the low byte. */
  lemma LowByteAddMultiple(y: int, m: int)
    requires m % 0x100 == 0
    ensures Lo8(y + m) == Lo8(y)
  {
    assert y + m == (y / 0x100 + m / 0x100) * 0x100 + y % 0x100;
  }

  /**
   * Round trip: `getInt` applied to the bytes `putInt(v)` wrote returns `v`
   * and consumes exactly those bytes, whatever follows them.
   */
  lemma DecodeEncodeInt(v: Int32, rest: seq<Byte>)
    ensures DecodeInt(EncodeInt(v) + rest) == Ok(Decoded(v, |EncodeInt(v)|))
  {
    if v < 0 || 0x1000_0000 <= v {
      DecodeEncodeLong(v, rest);
    } else {
      DecodeEncodeShort(v, rest);
    }
  }

  /** The round trip for the ints written in 1 to 4 bytes. */
  lemma DecodeEncodeShort(v: Int32, rest: seq<Byte>)
    requires 0 <= v < 0x1000_0000
    ensures DecodeInt(EncodeInt(v) + rest) == Ok(Decoded(v, |EncodeInt(v)|))
  {
    var e := EncodeInt(v);
    var s := e + rest;
    var x := v as int;
    assert s[..|e|] == e;
    JoinBytes(x);
    if |e| == 4 {
      assert s[0] as int - 0xE0 == x / 0x100_0000;
    } else if |e| == 3 {
      assert s[0] as int - 0xC0 == x / 0x1_0000;
    } else if |e| == 2 {
      assert s[0] as int - 0x80 == x / 0x100;
    }
  }

  /** The round trip for the ints written in 5 bytes: the escape byte, then the bit pattern. */
  lemma DecodeEncodeLong(v: Int32, rest: seq<Byte>)
    requires v < 0 || 0x1000_0000 <= v
    ensures DecodeInt(EncodeInt(v) + rest) == Ok(Decoded(v, |EncodeInt(v)|))
  {
    var e := EncodeInt(v);
    var s := e + rest;
    assert s[..5] == e;
    var u := Bits(v);
    ShiftedLowByte(v, 1);
    ShiftedLowByte(v, 0x100);
    ShiftedLowByte(v, 0x1_0000);
    ShiftedLowByte(v, 0x100_0000);
    BigEndianSplit(u);
    assert BigEndian(s[1], s[2], s[3], s[4]) == u;
  }

  /** The bytes `putString` writes for a payload (its UTF-8 bytes). */
  function EncodeString(bytes: seq<Byte>): (r: seq<Byte>)
    requires |bytes| < 0x8000_0000
    ensures |bytes| + 1 <= |r| <= |bytes| + 5
  {
    EncodeInt(|bytes| as Int32) + bytes
  }

  /** What `getString` reads from the front of `s`: the payload and the bytes it took. */
  function DecodeString(s: seq<Byte>): (r: Result<Decoded<seq<Byte>>>)
    ensures r.Ok? ==> r.value.size <= |s|
    ensures r.Ok? ==> DecodeInt(s).Ok? &&
                      r.value.size == DecodeInt(s).value.size + |r.value.value| &&
                      |r.value.value| == DecodeInt(s).value.value as int
    ensures DecodeInt(s).Err? ==> r == Err(DecodeInt(s).error)
  {
    match DecodeInt(s)
    case Err(e) => Err(e)
    case Ok(Decoded(len, n)) =>
      if len < 0 then Err(BadLength)
      else if n + len as int > |s| then Err(Underflow)
      else Ok(Decoded(s[n..n + len as int], n + len as int))
  }

  /** Round trip: `getString` inverts `putString` and consumes exactly what it wrote. */
  lemma DecodeEncodeString(bytes: seq<Byte>, rest: seq<Byte>)
    requires |bytes| < 0x8000_0000
    ensures DecodeString(EncodeString(bytes) + rest) == Ok(Decoded(bytes, |EncodeString(bytes)|))
  {
    var h := EncodeInt(|bytes| as Int32);
    var s := EncodeString(bytes) + rest;
    assert s == h + (bytes + rest);
    DecodeEncodeInt(|bytes| as Int32, bytes + rest);
    assert s[|h|..|h| + |bytes|] == bytes;
  }

  /**
   * java.nio.ByteBuffer as the codec uses it: a backing array, a cursor
   * `position` and a `limit` past which no byte is read or written.
   */
  class ByteBuffer {
    var data: array<Byte>
    var position: nat
    var limit: nat

    ghost predicate Valid()
      reads this
    {
      position <= limit <= data.Length
    }

    /** The bytes between the cursor and the limit. */
    ghost function Remaining(): seq<Byte>
      reads this, data
      requires Valid()
    {
      data[position..limit]
    }

    /** `ByteBuffer.wrap(data)`: the whole array, cursor at 0. */
    constructor Wrap(data: array<Byte>)
      ensures Valid() && this.data == data && position == 0 && limit == data.Length
    {
      this.data := data;
      position := 0;
      limit := data.Length;
    }

    /** `put(byte)`: write at the cursor and advance, or fail when the cursor is at the limit. */
    method Put(b: Byte) returns (ok: bool)
      requires Valid()
      modifies this`position, data
      ensures Valid()
      ensures ok == (old(position) < limit)
      ensures position == if ok then old(position) + 1 else old(position)
      ensures data[..] == if ok then old(data[..])[old(position) := b] else old(data[..])
    {
      ok := position < limit;
      if ok {
        data[position] := b;
        position := position + 1;
      }
    }

    /** `get()`: read at the cursor and advance, or fail when the cursor is at the limit. */
    method Get() returns (r: Result<Byte>)
      requires Valid()
      modifies this`position
      ensures Valid()
      ensures r.Ok? == (old(position) < limit)
      ensures r.Ok? ==> r.value == data[old(position)] && position == old(position) + 1
      ensures r.Err? ==> r.error == Underflow && position == old(position)
    {
      if position < limit {
        r := Ok(data[position]);
        position := position + 1;
      } else {
        r := Err(Underflow);
      }
    }
  }

  /**
   * Successive `put(byte)` calls writing `bs`: they stop at the first one that
   * overflows, leaving the bytes written so far.
   */
  method PutBytes(buf: ByteBuffer, bs: seq<Byte>) returns (ok: bool)
    requires buf.Valid()
    modifies buf`position, buf.data
    ensures buf.Valid()
    ensures ok == (|bs| <= old(buf.limit - buf.position))
    ensures buf.position == if ok then old(buf.position) + |bs| else buf.limit
    ensures buf.data[..old(buf.position)] == old(buf.data[..buf.position])
    ensures buf.data[old(buf.position)..buf.position] == bs[..buf.position - old(buf.position)]
    ensures buf.data[buf.position..] == old(buf.data[..])[buf.position..]
  {
    ghost var start := buf.position;
    var i := 0;
    ok := true;
    while i < |bs|
      invariant buf.Valid()
      invariant 0 <= i <= |bs|
      invariant buf.position == start + i
      invariant buf.data[..start] == old(buf.data[..buf.position])
      invariant buf.data[start..buf.position] == bs[..i]
      invariant buf.data[buf.position..] == old(buf.data[buf.position..])[i..]
    {
      ok := buf.Put(bs[i]);
      if !ok {
        return;
      }
      assert buf.data[start..buf.position] == buf.data[start..buf.position - 1] + [bs[i]];
      i := i + 1;
    }
  }

  /** `putInt(buf, v)`: the bytes of `EncodeInt(v)`, written one `put` at a time. */
  method PutInt(buf: ByteBuffer, v: Int32) returns (ok: bool)
    requires buf.Valid()
    modifies buf`position, buf.data
    ensures buf.Valid()
    ensures ok == (|EncodeInt(v)| <= old(buf.limit - buf.position))
    ensures ok ==> buf.position == old(buf.position) + |EncodeInt(v)|
    ensures ok ==> buf.data[old(buf.position)..buf.position] == EncodeInt(v)
    ensures !ok ==> buf.position == buf.limit
    ensures buf.data[..old(buf.position)] == old(buf.data[..buf.position])
    ensures buf.data[buf.position..] == old(buf.data[..])[buf.position..]
  {
    ok := PutBytes(buf, EncodeInt(v));
  }

  /**
   * `getInt(buf)`: the value `DecodeInt` finds at the cursor. On success the
   * cursor moves past the value's bytes; on a bad prefix past the leading
   * byte only; on underflow to the limit.
   */
  method GetInt(buf: ByteBuffer) returns (r: Result<Int32>)
    requires buf.Valid()
    modifies buf`position
    ensures buf.Valid()
    ensures var d := DecodeInt(old(buf.Remaining()));
      && (d.Ok? ==> r == Ok(d.value.value) && buf.position == old(buf.position) + d.value.size)
      && (d.Err? ==> r == Err(d.error))
      && (d.Err? && d.error.BadPrefix? ==> buf.position == old(buf.position) + 1)
      && (d.Err? && d.error.Underflow? ==> buf.position == buf.limit)
  {
    ghost var s := buf.Remaining();
    var lead := buf.Get();
    if lead.Err? {
      return Err(Underflow);
    }
    var b := lead.value;
    var n: nat;
    if b < 0x80 {
      return Ok(b as Int32);
    } else if b < 0xC0 {
      n := 1;
    } else if b < 0xE0 {
      n := 2;
    } else if b < 0xF0 {
      n := 3;
    } else if b != 0xFF {
      return Err(BadPrefix(b));
    } else {
      n := 4;
    }
    ghost var s' := buf.Remaining();
    assert s' == s[1..];
    var tail := GetBytes(buf, n);
    if tail.Err? {
      return Err(Underflow);
    }
    var t := tail.value;
    assert t == s'[..n] == s[1..1 + n];
    if n == 1 {
      r := Ok(((b as int - 0x80) * 0x100 + t[0] as int) as Int32);
    } else if n == 2 {
      r := Ok((((b as int - 0xC0) * 0x100 + t[0] as int) * 0x100 + t[1] as int) as Int32);
    } else if n == 3 {
      r := Ok(((((b as int - 0xE0) * 0x100 + t[0] as int) * 0x100 + t[1] as int) * 0x100 + t[2] as int) as Int32);
    } else {
      r := Ok(FromBits(BigEndian(t[0], t[1], t[2], t[3])));
    }
  }

  /** `n` successive `get()` calls; on underflow the cursor is left at the limit. */
  method GetBytes(buf: ByteBuffer, n: nat) returns (r: Result<seq<Byte>>)
    requires buf.Valid()
    modifies buf`position
    ensures buf.Valid()
    ensures r.Ok? == (n <= old(buf.limit - buf.position))
    ensures r.Ok? ==> r.value == old(buf.Remaining())[..n] && buf.position == old(buf.position) + n
    ensures r.Err? ==> r.error == Underflow && buf.position == buf.limit
  {
    var got: seq<Byte> := [];
    while |got| < n
      invariant buf.Valid()
      invariant |got| <= n
      invariant buf.position == old(buf.position) + |got|
      invariant got == old(buf.Remaining())[..|got|]
    {
      var x := buf.Get();
      if x.Err? {
        return Err(Underflow);
      }
      got := got + [x.value];
    }
    r := Ok(got);
  }

  /** `putString(buf, s)` on the payload's bytes: the length, then the bytes in one bulk put. */
  method PutString(buf: ByteBuffer, bytes: seq<Byte>) returns (ok: bool)
    requires buf.Valid()
    requires |bytes| < 0x8000_0000
    modifies buf`position, buf.data
    ensures buf.Valid()
    ensures ok == (|EncodeString(bytes)| <= old(buf.limit - buf.position))
    ensures ok ==> buf.position == old(buf.position) + |EncodeString(bytes)|
    ensures ok ==> buf.data[old(buf.position)..buf.position] == EncodeString(bytes)
    ensures buf.data[..old(buf.position)] == old(buf.data[..buf.position])
  {
    ghost var start := buf.position;
    var head := EncodeInt(|bytes| as Int32);
    ok := PutInt(buf, |bytes| as Int32);
    if !ok {
      return;
    }
    // the bulk put(byte[]) checks the room first and writes nothing when there is too little
    if buf.limit - buf.position < |bytes| {
      return false;
    }
    var i := 0;
    while i < |bytes|
      invariant 0 <= i <= |bytes|
      invariant buf.Valid() && buf.position + |bytes| - i <= buf.limit
      invariant buf.position == start + |head| + i
      invariant buf.data[..start] == old(buf.data[..buf.position])
      invariant buf.data[start..buf.position] == head + bytes[..i]
    {
      buf.data[buf.position] := bytes[i];
      buf.position := buf.position + 1;
      assert buf.data[start..buf.position] == buf.data[start..buf.position - 1] + [bytes[i]];
      i := i + 1;
    }
    assert bytes[..i] == bytes;
  }

  /**
   * `getString(buf)`: the length at the cursor, then that many bytes of the
   * backing array; the cursor then moves past them. A length reaching past
   * the limit fails and leaves the cursor just after the length.
   */
  method GetString(buf: ByteBuffer) returns (r: Result<seq<Byte>>)
    requires buf.Valid()
    modifies buf`position
    ensures buf.Valid()
    ensures var d := DecodeString(old(buf.Remaining()));
      && (d.Ok? ==> r == Ok(d.value.value) && buf.position == old(buf.position) + d.value.size)
      && (d.Err? ==> r == Err(d.error))
    ensures var h := DecodeInt(old(buf.Remaining()));
      && (h.Ok? && r.Err? ==> buf.position == old(buf.position) + h.value.size)
      && (h.Err? && h.error.BadPrefix? ==> buf.position == old(buf.position) + 1)
      && (h.Err? && h.error.Underflow? ==> buf.position == buf.limit)
  {
    ghost var s := buf.Remaining();
    ghost var p0 := buf.position;
    var length := GetInt(buf);
    if length.Err? {
      return Err(length.error);
    }
    var len := length.value;
    var pos := buf.position;
    ghost var n := pos - p0;
    assert DecodeInt(s) == Ok(Decoded(len, n));
    if len < 0 {
      return Err(BadLength);
    }
    if pos + len as int > buf.data.Length {
      // new String(array, pos, length) reads past the backing array
      return Err(Underflow);
    }
    var result := buf.data[pos..pos + len as int];
    if pos + len as int > buf.limit {
      // position(pos + length) past the limit
      return Err(Underflow);
    }
    assert buf.data[..] == old(buf.data[..]) && s == buf.data[p0..buf.limit];
    assert s[n..n + len as int] == result by {
      forall i | 0 <= i < len as int ensures s[n + i] == result[i] {
        assert s[n + i] == buf.data[p0 + n + i];
      }
    }
    assert DecodeString(s) == Ok(Decoded(result, n + len as int));
    buf.position := pos + len as int;
    r := Ok(result);
  }
}
