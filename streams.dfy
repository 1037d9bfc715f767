/**
 * The byte streams the serialisers of ccHObject write to and read from, with the
 * behaviour of `QIODevice::write` and `QIODevice::read` that they rely on. The
 * source checks every transfer with `< 0`, which only a device error produces;
 * at the end of the data `read` returns the number of bytes it could deliver,
 * possibly 0, and copies only those. `AsWritten` reads like that: a field
 * keeps the bytes the stream did not deliver. `Checked` is the behaviour the
 * error paths are evidently meant to give: a field the stream cannot fill is
 * an error.
 */
module Streams {
  import opened Wrappers

  newtype Byte = b: int | 0 <= b < 256

  datatype ReadMode = AsWritten | Checked

  const Two32: nat := 0x1_0000_0000

  /** A 32-bit unsigned value as the four bytes of its little-endian memory image. */
  function U32(n: nat): (s: seq<Byte>)
    requires n < Two32
    ensures |s| == 4
  {
    [(n % 256) as Byte, (n / 256 % 256) as Byte, (n / 65536 % 256) as Byte, (n / 16777216) as Byte]
  }

  /** The value of a four-byte little-endian image. */
  function FromU32(s: seq<Byte>): (n: nat)
    requires |s| == 4
    ensures n < Two32
  {
    s[0] as nat + 256 * s[1] as nat + 65536 * s[2] as nat + 16777216 * s[3] as nat
  }

  /** Reading back the image of a value gives the value. */
  lemma U32RoundTrip(n: nat)
    requires n < Two32
    ensures FromU32(U32(n)) == n
  {
    var s := U32(n);
    var q1 := n / 256;
    var q2 := q1 / 256;
    assert n == s[0] as nat + 256 * q1;
    assert q1 == s[1] as nat + 256 * q2;
    assert q2 == s[2] as nat + 256 * s[3] as nat;
    assert n / 65536 == q2;
    assert n / 16777216 == q2 / 256;
  }

  /** The all-zero image is the value 0. */
  lemma U32Zero()
    ensures U32(0) == [0, 0, 0, 0] && FromU32([0, 0, 0, 0]) == 0
  {
  }

  /** `read(field, |cur|)` into a field whose bytes are `cur`, from the unread
      bytes `s`: the field's new bytes and the bytes still unread, or None when the
      mode treats a short read as an error. */
  function ReadField(mode: ReadMode, s: seq<Byte>, cur: seq<Byte>): (r: Option<(seq<Byte>, seq<Byte>)>)
    ensures r.Some? ==> |r.value.0| == |cur| && |r.value.1| <= |s|
    ensures r.None? <==> mode == Checked && |s| < |cur|
    // a full read splits the stream into the field's bytes and the rest
    ensures r.Some? && |s| >= |cur| ==> s == r.value.0 + r.value.1
    // a short read copies the whole stream over the front of the field
    ensures r.Some? && |s| < |cur| ==> r.value == (s + cur[|s|..], [])
  {
    if |s| >= |cur| then Some((s[..|cur|], s[|cur|..]))
    else if mode == Checked then None
    else Some((s + cur[|s|..], []))
  }

  /** A stream that holds all the bytes of a field fills it, in either mode. */
  lemma ReadFieldFull(mode: ReadMode, f: seq<Byte>, t: seq<Byte>, cur: seq<Byte>)
    requires |f| == |cur|
    ensures ReadField(mode, f + t, cur) == Some((f, t))
  {
    assert (f + t)[..|cur|] == f;
    assert (f + t)[|cur|..] == t;
  }

  /** At the end of the data, the as-written read succeeds and leaves the field as
      it was; the checked read fails. */
  lemma ReadFieldAtEnd(cur: seq<Byte>)
    requires |cur| > 0
    ensures ReadField(AsWritten, [], cur) == Some((cur, []))
    ensures ReadField(Checked, [], cur) == None
  {
    assert [] + cur[0..] == cur;
  }

  /** The byte a `bool` is stored as. */
  function BoolByte(b: bool): Byte {
    if b then 1 else 0
  }

  /** The `bool` a stored byte reads back as. */
  function ByteBool(x: Byte): bool {
    x != 0
  }

  /** `read(&flag, 1)` into a `bool` field. */
  function ReadBool(mode: ReadMode, s: seq<Byte>, cur: bool): (r: Option<(bool, seq<Byte>)>)
    ensures r.None? <==> mode == Checked && |s| == 0
    ensures |s| > 0 && r.Some? ==> r.value == (ByteBool(s[0]), s[1..])
    ensures |s| == 0 && r.Some? ==> r.value == (cur, s)
  {
    var f :- ReadField(mode, s, [BoolByte(cur)]);
    Some((ByteBool(f.0[0]), f.1))
  }

  /** A stored `bool` reads back as itself. */
  lemma ReadBoolFull(mode: ReadMode, b: bool, t: seq<Byte>, cur: bool)
    ensures ReadBool(mode, [BoolByte(b)] + t, cur) == Some((b, t))
  {
    assert ([BoolByte(b)] + t)[1..] == t;
  }

  /** The device written to: `write` appends. */
  class OutStream {
    var data: seq<Byte>

    constructor ()
      ensures data == []
    {
      data := [];
    }

    /** `write(bytes, |bytes|)`. */
    method Write(bytes: seq<Byte>)
      modifies this
      ensures data == old(data) + bytes
    {
      data := data + bytes;
    }
  }

  /** The device read from, with its read position. */
  class InStream {
    var data: seq<Byte>
    var pos: nat

    constructor (data: seq<Byte>)
      ensures Valid() && Rest() == data
    {
      this.data := data;
      pos := 0;
    }

    ghost predicate Valid()
      reads this
    {
      pos <= |data|
    }

    /** The bytes not read yet. */
    function Rest(): seq<Byte>
      reads this
      requires Valid()
    {
      data[pos..]
    }

    /** `read(buffer, n)`: up to `n` bytes from the read position; fewer, possibly
        none, at the end of the data. */
    method Read(n: nat) returns (got: seq<Byte>)
      requires Valid()
      modifies this
      ensures Valid() && data == old(data)
      ensures |got| == if n <= |old(Rest())| then n else |old(Rest())|
      ensures got == old(Rest())[..|got|] && Rest() == old(Rest())[|got|..]
    {
      var k := if n <= |data| - pos then n else |data| - pos;
      got := data[pos..pos + k];
      pos := pos + k;
    }
  }

  /** The source's `read(field, |cur|)` followed, in `Checked` mode, by the check
      for a short read: the new bytes of the field, or false for an error. */
  method ReadInto(input: InStream, mode: ReadMode, cur: seq<Byte>) returns (ok: bool, r: seq<Byte>)
    requires input.Valid()
    modifies input
    ensures input.Valid() && input.data == old(input.data)
    ensures var f := ReadField(mode, old(input.Rest()), cur);
      && (ok <==> f.Some?)
      && (ok ==> r == f.value.0 && input.Rest() == f.value.1)
  {
    ghost var s := input.Rest();
    var got := input.Read(|cur|);
    if |got| < |cur| && mode == Checked {
      return false, cur;
    }
    r := got + cur[|got|..];
    ok := true;
    if |got| == |cur| {
      assert got == s[..|cur|];
    } else {
      assert got == s;
    }
  }

  /** `read(&flag, 1)` into a `bool` field, with the same check. */
  method ReadBoolInto(input: InStream, mode: ReadMode, cur: bool) returns (ok: bool, b: bool)
    requires input.Valid()
    modifies input
    ensures input.Valid() && input.data == old(input.data)
    ensures var f := ReadBool(mode, old(input.Rest()), cur);
      && (ok <==> f.Some?)
      && (ok ==> b == f.value.0 && input.Rest() == f.value.1)
  {
    var got;
    ok, got := ReadInto(input, mode, [BoolByte(cur)]);
    b := if ok then ByteBool(got[0]) else cur;
  }
}
