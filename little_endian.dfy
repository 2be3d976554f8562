/** Byte images of 32-bit instruction words.
    RISC-V is little-endian, and a packed struct of `uint32_t` fields lies in
    memory as its words one after another, each least significant byte first. */
module LittleEndian {
  import opened Bits

  type Byte = x: int | 0 <= x < 256

  /** The four bytes of `w`, least significant first. */
  function Bytes(w: U32): (b: seq<Byte>)
    ensures |b| == 4
    ensures Word(b) == w
  {
    var v := w as int;
    var q1 := v / 0x100;
    var q2 := q1 / 0x100;
    var q3 := q2 / 0x100;
    assert q2 == q2 % 0x100 + 0x100 * q3;
    assert q1 == q1 % 0x100 + 0x100 * q2;
    assert v == v % 0x100 + 0x100 * q1;
    [v % 0x100, q1 % 0x100, q2 % 0x100, q3]
  }

  /** The word whose little-endian image is `b`. */
  function Word(b: seq<Byte>): U32
    requires |b| == 4
  {
    var b0, b1, b2, b3 := b[0] as int, b[1] as int, b[2] as int, b[3] as int;
    b0 + 0x100 * b1 + 0x1_0000 * b2 + 0x100_0000 * b3
  }

  /** Every four bytes are the image of exactly one word. */
  lemma BytesOfWord(b: seq<Byte>)
    requires |b| == 4
    ensures Bytes(Word(b)) == b
  {
    var b0, b1, b2, b3 := b[0] as int, b[1] as int, b[2] as int, b[3] as int;
    var w := Word(b) as int;
    var v2 := b2 + 0x100 * b3;
    var v1 := b1 + 0x100 * v2;
    assert w == b0 + 0x100 * v1;
    DivMod(w, 0x100, v1, b0);
    DivMod(v1, 0x100, v2, b1);
    DivMod(v2, 0x100, b3, b2);
  }

  /** The densely packed image of a sequence of words: word `i` occupies
      bytes `4*i` up to `4*i + 4`. */
  function Pack(ws: seq<U32>): (b: seq<Byte>)
    ensures |b| == 4 * |ws|
    ensures forall i :: 0 <= i < |ws| ==> Word(b[4 * i..4 * i + 4]) == ws[i]
  {
    if ws == [] then []
    else
      var rest := Pack(ws[1..]);
      var b := Bytes(ws[0]) + rest;
      assert b[0..4] == Bytes(ws[0]);
      assert forall i :: 1 <= i < |ws| ==> b[4 * i..4 * i + 4] == rest[4 * (i - 1)..4 * (i - 1) + 4];
      assert forall i :: 1 <= i < |ws| ==> ws[i] == ws[1..][i - 1];
      b
  }

  /** The words of a packed image, read back four bytes at a time. */
  function Unpack(b: seq<Byte>): (ws: seq<U32>)
    requires |b| % 4 == 0
    ensures |ws| == |b| / 4
  {
    if b == [] then [] else [Word(b[..4])] + Unpack(b[4..])
  }

  /** Reading a packed image gives back the words that were packed. */
  lemma {:induction false} UnpackPack(ws: seq<U32>)
    ensures Unpack(Pack(ws)) == ws
  {
    if ws != [] {
      var b := Pack(ws);
      assert b == Bytes(ws[0]) + Pack(ws[1..]);
      assert b[..4] == Bytes(ws[0]);
      assert b[4..] == Pack(ws[1..]);
      UnpackPack(ws[1..]);
    }
  }

  /** Packing the words read from an image gives back the image, byte for byte. */
  lemma {:induction false} PackUnpack(b: seq<Byte>)
    requires |b| % 4 == 0
    ensures Pack(Unpack(b)) == b
  {
    if b != [] {
      var ws := Unpack(b);
      assert ws == [Word(b[..4])] + Unpack(b[4..]);
      assert ws[1..] == Unpack(b[4..]);
      BytesOfWord(b[..4]);
      PackUnpack(b[4..]);
      assert b == b[..4] + b[4..];
    }
  }
}
