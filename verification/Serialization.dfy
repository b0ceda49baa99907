/**
 * The byte form of a vector (internal/storage/vector.go): four little-endian bytes for each component.
 * A component is its 32-bit pattern, so nothing here depends on what the pattern means as a float.
 */
module Serialization {

  type Byte = x: int | 0 <= x < 0x100
  type Word = x: int | 0 <= x < 0x1_0000_0000

  // ----- Specification -----

  /** The bytes of a word, least significant first. */
  function BytesOf(v: Word): (b: seq<Byte>)
    ensures |b| == 4
  {
    [v % 0x100, v / 0x100 % 0x100, v / 0x1_0000 % 0x100, v / 0x100_0000]
  }

  function WordOf(b: seq<Byte>): Word
    requires |b| == 4
  {
    var b0: int, b1: int, b2: int, b3: int := b[0], b[1], b[2], b[3];
    b0 + 0x100 * b1 + 0x1_0000 * b2 + 0x100_0000 * b3
  }

  function Serialized(values: seq<Word>): (data: seq<Byte>)
    ensures |data| == 4 * |values|
  {
    if values == [] then []
    else Serialized(values[..|values| - 1]) + BytesOf(values[|values| - 1])
  }

  /** The first n words. */
  function Words(data: seq<Byte>, n: nat): (values: seq<Word>)
    requires 4 * n <= |data|
    ensures |values| == n
  {
    if n == 0 then [] else Words(data, n - 1) + [WordOf(data[4 * (n - 1)..4 * n])]
  }

  /** The whole words of data; up to three bytes are left over. */
  function Deserialized(data: seq<Byte>): seq<Word> {
    Words(data, |data| / 4)
  }

  // ----- The loops -----

  /** The write of one word into the buffer. */
  method PutUint32(buf: array<Byte>, at: nat, v: Word)
    requires at + 4 <= buf.Length
    modifies buf
    ensures buf[..] == old(buf[..at]) + BytesOf(v) + old(buf[at + 4..])
  {
    buf[at] := v % 0x100;
    buf[at + 1] := v / 0x100 % 0x100;
    buf[at + 2] := v / 0x1_0000 % 0x100;
    buf[at + 3] := v / 0x100_0000;
  }

  method SerializeVector(values: seq<Word>) returns (buf: array<Byte>)
    ensures fresh(buf) && buf[..] == Serialized(values)
  {
    buf := new Byte[|values| * 4];
    for i := 0 to |values|
      invariant buf[..i * 4] == Serialized(values[..i])
    {
      ghost var before := buf[..];
      PutUint32(buf, i * 4, values[i]);
      assert buf[..(i + 1) * 4] == before[..i * 4] + BytesOf(values[i]);
      assert values[..i + 1][..i] == values[..i];
    }
    assert values[..|values|] == values && buf[..|values| * 4] == buf[..];
  }

  method DeserializeVector(data: seq<Byte>) returns (values: array<Word>)
    ensures fresh(values) && values[..] == Deserialized(data)
  {
    values := new Word[|data| / 4];
    for i := 0 to values.Length
      invariant values[..i] == Words(data, i)
    {
      values[i] := WordOf(data[4 * i..4 * (i + 1)]);
      assert values[..i + 1] == values[..i] + [values[i]];
    }
    assert values[..values.Length] == values[..];
  }

  // ----- Round trips -----

  lemma WordOfBytes(v: Word)
    ensures WordOf(BytesOf(v)) == v
  {
    assert v / 0x1_0000 == v / 0x100 / 0x100 && v / 0x100_0000 == v / 0x1_0000 / 0x100;
  }

  lemma LowByte(b: int, q: int)
    requires 0 <= b < 0x100
    ensures (b + 0x100 * q) / 0x100 == q && (b + 0x100 * q) % 0x100 == b
  {
  }

  lemma BytesOfWord(b: seq<Byte>)
    requires |b| == 4
    ensures BytesOf(WordOf(b)) == b
  {
    var v, b0: int, b1: int, b2: int, b3: int := WordOf(b), b[0], b[1], b[2], b[3];
    LowByte(b0, b1 + 0x100 * b2 + 0x1_0000 * b3);
    LowByte(b1, b2 + 0x100 * b3);
    LowByte(b2, b3);
    assert v / 0x1_0000 == v / 0x100 / 0x100 && v / 0x100_0000 == v / 0x1_0000 / 0x100;
  }

  lemma {:induction false} WordsOfPrefix(data: seq<Byte>, longer: seq<Byte>, n: nat)
    requires 4 * n <= |data| && data <= longer
    ensures Words(data, n) == Words(longer, n)
  {
    if n > 0 {
      WordsOfPrefix(data, longer, n - 1);
      assert data[4 * (n - 1)..4 * n] == longer[4 * (n - 1)..4 * n];
    }
  }

  function PowerOf256(k: nat): nat {
    if k == 0 then 1 else 0x100 * PowerOf256(k - 1)
  }

  lemma Powers()
    ensures PowerOf256(0) == 1 && PowerOf256(1) == 0x100 && PowerOf256(2) == 0x1_0000 && PowerOf256(3) == 0x100_0000
  {
  }

  /** Little-endian: byte k of component i is the digit of weight 256^k of its pattern. */
  lemma {:induction false} ByteAt(values: seq<Word>, i: nat, k: nat)
    requires i < |values| && k < 4
    ensures PowerOf256(k) > 0 && Serialized(values)[4 * i + k] == values[i] / PowerOf256(k) % 0x100
  {
    Powers();
    var n := |values| - 1;
    if i < n {
      ByteAt(values[..n], i, k);
    } else {
      assert Serialized(values)[4 * i + k] == BytesOf(values[n])[k];
    }
  }

  /** Decoding the encoding of any vector gives it back. */
  lemma {:induction false} DecodeEncoded(values: seq<Word>)
    ensures Deserialized(Serialized(values)) == values
  {
    if values != [] {
      var n := |values| - 1;
      var init, last := values[..n], values[n];
      DecodeEncoded(init);
      WordsOfPrefix(Serialized(init), Serialized(values), n);
      assert Serialized(values)[4 * n..4 * (n + 1)] == BytesOf(last);
      WordOfBytes(last);
      assert values == init + [last];
    }
  }

  /** Encoding what was decoded gives the data back, cut to a multiple of four bytes. */
  lemma EncodeDecoded(data: seq<Byte>)
    ensures Serialized(Deserialized(data)) == data[..4 * (|data| / 4)]
  {
    EncodeWords(data, |data| / 4);
  }

  lemma {:induction false} EncodeWords(data: seq<Byte>, n: nat)
    requires 4 * n <= |data|
    ensures Serialized(Words(data, n)) == data[..4 * n]
  {
    if n > 0 {
      EncodeWords(data, n - 1);
      BytesOfWord(data[4 * (n - 1)..4 * n]);
      var init := Words(data, n - 1);
      assert Words(data, n)[..n - 1] == init;
      assert data[..4 * n] == data[..4 * (n - 1)] + data[4 * (n - 1)..4 * n];
    }
  }
}
