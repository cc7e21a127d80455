/** Loading the terrain texture (`TerrainMesh::ready` in terrain_mesh.rs):
    the image bytes are read as little-endian 16-bit half-float words, the
    height channel is kept by taking every k-th word for an image of k
    channels, the global `TEXTURE` is replaced by the result, and the words
    are written back out as bytes for the single-channel display image.
    Half floats are kept as their 16-bit patterns: nothing here depends on
    what number a pattern stands for. */
module TextureLoad {
  import opened Geometry

  newtype Byte = b: int | 0 <= b < 0x100

  /** An `f16` as its bit pattern. */
  newtype Word = w: int | 0 <= w < 0x1_0000

  datatype Option<T> = None | Some(value: T)

  /** `f16::from_le_bytes([lo, hi])`. */
  function FromLe(lo: Byte, hi: Byte): Word
  {
    (hi as int * 0x100 + lo as int) as Word
  }

  /** `f16::to_le_bytes`: low byte first. */
  function ToLe(w: Word): (bytes: seq<Byte>)
    ensures |bytes| == 2
  {
    [(w as int % 0x100) as Byte, (w as int / 0x100) as Byte]
  }

  /** The two byte orders agree: a word survives a trip through its bytes,
      and a byte pair survives a trip through its word. */
  lemma LeRoundTrip(w: Word, lo: Byte, hi: Byte)
    ensures FromLe(ToLe(w)[0], ToLe(w)[1]) == w
    ensures ToLe(FromLe(lo, hi)) == [lo, hi]
  {
    RowMajorInverse(lo as nat, hi as nat, 0x100);
  }

  /** `data.chunks_exact(2).map(f16::from_le_bytes)`: one word per whole
      pair of bytes; an odd last byte is dropped. */
  function Decode(data: seq<Byte>): (words: seq<Word>)
    ensures |words| == |data| / 2
    ensures forall j :: 0 <= j < |words| ==> words[j] == FromLe(data[2 * j], data[2 * j + 1])
    decreases |data|
  {
    if |data| < 2 then [] else [FromLe(data[0], data[1])] + Decode(data[2..])
  }

  /** `words.iter().flat_map(|&x| x.to_le_bytes())`. */
  function Encode(words: seq<Word>): (data: seq<Byte>)
    ensures |data| == 2 * |words|
  {
    if words == [] then [] else ToLe(words[0]) + Encode(words[1..])
  }

  /** Encoding then decoding gives the words back. */
  lemma {:induction false} DecodeEncode(words: seq<Word>)
    ensures Decode(Encode(words)) == words
  {
    if words != [] {
      var data := Encode(words);
      LeRoundTrip(words[0], 0, 0);
      assert data[2..] == Encode(words[1..]);
      DecodeEncode(words[1..]);
    }
  }

  /** Decoding then encoding gives back the bytes, all but an odd last one. */
  lemma {:induction false} EncodeDecode(data: seq<Byte>)
    ensures Encode(Decode(data)) == data[..|data| / 2 * 2]
    decreases |data|
  {
    if |data| >= 2 {
      LeRoundTrip(0, data[0], data[1]);
      EncodeDecode(data[2..]);
      assert data[..|data| / 2 * 2] == data[..2] + data[2..][..|data[2..]| / 2 * 2];
    }
  }

  /** The pixel formats an image can have. Only the three half-float
      formats with a red height channel are loaded; `Other` stands for every
      remaining Godot format. */
  datatype ImageFormat = RGH | RGBH | RGBAH | Other

  /** Words per pixel for a loadable format (`bytes_to_skip`); nothing for
      any other format, which makes `ready` return early. */
  function Stride(format: ImageFormat): (k: Option<nat>)
    ensures k.Some? <==> !format.Other?
    ensures k.Some? ==> 2 <= k.value <= 4
  {
    match format
    case RGH => Some(2)
    case RGBH => Some(3)
    case RGBAH => Some(4)
    case Other => None
  }

  /** Number of multiples of k below i: `ceil(i / k)`. */
  function Multiples(i: nat, k: nat): nat
    requires 0 < k
  {
    (i + k - 1) / k
  }

  /** `(q * k + r) / k` is q for a remainder r below k. */
  lemma Quotient(q: nat, r: nat, k: nat, i: nat)
    requires r < k && i == q * k + r
    ensures i / k == q && i % k == r
  {
    RowMajorInverse(r, q, k);
  }

  /** Counting one more index: it adds a multiple exactly when it is one. */
  lemma MultiplesStep(i: nat, k: nat)
    requires 0 < k
    ensures Multiples(i + 1, k) == Multiples(i, k) + (if i % k == 0 then 1 else 0)
    ensures i % k == 0 ==> Multiples(i, k) * k == i
  {
    var q, r := i / k, i % k;
    assert i == q * k + r;
    var next := (q + 1) * k;
    assert next == q * k + k;
    if r == 0 {
      Quotient(q, k - 1, k, i + k - 1);
      Quotient(q + 1, 0, k, i + k);
    } else {
      Quotient(q + 1, r - 1, k, i + k - 1);
      Quotient(q + 1, r, k, i + k);
    }
  }

  /** The words of `s[i..]` whose index in `s` is a multiple of k, in order:
      `enumerate().filter(|(i, _)| i % k == 0)`. There is one for each
      multiple of k in `[i, |s|)`. */
  function KeepMultiples(s: seq<Word>, k: nat, i: nat): (out: seq<Word>)
    requires 0 < k && i <= |s|
    ensures |out| == Multiples(|s|, k) - Multiples(i, k)
    decreases |s| - i
  {
    if i == |s| then []
    else
      MultiplesStep(i, k);
      (if i % k == 0 then [s[i]] else []) + KeepMultiples(s, k, i + 1)
  }

  /** Word j kept from `s[i..]` is the word at the j-th multiple of k from
      the first one at or after i. */
  lemma {:induction false} KeepMultiplesAt(s: seq<Word>, k: nat, i: nat, j: nat)
    requires 0 < k && i <= |s| && j < |KeepMultiples(s, k, i)|
    ensures (Multiples(i, k) + j) * k < |s|
    ensures KeepMultiples(s, k, i)[j] == s[(Multiples(i, k) + j) * k]
    decreases |s| - i
  {
    MultiplesStep(i, k);
    var rest := KeepMultiples(s, k, i + 1);
    if i % k == 0 {
      if j > 0 {
        KeepMultiplesAt(s, k, i + 1, j - 1);
        assert Multiples(i + 1, k) + (j - 1) == Multiples(i, k) + j;
      }
    } else {
      KeepMultiplesAt(s, k, i + 1, j);
    }
  }

  /** The height channel of an image of k words per pixel: one word for
      each multiple of k below `|s|`, that is `ceil(|s| / k)` of them. */
  function EveryKth(s: seq<Word>, k: nat): (out: seq<Word>)
    requires 0 < k
    ensures |out| == (|s| + k - 1) / k
  {
    Quotient(0, k - 1, k, k - 1);
    KeepMultiples(s, k, 0)
  }

  /** Word j of the height channel is word j * k of the input: exactly the
      words whose index is divisible by k, in their order. */
  lemma EveryKthPicks(s: seq<Word>, k: nat)
    requires 0 < k
    ensures forall j :: 0 <= j < |EveryKth(s, k)| ==> j * k < |s| && EveryKth(s, k)[j] == s[j * k]
  {
    Quotient(0, k - 1, k, k - 1);
    forall j | 0 <= j < |EveryKth(s, k)|
      ensures j * k < |s| && EveryKth(s, k)[j] == s[j * k]
    {
      KeepMultiplesAt(s, k, 0, j);
    }
  }

  /** An image of w x h pixels in a loadable format (2 bytes per word, k
      words per pixel) yields exactly one height per cell, and the height
      of cell (x, y) is the red word of pixel (x, y). */
  lemma LoadedFits(data: seq<Byte>, k: nat, dims: Dims, x: nat, y: nat)
    requires 0 < k && |data| == 2 * (k * (dims.w * dims.h))
    requires x < dims.w && y < dims.h
    ensures |EveryKth(Decode(data), k)| == dims.w * dims.h
    ensures RowMajor(x, y, dims.w) < dims.w * dims.h
    ensures RowMajor(x, y, dims.w) * k < |Decode(data)|
    ensures EveryKth(Decode(data), k)[RowMajor(x, y, dims.w)] == Decode(data)[RowMajor(x, y, dims.w) * k]
  {
    var n := dims.w * dims.h;
    var words := Decode(data);
    Quotient(k * n, 0, 2, |data|);
    assert |words| == n * k;
    Quotient(n, k - 1, k, |words| + k - 1);
    var i := RowMajor(x, y, dims.w);
    RowMajorInGrid(x, y, dims);
    MulLeft(i + 1, n, k);
    assert i * k < |words|;
    EveryKthPicks(words, k);
  }

  /** The global state the terrain node shares with the physics thread:
      the dimensions of the loaded image (`DIMS`) and its height words
      (`TEXTURE`). */
  class Terrain {
    var dims: Dims
    var texture: seq<Word>

    constructor ()
      ensures dims == Dims(0, 0) && texture == []
    {
      dims := Dims(0, 0);
      texture := [];
    }

    /** The load step of `ready` for an image of `width` x `height` pixels,
        its raw bytes and its format. `DIMS` is set first, whatever the
        format. For an unsupported format the method returns early and
        `TEXTURE` keeps its old contents; otherwise `TEXTURE` is cleared and
        filled with exactly the height channel, and the returned bytes of the
        one-channel display image decode back to it. */
    method Ready(width: nat, height: nat, data: seq<Byte>, format: ImageFormat)
      returns (image: Option<seq<Byte>>)
      modifies this
      ensures dims == Dims(width, height)
      ensures Stride(format).None? ==> image.None? && texture == old(texture)
      ensures Stride(format).Some? ==>
        texture == EveryKth(Decode(data), Stride(format).value) &&
        image.Some? && |image.value| == 2 * |texture| && Decode(image.value) == texture
    {
      dims := Dims(width, height);
      var converted := Decode(data);
      var bytesToSkip := Stride(format);
      if bytesToSkip.None? {
        return None;
      }
      converted := EveryKth(converted, bytesToSkip.value);
      texture := [];
      texture := texture + converted;
      image := Some(Encode(converted));
      DecodeEncode(converted);
    }
  }
}
