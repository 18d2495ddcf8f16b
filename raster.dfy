/**
 * The two data types of the convolution engine: an image (a flat,
 * interleaved buffer of 8-bit samples) and a square kernel of weights,
 * together with the offset arithmetic both rely on.
 */
module Raster {

  /** An `unsigned char` sample. */
  newtype byte = b: int | 0 <= b < 256

  lemma MulMono(a: int, b: int, n: nat)
    requires a <= b
    ensures a * n <= b * n
  {
  }

  /** Quotient and remainder of a division by `n` are unique. */
  lemma DivModUnique(a1: int, r1: int, a2: int, r2: int, n: int)
    requires 0 <= r1 < n && 0 <= r2 < n
    requires a1 * n + r1 == a2 * n + r2
    ensures a1 == a2 && r1 == r2
  {
    if a1 < a2 {
      MulMono(a1 + 1, a2, n);
      assert false;
    } else if a2 < a1 {
      MulMono(a2 + 1, a1, n);
      assert false;
    }
  }

  lemma CellBound(width: nat, height: nat, channels: nat, x: int, y: int, z: int)
    requires 0 <= x < width && 0 <= y < height && 0 <= z < channels
    ensures 0 <= (y * width + x) * channels + z < width * height * channels
  {
    var p := y * width + x;
    assert 0 <= y * width;
    MulMono(y + 1, height, width);
    assert p + 1 <= height * width;
    MulMono(p + 1, height * width, channels);
    assert 0 <= p * channels;
    assert (p + 1) * channels == p * channels + channels;
  }

  /**
   * Offset of sample (x, y, z) in a row-major buffer of `height` rows of
   * `width` pixels with `channels` interleaved samples each; for in-range
   * coordinates it lies inside the buffer of `width * height * channels`.
   */
  function Offset(width: nat, height: nat, channels: nat, x: int, y: int, z: int): (o: int)
    ensures 0 <= x < width && 0 <= y < height && 0 <= z < channels ==> 0 <= o < width * height * channels
  {
    if 0 <= x < width && 0 <= y < height && 0 <= z < channels then
      CellBound(width, height, channels, x, y, z);
      (y * width + x) * channels + z
    else
      (y * width + x) * channels + z
  }

  /** Distinct in-range coordinates have distinct offsets. */
  lemma OffsetInjective(width: nat, height: nat, channels: nat, x1: int, y1: int, z1: int, x2: int, y2: int, z2: int)
    requires 0 <= x1 < width && 0 <= z1 < channels
    requires 0 <= x2 < width && 0 <= z2 < channels
    requires Offset(width, height, channels, x1, y1, z1) == Offset(width, height, channels, x2, y2, z2)
    ensures x1 == x2 && y1 == y2 && z1 == z2
  {
    DivModUnique(y1 * width + x1, z1, y2 * width + x2, z2, channels);
    DivModUnique(y1, x1, y2, x2, width);
  }

  /** Every buffer position is the offset of some in-range (x, y, z). */
  lemma OffsetOnto(width: nat, height: nat, channels: nat, o: int)
    requires 0 <= o < width * height * channels
    ensures var p := o / channels;
            0 <= p % width < width && 0 <= p / width < height && 0 <= o % channels < channels &&
            Offset(width, height, channels, p % width, p / width, o % channels) == o
  {
    assert channels > 0 && width > 0;
    var p := o / channels;
    assert o == p * channels + o % channels;
    assert p == p / width * width + p % width;
    if p / width >= height {
      MulMono(height, p / width, width);
      MulMono(height * width, p, channels);
      assert false;
    }
  }

  /** A value view of an image: `samples` holds `width * height * channels` bytes. */
  datatype Grid = Grid(width: nat, height: nat, channels: nat, samples: seq<byte>)
  {
    ghost predicate Valid()
    {
      |samples| == width * height * channels
    }
  }

  /** A value view of a kernel: `size * size` weights, row-major. */
  datatype Weights = Weights(size: nat, w: seq<real>)
  {
    ghost predicate Valid()
    {
      |w| == size * size
    }
  }

  /** `struct image_t`: dimensions and a buffer of samples that the engine writes in place. */
  class Image {
    const width: nat
    const height: nat
    const channels: nat
    const data: array<byte>

    ghost predicate Valid()
    {
      data.Length == width * height * channels
    }

    ghost function View(): (g: Grid)
      reads data
      requires Valid()
      ensures g.Valid()
    {
      Grid(width, height, channels, data[..])
    }

    /** `image_init`: a fresh buffer of `width * height * channels` samples whose contents are unspecified. */
    constructor (width: nat, height: nat, channels: nat)
      ensures Valid() && fresh(data)
      ensures this.width == width && this.height == height && this.channels == channels
    {
      this.width := width;
      this.height := height;
      this.channels := channels;
      data := new byte[width * height * channels];
    }
  }

  /** `struct kernel_t`: a `size * size` row-major table of weights. */
  class Kernel {
    const size: nat
    const data: array<real>

    ghost predicate Valid()
    {
      data.Length == size * size
    }

    ghost function View(): (k: Weights)
      reads data
      requires Valid()
      ensures k.Valid()
    {
      Weights(size, data[..])
    }

    /** The allocating half of `kernel_init`: copies the first `size * size` weights of `src`, in order. */
    constructor (src: array<real>, size: nat)
      requires size * size <= src.Length
      ensures Valid() && fresh(data) && this.size == size
      ensures data[..] == src[..size * size]
    {
      var n := size * size;
      var a := new real[n];
      var i := 0;
      while i < n
        invariant 0 <= i <= n
        invariant a[..i] == src[..i]
      {
        a[i] := src[i];
        i := i + 1;
      }
      this.size := size;
      data := a;
    }
  }

  /** `kernel_init`: NULL weights give NULL; otherwise a kernel holding a copy of the first `size * size` weights. */
  method KernelInit(src: array?<real>, size: nat) returns (k: Kernel?)
    requires src != null ==> size * size <= src.Length
    ensures k == null <==> src == null
    ensures k != null ==> fresh(k) && fresh(k.data) && k.Valid()
    ensures k != null ==> k.size == size && k.data[..] == src[..size * size]
  {
    if src == null {
      return null;
    }
    k := new Kernel(src, size);
  }

  // The five 3x3 weight tables, row-major.
  const IdentityKernel: seq<real> := [0.0, 0.0, 0.0, 0.0, 1.0, 0.0, 0.0, 0.0, 0.0]
  const EdgeKernel: seq<real> := [0.0, -1.0, 0.0, -1.0, 4.0, -1.0, 0.0, -1.0, 0.0]
  const SharpenKernel: seq<real> := [0.0, -1.0, 0.0, -1.0, 5.0, -1.0, 0.0, -1.0, 0.0]
  const BoxKernel: seq<real> := [1.0 / 9.0, 1.0 / 9.0, 1.0 / 9.0, 1.0 / 9.0, 1.0 / 9.0, 1.0 / 9.0, 1.0 / 9.0, 1.0 / 9.0, 1.0 / 9.0]
  const GaussianKernel: seq<real> := [1.0 / 16.0, 2.0 / 16.0, 1.0 / 16.0, 2.0 / 16.0, 4.0 / 16.0, 2.0 / 16.0, 1.0 / 16.0, 2.0 / 16.0, 1.0 / 16.0]
}
