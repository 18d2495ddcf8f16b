/**
 * The convolution engine (`apply_kernel`): every output sample is the
 * weighted sum of the input's neighbourhood around it, with samples that
 * fall outside the image counted as zero, then converted to a byte.
 */
module Convolution {
  import opened Raster

  /** The sample `apply_kernel` reads at (x, y, z): the stored byte when inside the image, 0 outside. */
  function Sample(g: Grid, x: int, y: int, z: int): (r: real)
    requires g.Valid()
    ensures 0.0 <= r < 256.0
    ensures r != 0.0 ==> 0 <= x < g.width && 0 <= y < g.height && 0 <= z < g.channels
  {
    if x < 0 || x >= g.width || y < 0 || y >= g.height || z < 0 || z >= g.channels then
      0.0
    else
      g.samples[Offset(g.width, g.height, g.channels, x, y, z)] as real
  }

  /** Weight at kernel cell (kx, ky), stored row-major at `ky * size + kx`. */
  function Weight(k: Weights, kx: nat, ky: nat): real
    requires k.Valid() && kx < k.size && ky < k.size
  {
    k.w[Offset(k.size, k.size, 1, kx, ky, 0)]
  }

  /** Contribution of kernel cell (kx, ky) to output (x, y, z): the neighbour offset from (x, y) by the cell's distance to the centre. */
  function Term(g: Grid, k: Weights, x: int, y: int, z: int, ky: nat, kx: nat): real
    requires g.Valid() && k.Valid() && kx < k.size && ky < k.size
  {
    Sample(g, x - (k.size / 2 - kx), y - (k.size / 2 - ky), z) * Weight(k, kx, ky)
  }

  /** Sum of the first `n` terms of kernel row `ky`. */
  function RowSum(g: Grid, k: Weights, x: int, y: int, z: int, ky: nat, n: nat): real
    requires g.Valid() && k.Valid() && ky < k.size && n <= k.size
  {
    if n == 0 then 0.0 else RowSum(g, k, x, y, z, ky, n - 1) + Term(g, k, x, y, z, ky, n - 1)
  }

  /** Sum over the first `m` kernel rows. */
  function WindowSum(g: Grid, k: Weights, x: int, y: int, z: int, m: nat): real
    requires g.Valid() && k.Valid() && m <= k.size
  {
    if m == 0 then 0.0 else WindowSum(g, k, x, y, z, m - 1) + RowSum(g, k, x, y, z, m - 1, k.size)
  }

  /** The weighted sum accumulated for output sample (x, y, z) before quantization. */
  function PixelSum(g: Grid, k: Weights, x: int, y: int, z: int): real
    requires g.Valid() && k.Valid()
  {
    WindowSum(g, k, x, y, z, k.size)
  }

  /**
   * The bounds-guarded read inside `apply_kernel`: a neighbour outside the
   * image reads as 0; otherwise the read index lies inside the buffer and
   * the stored sample is returned.
   */
  method ReadSample(input: Image, x: int, y: int, z: int) returns (pixel: byte)
    requires input.Valid()
    ensures pixel as real == Sample(input.View(), x, y, z)
    ensures !(0 <= x < input.width && 0 <= y < input.height && 0 <= z < input.channels) ==> pixel == 0
  {
    pixel := 0;
    if x < 0 || x >= input.width || y < 0 || y >= input.height || z < 0 || z >= input.channels {
      pixel := 0;
    } else {
      pixel := input.data[Offset(input.width, input.height, input.channels, x, y, z)];
    }
  }

  /**
   * The two innermost loops of `apply_kernel`: accumulate the weighted sum
   * for one output sample.
   */
  method WeightedSum(input: Image, kernel: Kernel, x: int, y: int, z: int) returns (sum: real)
    requires input.Valid() && kernel.Valid()
    ensures sum == PixelSum(input.View(), kernel.View(), x, y, z)
  {
    ghost var g := input.View();
    ghost var k := kernel.View();
    var size: int := kernel.size;
    sum := 0.0;
    var ky: int := 0;
    while ky < size
      invariant 0 <= ky <= size
      invariant sum == WindowSum(g, k, x, y, z, ky)
    {
      var kx: int := 0;
      while kx < size
        invariant 0 <= kx <= size
        invariant sum == WindowSum(g, k, x, y, z, ky) + RowSum(g, k, x, y, z, ky, kx)
      {
        var imgX := x - (size / 2 - kx);
        var imgY := y - (size / 2 - ky);
        var pixel := ReadSample(input, imgX, imgY, z);
        sum := sum + pixel as real * kernel.data[Offset(size, size, 1, kx, ky, 0)];
        kx := kx + 1;
      }
      ky := ky + 1;
    }
  }

  /**
   * `apply_kernel`. The conversion `(char)sum` of the source is the
   * parameter `quantize` (see `Truncate` for the conversion where plain
   * `char` is unsigned).
   * The result is a fresh image of the input's dimensions whose every sample
   * is the quantized weighted sum at its coordinates; the input is read only.
   */
  method ApplyKernel(input: Image, kernel: Kernel, quantize: real -> byte) returns (result: Image)
    requires input.Valid() && kernel.Valid()
    ensures fresh(result) && fresh(result.data) && result.Valid()
    ensures result.width == input.width && result.height == input.height && result.channels == input.channels
    ensures input.data[..] == old(input.data[..])
    ensures Filled(result.data[..], input.View(), kernel.View(), quantize)
  {
    result := new Image(input.width, input.height, input.channels);
    ghost var g := input.View();
    ghost var k := kernel.View();
    var y := 0;
    while y < input.height
      invariant 0 <= y <= input.height
      invariant Done(result.data[..], g, k, quantize, Offset(g.width, g.height, g.channels, 0, y, 0))
    {
      var x := 0;
      while x < input.width
        invariant 0 <= x <= input.width
        invariant Done(result.data[..], g, k, quantize, Offset(g.width, g.height, g.channels, x, y, 0))
      {
        var z := 0;
        while z < input.channels
          invariant 0 <= z <= input.channels
          invariant Done(result.data[..], g, k, quantize, Offset(g.width, g.height, g.channels, x, y, z))
        {
          var sum := WeightedSum(input, kernel, x, y, z);
          ghost var before := result.data[..];
          result.data[Offset(result.width, result.height, result.channels, x, y, z)] := quantize(sum);
          DoneStep(before, result.data[..], g, k, quantize, x, y, z);
          z := z + 1;
        }
        NextPixel(g.width, g.height, g.channels, x, y);
        x := x + 1;
      }
      NextRow(g.width, g.height, g.channels, y);
      y := y + 1;
    }
    DoneAll(result.data[..], g, k, quantize);
  }

  /** Every in-range output sample (x, y, z) holds the quantized weighted sum at (x, y, z). */
  ghost predicate Filled(out: seq<byte>, g: Grid, k: Weights, quantize: real -> byte)
    requires g.Valid() && k.Valid() && |out| == |g.samples|
  {
    forall x, y, z :: 0 <= x < g.width && 0 <= y < g.height && 0 <= z < g.channels ==>
      out[Offset(g.width, g.height, g.channels, x, y, z)] == quantize(PixelSum(g, k, x, y, z))
  }

  /** Every in-range (x, y, z) whose offset is below `n` holds its quantized weighted sum. */
  ghost predicate Done(out: seq<byte>, g: Grid, k: Weights, quantize: real -> byte, n: int)
    requires g.Valid() && k.Valid() && |out| == |g.samples|
  {
    forall x, y, z ::
      (0 <= x < g.width && 0 <= y < g.height && 0 <= z < g.channels && Offset(g.width, g.height, g.channels, x, y, z) < n) ==>
      out[Offset(g.width, g.height, g.channels, x, y, z)] == quantize(PixelSum(g, k, x, y, z))
  }

  /** Writing the sum for (x, y, z) at its offset extends `Done` by that offset: offsets are injective. */
  lemma DoneStep(before: seq<byte>, after: seq<byte>, g: Grid, k: Weights, quantize: real -> byte, x: int, y: int, z: int)
    requires g.Valid() && k.Valid() && |before| == |g.samples|
    requires 0 <= x < g.width && 0 <= y < g.height && 0 <= z < g.channels
    requires Done(before, g, k, quantize, Offset(g.width, g.height, g.channels, x, y, z))
    requires after == before[Offset(g.width, g.height, g.channels, x, y, z) := quantize(PixelSum(g, k, x, y, z))]
    ensures Done(after, g, k, quantize, Offset(g.width, g.height, g.channels, x, y, z + 1))
  {
    var o := Offset(g.width, g.height, g.channels, x, y, z);
    forall x', y', z' | 0 <= x' < g.width && 0 <= y' < g.height && 0 <= z' < g.channels &&
      Offset(g.width, g.height, g.channels, x', y', z') < o + 1
      ensures after[Offset(g.width, g.height, g.channels, x', y', z')] == quantize(PixelSum(g, k, x', y', z'))
    {
      if Offset(g.width, g.height, g.channels, x', y', z') == o {
        OffsetInjective(g.width, g.height, g.channels, x', y', z', x, y, z);
      }
    }
  }

  lemma NextPixel(width: nat, height: nat, channels: nat, x: int, y: int)
    ensures Offset(width, height, channels, x, y, channels) == Offset(width, height, channels, x + 1, y, 0)
  {
  }

  lemma NextRow(width: nat, height: nat, channels: nat, y: int)
    ensures Offset(width, height, channels, width, y, 0) == Offset(width, height, channels, 0, y + 1, 0)
  {
  }

  /** Once every offset below the buffer size is done, every in-range sample is. */
  lemma DoneAll(out: seq<byte>, g: Grid, k: Weights, quantize: real -> byte)
    requires g.Valid() && k.Valid() && |out| == |g.samples|
    requires Done(out, g, k, quantize, Offset(g.width, g.height, g.channels, 0, g.height, 0))
    ensures Filled(out, g, k, quantize)
  {
    assert Offset(g.width, g.height, g.channels, 0, g.height, 0) == g.width * g.height * g.channels;
  }

  /** The output is determined: two buffers that both satisfy `Filled` for the same input, kernel and conversion are equal. */
  lemma FilledIsUnique(a: seq<byte>, b: seq<byte>, g: Grid, k: Weights, quantize: real -> byte)
    requires g.Valid() && k.Valid() && |a| == |g.samples| && |b| == |g.samples|
    requires Filled(a, g, k, quantize) && Filled(b, g, k, quantize)
    ensures a == b
  {
    forall o | 0 <= o < |a|
      ensures a[o] == b[o]
    {
      OffsetOnto(g.width, g.height, g.channels, o);
    }
  }

  /**
   * `(char)sum` on a target where plain `char` is unsigned: a sum in
   * [0, 256) is truncated toward zero, and the byte stored is that value.
   * (C also defines sums in (-1, 0), which truncate to 0; any other sum is
   * undefined behaviour there.)
   */
  function Truncate(v: real): (b: byte)
    requires 0.0 <= v < 256.0
    ensures b as real <= v < b as real + 1.0
  {
    v.Floor as byte
  }

  /** A byte's value as a real. */
  function ByteValue(b: byte): real
  {
    b as real
  }

  /**
   * A conversion that maps every exact byte value to itself, as `(char)`
   * does where plain `char` is unsigned.
   */
  ghost predicate ExactOnBytes(quantize: real -> byte)
  {
    forall b: byte :: quantize(ByteValue(b)) == b
  }

  /** A 3x3 kernel sums nine terms, one per cell. */
  lemma {:induction false} Expand3x3(g: Grid, k: Weights, x: int, y: int, z: int)
    requires g.Valid() && k.Valid() && k.size == 3
    ensures PixelSum(g, k, x, y, z) ==
      Term(g, k, x, y, z, 0, 0) + Term(g, k, x, y, z, 0, 1) + Term(g, k, x, y, z, 0, 2) +
      Term(g, k, x, y, z, 1, 0) + Term(g, k, x, y, z, 1, 1) + Term(g, k, x, y, z, 1, 2) +
      Term(g, k, x, y, z, 2, 0) + Term(g, k, x, y, z, 2, 1) + Term(g, k, x, y, z, 2, 2)
  {
    forall ky | 0 <= ky < 3
      ensures RowSum(g, k, x, y, z, ky, 3) == Term(g, k, x, y, z, ky, 0) + Term(g, k, x, y, z, ky, 1) + Term(g, k, x, y, z, ky, 2)
    {
      assert RowSum(g, k, x, y, z, ky, 1) == Term(g, k, x, y, z, ky, 0);
      assert RowSum(g, k, x, y, z, ky, 2) == Term(g, k, x, y, z, ky, 0) + Term(g, k, x, y, z, ky, 1);
    }
    assert WindowSum(g, k, x, y, z, 1) == RowSum(g, k, x, y, z, 0, 3);
    assert WindowSum(g, k, x, y, z, 2) == RowSum(g, k, x, y, z, 0, 3) + RowSum(g, k, x, y, z, 1, 3);
    assert WindowSum(g, k, x, y, z, 3) == RowSum(g, k, x, y, z, 0, 3) + RowSum(g, k, x, y, z, 1, 3) + RowSum(g, k, x, y, z, 2, 3);
  }

  /** The identity kernel reproduces the input sample at every in-range position. */
  lemma IdentityKernelKeepsSample(g: Grid, x: int, y: int, z: int)
    requires g.Valid() && 0 <= x < g.width && 0 <= y < g.height && 0 <= z < g.channels
    ensures PixelSum(g, Weights(3, IdentityKernel), x, y, z) == g.samples[Offset(g.width, g.height, g.channels, x, y, z)] as real
  {
    var k := Weights(3, IdentityKernel);
    Expand3x3(g, k, x, y, z);
    assert Weight(k, 1, 1) == 1.0;
    assert Weight(k, 0, 0) == 0.0 && Weight(k, 1, 0) == 0.0 && Weight(k, 2, 0) == 0.0;
    assert Weight(k, 0, 1) == 0.0 && Weight(k, 2, 1) == 0.0;
    assert Weight(k, 0, 2) == 0.0 && Weight(k, 1, 2) == 0.0 && Weight(k, 2, 2) == 0.0;
  }

  /** Convolving with the identity kernel, under a conversion exact on bytes, returns the input buffer unchanged. */
  lemma IdentityFilterIsIdentity(out: seq<byte>, g: Grid, quantize: real -> byte)
    requires g.Valid() && |out| == |g.samples| && ExactOnBytes(quantize)
    requires Filled(out, g, Weights(3, IdentityKernel), quantize)
    ensures out == g.samples
  {
    forall o | 0 <= o < |out|
      ensures out[o] == g.samples[o]
    {
      OffsetOnto(g.width, g.height, g.channels, o);
      var p := o / g.channels;
      IdentityKernelKeepsSample(g, p % g.width, p / g.width, o % g.channels);
      assert ByteValue(g.samples[o]) == g.samples[o] as real;
    }
  }

  /** A 1x1 kernel involves no neighbourhood: the sum is its one weight times the sample itself. */
  lemma UnitKernelScales(g: Grid, w0: real, x: int, y: int, z: int)
    requires g.Valid()
    ensures PixelSum(g, Weights(1, [w0]), x, y, z) == Sample(g, x, y, z) * w0
  {
    var k := Weights(1, [w0]);
    assert WindowSum(g, k, x, y, z, 1) == RowSum(g, k, x, y, z, 0, 1);
    assert Weight(k, 0, 0) == w0;
  }

  /** Zero padding: on a 1x1 image the eight off-image cells of a 3x3 kernel contribute nothing. */
  lemma SinglePixelSum(s: byte, k: Weights)
    requires k.Valid() && k.size == 3
    ensures PixelSum(Grid(1, 1, 1, [s]), k, 0, 0, 0) == s as real * k.w[4]
  {
    var g := Grid(1, 1, 1, [s]);
    Expand3x3(g, k, 0, 0, 0);
    assert Sample(g, 0, 0, 0) == s as real;
    assert Weight(k, 1, 1) == k.w[4];
  }

  /** A 1x1 image with sample 10 under the 3x3 box blur has sum 10/9, which truncates to 1. */
  lemma BoxBlurSinglePixel()
    ensures PixelSum(Grid(1, 1, 1, [10]), Weights(3, BoxKernel), 0, 0, 0) == 10.0 / 9.0
    ensures Truncate(10.0 / 9.0) == 1
  {
  }

  /** The 3x3 gaussian blur at the centre of the gradient image 0..8 sums to 64/16, exactly 4. */
  lemma GaussianOnGradient()
    ensures PixelSum(Grid(3, 3, 1, [0, 1, 2, 3, 4, 5, 6, 7, 8]), Weights(3, GaussianKernel), 1, 1, 0) == 4.0
    ensures Truncate(4.0) == 4
  {
  }

  /** A partial row over an all-zero image sums to zero, whatever the weights. */
  lemma {:induction false} RowSumOfBlack(g: Grid, k: Weights, x: int, y: int, z: int, ky: nat, n: nat)
    requires g.Valid() && k.Valid() && ky < k.size && n <= k.size
    requires forall i :: 0 <= i < |g.samples| ==> g.samples[i] == 0
    ensures RowSum(g, k, x, y, z, ky, n) == 0.0
  {
    if n > 0 {
      RowSumOfBlack(g, k, x, y, z, ky, n - 1);
    }
  }

  /** Every weighted sum over an all-zero image is zero, whatever the kernel. */
  lemma {:induction false} WindowSumOfBlack(g: Grid, k: Weights, x: int, y: int, z: int, m: nat)
    requires g.Valid() && k.Valid() && m <= k.size
    requires forall i :: 0 <= i < |g.samples| ==> g.samples[i] == 0
    ensures WindowSum(g, k, x, y, z, m) == 0.0
  {
    if m > 0 {
      WindowSumOfBlack(g, k, x, y, z, m - 1);
      RowSumOfBlack(g, k, x, y, z, m - 1, k.size);
    }
  }
}
