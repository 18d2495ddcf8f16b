# Image filter: convolution engine, filter list and argument parser

This project models the core of a small C program that applies a 3x3
convolution kernel (identity, edge, sharpen, box blur, gaussian blur) to an
image, and proves properties of the model in Dafny. Three pieces are modelled.

- **Convolution engine** (`main.c`). An `image_t` is a flat buffer of
  `width * height * channels` bytes. Sample `(x, y, z)` is at offset
  `(y * width + x) * channels + z`. A `kernel_t` is a row-major table of
  `size * size` weights. `apply_kernel` allocates a fresh image of the same
  dimensions. For every sample it sums `pixel * weight` over the kernel
  window centred on the sample. Neighbours outside the image count as 0.
  The sum is then converted to a byte.
- **Filter list** (`parse_filters` in `main.c`). It splits a C string on
  commas. Each token becomes the bit `1 << j` of the last of the six filter
  names it is a prefix of. The bits are OR-ed together. The result is -1 for
  NULL or for a token that matches no name.
- **Argument parser** (`ap.h`). Options are registered into a growable
  array. `ap_parser_parse` scans `argv` from left to right: a flag consumes
  one word, a value option consumes two and records the second, and any
  other word stops the scan. Parsing succeeds only when the scan ends
  exactly at `argc`.

Files:

- `wrappers.dfy` (module `Wrappers`): `Option`, which stands for a pointer that may be NULL.
- `raster.dfy` (module `Raster`): the `byte` type, offset arithmetic, the `Image` and `Kernel` classes with their value views `Grid` and `Weights`, `kernel_init`, and the five weight tables.
- `convolution.dfy` (module `Convolution`): the per-sample weighted sum as pure functions (`Sample`, `Term`, `RowSum`, `WindowSum`, `PixelSum`), the loops of `apply_kernel` verified against them, and lemmas about particular kernels.
- `filters.dfy` (module `FilterList`): `parse_filters` as a loop verified against a pure specification over the token list, and what its result means.
- `argparse.dfy` (module `ArgParse`): `ap_value` and `ap_parser` as classes, `ap_parser_add_argument`, and `ap_parser_parse` verified against the pure scan `Scan`.

Modelling choices:

- The `float` accumulator and weights are exact `real`s. The kernel tables are exact fractions (`1/9`, `2/16`, ...).
- The conversion `(char)sum` is a parameter `quantize: real -> byte` of `ApplyKernel`. `Truncate` is that conversion on `[0, 256)` for a target where plain `char` is unsigned; there C defines the cast only for sums in `(-1, 256)`. `ExactOnBytes` says that a conversion maps every whole byte value to itself, as the cast does where `char` is unsigned.
- C `int` sizes are `nat`, and every allocation succeeds.
- In `parse_filters`, the C `int`s `f` and `res` are 32-bit patterns (`bv32`); the returned `int` is their two's-complement value. `strncmp(token, name, len) == 0` is modelled by `StrncmpEq`. `StrncmpIsPrefix` proves that this is "the token is a prefix of the name".
- `Tokens` gives the tokens the loop compares. Every character except the last is split on commas. The last character always ends the last token, even when it is a comma (`main.c:132-137`).
- The short and long names of an option are `Option<string>`, because a name may be NULL. `strcmp(...) == 0` is string equality.
- `CString` says that a string holds no NUL character. `ParseFilters` requires it of the filter list. `Parse` requires it of every word of `argv` and (through `CNames`) of every registered option's non-NULL names, which the `ArgValue` constructor also requires. No C string can contain a NUL.
- `GaussianOnGradient` proves that the nine gaussian products at the centre of the 0..8 gradient image sum to 64/16 = 4 exactly, so the truncated byte is 4.
- `Parse` keeps a ghost map from each registered option object to its `Mark` (`is_exists`, `value`). Because the map is keyed by object, the same object registered twice behaves as in C.

## Model

| member | source | states |
|---|---|---|
| Raster.Offset | main.c:268-274 | when x, y and z are in range, the offset `(y*width+x)*channels+z` lies in `[0, width*height*channels)`, so a read that passes the bounds guard stays inside the buffer |
| Raster.OffsetInjective | main.c:256-281 | distinct in-range (x, y, z) have distinct offsets, so each output sample is written by exactly one loop iteration |
| Raster.OffsetOnto | main.c:256-281 | every buffer position is the offset of some in-range (x, y, z), so the loops cover the whole output buffer |
| Raster.Image.constructor | main.c:156-167 | `image_init`: the image stores the given width, height and channels, and owns a fresh buffer of `width*height*channels` samples |
| Raster.Kernel.constructor | main.c:215-224 | the kernel stores `size`, and its fresh table holds exactly the first `size*size` source weights, in order |
| Raster.KernelInit | main.c:205-226 | `kernel_init` returns NULL exactly when the weights are NULL; otherwise it returns a fresh kernel with that size and a copy of the first `size*size` weights |
| Convolution.ReadSample | main.c:264-275 | the guarded read returns the stored sample when the neighbour is inside the image and 0 when it is outside; it never clamps or wraps |
| Convolution.Sample | main.c:264-275 | a neighbour sample is a byte value in `[0, 256)`, and it can be non-zero only when the neighbour lies inside the image (zero padding) |
| Convolution.WeightedSum | main.c:259-279 | the two inner loops accumulate exactly `PixelSum`, the sum over all kernel cells of the zero-padded neighbour times its weight |
| Convolution.ApplyKernel | main.c:250-287 | the result is a fresh image with the input's width, height and channels; every in-range output sample is the converted weighted sum at its coordinates; the input buffer is unchanged |
| Convolution.DoneStep | main.c:281 | writing one output sample extends the part of the buffer already holding its final values, without disturbing samples written before |
| Convolution.FilledIsUnique | main.c:250-287 | the output is determined: two buffers that both hold the converted sums for the same input, kernel and conversion are equal |
| Convolution.Truncate | main.c:281 | where plain `char` is unsigned, on a sum in `[0, 256)` `(char)sum` gives the byte b with `b <= sum < b + 1` |
| Convolution.Expand3x3 | main.c:261-279 | for a 3x3 kernel the accumulated sum is the sum of the nine cell terms |
| Convolution.IdentityKernelKeepsSample | main.c:8 | under the identity table, the weighted sum at an in-range sample equals that sample |
| Convolution.IdentityFilterIsIdentity | main.c:250-287 | under the identity table and a conversion exact on whole bytes, the output buffer equals the input buffer |
| Convolution.UnitKernelScales | main.c:264-277 | with a 1x1 kernel, `img_x == x` and `img_y == y`, and the sum is the single weight times the sample |
| Convolution.SinglePixelSum | main.c:264-277 | on a 1x1 image, the eight off-image cells of a 3x3 kernel contribute 0, so the sum is the sample times the centre weight |
| Convolution.BoxBlurSinglePixel | main.c:11 | a 1x1 image with sample 10 under the box blur sums to 10/9, which truncates to 1 |
| Convolution.GaussianOnGradient | main.c:12 | the gaussian blur at the centre of the 3x3 gradient image with samples 0..8 sums to exactly 4 |
| Convolution.RowSumOfBlack | main.c:261-279 | a partial kernel row over an all-zero image sums to 0, whatever the weights |
| Convolution.WindowSumOfBlack | main.c:259-279 | every weighted sum over an all-zero image is 0, whatever the kernel |
| FilterList.BitIsShift | main.c:14-21 | the flag of filter type j is `1 << j` |
| FilterList.StrncmpIsPrefix | main.c:140 | comparing over the token's own length, `strncmp` reports equality exactly when the token is a prefix of the name |
| FilterList.LastMatch | main.c:139-142 | the index found is below the number of names searched |
| FilterList.LastMatchIsLast | main.c:139-142 | the selected name matches the token, no later name matches it, and no selection means no name matches |
| FilterList.TokenFlagCases | main.c:133-146 | a token's `f` is -1 exactly when no name matches it, and `1 << j` exactly when type j is the last match |
| FilterList.TokenFlag | main.c:133-142 | the inner loop leaves in `f` the flag of the last name the token prefixes, and -1 exactly when it prefixes none |
| FilterList.Split | main.c:131-150 | a string always has at least one comma-separated segment |
| FilterList.SplitHasNoComma | main.c:131-150 | no segment contains a comma |
| FilterList.JoinSplit | main.c:131-150 | joining the segments with commas gives back the string |
| FilterList.SplitJoin | main.c:131-150 | splitting comma-free tokens joined with commas gives back the tokens |
| FilterList.Tokens | main.c:131-137 | the list is empty exactly when there are no tokens, and otherwise joining the tokens with commas gives back the whole list, trailing comma included |
| FilterList.TokensAreSegments | main.c:131-137 | when the list does not end in a comma, the tokens compared are its comma-separated segments |
| FilterList.ScanIsCombine | main.c:126-153 | the loop started on the whole string returns -1 if some token's flag is -1, and otherwise the OR of all token flags |
| FilterList.ParseFilters | main.c:121-154 | `parse_filters` returns the value of the specification `FilterFlags`, and -1 for NULL |
| FilterList.FilterFlagsMeaning | main.c:121-154 | the result is -1 when some token matches no name, and otherwise the sum of `1 << j` over the types the tokens select |
| FilterList.FlagsInRange | main.c:128-153 | the result is -1 or a mask in `[0, 63]` |
| FilterList.SameTokensSameFlags | main.c:148 | lists with the same set of tokens give the same result: token order and duplicates do not matter |
| FilterList.TrailingCommaFails | main.c:132-137 | a list ending in a comma returns -1, because the comma is compared as part of the last token |
| FilterList.EmptyListIsZero | main.c:126-131 | the empty string returns 0 |
| FilterList.EmptyTokenSelectsLast | main.c:139-142 | an empty token (as in `"a,,b"`) is a prefix of every name, so it selects `unsharp-masking`, bit 5 |
| FilterList.GaussSelectsGaussianBlur | main.c:140 | the abbreviation "gauss" selects `gaussian-blur` |
| FilterList.ESelectsEdge | main.c:140 | "e" selects `edge` |
| FilterList.EdgesSelectsNothing | main.c:140 | "edges" is longer than `edge` and selects nothing |
| ArgParse.ArgValue.constructor | ap.h:46-61 | `ap_value_init` stores type, description, short and long name; `is_exists` is 0 and `value` is NULL |
| ArgParse.ArgParser.constructor | ap.h:71-82 | `ap_parser_init` gives `len == 0`, `cap == 0`, `values == NULL` and no entries |
| ArgParse.AddArgument | ap.h:93-114 | -1 and nothing changed when the parser or the value is NULL; otherwise returns 0, appends the value after the unchanged earlier entries, increases `len` by 1, grows `cap` by 8 into a fresh array only when `len >= cap`, and keeps `len <= cap` |
| ArgParse.FindArg | ap.h:124-127 | the option found is named by the word and no earlier registered option is; nothing is found exactly when no option is named by the word |
| ArgParse.Lookup | ap.h:124-141 | the inner loop stops at the index of the first option named by the word, or at `len` when there is none |
| ArgParse.Visit | ap.h:128-139 | one matched word marks its option as seen; a flag advances by 1; a value option records the next word and advances by 2, or fails in last position |
| ArgParse.Parse | ap.h:116-150 | -1 for a NULL parser; otherwise 0 exactly when the scan from `argv[1]` succeeds, and every registered option ends with the `is_exists` and `value` the scan gives it |
| ArgParse.ScanStep | ap.h:128-137 | one step of the scan at a word naming a flag or a value option |
| ArgParse.RegisteredIsEntries | ap.h:124-125 | every registered option is in the set of objects parsing may change |
| ArgParse.ScanKeepsSeen | ap.h:128 | the scan never clears `is_exists` and keeps exactly the same options |
| ArgParse.ScanChangesOnlyNamed | ap.h:124-139 | an option whose record changes is named by some remaining word, and a value it records is the word right after one of its names |
| ArgParse.FlagsOnlySucceed | ap.h:121-149 | when every remaining word names a registered flag, the scan succeeds and marks each of those flags |
| ArgParse.UnknownWordFails | ap.h:142-149 | a word naming no registered option stops the scan with failure and changes nothing more |
| ArgParse.TrailingValueFails | ap.h:132-134 | a value option as the last word fails, after it has been marked as seen |
| ArgParse.UnvisitedKeepsRecord | ap.h:121-149 | when the scan never visits an option, that option's record (`is_exists`, `value`) ends as it started |
| ArgParse.LastVisitDecides | ap.h:128-139 | when the scan arrives at a word naming a value option that has an argument, and never visits that option again, the option ends seen with that argument as its value, whether or not the scan succeeds |
| ArgParse.RepeatedValueKeepsLast | ap.h:128-139 | a value option given twice, with any registered options between the two, ends with the argument of its second occurrence unless the scan visits it a third time |
| ArgParse.InterleavedRepeatKeepsLast | ap.h:121-149 | `-i a -v -i b` with `-v` a flag succeeds, and `-i` ends seen with value `b` |
| ArgParse.EdgeArgc | ap.h:121-149 | with only the program name the scan succeeds and changes nothing; with `argc == 0` it fails, because `i` starts past `argc` |

## Left out

- `main` (main.c:47-119): command-line glue that prints and calls `exit`. It ignores the filter mask and always applies the box kernel.
- `image_load`, `image_free`: they call into stb_image, which is not part of this model.
- `image_load` asks stb_image for 3 channels but stores the file's own channel count (main.c:176, 189), so its buffer need not be `width*height*channels` bytes long. `apply_kernel` reads the buffer assuming that length. The model assumes the invariant that `image_init` establishes (`Image.Valid()`), and does not model an image loaded with a different channel count.
- `image_save`: file output with `fopen`/`fprintf`/`fwrite`.
- `kernel_free`, `ap_value_delete`, `ap_parser_delete`: deallocation only.
- `ap_parser_help`: `printf` formatting and `strcat` into a fixed 120-byte buffer.
- Allocation failure: `malloc` always succeeds in the model. So the NULL returns of `image_init`, `kernel_init`, `ap_value_init`, `ap_parser_init` and `apply_kernel`, and the -1 of `ap_parser_add_argument` on a failed `malloc`, are not modelled. On that last path the C code has already raised `cap` by 8 and does not restore it.
- `int` overflow of `width * height * channels`, of `size * size`, and of `len`/`cap`: sizes are unbounded `nat`s.
- IEEE single-precision rounding of the `float` weights and accumulator: the model uses exact reals, so 1/9 is exact.
- Convolution.ApplyKernel: the conversion `(char)sum` is an arbitrary function parameter, because its meaning depends on whether plain `char` is signed. Where `char` is unsigned, C defines it for sums in `(-1, 256)` only (`Truncate`). Where `char` is signed (the usual x86 targets), sums in `(-129, 128)` are defined, and a negative one wraps when it is stored in the `unsigned char` buffer at `main.c:281` (a sum of -5 becomes 251), while sums of 128 or more are undefined. The model leaves both of these abstract.
- Raster.Kernel.constructor: requires at least `size * size` source weights, because C reads them without a bound (reading fewer is undefined behaviour). It does not require `size` to be odd: the C code does not check this either.
