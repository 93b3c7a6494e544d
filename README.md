# UnityPackedColor texture processor, modelled in Dafny

The texture processor is an editor tool. It takes up to three source textures, one per R, G and B slot, and packs them into:

- one *colour* image per present source, holding the two colour-difference channels (and a third, derived one) of that source;
- one shared *luminance* image, whose channel k holds the luminance of the source in slot k.

Each colour buffer can first be error-diffusion dithered to a 4-bit palette, and the luminance image can be dithered again. Six kernels are available (Floyd-Steinberg, Jarvis-Judice-Ninke, Burkes, Sierra-3, Sierra-2, Sierra-Lite), or none.

Before writing anything, `Process` does three things:

- It checks that every present source is readable and that all of them have the size of the first present one.
- It names the luminance file after the present sources, joined with `_`.
- It makes a folder whose path starts with the data-path string relative to the project (`Assets...`).

The model has six modules:

- `Wrappers`: `Option` and `Result`.
- `Pixels`: the `Color` struct, `Mathf.RoundToInt` (nearest, ties to even), `Mathf.Clamp01`, and the 1/16 palette snap.
- `Kernels`: the `DitheringType` enumeration and the kernel table `_ditheringCores`.
- `Dithering`:
  - `ProcessDithering` as an in-place method over an `array<Color>`, with its four nested loops;
  - proved equal to a specification function `Dither`, which processes the pixels one at a time in raster order (`DitheredBefore`, `DiffuseAt`).
- `ColorTransform`: the luminance and packed-colour formulas of the YCoCg and YCbCr variants. YCbCr uses the luma weights of item 3.2 of ITU-R BT.709 and the Cb/Cr coefficients of clause 7 of ITU-T T.871.
- `Packer`:
  - the validation loop (`Validate`) against `CheckSources`;
  - the folder rules (`ResolveTarget`);
  - the per-pixel packing loop (`PackChannel`);
  - all of `Process` as a method, proved equal to the function `Expected`. `Expected` gives the error, or the list of files written, each with folder, file name and pixels.

Floats are modelled as reals.

## Model

| member | source | states |
|---|---|---|
| Kernels.Ordinal | Scripts/Editor/TextureProcessor.cs:267-275 | the enumeration value is at most 6 and is 0 exactly for `None` |
| Kernels.KernelOf | Scripts/Editor/TextureProcessor.cs:28-66 | `_ditheringCores[(int) ditheringType - 1]` (line 101), defined only for a type other than `None`; `KernelsWellFormed` gives the shape of each kernel |
| Kernels.Anchor | Scripts/Editor/TextureProcessor.cs:102-104 | `(coreWth - 1) >> 1`: for an odd width, a column inside the kernel with as many columns right of it as left of it |
| Kernels.KernelsWellFormed | Scripts/Editor/TextureProcessor.cs:28-66 | every kernel of the table is rectangular with odd width, has non-negative weights summing to 1, and is zero in row 0 at and left of the anchor `(coreWth - 1) >> 1`; JJN and Sierra-3 have three rows, the others two; Floyd-Steinberg and Sierra-Lite are three wide, the others five |
| Pixels.RoundToInt | Scripts/Editor/TextureProcessor.cs:121-123 | the result is within 1/2 of the argument, and even on a tie |
| Pixels.RoundToIntUnique | Scripts/Editor/TextureProcessor.cs:121-123 | any integer within 1/2 that is even on a tie is the one `RoundToInt` gives |
| Pixels.Clamp01 | Scripts/Editor/TextureProcessor.cs:121-123 | the result is in [0, 1]; it is the argument inside [0, 1], 0 below and 1 above |
| Pixels.Quantize | Scripts/Editor/TextureProcessor.cs:121-123 | the snapped value is k/16 for an integer 0 <= k <= 16; a value in [0, 1] moves by at most 1/32; a value on the palette is kept; a value at or below 0 gives 0 and one at or above 1 gives 1 (the clamp) |
| Pixels.QuantizeIdempotent | Scripts/Editor/TextureProcessor.cs:121-123 | snapping twice is snapping once |
| Pixels.LevelOnGrid | Scripts/Editor/TextureProcessor.cs:99 | every k/16 with 0 <= k <= 16 is a palette value |
| Pixels.QuantizeColor | Scripts/Editor/TextureProcessor.cs:116-123 | r, g and b land on the palette and alpha is kept |
| Pixels.ErrorOf | Scripts/Editor/TextureProcessor.cs:126-128 | the quantisation error `r -= colData[offset].r` and likewise for g and b: snapped value plus error gives back the value, and its alpha is 0 |
| Pixels.SetChannel | Scripts/Editor/TextureProcessor.cs:226 | `color[k] = v` sets component k to v and leaves the other three alone |
| Pixels.AddScaled | Scripts/Editor/TextureProcessor.cs:137-139 | adding a weighted error keeps alpha, and a zero weight changes nothing |
| Dithering.Partly | Scripts/Editor/TextureProcessor.cs:130-143 | the buffer inside the coreY / coreX loops once the taps before (coreY, coreX) have run; keeps the length, and `PartlyStart`, `TapWritten`, `TapDropped`, `RowDropped`, `RowFinished` and `PartlyEnds` take it from the quantised buffer to `DiffuseAt` |
| Dithering.TapTarget | Scripts/Editor/TextureProcessor.cs:130-139 | a tap whose cell (i, j) is in the image writes offset `j * width + i`, which is inside the buffer and has row j and column i (no wrap into the next row); a tap of non-zero weight writes after the current pixel in raster order |
| Dithering.TapWritten | Scripts/Editor/TextureProcessor.cs:133-139 | an in-image tap changes its own cell by weight times error and no other cell |
| Dithering.TapDropped | Scripts/Editor/TextureProcessor.cs:133-134 | a tap whose column is outside the image writes nothing |
| Dithering.RowDropped | Scripts/Editor/TextureProcessor.cs:130-131 | a kernel row below the image writes nothing |
| Dithering.DiffuseAtFacts | Scripts/Editor/TextureProcessor.cs:115-143 | one pixel's step leaves every earlier pixel as it was, leaves the pixel as the palette snap of its value, and keeps every alpha |
| Dithering.EarlierTapsAreZero | Scripts/Editor/TextureProcessor.cs:130-139 | every tap reaching a pixel earlier in raster order has weight 0 |
| Dithering.BeforeIsOffsetOrder | Scripts/Editor/TextureProcessor.cs:113-115 | raster order is the order of flat offsets `y * width + x` |
| Dithering.DiffusePixel | Scripts/Editor/TextureProcessor.cs:115-143 | the body of the x loop turns the buffer into one step of the ditherer at (x, y) |
| Dithering.SpreadError | Scripts/Editor/TextureProcessor.cs:130-143 | the coreY / coreX loops add each in-image tap's share of the error, in loop order |
| Dithering.DitherRow | Scripts/Editor/TextureProcessor.cs:114-144 | one pass of the x loop processes row y |
| Dithering.ProcessDithering | Scripts/Editor/TextureProcessor.cs:94-146 | the new buffer is `Dither` of the old one |
| Dithering.Dither | Scripts/Editor/TextureProcessor.cs:94-146 | the length and every alpha are kept; "none" returns the buffer unchanged; with a kernel, every pixel's r, g and b are palette values |
| Dithering.DitheredBeforeKeepsAlpha | Scripts/Editor/TextureProcessor.cs:116-139 | no step of the scan changes an alpha |
| Dithering.DitheredBeforeOnGrid | Scripts/Editor/TextureProcessor.cs:113-143 | every pixel already visited is on the palette |
| Dithering.SnapSettled | Scripts/Editor/TextureProcessor.cs:113-143 | a visited pixel keeps, to the end of the scan, the value its own step gave it |
| Dithering.DitherIsSnapOnVisit | Scripts/Editor/TextureProcessor.cs:113-143 | every pixel of the result is the palette snap of the value it held when the scan reached it |
| Dithering.DitherKeepsZero | Scripts/Editor/TextureProcessor.cs:116-139 | a component (r, g or b) that is zero everywhere stays zero everywhere |
| Dithering.DitherAgrees | Scripts/Editor/TextureProcessor.cs:116-139 | r, g and b are dithered independently: two buffers that agree on one component give results that agree on it |
| Dithering.DiffuseAt | Scripts/Editor/TextureProcessor.cs:115-143 | one step of the x loop at (x, y) as a function of the buffer; keeps the length, and `DiffuseAtFacts`, `PartlyEnds` and `DiffusePixel` tie it to the code's loop body |
| Dithering.DitheredBefore | Scripts/Editor/TextureProcessor.cs:113-145 | the buffer after the steps before (x, y) in raster order; keeps the length, and `DitherRow`, `DitheredBeforeOnGrid`, `DitheredBeforeKeepsAlpha` and `SnapSettled` state what it holds |
| ColorTransform.Luminance | Scripts/Editor/TextureProcessor.cs:214-219 | `gs`: a grey pixel has its own level as luminance (each weight triple sums to 1), and a pixel in [0, 1] has luminance in [0, 1] |
| ColorTransform.Packed | Scripts/Editor/TextureProcessor.cs:213-225 | the packed colour has alpha 1 (`new Color(r, g, b)`); under YCoCg its blue is 1 minus its red |
| ColorTransform.YCoCgRoundTrip | Scripts/Editor/TextureProcessor.cs:213-216 | luminance, Co and Cg give back r, g and b |
| ColorTransform.YCbCrInjective | Scripts/Editor/TextureProcessor.cs:217-221 | two pixels with the same Y, Cb and Cr have the same r, g and b |
| ColorTransform.GreyPixel | Scripts/Editor/TextureProcessor.cs:214-224 | a grey pixel of level v has luminance v, Co = Cg = Cb = Cr = 0.5; the YCbCr third channel is 0.5 + 0.000000016 v |
| ColorTransform.GreyShift | Scripts/Editor/TextureProcessor.cs:214-224 | adding d to r, g and b adds d to the luminance and leaves the colour differences unchanged |
| ColorTransform.OutputsInRange | Scripts/Editor/TextureProcessor.cs:214-224 | a pixel in [0, 1] has its luminance and packed colour in [0, 1] |
| Packer.Message | Scripts/Editor/TextureProcessor.cs:163-187 | the four strings returned on lines 163, 170, 180 and 187; `MessageInjective` shows they tell the errors apart |
| Packer.Present | Scripts/Editor/TextureProcessor.cs:159-160 | the non-null sources among the first n, in order, at most n of them; `PresentPrefix` and `PresentAt` place each present source |
| Packer.Join | Scripts/Editor/TextureProcessor.cs:172-175 | the names joined with `_`; `JoinStep` shows it is what the loop's `gsName` updates build |
| Packer.CheckSources | Scripts/Editor/TextureProcessor.cs:155-181 | the result of validation; `Validate` is proved equal to it, and `CheckSourcesOk`, `UnreadableBeforeSize` and `SizeMismatchExample` state when it passes and which error wins |
| Packer.FirstOffender | Scripts/Editor/TextureProcessor.cs:159-171 | nothing is found exactly when every source is readable and of the size; otherwise the index found offends and none before it does |
| Packer.Validate | Scripts/Editor/TextureProcessor.cs:155-181 | the `foreach` over the sources with its `width`, `height` and `gsName` updates returns exactly `CheckSources` |
| Packer.CheckSourcesOk | Scripts/Editor/TextureProcessor.cs:159-181 | validation passes exactly when some source is present and every present source is readable and of the first present one's size |
| Packer.UnreadableBeforeSize | Scripts/Editor/TextureProcessor.cs:161-171 | an unreadable source is reported by name even when its size also differs |
| Packer.SizeMismatchExample | Scripts/Editor/TextureProcessor.cs:165-171 | readable sources of 4 x 4 and 8 x 8 pixels give the size error |
| Packer.NamesInSlotOrder | Scripts/Editor/TextureProcessor.cs:172-175 | with sources in the R and B slots, `gsName` is the R name, `_`, then the B name |
| Packer.JoinStep | Scripts/Editor/TextureProcessor.cs:172-175 | one more present source appends `_` and its name, or gives just its name when it is the first |
| Packer.PresentHasSize | Scripts/Editor/TextureProcessor.cs:165-171 | after validation every present source has the common size |
| Packer.MessageInjective | Scripts/Editor/TextureProcessor.cs:163-187 | different errors give different messages, and the name in the readability message is the source's |
| Packer.Target | Scripts/Editor/TextureProcessor.cs:183-185 | the given path, or the folder panel's answer when the path is null; `PathOverridesPanel` shows the panel does not matter once a path is given |
| Packer.ResolveTarget | Scripts/Editor/TextureProcessor.cs:183-193 | a refusal is always "Target path not defined"; an accepted folder is never empty and is either the target as given or starts with `Assets` |
| Packer.SiblingFolderRewritten | Scripts/Editor/TextureProcessor.cs:190-193 | the test is on the string: with data path `/p/Assets`, the sibling folder `/p/AssetsOld` becomes `AssetsOld` |
| Packer.TargetRefused | Scripts/Editor/TextureProcessor.cs:183-188 | the folder is refused, with "Target path not defined", exactly when the path (or the picked folder when the path is null) is empty |
| Packer.RelativePathRoundTrip | Scripts/Editor/TextureProcessor.cs:190-193 | a folder whose path starts with the data-path string becomes `Assets` followed by the rest, and putting the data path back gives the folder again |
| Packer.OutsidePathKept | Scripts/Editor/TextureProcessor.cs:190-193 | a folder whose path does not start with the data-path string is used as given |
| Packer.PathOverridesPanel | Scripts/Editor/TextureProcessor.cs:183-185 | a given path makes the folder panel's answer irrelevant |
| Packer.PackAll | Scripts/Editor/TextureProcessor.cs:206-225 | `colData` after the packing loop: every pixel replaced by its packed colour, so every alpha is 1; `GreyPixel` and `ColourFilesMatchSources` say what the colour file holds |
| Packer.WithLumas | Scripts/Editor/TextureProcessor.cs:206-226 | `gsData` after one source's loop: component `channel` of pixel i is the luminance of pixel i, and the other three components are as before; `LumaBufferLayout` builds on it |
| Packer.PackChannel | Scripts/Editor/TextureProcessor.cs:206-227 | every pixel of the colour buffer becomes its packed colour, and component `channel` of the luminance buffer becomes its luminance |
| Packer.PackSource | Scripts/Editor/TextureProcessor.cs:202-234 | a source's pixels are dithered, packed and written as `<name>.col.png`, and its luminance fills its channel |
| Packer.PackSources | Scripts/Editor/TextureProcessor.cs:201-242 | the channel loop writes the colour files of the present sources in slot order and fills the luminance buffer |
| Packer.LumaBufferLayout | Scripts/Editor/TextureProcessor.cs:195-226 | component k of a luminance pixel is the luminance of the dithered source k when it is present, and 0 otherwise; alpha stays 0 |
| Packer.ColourFilesMatchSources | Scripts/Editor/TextureProcessor.cs:201-234 | there is one colour file per present source, in order, named after it and holding its dithered pixels packed |
| Packer.AbsentChannelStaysBlack | Scripts/Editor/TextureProcessor.cs:195-252 | in the luminance file, the channel of an absent source is zero everywhere, whatever its ditherer |
| Packer.LumaBuffer | Scripts/Editor/TextureProcessor.cs:195-226 | `gsData` after the first `channel` slots, starting all zero; keeps width x height pixels, and `LumaBufferLayout` gives every component |
| Packer.ColourFiles | Scripts/Editor/TextureProcessor.cs:201-234 | the `.col.png` files of the first `channel` slots; `ColourFilesMatchSources` gives one per present source, in order |
| Packer.Outputs | Scripts/Editor/TextureProcessor.cs:195-255 | the files written once the checks pass: one per present source plus the luminance file, all in the target folder, the last named `<gsName>.gs.png` |
| Packer.Expected | Scripts/Editor/TextureProcessor.cs:153-258 | the error of the first failing check, else `Outputs`; `Process` is proved equal to it, and `GreyImage` works one case out |
| Packer.WriteOutputs | Scripts/Editor/TextureProcessor.cs:195-255 | the files written are the colour files, then the dithered luminance file `<gsName>.gs.png` |
| Packer.Process | Scripts/Editor/TextureProcessor.cs:153-258 | `Process` returns the first failing check's error, or the files that `Expected` lists |
| Packer.GreyImage | Scripts/Editor/TextureProcessor.cs:153-258 | one grey source of level v, no dithering: the colour file is flat 0.5 chroma with alpha 1, and the luminance file is (v, 0, 0, 0) |

## Left out

- The window and its UI: `OnEnable`, `OnGUI`, the menu item, dialogs and progress bars. The folder panel's answer is the parameter `picked`.
- Asset plumbing:
  - The importer lookup becomes the `readable` flag of a source (a missing importer counts as unreadable).
  - `Application.dataPath` is the parameter `dataPath`.
  - `GetPixels` is the `pixels` of a source.
- Output I/O:
  - `SetPixels`, `EncodeToPNG` and the RGB24 texture are left out: its 8-bit storage and the loss of alpha are not modelled.
  - `File.WriteAllBytes`, `DestroyImmediate`, `AssetDatabase.Refresh` and the exceptions they may raise (with their `ex.Message`) are left out.
  - A written file is the folder, the file name and the pixels. `Path.Combine` and `GenerateUniqueAssetPath` are not modelled.
- IEEE-754 single precision: the model computes over reals. Rounding of the decimal constants and of each accumulation is not modelled.
- `path.IndexOf(dataPath) == 0` is modelled as an ordinal prefix test. Culture-sensitive string comparison is not modelled.
- Enumeration values cast from integers outside the declared range, and texture sizes below zero (sizes are `nat`), are outside the model.
- Packer.Process and Packer.Expected require at least three sources. With fewer, the code still returns the validation errors and "Target path not defined"; `CheckSources` and `ResolveTarget` model those for any number of sources. Once both checks pass, `sources[channel]` throws, and that exception is not modelled. A null `sources` array, which throws at the `foreach`, is not modelled either. Sources beyond the third are validated and named, but not packed, as in the code.
- The per-pixel progress-bar call of the packing loop is left out.
- Conservation of the total quantisation error is not stated. The code does not promise it, and the taps that fall outside the image lose error.
- The method contracts of `ProcessDithering`, `DitherRow`, `DiffusePixel`, `SpreadError`, `PackChannel`, `PackSource` and `PackSources` are stated on the new array contents, against the functions `Dither`, `DitheredBefore`, `DiffuseAt`, `Partly`, `PackAll`, `WithLumas` and `LumaBuffer`. Their properties are proved as lemmas about those functions.
- The YCbCr third channel of a grey pixel is not exactly 0.5 as the code computes it. The coefficients on line 224 sum to 0.000000016 over the reals, so the grey-pixel lemma states 0.5 + 0.000000016 v. The other four colour differences are exactly 0.5.
