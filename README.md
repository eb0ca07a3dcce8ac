# RustyMark watermark placement, in Dafny

RustyMark stamps a copyright notice onto images: given an image, a text and
one of nine anchors, it computes where the text goes and draws it, then
writes the result next to the input as `watermarked_<name>`. This project
models the parts of `src/main.rs` that are plain logic:

- **Placement** (`placement.dfy`): the nine-anchor `Position` enum and the
  resolver `calculate_text_position`. `Resolve` is the release-build
  behaviour, with the `u32` subtraction wrapping, `as i32` reinterpreting the
  bits and `/ 2` truncating toward zero. `ResolveChecked` is the debug-build
  behaviour, where an overflowing subtraction panics (`None`). The margin is
  10 px, centring truncates and nothing is clamped.
- **RustInt** (`rust_int.dfy`): the Rust integer operations the resolver uses.
- **FilePath** (`file_path.dfy`): Unix paths as Rust's component iterator sees
  them, plus `file_name`, `extension` and `with_file_name`.
- **ImageFilter** (`image_filter.dfy`): `is_image_file`, i.e. whether the
  lower-cased extension is one of jpg, jpeg, png, gif, bmp, webp.
- **OutputName** (`output_name.dfy`): the output path `watermarked_<file name>`
  in the input's directory.
- **Config** (`config.dfy`): the configuration record, the default for each
  field, defaulting of absent fields, and the nine anchor tokens.

All of this code is pure, so it is modelled as functions and lemmas.

Three consequences of the code as written:

- Text wider than the image makes the `u32` subtraction `img_width - text_width`
  underflow. A debug build panics at every centre and right anchor
  (`DebugWideTextPanics`). A release build wraps, and the `as i32` cast turns
  the wrapped value back into the negative difference, so a centred text
  starts at minus half the overhang, rounded toward zero (`WideTextCentred`).
- The text box stays inside the margins only while the size difference d is
  below 2^31 (`InsideMargins`). From 2^31 on, `as i32` makes d negative
  (`HugeImageWraps`). The centre x is then at or left of the left edge, and is
  0 only for d = 2^32 - 1. The right x is negative once d is at least
  2^31 + 10. Between 2^31 and 2^31 + 10 the `- 10` wraps back, and the right x
  is the intended d - 10; a debug build panics there instead.
- The default text is the literal `Â© Copyright`. Its first two characters
  are the UTF-8 bytes of `©`, each read as one character
  (`DefaultTextIsUtf8Bytes`).

## Model

| member | source | states |
|---|---|---|
| `RustInt.WrappingSubU32` | src/main.rs:118 | `u32` subtraction in a release build: the exact difference when it is non-negative, otherwise 2^32 minus the shortfall |
| `RustInt.CheckedSubU32` | src/main.rs:118 | `u32` subtraction in a debug build panics exactly when the subtrahend is larger; otherwise it agrees with the wrapping result |
| `RustInt.CastU32ToI32` | src/main.rs:118 | `as i32` keeps the value modulo 2^32; it is unchanged below 2^31 and negative from 2^31 on |
| `RustInt.WrappingSubI32` | src/main.rs:119 | `i32` subtraction in a release build is exact when the difference fits; below the range it wraps up by 2^32, above it down by 2^32 |
| `RustInt.CheckedSubI32` | src/main.rs:119 | `i32` subtraction in a debug build panics exactly when the difference leaves the `i32` range |
| `RustInt.TruncDiv2` | src/main.rs:118 | `i32 / 2` rounds toward zero: the remainder has the dividend's sign and is at most 1 in size |
| `RustInt.TruncDiv2VersusEuclidean` | src/main.rs:118 | truncating and Euclidean halving agree on non-negative and even dividends and differ by one on negative odd ones |
| `Placement.At` | src/main.rs:78-97 | the anchor in a given row and column has that row and column |
| `Placement.AnchorGrid` | src/main.rs:78-97 | the nine anchors are exactly the 3×3 grid of rows and columns |
| `Placement.Centred` | src/main.rs:118 | a release-build centre is the true difference reduced to an `i32`, halved toward zero; while the difference fits an `i32` it is that difference halved toward zero |
| `Placement.FarSide` | src/main.rs:119 | a release-build right or bottom offset is the true `extent - size - 10` reduced to an `i32`; it is exactly that value while it fits |
| `Placement.ColumnX` | src/main.rs:116-138 | while W − tw fits an `i32` with room for the margin, x is 10, (W − tw) halved toward zero, or W − tw − 10 by column |
| `Placement.RowY` | src/main.rs:116-138 | the same for y with H − th, by row |
| `Placement.Resolve` | src/main.rs:108-139 | the nine-way match equals a column-only x computation paired with a row-only y computation |
| `Placement.XIgnoresRow` | src/main.rs:116-138 | x is the same for any two anchors in the same column, whatever the heights |
| `Placement.YIgnoresColumn` | src/main.rs:116-138 | y is the same for any two anchors in the same row, whatever the widths |
| `Placement.NearEdgesAtMargin` | src/main.rs:117-129 | `TopLeft` gives (10, 10) for every size; every left anchor has x = 10 and every top anchor y = 10 |
| `Placement.ResolveFormulas` | src/main.rs:116-138 | with tw ≤ W, th ≤ H and both differences below 2^31, x and y are 10, (d)/2 or d − 10 by column and row |
| `Placement.WorkedExample` | src/main.rs:134-137 | a 100×50 image with a 30×10 text box at `BottomRight` gives (60, 30) |
| `Placement.InsideMargins` | src/main.rs:116-138 | with tw + 20 ≤ W and th + 20 ≤ H (differences below 2^31), every anchor keeps the box inside all four margins |
| `Placement.AnchorsOrdered` | src/main.rs:117-137 | under the same condition, left ≤ centre ≤ right in x and top ≤ middle ≤ bottom in y |
| `Placement.NoClamping` | src/main.rs:119-136 | with tw ≤ W < tw + 10, right anchors give the negative x = W − tw − 10; likewise bottom anchors with y |
| `Placement.WideTextCentred` | src/main.rs:118 | in a release build, text wider than the image centres at minus half the overhang, rounded toward zero |
| `Placement.WideTextExample` | src/main.rs:118 | a 10 px image with 21 px text centres at x = −5, not −6 |
| `Placement.HugeImageWraps` | src/main.rs:118-119 | when d = W − tw is at least 2^31, the centre x is (d − 2^32) halved toward zero, ≤ 0 and 0 only for d = 2^32 − 1; the right x is d − 10 below 2^31 + 10 and the negative d − 10 − 2^32 from there on |
| `Placement.CheckedCentred` | src/main.rs:118 | a debug-build centre panics exactly when the text is larger than the image; otherwise it equals the release one |
| `Placement.CheckedFarSide` | src/main.rs:119 | a debug-build right or bottom offset panics exactly on the `u32` underflow or when the `- 10` leaves the `i32` range; otherwise it equals the release one |
| `Placement.ResolveChecked` | src/main.rs:108-139 | a debug build panics exactly when an axis its anchor evaluates overflows (`TopLeft` never), and otherwise returns the release-build point |
| `Placement.DebugSafeWhenTextFits` | src/main.rs:116-138 | text that fits, with differences below 2^31, never panics |
| `Placement.DebugWideTextPanics` | src/main.rs:118-136 | text wider than the image panics at every centre and right anchor |
| `FilePath.Split` | src/main.rs:228 | the pieces between separators: at least one, none holding a separator |
| `FilePath.JoinSplit` | src/main.rs:228 | joining the pieces of a string gives the string back |
| `FilePath.SplitJoin` | src/main.rs:178-180 | splitting pieces joined by separators gives the pieces back |
| `FilePath.Components` | src/main.rs:228 | empty and `.` pieces are dropped; the components kept hold no separator |
| `FilePath.Parse` | src/main.rs:228 | every parsed path is well formed |
| `FilePath.Render` | src/main.rs:178-181 | writing a well-formed path out and parsing it back gives the same path, root flag included |
| `FilePath.ParseSkipsEmptyAndDot` | src/main.rs:228 | `a/./b` and `a//b` have the same components |
| `FilePath.ParseAppend` | src/main.rs:228 | `dir/name` has the components of `dir` followed by `name` |
| `FilePath.ParseTrailingSeparator` | src/main.rs:228 | a trailing separator does not change the path |
| `FilePath.ParseName` | src/main.rs:228 | a bare name is a relative path of one component |
| `FilePath.FileNameOfString` | src/main.rs:179 | the file name of `dir/name` and of a bare `name` is `name`; there is none for the empty path, `/`, `.` and a path ending in `..` |
| `FilePath.Directory` | src/main.rs:178 | the directory is the path without its last component |
| `FilePath.WithFileName` | src/main.rs:178 | replacing the file name keeps the root flag and the directory (the whole path when it has no file name) and gives a path whose file name is the new one |
| `FilePath.LastDot` | src/main.rs:228 | the index of a `.` with no `.` after it, or none exactly when the name has no `.` |
| `FilePath.Extension` | src/main.rs:228 | an extension is the dot-free text after a `.` that has a non-empty stem before it |
| `FilePath.ExtensionOfJoin` | src/main.rs:228 | `stem.ext`, with a non-empty stem and a dot-free `ext`, has extension `ext` |
| `FilePath.ExtensionAbsent` | src/main.rs:228 | there is no extension exactly for `..`, for names without `.`, and for names whose only `.` is the first character |
| `FilePath.ExtensionAfterPrefix` | src/main.rs:179 | putting text in front of a name that has an extension keeps that extension |
| `ImageFilter.ToLower` | src/main.rs:229 | lower-casing a string keeps its length and lower-cases each character in place |
| `ImageFilter.ToLowerKeepsDots` | src/main.rs:229 | lower-casing neither adds nor removes a `.` |
| `ImageFilter.ImageNameHasSuffix` | src/main.rs:227-233 | a name whose lower-cased extension is one of the six ends, lower-cased, in `.` plus that extension with a non-empty stem |
| `ImageFilter.SuffixMakesImageName` | src/main.rs:227-233 | a name with such a suffix has an extension that lower-cases to one of the six |
| `ImageFilter.IsImageName` | src/main.rs:228-233 | a file name is accepted exactly when, lower-cased, it ends in `.` plus one of the six extensions with a non-empty stem |
| `ImageFilter.IsImageFile` | src/main.rs:227-234 | a path is accepted exactly when it has a file name with such a suffix |
| `ImageFilter.CaseInsensitive` | src/main.rs:229 | two names with the same lower-case form get the same verdict |
| `ImageFilter.LastExtensionDecides` | src/main.rs:228-230 | for `stem.ext`, only `ext` lower-cased decides, so `a.png.zip` is rejected |
| `ImageFilter.NoExtensionRejected` | src/main.rs:231-233 | a name without `.` is rejected |
| `ImageFilter.HiddenNameRejected` | src/main.rs:228 | a hidden name such as `.png` has no extension and is rejected |
| `ImageFilter.UpperCaseAccepted` | src/main.rs:229-230 | `<stem>.PNG` is accepted for every non-empty stem, `photo.2024.PNG` included |
| `ImageFilter.MixedCaseAccepted` | src/main.rs:229-230 | `<stem>.Jpeg` is accepted for every non-empty stem |
| `ImageFilter.FilterInDirectory` | src/main.rs:228 | in `dir/name` only `name` decides |
| `ImageFilter.FilterIgnoresTrailingSeparator` | src/main.rs:228 | a trailing separator does not change the verdict |
| `ImageFilter.ParentDirRejected` | src/main.rs:228 | a path ending in `..` has no file name and is rejected |
| `OutputName.OutputPath` | src/main.rs:178-180 | the output exists exactly when the input has a file name: same root and directory, file name `watermarked_` + name |
| `OutputName.OutputNeverOverwrites` | src/main.rs:178-180 | the output is a different path from the input, in the same directory, with a file name 12 characters longer |
| `OutputName.OutputOfBareName` | src/main.rs:178-180 | the output of a bare name is `watermarked_` + name |
| `OutputName.OutputOfImageIsImage` | src/main.rs:178-180 | the output of an image file is an image file too, so a second run over a directory also picks up earlier outputs |
| `OutputName.PrefixCreatesExtension` | src/main.rs:179 | the prefix turns a hidden name like `.png`, which has no extension, into `watermarked_.png`, which has one |
| `Config.ColorFromFields` | src/main.rs:56-74 | each colour component given is kept; an absent red, green or blue is 255 and an absent alpha 128 |
| `Config.ConfigFromFields` | src/main.rs:11-53 | each field given is kept; an absent field takes its default (`default_text` … `default_color`), and a given colour table is defaulted component by component |
| `Config.EmptyDocumentDefaults` | src/main.rs:30-74 | an empty document gives the `DEFAULT_*` values: the literal default text, the placeholder font path, 20.0, `BottomRight` and colour (255, 255, 255, 128) |
| `Config.ColorDefaultsAgree` | src/main.rs:46-74 | a missing colour table and an empty one give the same colour |
| `Config.CompleteDocumentKept` | src/main.rs:11-27 | a document that gives every field is taken exactly as written |
| `Config.FieldsIndependent` | src/main.rs:11-66 | each field of the result, and each colour component, depends on that field of the document alone |
| `Config.DefaultTextIsUtf8Bytes` | src/main.rs:31 | the default text is the two UTF-8 bytes of `©`, each read as one character, then ` Copyright` |
| `Config.ParsePosition` | src/main.rs:78-97 | only the nine tokens parse, each to the anchor that writes it |
| `Config.TokenRoundTrip` | src/main.rs:78-97 | every anchor's token parses back to that anchor, so the nine tokens are distinct |
| `Config.TokensAreSnakeCase` | src/main.rs:79-96 | the variant names themselves (`BottomRight`) are not tokens |

## Left out

- Glyph rasterisation and alpha compositing: `draw_text_mut` (src/main.rs:167-175) is a library call whose body is not part of this model.
- Text measurement: `text_size` and the font (src/main.rs:147-158) are library calls, and the scale is an `f32`. The text width and height are inputs of the resolver. The `as u32` cast of the measured `i32` size (src/main.rs:161) is not modelled.
- Image decoding, RGBA conversion and saving (src/main.rs:152, 164, 181) are library I/O.
- TOML parsing (src/main.rs:100-105) is not modelled. Only the per-field defaults and the anchor tokens are kept. A `None` from `ParsePosition` stands for the parser's rejection of an unknown token.
- Directory traversal, argument handling, messages and exit codes (src/main.rs:187-249) are filesystem and process plumbing. The batch policy is not modelled either:
  - the font is re-read for every file, so a bad font is a per-file logged error in directory mode;
  - a failed directory-entry read (`entry?`, src/main.rs:198) aborts the whole batch.
- The metadata step (src/main.rs:209-213) is commented out in the source.
- Config.DEFAULT_FONT_SIZE: 20.0 is kept only as its `f32` bit pattern; no float arithmetic is modelled.
- FilePath.Parse: only Unix paths are modelled. Rust keeps a leading `.` component, but `Parse` drops it, as it drops every empty and `.` component.
- OutputName.OutputPath: the output string writes the directory in normal form, while Rust's `with_file_name` keeps the parent's text as written. So `a//b/c.png` gives `a/b/watermarked_c.png`, where Rust writes `a//b/watermarked_c.png`, and `./a.png` gives `watermarked_a.png`, where Rust writes `./watermarked_a.png`. Each pair names the same file.
- FilePath.WithFileName: modelled only for a name that is a single component, which is all the source passes it.
- ImageFilter.ToLower: lower-cases ASCII letters only, while Rust's `to_lowercase` covers all of Unicode. The verdict is unaffected. The only non-ASCII character whose lower-case form is all ASCII is U+212A KELVIN SIGN, which gives `k`, and none of the six extensions contains `k`. Other non-ASCII characters keep a non-ASCII character after lower-casing; U+0130, for example, gives `i` followed by the combining mark U+0307. So an extension holding one can never lower-case to one of the six.
- ImageFilter.IsImageFile: paths are Dafny strings and so always valid Unicode. The non-UTF-8 branch (`unwrap_or("")`, src/main.rs:229) therefore never arises in the model; in the source it gives `false`. The same holds for the `to_str().unwrap()` panic at src/main.rs:179.
