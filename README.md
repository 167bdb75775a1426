# COCO conversion and `afunc`, modelled in Dafny

This project models two small Python programs and proves what they do.

**The COCO conversion script** (`07_COCO/submissions/yang7081.py`) reads a
manifest whose lines after the header are
`image_name,object_id,category_id,mask_name`. It gives every distinct image
name a 1-based id in order of first appearance, adds one image record the
first time a name is seen, adds one annotation per line with a running
counter, and writes the image and annotation lists together with the
categories of a reference file as one COCO document.

- `CocoConvert` (coco_spec.dfy) is the specification. It holds the records,
  the script's five running tables as a value (`State`), one loop iteration
  as a function (`Step`, built from `RegisterImage`, `ProcessMask`,
  `CategoryId` and `AddAnnotation`), the loop over all data lines (`Replay`)
  and the whole run (`Assemble`). It also holds the lemmas about them.
- `CocoBuilder` (coco_builder.dfy) is the script as it runs. The tables are
  the fields of a `Converter` object. Its methods update them in place in
  the script's own order, including the partial updates left behind when an
  exception kills the run. `Convert` is the loop. Each method is proved
  against the matching function of `CocoConvert`.
- `Text` (text.dfy) models the Python string builtins the script relies on:
  `str.strip()`, `str.split(",")` and `int()`. Each comes with a partner that
  pins it down: the exact shape of what strip removes, `join` as the inverse
  of split, and for `int` both directions of a characterisation of the
  accepted text (whitespace, an optional sign, leading zeros, `str` of the
  absolute value, whitespace). The whitespace `int()` skips is that of
  `str.isspace()` without the four information separators U+001C-U+001F,
  which `int()` refuses wherever they appear.

The two foreign calls are parameters of the model, bundled in `Env`:

- `cv2.imread(name).shape[:2]` is a size lookup that may fail.
- `process_mask` returns an opaque `(rle, area, bbox)` triple or fails.

**`afunc`** (`06_argparser/submissions/yang7081.py`) is modelled in `ArrayOp`
(array_op.dfy). It checks that its two arrays have the same shape, then that
`pow` is an int, then that the mode is `"+"` or `"-"`. It returns
`(arr1 ± arr2) ** pow` elementwise. Arrays are one-dimensional, as
`seq<int>`. The three failures are the cases of `AfuncError`, reported in the
order the function checks them.

`Wrappers` (wrappers.dfy) holds the `Option` and `Result` types used for
Python's failures.

## Model

| member | source | states |
|---|---|---|
| ArrayOp.ParseMode | 06_argparser/submissions/yang7081.py:8-13 | mode "+" selects addition and "-" selects subtraction, each if and only if; any other mode selects nothing |
| ArrayOp.Combine | 06_argparser/submissions/yang7081.py:8-11 | the elementwise sum or difference has the inputs' length, and element i is `a[i] op b[i]` |
| ArrayOp.Power | 06_argparser/submissions/yang7081.py:15 | `b ** e` with `0 ** 0 == 1`: the result is 0 exactly when the base is 0 and the exponent positive, an even power is never negative, and an odd power is negative exactly when the base is; `PowerTwo` and `PowerOfNegation` relate it to squaring and to a negated base |
| ArrayOp.PowerAll | 06_argparser/submissions/yang7081.py:15 | `result ** pow` keeps the length, and element i is `result[i] ** pow` |
| ArrayOp.Afunc | 06_argparser/submissions/yang7081.py:4-16 | it fails with the size error exactly when the lengths differ; with the pow-type error exactly when the lengths agree and pow is not an int; with ValueError(mode) exactly when both checks pass and the mode is neither "+" nor "-"; otherwise it succeeds with a result of the common length whose element i is `(arr1[i] ± arr2[i]) ** pow` |
| ArrayOp.DefaultIsSquaredSum | 06_argparser/submissions/yang7081.py:4-15 | with the default arguments, equal-length arrays give `(a[i] + b[i]) ** 2` elementwise |
| ArrayOp.PlusIsSymmetric | 06_argparser/submissions/yang7081.py:8-15 | mode "+" gives the same outcome, success or error, when the arrays are swapped |
| ArrayOp.MinusUnderSwap | 06_argparser/submissions/yang7081.py:10-15 | mode "-" with an even pow does not depend on the order of the arrays; with an odd pow, swapping them negates every element |
| ArrayOp.PowerOneIsPlain | 06_argparser/submissions/yang7081.py:8-15 | pow 1 leaves the plain elementwise sum or difference |
| Text.Strip | 07_COCO/submissions/yang7081.py:46 | `strip()` keeps no more than the input, leaves no whitespace at either end, and keeps nothing exactly when the line is all whitespace; `StripShape`, `StripPadded` and `StripIdempotent` pin down exactly what it removes |
| Text.StripShape | 07_COCO/submissions/yang7081.py:46 | `strip()` keeps a middle slice of the line, removes only whitespace on either side of it, and leaves no whitespace at its ends |
| Text.StripPadded | 07_COCO/submissions/yang7081.py:46 | a string with no whitespace at its ends, padded by whitespace, strips back to itself |
| Text.StripIdempotent | 07_COCO/submissions/yang7081.py:46 | stripping twice is stripping once |
| Text.Split | 07_COCO/submissions/yang7081.py:46 | `split(",")` gives one more piece than the string has commas, and no piece holds a comma |
| Text.JoinSplit | 07_COCO/submissions/yang7081.py:46 | joining the pieces of a split with the separator gives the string back |
| Text.SplitJoin | 07_COCO/submissions/yang7081.py:46 | splitting a join of comma-free pieces gives the pieces back |
| Text.ParseInt | 07_COCO/submissions/yang7081.py:66 | `int()` refuses blank text, refuses any text holding one of the information separators U+001C-U+001F (which `strip()` would remove but `int()` does not skip), and gives a negative value only after a minus sign; `ParseIntAccepts` and `ParseIntShape` characterise the accepted text in both directions, and `ParseShowInt` makes it the inverse of `str` |
| Text.InfoSeparatorRefused | 07_COCO/submissions/yang7081.py:66 | a text with U+001C-U+001F at any position is refused, so `int("\x1c7")` is a ValueError |
| Text.ParseShowInt | 07_COCO/submissions/yang7081.py:66 | `int(str(i)) == i` for every integer, with any whitespace that `int()` skips (whitespace other than U+001C-U+001F) around the digits |
| Text.ParseIntAccepts | 07_COCO/submissions/yang7081.py:66 | `int()` accepts whitespace it skips (no U+001C-U+001F), an optional "+" or "-", any number of leading zeros and `str(n)`, such whitespace again, and returns n with the sign applied (so "007" is 7 and "-0" is 0) |
| Text.ParseIntShape | 07_COCO/submissions/yang7081.py:66 | conversely, every string `int()` accepts with value v is whitespace without U+001C-U+001F, an optional sign ("-" only when v <= 0, none or "+" only when v >= 0), leading zeros, `str(abs(v))`, such whitespace again; every other string is rejected |
| CocoConvert.InitialConsistent | 07_COCO/submissions/yang7081.py:39-43 | the empty tables with the counter at 1 satisfy the table invariant `Consistent` |
| CocoConvert.RegisteredNames | 07_COCO/submissions/yang7081.py:49-56 | in tables satisfying the invariant, a name is in `image_set` exactly when an image record carries it |
| CocoConvert.ParseRow | 07_COCO/submissions/yang7081.py:46 | unpacking `line.strip().split(",")` into four names; its contract is given by `ParseRowShape` (succeeds exactly on three commas, else the field-count error), `ParseRowInverse` (the fields join back to the stripped line) and `RowLineParses` (a written-out row reads back as itself) |
| CocoConvert.ParseRowShape | 07_COCO/submissions/yang7081.py:46 | a line unpacks exactly when its stripped text holds three commas; otherwise the error reports the field count; the four fields hold no comma |
| CocoConvert.ParseRowInverse | 07_COCO/submissions/yang7081.py:46 | the four fields of an unpacked line, joined by commas, are the stripped line |
| CocoConvert.RowLineParses | 07_COCO/submissions/yang7081.py:46 | four comma-free fields written as a line, with whitespace around it, unpack into exactly those fields |
| CocoConvert.AddImage | 07_COCO/submissions/yang7081.py:50-56 | a new name gets id `len(image_set) + 1` in the set and the map and one image record holding the height and width `cv2.imread` reported; `AddImageKeepsConsistent` shows this keeps the invariant, `AddImageKeepsSizes` that the new record holds the size read and the old ones keep theirs, and `StepRowAppends` that it happens exactly for a new name |
| CocoConvert.AddImageKeepsConsistent | 07_COCO/submissions/yang7081.py:50-56 | adding a new name with id `len(image_set) + 1` to the set, the map and the records keeps the table invariant |
| CocoConvert.AddImageKeepsSizes | 07_COCO/submissions/yang7081.py:55-56 | adding an image whose size was read keeps the height and width of every earlier record, and the new record holds the height and width read for its file |
| CocoConvert.RegisterImage | 07_COCO/submissions/yang7081.py:49-56 | when registration succeeds, the tables still satisfy the invariant and the name is in the set |
| CocoConvert.AddAnnotation | 07_COCO/submissions/yang7081.py:63-72 | one annotation appended under the current counter, then the counter advanced; `AddAnnotationKeepsConsistent` shows it keeps the invariant and `ReplayLine` gives the content of every annotation of a run |
| CocoConvert.AddAnnotationKeepsConsistent | 07_COCO/submissions/yang7081.py:63-72 | appending an annotation that points at an existing image, under the current counter, and advancing the counter keeps the invariant |
| CocoConvert.ProcessMask | 07_COCO/submissions/yang7081.py:60 | `process_mask(mask_name)` gives the mask triple or fails with `MaskNotFound`; `StepRowFailures` places that failure after the image read and before the category id |
| CocoConvert.CategoryId | 07_COCO/submissions/yang7081.py:66 | `int(category_id)` gives the value of `ParseInt`, with its whitespace rules, or fails with `InvalidCategoryId`; `StepRowFailures` places that failure last, and `ReplayLine` shows the value lands in the annotation |
| CocoConvert.StepRow | 07_COCO/submissions/yang7081.py:49-72 | processing an unpacked row keeps the table invariant |
| CocoConvert.Step | 07_COCO/submissions/yang7081.py:45-72 | one loop iteration keeps the invariant and succeeds only on a line that unpacks; a line that does not unpack raises exactly the unpacking error |
| CocoConvert.StepRowAppends | 07_COCO/submissions/yang7081.py:49-72 | a successful row only appends: earlier records and annotations are kept, and exactly one annotation is added, the one the row asks for; a repeated name leaves the set, the map and the records unchanged and reuses the stored id; a new name adds one record with the next id, the name, and the height and width `cv2.imread` reported for it |
| CocoConvert.StepRowFailures | 07_COCO/submissions/yang7081.py:49-66 | an unreadable new image fails first, then a missing mask, then a bad category id; the row succeeds exactly when none of these happens |
| CocoConvert.Replay | 07_COCO/submissions/yang7081.py:45-72 | the tables after any successful run of the loop satisfy the invariant |
| CocoConvert.ReplayFailurePersists | 07_COCO/submissions/yang7081.py:45-72 | once a prefix of the lines fails, the whole run fails with the same exception |
| CocoConvert.DataLines | 07_COCO/submissions/yang7081.py:45 | `lines[1:]` drops exactly the first line, and of an empty list gives an empty list |
| CocoConvert.Assemble | 07_COCO/submissions/yang7081.py:77-84 | a produced document carries the reference categories unchanged |
| CocoConvert.ReplayCount | 07_COCO/submissions/yang7081.py:63-72 | a successful run holds exactly one annotation per data line |
| CocoConvert.ReplayLine | 07_COCO/submissions/yang7081.py:46-72 | every line of a successful run unpacks, and annotation j has id j+1, the id of the record carrying row j's image name, `int` of row j's category id, row j's mask triple, and `iscrowd` 0 |
| CocoConvert.ReplayImages | 07_COCO/submissions/yang7081.py:49-56 | the records' file names are the distinct image names of the lines, in order of first appearance |
| CocoConvert.ReplayImageSize | 07_COCO/submissions/yang7081.py:55-56 | every image record of a successful run holds the height and width `cv2.imread` reports for its file |
| CocoConvert.ReplayBuildsTables | 07_COCO/submissions/yang7081.py:45-72 | the whole table content after a successful run: records in first-appearance order with ids 1..K, each holding the height and width read for its file, each name mapped to its record's id, the map's keys equal to the set; N annotations for N lines, each the one its line asks for; the counter at N+1 |
| CocoConvert.SameImageOneRecord | 07_COCO/submissions/yang7081.py:49-56 | lines that all name the same image give one record, with id 1 |
| CocoConvert.SameImageThroughout | 07_COCO/submissions/yang7081.py:49-72 | lines that all name the same image, with any masks, give one record and N annotations with ids 1..N, all pointing at id 1 |
| CocoConvert.HeaderIgnored | 07_COCO/submissions/yang7081.py:45 | the header's content never changes the outcome |
| CocoConvert.MalformedLineAborts | 07_COCO/submissions/yang7081.py:46 | a data line whose stripped text does not hold exactly three commas makes the run fail, with no document |
| CocoConvert.MalformedLineRaises | 07_COCO/submissions/yang7081.py:45-46 | when the earlier data lines succeed, a line whose stripped text does not hold exactly three commas makes the run end with the unpacking error, naming that line and the number of fields it split into |
| CocoConvert.AssembledDocument | 07_COCO/submissions/yang7081.py:45-84 | a produced document holds the final tables' records and annotations with the properties of `ReplayBuildsTables`, each record with ids 1..K and the size read for its file, plus the categories unchanged |
| CocoBuilder.Converter.constructor | 07_COCO/submissions/yang7081.py:39-43 | a new converter starts from the empty tables with the counter at 1 |
| CocoBuilder.Converter.Register | 07_COCO/submissions/yang7081.py:49-56 | the in-place update gives the tables of `RegisterImage`; if the image cannot be read, the name has already entered the set and the map but no record was added |
| CocoBuilder.Converter.ProcessRow | 07_COCO/submissions/yang7081.py:49-72 | the in-place update gives the tables of `StepRow` and the same exception; after a mask or category failure the image stays registered and no annotation is added |
| CocoBuilder.Converter.ProcessLine | 07_COCO/submissions/yang7081.py:45-72 | the in-place update gives the tables of `Step` and the same exception; on an exception the tables are what the script leaves: unchanged for a line that does not unpack, the name in the set and the map but no record when the image cannot be read, the image registered but no annotation when the mask or the category id fails |
| CocoBuilder.Convert | 07_COCO/submissions/yang7081.py:35-84 | the loop over the data lines with a fresh converter returns exactly `Assemble`: the same document, or the first exception |

## Left out

- `process_mask` (07_COCO/submissions/yang7081.py:13-32) is a parameter, `Env.processMask`. The RLE encoding, the area and the bounding box come from pycocotools, which is not part of this model. A mask that cannot be read is the `MaskNotFound` failure.
- `cv2.imread(image_name).shape[:2]` (line 55) is a parameter, `Env.imageSize`. When OpenCV returns `None`, `.shape` raises an AttributeError. Here that is the `ImageUnreadable` failure.
- File I/O is not modelled. That covers `open`/`readlines` (lines 35-36), `json.load` of the reference file (75-77), `json.dump` (87-88) and the final `print` (90). The lines and the categories are given as sequences, and the output is the `Document` value. A missing or malformed reference file is therefore not modelled either.
- `area` and `bbox` are floats produced by a library. They are kept as opaque `real` values and passed through unchanged.
- `object_id` is read and then never used, in the model as in the script.
- The text of exception messages is not modelled. Each failure carries the offending value instead (the line and its field count, the image name, the mask path, the category text).
- Text.ParseInt: only an optional sign followed by ASCII decimal digits, with surrounding whitespace, is accepted. Python's `int()` also accepts underscores between digits and non-ASCII decimal digits; those strings are rejected here. Since Python 3.11, `int()` also raises ValueError on a text of more than 4300 digits; the model has no such limit and reads any number of digits.
- The argparse command-line block of 06_argparser/submissions/yang7081.py (lines 19-55) is not modelled. It only parses flags and prints.
- ArrayOp.Afunc: it requires a non-negative integer `pow`. numpy raises ValueError for negative integer powers of integer arrays, and that case is left out.
- ArrayOp.Afunc: numpy's fixed-width integer overflow, dtypes, broadcasting and multi-dimensional shapes are not modelled. Integers are unbounded, and arrays are one-dimensional, so "same shape" is "same length".
