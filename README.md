# image2pdf in Dafny

A model of the `image2pdf` routine of Image2PDF, with proofs about it. The
routine turns a directory of pictures into a PDF with one page per picture.
It exists in two copies, one behind the web form (`app.py`) and one behind the
command line (`image2pdf.py`). Both copies:

1. list the input directory;
2. keep the names whose lower-cased form ends in `.png`, `.jpg`, `.jpeg`,
   `.gif` or `.bmp`;
3. sort those names;
4. for each name:
   - open the image;
   - turn an `RGBA` image into `RGB`;
   - shrink it with `thumbnail` when a side exceeds 2400 × 1800;
   - write it next to the original as the JPEG `compressed_<name>` and read it back;
   - set the page size to that JPEG's size;
   - draw the JPEG at the origin, filling the page;
   - close the page;
   - delete the JPEG;
5. write the PDF.

The two copies differ in one way. The form's copy reports an image that cannot
be opened and carries on. The command line's copy lets that failure end the
run.

Both entry points fall back to the output path `<input_dir>.pdf`.

Modules:

- `Ordering`: Python's string order on code points, and the in-place sort of the name list (an insertion sort on an `array`). It proves the result is sorted and a permutation of the input.
- `FileNames`:
  - the extension filter;
  - POSIX `os.path.join`;
  - the temporary name;
  - the default output path.
- `Imaging`:
  - images as width, height and Pillow mode;
  - the alpha drop;
  - Pillow's `thumbnail` size computation in exact integer arithmetic;
  - the bounding-box decision;
  - the JPEG round trip. It fails for modes Pillow's JPEG writer refuses.
- `PdfCanvas`: a `Canvas` class holding the current page size, the drawings on the page being composed, the finished pages, and whether the document was written.
- `Files`: a `Directory` class whose `files` map holds each entry's name and, when it decodes, its image. `ListDir`, `Open`, `SaveJpeg` and `Remove` update or read it.
- `Converter`:
  - `Step` and `Run`, pure functions for one iteration and for the whole loop;
  - the imperative `Convert` method, which drives a `Directory` and a `Canvas` and is proved to follow `Run`;
  - the two entry points' routines.
- `ConverterProperties`: a reference description of the expected document, and lemmas relating `Run` to it.
- `ConverterScenarios`: whole runs on small directories.

## Model

| member | source | states |
|---|---|---|
| Ordering.SortNames | app.py:14 | `image_files.sort()` in place: afterwards the array is sorted in Python's string order and holds the same names with the same multiplicities |
| Ordering.InsertBack | image2pdf.py:11 | one pass of the sort: the next name moves down into the ordered prefix, which is one longer afterwards; the names after it are untouched and the whole array keeps its multiset |
| Ordering.SwapDown | image2pdf.py:11 | exchanging two neighbours changes exactly those two places and keeps the same names |
| Ordering.DistinctPermutation | app.py:11-14 | sorting a listing without repetitions gives a list without repetitions |
| Ordering.LexLe | app.py:14 | Python's `<=` on `str`, code point by code point; a prefix of a string comes before it |
| Ordering.LexLeTotal | app.py:14 | any two names are comparable in the order the sort uses |
| Ordering.LexLeTransitive | image2pdf.py:11 | the sort's order is transitive, so the adjacent order the sort builds is a total order |
| Ordering.LexLeAntisymmetric | app.py:14 | two names that are each at most the other are equal, so the sorted order is unique |
| Ordering.SortedOrderUnique | image2pdf.py:11 | two sorted, repetition-free lists with the same names are the same list: the page order does not depend on the listing order |
| FileNames.IsImageNameIgnoresCase | app.py:11 | selection looks only at the lower-cased name: a name and its lower-cased form are selected alike |
| FileNames.IsImageName | app.py:11 | the filter's test: the lower-cased name ends in one of the five extensions, so a selected name is at least four characters long |
| FileNames.IsImageNameCases | image2pdf.py:8 | a name is selected exactly when its lower-cased form ends in one of the five extensions |
| FileNames.LowerIdempotent | app.py:11 | lower-casing twice is lower-casing once |
| FileNames.UpperCaseExtensionSelected | app.py:11 | `scan.JPG` is selected |
| FileNames.BareExtensionNotSelected | app.py:11 | `png` is not selected: the dot is part of the suffix |
| FileNames.ImageNameLastChar | image2pdf.py:8 | every selected name is non-empty and its last character, lower-cased, is `g`, `f` or `p` (the last letters of the five extensions) |
| FileNames.TextFileNotSelected | image2pdf.py:8 | `notes.txt` is not selected |
| FileNames.SelectImages | app.py:11 | the comprehension keeps exactly the listed names that are image names, adds no repetition and never grows the list |
| FileNames.Join | app.py:20 | `os.path.join` on POSIX: the path is at least as long as the name and at most one separator longer than directory and name together |
| FileNames.JoinShape | app.py:20 | `os.path.join`: the result ends with the name; an absolute name is the whole result; a relative name follows the directory directly when the directory is empty or ends in `/`, and after exactly one `/` otherwise |
| FileNames.TempName | app.py:37 | the temporary name is 11 characters (`compressed_`) longer than the source name |
| FileNames.TempNameShape | app.py:37 | the temporary name is `compressed_` followed by the whole original name, so two source names never share a temporary name |
| FileNames.OutputPath | app.py:92-93 | an empty output field gives the input directory string with `.pdf` appended; a given path is used as is |
| FileNames.OutputPathExamples | image2pdf.py:60-65 | no trimming: `/data/photos/` gives `/data/photos/.pdf`; a given `--output_pdf` wins |
| Imaging.DropAlpha | app.py:28-29 | an `RGBA` image becomes `RGB` of the same size; any other image is unchanged |
| Imaging.DropAlphaMakesRgbaWritable | image2pdf.py:21-22 | after the conversion an `RGBA` image is in a mode the JPEG writer accepts |
| Imaging.WidthForHeight | app.py:34 | when the height bound decides, the width `thumbnail` picks is within one pixel of the exact aspect ratio |
| Imaging.HeightForWidth | app.py:34 | when the width bound decides, the height `thumbnail` picks is within one pixel of the exact aspect ratio |
| Imaging.Thumbnail | app.py:34 | the new size fits the box, is never larger than the original, is the original when it already fits, and otherwise meets one bound exactly |
| Imaging.ThumbnailKeepsAspect | image2pdf.py:27 | a shrunk size keeps the aspect ratio up to one pixel on the side that follows the other |
| Imaging.Fit | app.py:32-34 | the image is resized only when a side exceeds its maximum; the result keeps the mode, fits the box and never enlarges |
| Imaging.FitExample | image2pdf.py:25-27 | 3000 × 1000 becomes 2400 × 800 under the defaults; 800 × 600 is left alone |
| Imaging.JpegRoundTrip | app.py:38-42 | saving as JPEG fails exactly for modes the writer refuses; otherwise the image read back has the written size |
| Files.Directory.ListDir | app.py:11 | `os.listdir` lists every entry exactly once |
| Files.Directory.Open | app.py:22 | `Image.open` succeeds exactly for an entry that decodes, giving that image |
| Files.Directory.SaveJpeg | app.py:38 | the save succeeds exactly when the mode can be written; it then creates or replaces the entry, and otherwise leaves the directory as it was |
| Files.Directory.Remove | app.py:54 | `os.remove` deletes that entry and nothing else |
| PdfCanvas.Canvas.constructor | app.py:17 | a new canvas for the output path: no pages, nothing drawn, not written, the library's default size |
| PdfCanvas.Canvas.SetPageSize | app.py:45 | sets the page size and changes nothing else |
| PdfCanvas.Canvas.DrawImage | app.py:48 | adds one drawing to the page being composed |
| PdfCanvas.Canvas.ShowPage | app.py:51 | closes the page at the current size with its drawings; the size carries over |
| PdfCanvas.Canvas.Save | app.py:57 | closes a page that has drawings on it, then marks the document written |
| Converter.Step | app.py:20-54 | one iteration of the loop on the current pages, reports and directory: it keeps the earlier pages and reports and adds at most one page or one report |
| Converter.Run | app.py:19 | the loop over the names, stopping at the first failure that ends the run: there are never more pages and reports together than names |
| Converter.PageFor | app.py:45-51 | a page has the JPEG's size, with one drawing at the origin filling it |
| Converter.AbortIsFinal | image2pdf.py:16-18 | once a failure has ended the run, the later names change nothing |
| Converter.SortedImageNames | app.py:11-14 | the names processed are exactly the directory's image names, sorted and without repetition |
| Converter.ProcessName | app.py:20-54 | one iteration on the directory and canvas does what `Step` says to the pages, the reported paths, the directory and the outcome, and leaves the page size at the last page's size |
| Converter.RenderPage | app.py:27-54 | after a successful open: the JPEG is written exactly when its mode allows; then one page of the fitted image's size is added and the temporary file is gone; otherwise nothing changes |
| Converter.AddPage | image2pdf.py:38-44 | `setPageSize`, `drawImage` at the origin and `showPage` add one page of that size with one drawing filling it, and the size carries over |
| Converter.ProcessNext | image2pdf.py:16-47 | one iteration takes the canvas and directory from `Run` over the first i names to `Run` over the first i + 1, keeping the page size at the last page's |
| Converter.ProcessAll | app.py:19-54 | the loop over the sorted names, on a fresh canvas, ends with the pages, reports, directory and outcome of `Run` |
| Converter.RunExtend | app.py:19 | unfolding lemma: `Run`'s defining equation at the prefix of length i + 1, used by the loop proof |
| Converter.Convert | app.py:19-57 | the names are the sorted image names; pages, reports, final directory and outcome are those of `Run`; the PDF is written exactly when the run completes |
| Converter.Image2PdfForm | app.py:6-57 | the form's routine is `Convert` with the default box and skipping of unreadable files |
| Converter.Image2PdfCli | image2pdf.py:6-50 | the command line's routine is `Convert` with the default box, an unreadable file ending the run, and nothing reported |
| Converter.NothingReportedWhenAborting | image2pdf.py:18 | without the guard no path is ever reported and skipped |
| ConverterProperties.Rendered | app.py:32-42 | the JPEG placed for a name fits the box, is no larger than the original, and has the original's size when that fits |
| ConverterProperties.Renderable | app.py:19-25 | the names that yield a page are exactly the processed names that open and can be written, and no more of them than there are names |
| ConverterProperties.RenderableIsSubsequence | app.py:19 | those names keep their relative order: they sit at strictly increasing positions in the processed order |
| ConverterProperties.RunCreatesNoFiles | app.py:37-54 | after a run, every remaining entry was there before with the same content; only entries bearing an image's temporary name can have gone |
| ConverterProperties.RunKeepsDirectory | image2pdf.py:30-47 | when no temporary name is already taken, the directory ends exactly as it began: no `compressed_` file remains |
| ConverterProperties.StepMatchesReference | app.py:21-54 | from the reference state for the earlier names, one iteration completes exactly when the name is accepted under the policy, and then gives the reference state including that name |
| ConverterProperties.RunAgreesWithReference | app.py:19-54 | with no temporary-name clash: a run completes exactly when every name is accepted under the policy; it then has one page per renderable name in order, reports exactly the unopenable paths (form policy), and leaves the directory unchanged |
| ConverterProperties.StepPageFits | app.py:41-51 | an iteration adds at most one page, after the earlier ones, and that page fits the box with its image drawn at the origin filling it |
| ConverterProperties.PagesFitTheBox | app.py:41-48 | every page is within 2400 × 1800 (the box), at least 1 × 1, and carries one drawing at the origin that fills it |
| ConverterProperties.PagesFollowNames | app.py:19 | page i comes from the i-th renderable name: its drawing is that name's JPEG, its size fits the box, is no larger than the original and equals the original when that fits |
| ConverterProperties.RenderableSorted | app.py:14 | the names that yield pages come in ascending order |
| ConverterProperties.PagesAndReportsCoverOrder | app.py:21-25 | when every image that opens can be written as JPEG, each processed name yields a page or a report (a name that opens but cannot be written yields neither, because the save is outside the `try`) |
| ConverterProperties.SkipPolicyAccountsForEveryName | app.py:21-25 | with no temporary-name clash, under the form's policy a run whose images can all be written completes, and pages plus reports number the selected names |
| ConverterProperties.AllRenderableKeepsEveryName | image2pdf.py:16 | when every name can be rendered, every name yields a page |
| ConverterProperties.AbortPolicyOnePagePerName | image2pdf.py:16-18 | with no temporary-name clash, under the command line's policy a run completes exactly when every image opens and can be written, and then it has one page per selected name |
| ConverterProperties.StepIgnoresPolicy | image2pdf.py:18 | the policy makes no difference to an image that opens |
| ConverterProperties.PoliciesAgreeWhenAllOpen | image2pdf.py:16-47 | with no temporary-name clash, when every image opens, the two copies produce the same run |
| ConverterProperties.AlphaDoesNotChangeThePage | app.py:28-29 | an `RGBA` image yields the same page as the same image in `RGB` |
| ConverterScenarios.StepAddsPage | app.py:22-54 | an image that opens and can be written yields its page, and its temporary file is deleted |
| ConverterScenarios.StepEncodeFails | image2pdf.py:31 | an image that opens but cannot be written as JPEG ends the run, under either policy |
| ConverterScenarios.FirstPhoto | app.py:32-51 | `a.jpg` (800 × 600) alone gives one page of 800 × 600 showing `/data/photos/compressed_a.jpg` |
| ConverterScenarios.SecondPhoto | app.py:32-51 | after the page for `a.jpg`, the step for `b.png` (3000 × 1000) adds a second page of 2400 × 800 showing `/data/photos/compressed_b.png` and leaves the directory as it was |
| ConverterScenarios.TwoImagesDefaultSettings | app.py:6-57 | the run over `a.jpg` (800 × 600) then `b.png` (3000 × 1000) gives pages 800 × 600 and 2400 × 800 in that order |
| ConverterScenarios.JpgSelected | app.py:11 | `a.jpg` is selected |
| ConverterScenarios.PngSelected | app.py:11 | `b.png` is selected |
| ConverterScenarios.PhotoOnlyImages | app.py:11 | an image name of the directory `b.png`, `a.jpg`, `notes.txt` is `a.jpg` or `b.png`: the text file is filtered out |
| ConverterScenarios.PhotoDirectoryOrder | app.py:11-14 | any order that meets the contract of the name selection on that directory is `a.jpg` then `b.png`: the text file is filtered out and the sort puts `a.jpg` first |
| ConverterScenarios.ConvertPhotoDirectory | app.py:6-57 | the form's routine on that directory, writing to the default output path `/data/photos.pdf`, saves a PDF with exactly the pages 800 × 600 then 2400 × 800, and leaves the directory as it was |
| ConverterScenarios.TempNameClobbersInput | app.py:37-54 | an input already named `compressed_a.png` is overwritten and deleted while `a.png` is processed; the form then reports it, and the command line stops |
| ConverterScenarios.RunOfOne | app.py:19 | a run over one name is one iteration from an empty document |
| ConverterScenarios.UnwritableImageEndsRun | image2pdf.py:21-31 | an image whose mode is neither `RGBA` nor writable as JPEG ends the run at its save, under either policy |
| ConverterScenarios.PaletteImageEndsRun | app.py:38 | a palette (`P`) image cannot be saved as JPEG; the save is outside the form's guard, so even the form's run ends |

## Left out

- The Streamlit page (app.py:59-99) and the argparse plumbing and `print` (image2pdf.py:52-56, 66) are presentation. Only the default output path from them is modelled.
- The directory-existence check (`os.path.isdir`) and the empty-input check of the form are left out. The model starts from an existing directory.
- Pixels are not modelled. An image is its width, height and mode. Neither the RGBA-to-RGB pixel conversion, resampling, JPEG encoding nor the `quality` setting is modelled, so `Config.quality` is carried but unused.
- Imaging.Thumbnail: Pillow computes the aspect ratio in floating point. The model uses exact rational comparisons, which can pick the other of the two candidate sizes when the two are within floating-point error of a tie.
- Imaging.JpegRoundTrip: the image read back is taken to be in the written mode with the written size. Pillow reads a `RGBX` JPEG back as `RGB`, which the rest of the routine does not look at.
- Files.Directory.SaveJpeg: a failed save is modelled as leaving the directory unchanged. Whether Pillow leaves a partial file behind depends on where the encoder fails.
- Files.Directory.Open: an entry that the library cannot decode is modelled as failing at `Image.open`. Pillow decodes lazily, so a truncated file can fail later, at `convert` or at `save`. Under the form's guard those later failures end the run, as an encoding failure does here.
- The listing order of `os.listdir` is left to the system. `ListDir` promises only that every entry appears once, and `SortedOrderUnique` shows the pages do not depend on that order.
- Files.Directory.ListDir: subdirectories are entries that do not decode. A subdirectory named like an image is therefore reported (form) or ends the run (command line), as `Image.open` on it would.
- Files.Directory.SaveJpeg: an entry that already bears the temporary name is always overwritten as if it were a file. When that entry is a subdirectory, `img.save` raises in the source (app.py:38, image2pdf.py:31) and, being outside the form's `try`, ends the run with no PDF written. The model instead overwrites the entry, adds the page, removes the entry and goes on.
- `str.lower()` is modelled for ASCII letters only. Unicode case mapping is left out.
- The canvas's default page size is a parameter (`defaultSize`). It is only visible when no page is produced.
- The bytes of the PDF are not modelled. `Canvas.Save` records that the document was written.
- The command line's missing `--output_pdf` (`None`) is modelled as the empty string. Both are falsy at image2pdf.py:60.
- The routine's messages (`st.error` text) are modelled as the list of reported paths.
- The exception raised by a failed open or save is modelled as an `Aborted` outcome carrying the path. What the caller shows for it is left out.
- `RGBA` is the only mode converted (app.py:28). `LA`, `PA` and `P` images keep their mode, cannot be written as JPEG, and end the run, as `PaletteImageEndsRun` shows for `P`. Flattening other modes with transparency is therefore not modelled, because the code does not do it.
- A temporary JPEG overwrites an input of the same name, and it is deleted only when the iteration reaches `os.remove` (app.py:37-54). `RunKeepsDirectory` and the lemmas built on `RunAgreesWithReference` therefore assume that no temporary name is already taken. `TempNameClobbersInput` shows what happens when one is.
