/**
 * The `image2pdf` routine: list the input directory, keep the image names,
 * sort them, and for each one open it, drop its alpha channel, shrink it to
 * the bounding box, write it as a temporary JPEG, add one page of exactly
 * that size showing it, and delete the temporary file; finally write the
 * PDF. The form-based entry point skips a file that cannot be opened; the
 * command-line entry point lets that failure end the run.
 */
module Converter {
  import opened Wrappers
  import opened Ordering
  import opened FileNames
  import opened Imaging
  import opened PdfCanvas
  import opened Files

  /** The routine's keyword parameters. `quality` only affects the JPEG bytes. */
  datatype Config = Config(maxWidth: Dim, maxHeight: Dim, quality: int)

  const DefaultConfig: Config := Config(2400, 1800, 80)

  /** What happens when an image file cannot be opened. */
  datatype Policy =
    | SkipUnreadable      // report the path and go on with the next file
    | AbortOnUnreadable   // the exception ends the run

  datatype Failure =
    | OpenFailed(path: string)     // `Image.open` raised (under AbortOnUnreadable)
    | EncodeFailed(path: string)   // `img.save` as JPEG raised (under either policy)

  datatype Status = Completed | Aborted(failure: Failure)

  /** The state after some of the sorted names: pages, reported paths, directory, status. */
  datatype Progress = Progress(pages: seq<Page>, reported: seq<string>,
                               files: map<string, Option<Image>>, status: Status)

  /** The page made from the JPEG written for `name`: its own size, the image drawn at the origin filling it. */
  function PageFor(dirPath: string, name: string, jpeg: Image): (p: Page)
    ensures p.width == jpeg.width && p.height == jpeg.height
    ensures |p.draws| == 1 && p.draws[0].x == 0 && p.draws[0].y == 0
    ensures p.draws[0].width == p.width && p.draws[0].height == p.height
  {
    Page(jpeg.width, jpeg.height, [Draw(Join(dirPath, TempName(name)), 0, 0, jpeg.width, jpeg.height)])
  }

  /** One iteration of the loop, for `name`, on the directory as it stands. */
  function Step(p: Progress, dirPath: string, name: string, cfg: Config, policy: Policy): (q: Progress)
    ensures p.pages <= q.pages && p.reported <= q.reported
    ensures |q.pages| + |q.reported| <= |p.pages| + |p.reported| + 1
  {
    var path := Join(dirPath, name);
    var found := if name in p.files then p.files[name] else None;
    match found
    case None =>
      if policy.SkipUnreadable? then p.(reported := p.reported + [path])
      else p.(status := Aborted(OpenFailed(path)))
    case Some(img) =>
      var temp := TempName(name);
      match JpegRoundTrip(Fit(DropAlpha(img), cfg.maxWidth, cfg.maxHeight))
      case None => p.(status := Aborted(EncodeFailed(Join(dirPath, temp))))
      case Some(jpeg) =>
        p.(pages := p.pages + [PageFor(dirPath, name, jpeg)], files := p.files - {temp})
  }

  /** The loop over `order`, stopping at the first failure that ends the run. */
  function Run(dirPath: string, order: seq<string>, files: map<string, Option<Image>>,
               cfg: Config, policy: Policy): (q: Progress)
    ensures |q.pages| + |q.reported| <= |order|
    decreases |order|
  {
    if order == [] then Progress([], [], files, Completed)
    else
      var p := Run(dirPath, order[..|order| - 1], files, cfg, policy);
      if p.status.Aborted? then p else Step(p, dirPath, order[|order| - 1], cfg, policy)
  }

  /** Running one more name is one more `Step`, unless the run has already ended. */
  lemma RunExtend(dirPath: string, order: seq<string>, i: nat,
                  files: map<string, Option<Image>>, cfg: Config, policy: Policy)
    requires i < |order|
    ensures var p := Run(dirPath, order[..i], files, cfg, policy);
      Run(dirPath, order[..i + 1], files, cfg, policy)
        == if p.status.Aborted? then p else Step(p, dirPath, order[i], cfg, policy)
  {
    assert order[..i + 1][..i] == order[..i];
  }

  /** Once a run has ended, the names after that point change nothing. */
  lemma {:induction false} AbortIsFinal(dirPath: string, order: seq<string>, k: nat,
                                        files: map<string, Option<Image>>, cfg: Config, policy: Policy)
    requires k <= |order|
    requires Run(dirPath, order[..k], files, cfg, policy).status.Aborted?
    ensures Run(dirPath, order, files, cfg, policy) == Run(dirPath, order[..k], files, cfg, policy)
  {
    if k < |order| {
      assert order[..|order| - 1][..k] == order[..k];
      AbortIsFinal(dirPath, order[..|order| - 1], k, files, cfg, policy);
    } else {
      assert order[..k] == order;
    }
  }

  /** The image names of the directory, filtered from its listing and sorted in place. */
  method SortedImageNames(dir: Directory) returns (order: seq<string>)
    ensures Sorted(order) && Distinct(order)
    ensures forall n :: n in order <==> n in dir.files && IsImageName(n)
  {
    var listing := dir.ListDir();
    var selected := SelectImages(listing);
    var a := new string[|selected|](i requires 0 <= i < |selected| => selected[i]);
    assert a[..] == selected;
    SortNames(a);
    order := a[..];
    DistinctPermutation(selected, order);
    assert forall n :: n in order <==> n in multiset(selected);
  }

  /**
   * The body of the loop for one name: on a canvas with no drawing pending,
   * it does what `Step` says to the pages, the reported paths and the
   * directory, and leaves the page size at the size of the last page.
   */
  method ProcessName(dir: Directory, canvas: Canvas, name: string, cfg: Config, policy: Policy,
                     reported: seq<string>)
    returns (reported': seq<string>, status: Status)
    requires canvas.pending == []
    modifies dir, canvas
    ensures Step(Progress(old(canvas.pages), reported, old(dir.files), Completed), dir.path, name, cfg, policy)
              == Progress(canvas.pages, reported', dir.files, status)
    ensures canvas.pending == [] && canvas.saved == old(canvas.saved)
    ensures |canvas.pages| >= |old(canvas.pages)|
    ensures canvas.pageSize == if canvas.pages == old(canvas.pages) then old(canvas.pageSize)
                               else (canvas.pages[|canvas.pages| - 1].width, canvas.pages[|canvas.pages| - 1].height)
  {
    reported', status := reported, Completed;
    var path := Join(dir.path, name);
    var found := dir.Open(name);
    if found.None? {
      if policy.AbortOnUnreadable? {
        status := Aborted(OpenFailed(path));
      } else {
        reported' := reported + [path];
      }
      return;
    }
    var ok := RenderPage(dir, canvas, name, found.value, cfg);
    if !ok {
      status := Aborted(EncodeFailed(Join(dir.path, TempName(name))));
    }
  }

  /**
   * The part of the loop body after a successful open: drop the alpha
   * channel, shrink to the box, write the temporary JPEG, read it back, add
   * its page and delete it. It fails, changing nothing, when the JPEG cannot
   * be written.
   */
  method RenderPage(dir: Directory, canvas: Canvas, name: string, original: Image, cfg: Config)
    returns (ok: bool)
    requires canvas.pending == []
    modifies dir, canvas
    ensures var jpeg := JpegRoundTrip(Fit(DropAlpha(original), cfg.maxWidth, cfg.maxHeight));
      (ok <==> jpeg.Some?) &&
      (ok ==> canvas.pages == old(canvas.pages) + [PageFor(dir.path, name, jpeg.value)] &&
              dir.files == old(dir.files) - {TempName(name)} &&
              canvas.pageSize == (jpeg.value.width, jpeg.value.height))
    ensures !ok ==> canvas.pages == old(canvas.pages) && dir.files == old(dir.files) &&
                    canvas.pageSize == old(canvas.pageSize)
    ensures canvas.pending == [] && canvas.saved == old(canvas.saved)
  {
    var img := original;
    if img.mode == "RGBA" {
      img := img.(mode := "RGB");
    }
    assert img == DropAlpha(original);
    if img.width > cfg.maxWidth || img.height > cfg.maxHeight {
      var size := Thumbnail(img.width, img.height, cfg.maxWidth, cfg.maxHeight);
      img := img.(width := size.0, height := size.1);
    }
    assert img == Fit(DropAlpha(original), cfg.maxWidth, cfg.maxHeight);
    var temp := TempName(name);
    var tempPath := Join(dir.path, temp);
    ok := dir.SaveJpeg(temp, img);
    if !ok {
      return;
    }
    var compressed := dir.Open(temp);
    assert dir.files == old(dir.files)[temp := compressed];
    AddPage(canvas, tempPath, compressed.value.width, compressed.value.height);
    dir.Remove(temp);
    WriteThenRemove(old(dir.files), temp, compressed);
  }

  /** Setting the page size, drawing the JPEG and closing the page: one page of that size showing it at the origin, filling it. */
  method AddPage(canvas: Canvas, source: string, width: int, height: int)
    requires canvas.pending == []
    modifies canvas
    ensures canvas.pages == old(canvas.pages) + [Page(width, height, [Draw(source, 0, 0, width, height)])]
    ensures canvas.pending == [] && canvas.pageSize == (width, height) && canvas.saved == old(canvas.saved)
  {
    canvas.SetPageSize((width, height));
    canvas.DrawImage(source, 0, 0, width, height);
    assert canvas.pending == [Draw(source, 0, 0, width, height)];
    canvas.ShowPage();
  }

  /**
   * The canvas's page size is the size of its last page, or the library's
   * default when there is none yet: each page sets its own size and nothing
   * else changes it.
   */
  predicate SizeOfLastPage(canvas: Canvas, defaultSize: (int, int))
    reads canvas
  {
    canvas.pageSize == if canvas.pages == [] then defaultSize
                       else (canvas.pages[|canvas.pages| - 1].width, canvas.pages[|canvas.pages| - 1].height)
  }

  /**
   * The loop body for the i-th name: when the pages, reports and directory
   * are those of `Run` over the first i names, afterwards they are those of
   * `Run` over the first i + 1, and the page size is still the last page's.
   */
  method ProcessNext(dir: Directory, canvas: Canvas, order: seq<string>, i: nat,
                     ghost files0: map<string, Option<Image>>, cfg: Config, policy: Policy,
                     ghost defaultSize: (int, int), reported: seq<string>)
    returns (reported': seq<string>, status: Status)
    requires i < |order| && canvas.pending == []
    requires Run(dir.path, order[..i], files0, cfg, policy) == Progress(canvas.pages, reported, dir.files, Completed)
    requires SizeOfLastPage(canvas, defaultSize)
    modifies dir, canvas
    ensures Run(dir.path, order[..i + 1], files0, cfg, policy) == Progress(canvas.pages, reported', dir.files, status)
    ensures canvas.pending == [] && canvas.saved == old(canvas.saved)
    ensures SizeOfLastPage(canvas, defaultSize)
  {
    RunExtend(dir.path, order, i, files0, cfg, policy);
    ghost var pages0 := canvas.pages;
    ghost var size0 := canvas.pageSize;
    reported', status := ProcessName(dir, canvas, order[i], cfg, policy, reported);
    if canvas.pages == pages0 {
      assert canvas.pageSize == size0;
    } else {
      assert canvas.pages != [];
    }
  }

  /** Writing an entry and then removing it leaves the directory as removing it alone would. */
  lemma WriteThenRemove(files: map<string, Option<Image>>, name: string, v: Option<Image>)
    ensures files[name := v] - {name} == files - {name}
  {
    assert (files[name := v] - {name}).Keys == (files - {name}).Keys;
  }

  /**
   * The routine itself, on the directory `dir`, writing to `output`. The
   * names are processed in ascending order; the pages, the reported paths,
   * the directory afterwards and the outcome are those of `Run`, and the
   * document is written exactly when the run completes.
   */
  method Convert(dir: Directory, output: string, cfg: Config, policy: Policy, defaultSize: (int, int))
    returns (canvas: Canvas, order: seq<string>, reported: seq<string>, status: Status)
    modifies dir
    ensures fresh(canvas) && canvas.path == output
    ensures Sorted(order) && Distinct(order)
    ensures forall n :: n in order <==> n in old(dir.files) && IsImageName(n)
    ensures Run(dir.path, order, old(dir.files), cfg, policy) == Progress(canvas.pages, reported, dir.files, status)
    ensures canvas.pending == []
    ensures SizeOfLastPage(canvas, defaultSize)
    ensures canvas.saved <==> status.Completed?
  {
    order := SortedImageNames(dir);
    canvas := new Canvas(output, defaultSize);
    reported, status := ProcessAll(dir, canvas, order, cfg, policy, defaultSize);
    if status.Completed? {
      canvas.Save();
    }
  }

  /**
   * The loop over the sorted names, on a fresh canvas: it stops at the first
   * failure that ends the run, and its pages, reports, directory and outcome
   * are those of `Run`.
   */
  method ProcessAll(dir: Directory, canvas: Canvas, order: seq<string>, cfg: Config, policy: Policy,
                    ghost defaultSize: (int, int))
    returns (reported: seq<string>, status: Status)
    requires canvas.pages == [] && canvas.pending == [] && canvas.pageSize == defaultSize
    modifies dir, canvas
    ensures Run(dir.path, order, old(dir.files), cfg, policy) == Progress(canvas.pages, reported, dir.files, status)
    ensures canvas.pending == [] && canvas.saved == old(canvas.saved)
    ensures SizeOfLastPage(canvas, defaultSize)
  {
    reported := [];
    status := Completed;
    ghost var files0 := dir.files;
    var i := 0;
    assert order[..0] == [];
    while i < |order|
      invariant 0 <= i <= |order|
      invariant canvas.pending == [] && canvas.saved == old(canvas.saved)
      invariant SizeOfLastPage(canvas, defaultSize)
      invariant Run(dir.path, order[..i], files0, cfg, policy) == Progress(canvas.pages, reported, dir.files, Completed)
      invariant status == Completed
    {
      reported, status := ProcessNext(dir, canvas, order, i, files0, cfg, policy, defaultSize, reported);
      if status.Aborted? {
        AbortIsFinal(dir.path, order, i + 1, files0, cfg, policy);
        return;
      }
      i := i + 1;
    }
    assert order[..i] == order;
  }

  /** `image2pdf` of the form-based entry point: unreadable files are skipped. */
  method Image2PdfForm(dir: Directory, output: string, defaultSize: (int, int))
    returns (canvas: Canvas, order: seq<string>, reported: seq<string>, status: Status)
    modifies dir
    ensures fresh(canvas) && canvas.path == output
    ensures Sorted(order) && Distinct(order)
    ensures forall n :: n in order <==> n in old(dir.files) && IsImageName(n)
    ensures Run(dir.path, order, old(dir.files), DefaultConfig, SkipUnreadable)
              == Progress(canvas.pages, reported, dir.files, status)
    ensures canvas.saved <==> status.Completed?
  {
    canvas, order, reported, status := Convert(dir, output, DefaultConfig, SkipUnreadable, defaultSize);
  }

  /** `image2pdf` of the command-line entry point: an unreadable file ends the run. */
  method Image2PdfCli(dir: Directory, output: string, defaultSize: (int, int))
    returns (canvas: Canvas, order: seq<string>, status: Status)
    modifies dir
    ensures fresh(canvas) && canvas.path == output
    ensures Sorted(order) && Distinct(order)
    ensures forall n :: n in order <==> n in old(dir.files) && IsImageName(n)
    ensures Run(dir.path, order, old(dir.files), DefaultConfig, AbortOnUnreadable)
              == Progress(canvas.pages, [], dir.files, status)
    ensures canvas.saved <==> status.Completed?
  {
    var reported;
    canvas, order, reported, status := Convert(dir, output, DefaultConfig, AbortOnUnreadable, defaultSize);
    NothingReportedWhenAborting(dir.path, order, old(dir.files), DefaultConfig);
  }

  /** Under AbortOnUnreadable no path is ever reported and skipped. */
  lemma {:induction false} NothingReportedWhenAborting(dirPath: string, order: seq<string>,
                                                        files: map<string, Option<Image>>, cfg: Config)
    ensures Run(dirPath, order, files, cfg, AbortOnUnreadable).reported == []
  {
    if order != [] {
      NothingReportedWhenAborting(dirPath, order[..|order| - 1], files, cfg);
    }
  }
}
