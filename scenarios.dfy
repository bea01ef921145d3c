/** Whole runs on small directories, worked out by the verifier. */
module ConverterScenarios {
  import opened Wrappers
  import opened Ordering
  import opened FileNames
  import opened Files
  import opened Imaging
  import opened PdfCanvas
  import opened Converter

  const PhotoFiles: map<string, Option<Image>> :=
    map["b.png" := Some(Image(3000, 1000, "RGB")), "a.jpg" := Some(Image(800, 600, "RGB")), "notes.txt" := None]

  /** A step on an image that opens and can be written adds its page and deletes its temporary file. */
  lemma StepAddsPage(p: Progress, dirPath: string, name: string, img: Image, jpeg: Image,
                     cfg: Config, policy: Policy)
    requires name in p.files && p.files[name] == Some(img)
    requires JpegRoundTrip(Fit(DropAlpha(img), cfg.maxWidth, cfg.maxHeight)) == Some(jpeg)
    ensures Step(p, dirPath, name, cfg, policy)
      == p.(pages := p.pages + [PageFor(dirPath, name, jpeg)], files := p.files - {TempName(name)})
  {
  }

  /** The first name alone: `a.jpg` already fits, so its page has its own size. */
  lemma FirstPhoto()
    ensures Run("/data/photos", ["a.jpg"], PhotoFiles, DefaultConfig, SkipUnreadable)
      == Progress([Page(800, 600, [Draw("/data/photos/compressed_a.jpg", 0, 0, 800, 600)])], [], PhotoFiles, Completed)
  {
    var start := Progress([], [], PhotoFiles, Completed);
    assert ["a.jpg"][..0] == [];
    assert Run("/data/photos", ["a.jpg"], PhotoFiles, DefaultConfig, SkipUnreadable)
        == Step(start, "/data/photos", "a.jpg", DefaultConfig, SkipUnreadable);
    var img := Image(800, 600, "RGB");
    FitExample();
    assert JpegRoundTrip(Fit(DropAlpha(img), 2400, 1800)) == Some(img);
    StepAddsPage(start, "/data/photos", "a.jpg", img, img, DefaultConfig, SkipUnreadable);
    assert TempName("a.jpg") == "compressed_a.jpg";
    assert Join("/data/photos", "compressed_a.jpg") == "/data/photos/compressed_a.jpg";
    assert "compressed_a.jpg" !in PhotoFiles;
    assert PhotoFiles - {"compressed_a.jpg"} == PhotoFiles;
  }

  /** After `a.jpg`, `b.png` (3000 x 1000) is shrunk to 2400 x 800 and becomes the second page. */
  lemma SecondPhoto()
    ensures var first := Page(800, 600, [Draw("/data/photos/compressed_a.jpg", 0, 0, 800, 600)]);
      Step(Progress([first], [], PhotoFiles, Completed), "/data/photos", "b.png", DefaultConfig, SkipUnreadable)
        == Progress([first, Page(2400, 800, [Draw("/data/photos/compressed_b.png", 0, 0, 2400, 800)])], [], PhotoFiles, Completed)
  {
    var first := Page(800, 600, [Draw("/data/photos/compressed_a.jpg", 0, 0, 800, 600)]);
    var img := Image(3000, 1000, "RGB");
    var jpeg := Image(2400, 800, "RGB");
    FitExample();
    assert JpegRoundTrip(Fit(DropAlpha(img), 2400, 1800)) == Some(jpeg);
    var p := Progress([first], [], PhotoFiles, Completed);
    StepAddsPage(p, "/data/photos", "b.png", img, jpeg, DefaultConfig, SkipUnreadable);
    assert TempName("b.png") == "compressed_b.png";
    assert Join("/data/photos", "compressed_b.png") == "/data/photos/compressed_b.png";
    assert PhotoFiles - {"compressed_b.png"} == PhotoFiles;
  }

  /**
   * `a.jpg` (800 x 600) and `b.png` (3000 x 1000) with the default settings:
   * two pages, `a.jpg` first at its own size, then `b.png` shrunk to
   * 2400 x 800; a text file in the directory plays no part.
   */
  lemma TwoImagesDefaultSettings()
    ensures var q := Run("/data/photos", ["a.jpg", "b.png"], PhotoFiles, DefaultConfig, SkipUnreadable);
      q.status == Completed && q.reported == [] && q.files == PhotoFiles &&
      q.pages == [Page(800, 600, [Draw("/data/photos/compressed_a.jpg", 0, 0, 800, 600)]),
                  Page(2400, 800, [Draw("/data/photos/compressed_b.png", 0, 0, 2400, 800)])]
  {
    var order := ["a.jpg", "b.png"];
    assert order[..1] == ["a.jpg"] && order[..2] == order;
    FirstPhoto();
    RunExtend("/data/photos", order, 1, PhotoFiles, DefaultConfig, SkipUnreadable);
    SecondPhoto();
  }

  /** `a.jpg` is an image name. */
  lemma JpgSelected()
    ensures IsImageName("a.jpg")
  {
    assert Lower("a.jpg") == "a.jpg";
    assert EndsWith(Lower("a.jpg"), ImageExtensions[1]);
  }

  /** `b.png` is an image name. */
  lemma PngSelected()
    ensures IsImageName("b.png")
  {
    assert Lower("b.png") == "b.png";
    assert EndsWith(Lower("b.png"), ImageExtensions[0]);
  }

  /** An entry of the photo directory is `a.jpg`, `b.png` or `notes.txt`. */
  lemma PhotoEntries(n: string)
    requires n in PhotoFiles
    ensures n == "a.jpg" || n == "b.png" || n == "notes.txt"
  {
    assert PhotoFiles.Keys == {"b.png", "a.jpg", "notes.txt"};
    assert n in PhotoFiles.Keys;
  }

  /** An image name of the photo directory is `a.jpg` or `b.png`: `notes.txt` is filtered out. */
  lemma PhotoOnlyImages(n: string)
    requires n in PhotoFiles && IsImageName(n)
    ensures n == "a.jpg" || n == "b.png"
  {
    PhotoEntries(n);
    if n == "notes.txt" {
      TextFileNotSelected();
    }
  }

  /**
   * Filtering and sorting the photo directory gives `a.jpg` then `b.png`:
   * whatever order satisfies the contract of the name selection is this one,
   * and `notes.txt` is not in it.
   */
  lemma PhotoDirectoryOrder(order: seq<string>)
    requires Sorted(order) && Distinct(order)
    requires forall n :: n in order <==> n in PhotoFiles && IsImageName(n)
    ensures order == ["a.jpg", "b.png"]
  {
    var expected := ["a.jpg", "b.png"];
    JpgSelected();
    PngSelected();
    assert "a.jpg" in order && "b.png" in order;
    forall n
      ensures n in order <==> n in expected
    {
      if n in order {
        PhotoOnlyImages(n);
      }
    }
    assert LexLe(expected[0], expected[1]);
    assert Sorted(expected) && Distinct(expected);
    SortedOrderUnique(order, expected);
  }

  /**
   * The form's routine on the photo directory: the PDF is written with two
   * pages, `a.jpg` at 800 x 600 and then `b.png` shrunk to 2400 x 800, no
   * path is reported and no file is left behind.
   */
  method ConvertPhotoDirectory() returns (canvas: Canvas, dir: Directory)
    ensures canvas.saved && canvas.path == "/data/photos.pdf" && dir.files == PhotoFiles
    ensures canvas.pages == [Page(800, 600, [Draw("/data/photos/compressed_a.jpg", 0, 0, 800, 600)]),
                             Page(2400, 800, [Draw("/data/photos/compressed_b.png", 0, 0, 2400, 800)])]
  {
    dir := new Directory("/data/photos", PhotoFiles);
    OutputPathExamples();
    var order, reported, status;
    canvas, order, reported, status := Image2PdfForm(dir, OutputPath("/data/photos", ""), (612, 792));
    PhotoDirectoryOrder(order);
    TwoImagesDefaultSettings();
  }

  /**
   * A directory that already holds `compressed_a.png` loses it: the JPEG
   * written for `a.png` replaces it and is then deleted, so when its turn
   * comes it cannot be opened. The form reports it and makes one page; the
   * command line stops there without writing the PDF.
   */
  lemma TempNameClobbersInput()
    ensures var files := map["a.png" := Some(Image(10, 10, "RGB")), "compressed_a.png" := Some(Image(20, 20, "RGB"))];
      var order := ["a.png", "compressed_a.png"];
      var form := Run("d", order, files, DefaultConfig, SkipUnreadable);
      var cli := Run("d", order, files, DefaultConfig, AbortOnUnreadable);
      form.status == Completed && |form.pages| == 1 && form.reported == ["d/compressed_a.png"] &&
      "compressed_a.png" !in form.files &&
      cli.status == Aborted(OpenFailed("d/compressed_a.png")) && "compressed_a.png" !in cli.files
  {
    var files := map["a.png" := Some(Image(10, 10, "RGB")), "compressed_a.png" := Some(Image(20, 20, "RGB"))];
    var order := ["a.png", "compressed_a.png"];
    assert order[..1] == ["a.png"];
    assert order[..1][..0] == [];
    assert TempName("a.png") == "compressed_a.png";
    assert Join("d", "compressed_a.png") == "d/compressed_a.png";
    var rest := files - {"compressed_a.png"};
    assert "compressed_a.png" !in rest;
    assert Fit(DropAlpha(Image(10, 10, "RGB")), 2400, 1800) == Image(10, 10, "RGB");
    var start := Progress([], [], files, Completed);
    var page := PageFor("d", "a.png", Image(10, 10, "RGB"));
    forall policy: Policy
      ensures Run("d", order[..1], files, DefaultConfig, policy) == Progress([page], [], rest, Completed)
    {
      assert Run("d", order[..1], files, DefaultConfig, policy) == Step(start, "d", "a.png", DefaultConfig, policy);
    }
    assert Run("d", order, files, DefaultConfig, SkipUnreadable)
        == Step(Progress([page], [], rest, Completed), "d", "compressed_a.png", DefaultConfig, SkipUnreadable);
    assert Run("d", order, files, DefaultConfig, AbortOnUnreadable)
        == Step(Progress([page], [], rest, Completed), "d", "compressed_a.png", DefaultConfig, AbortOnUnreadable);
  }

  /** A run over one name is one step from the start. */
  lemma RunOfOne(dirPath: string, name: string, files: map<string, Option<Image>>, cfg: Config, policy: Policy)
    ensures Run(dirPath, [name], files, cfg, policy) == Step(Progress([], [], files, Completed), dirPath, name, cfg, policy)
  {
    assert [name][..0] == [];
  }

  /** A step on an image that opens but cannot be written as JPEG ends the run, under either policy. */
  lemma StepEncodeFails(p: Progress, dirPath: string, name: string, img: Image, cfg: Config, policy: Policy)
    requires name in p.files && p.files[name] == Some(img)
    requires JpegRoundTrip(Fit(DropAlpha(img), cfg.maxWidth, cfg.maxHeight)) == None
    ensures Step(p, dirPath, name, cfg, policy) == p.(status := Aborted(EncodeFailed(Join(dirPath, TempName(name)))))
  {
  }

  /**
   * An image whose mode is neither `RGBA` nor writable as JPEG ends the run
   * at its save, under either policy.
   */
  lemma UnwritableImageEndsRun(dirPath: string, name: string, img: Image, cfg: Config, policy: Policy)
    requires img.mode != "RGBA" && img.mode !in JpegModes
    ensures Run(dirPath, [name], map[name := Some(img)], cfg, policy).status
      == Aborted(EncodeFailed(Join(dirPath, TempName(name))))
  {
    var files := map[name := Some(img)];
    RunOfOne(dirPath, name, files, cfg, policy);
    StepEncodeFails(Progress([], [], files, Completed), dirPath, name, img, cfg, policy);
  }

  /**
   * A palette image (a typical GIF) cannot be written as JPEG, and the save
   * is outside the form's guard: the run ends even under SkipUnreadable.
   */
  lemma PaletteImageEndsRun()
    ensures var files := map["anim.gif" := Some(Image(100, 100, "P"))];
      Run("d", ["anim.gif"], files, DefaultConfig, SkipUnreadable).status
        == Aborted(EncodeFailed("d/compressed_anim.gif"))
  {
    assert "P" !in JpegModes;
    UnwritableImageEndsRun("d", "anim.gif", Image(100, 100, "P"), DefaultConfig, SkipUnreadable);
    assert TempName("anim.gif") == "compressed_anim.gif";
    assert Join("d", "compressed_anim.gif") == "d/compressed_anim.gif";
  }
}
