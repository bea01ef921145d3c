/**
 * What a run of the converter guarantees, stated about `Run` (which the
 * `Convert` method is proved to follow) and about a reference description of
 * the expected document: one page per image that can be opened and written,
 * in name order.
 */
module ConverterProperties {
  import opened Wrappers
  import opened Ordering
  import opened FileNames
  import opened Imaging
  import opened PdfCanvas
  import opened Converter

  /** The temporary names that the loop over `order` may write. */
  function TempNames(order: seq<string>): (r: set<string>)
    ensures forall n :: n in order ==> TempName(n) in r
  {
    set n | n in order :: TempName(n)
  }

  /** No image in `order` has an entry named like its temporary JPEG. */
  ghost predicate TempsAbsent(order: seq<string>, files: map<string, Option<Image>>)
  {
    forall n :: n in order ==> TempName(n) !in files
  }

  predicate Decodes(files: map<string, Option<Image>>, name: string)
  {
    name in files && files[name].Some?
  }

  /** The image opens, and once its alpha is dropped and it is fitted, JPEG can hold it. */
  predicate Renders(files: map<string, Option<Image>>, name: string, cfg: Config)
  {
    Decodes(files, name) && JpegRoundTrip(Fit(DropAlpha(files[name].value), cfg.maxWidth, cfg.maxHeight)).Some?
  }

  /** The JPEG that goes on the page for `name`. */
  function Rendered(files: map<string, Option<Image>>, name: string, cfg: Config): (r: Image)
    requires Renders(files, name, cfg)
    ensures r.width <= cfg.maxWidth && r.height <= cfg.maxHeight
    ensures r.width <= files[name].value.width && r.height <= files[name].value.height
    ensures (files[name].value.width <= cfg.maxWidth && files[name].value.height <= cfg.maxHeight)
      ==> r.width == files[name].value.width && r.height == files[name].value.height
  {
    JpegRoundTrip(Fit(DropAlpha(files[name].value), cfg.maxWidth, cfg.maxHeight)).value
  }

  /** Whether a name lets the run go on, under a policy. */
  predicate Accepted(files: map<string, Option<Image>>, name: string, cfg: Config, policy: Policy)
  {
    (Decodes(files, name) ==> Renders(files, name, cfg)) &&
    (policy.AbortOnUnreadable? ==> Decodes(files, name))
  }

  /** The names of `order` that yield a page, in the same order. */
  function Renderable(order: seq<string>, files: map<string, Option<Image>>, cfg: Config): (r: seq<string>)
    ensures forall i :: 0 <= i < |r| ==> Renders(files, r[i], cfg)
    ensures forall n :: n in r ==> n in order
    ensures forall n :: n in order && Renders(files, n, cfg) ==> n in r
    ensures |r| <= |order|
    decreases |order|
  {
    if order == [] then []
    else
      var last := order[|order| - 1];
      var init := Renderable(order[..|order| - 1], files, cfg);
      assert forall n :: n in order ==> n in order[..|order| - 1] || n == last;
      assert forall n :: n in order[..|order| - 1] ==> n in order;
      if Renders(files, last, cfg) then init + [last] else init
  }

  /** `idx` places each element of `r` in `t`, at strictly increasing positions. */
  ghost predicate IndexMap(idx: seq<int>, r: seq<string>, t: seq<string>)
  {
    |idx| == |r| &&
    (forall k :: 0 <= k < |idx| ==> 0 <= idx[k] < |t| && t[idx[k]] == r[k]) &&
    (forall k :: 0 < k < |idx| ==> idx[k - 1] < idx[k])
  }

  /** An index map into the first |t| - 1 names is one into `t`, and can take the last name of `t` too. */
  lemma IndexMapExtend(idx: seq<int>, r: seq<string>, t: seq<string>)
    requires t != [] && IndexMap(idx, r, t[..|t| - 1])
    ensures IndexMap(idx, r, t)
    ensures IndexMap(idx + [|t| - 1], r + [t[|t| - 1]], t)
  {
    var idx' := idx + [|t| - 1];
    var r' := r + [t[|t| - 1]];
    forall k | 0 <= k < |idx'|
      ensures 0 <= idx'[k] < |t| && t[idx'[k]] == r'[k]
    {
      if k < |idx| {
        assert t[..|t| - 1][idx[k]] == r[k];
      }
    }
  }

  /** The names that yield pages are a subsequence of `order`: they keep their relative order. */
  lemma {:induction false} RenderableIsSubsequence(order: seq<string>, files: map<string, Option<Image>>, cfg: Config)
    ensures exists idx :: IndexMap(idx, Renderable(order, files, cfg), order)
  {
    if order == [] {
      assert IndexMap([], Renderable(order, files, cfg), order);
    } else {
      var init := order[..|order| - 1];
      var last := order[|order| - 1];
      RenderableIsSubsequence(init, files, cfg);
      var r := Renderable(init, files, cfg);
      var idx :| IndexMap(idx, r, init);
      IndexMapExtend(idx, r, order);
      if Renders(files, last, cfg) {
        assert IndexMap(idx + [|order| - 1], Renderable(order, files, cfg), order);
      } else {
        assert IndexMap(idx, Renderable(order, files, cfg), order);
      }
    }
  }

  /** The reference document: one page per renderable name, each its JPEG's size. */
  function ExpectedPages(dirPath: string, order: seq<string>, files: map<string, Option<Image>>,
                         cfg: Config): (r: seq<Page>)
  {
    var names := Renderable(order, files, cfg);
    seq(|names|, i requires 0 <= i < |names| => PageFor(dirPath, names[i], Rendered(files, names[i], cfg)))
  }

  /** The paths reported for the names of `order` that cannot be opened. */
  function Unreadable(dirPath: string, order: seq<string>, files: map<string, Option<Image>>): seq<string>
    decreases |order|
  {
    if order == [] then []
    else
      var last := order[|order| - 1];
      Unreadable(dirPath, order[..|order| - 1], files)
        + (if Decodes(files, last) then [] else [Join(dirPath, last)])
  }

  /** The reference reports: the unreadable paths under SkipUnreadable, none otherwise. */
  function ExpectedReports(dirPath: string, order: seq<string>, files: map<string, Option<Image>>,
                           policy: Policy): seq<string>
  {
    if policy.SkipUnreadable? then Unreadable(dirPath, order, files) else []
  }

  lemma ExpectedPagesExtend(dirPath: string, order: seq<string>, files: map<string, Option<Image>>, cfg: Config)
    requires order != []
    ensures var last := order[|order| - 1];
      ExpectedPages(dirPath, order, files, cfg)
        == ExpectedPages(dirPath, order[..|order| - 1], files, cfg)
           + (if Renders(files, last, cfg) then [PageFor(dirPath, last, Rendered(files, last, cfg))] else [])
  {
  }

  /**
   * Nothing is left behind and nothing is rewritten: every entry after the
   * run was there before with the same content, and an entry can only have
   * gone if it bears the temporary name of one of the images.
   */
  lemma {:induction false} RunCreatesNoFiles(dirPath: string, order: seq<string>,
                                             files: map<string, Option<Image>>, cfg: Config, policy: Policy)
    ensures var q := Run(dirPath, order, files, cfg, policy);
      (forall k :: k in q.files ==> k in files && q.files[k] == files[k]) &&
      (forall k :: k in files && k !in q.files ==> k in TempNames(order))
  {
    if order != [] {
      var init := order[..|order| - 1];
      RunCreatesNoFiles(dirPath, init, files, cfg, policy);
      assert forall n :: n in init ==> n in order;
      assert TempNames(init) <= TempNames(order);
    }
  }

  /** When no image's temporary name is taken, the directory ends as it began. */
  lemma {:induction false} RunKeepsDirectory(dirPath: string, order: seq<string>,
                                             files: map<string, Option<Image>>, cfg: Config, policy: Policy)
    requires TempsAbsent(order, files)
    ensures Run(dirPath, order, files, cfg, policy).files == files
  {
    if order != [] {
      var init := order[..|order| - 1];
      assert TempsAbsent(init, files);
      RunKeepsDirectory(dirPath, init, files, cfg, policy);
      var temp := TempName(order[|order| - 1]);
      assert temp !in files;
      assert files - {temp} == files;
    }
  }

  /** One step from the reference state for the names before `last` gives the reference state including it. */
  lemma StepMatchesReference(dirPath: string, order: seq<string>,
                             files: map<string, Option<Image>>, cfg: Config, policy: Policy)
    requires order != [] && TempName(order[|order| - 1]) !in files
    ensures var init := order[..|order| - 1];
      var last := order[|order| - 1];
      var p := Progress(ExpectedPages(dirPath, init, files, cfg), ExpectedReports(dirPath, init, files, policy),
                        files, Completed);
      var q := Step(p, dirPath, last, cfg, policy);
      (q.status.Completed? <==> Accepted(files, last, cfg, policy)) &&
      (q.status.Completed? ==>
         q.pages == ExpectedPages(dirPath, order, files, cfg) &&
         q.reported == ExpectedReports(dirPath, order, files, policy) &&
         q.files == files)
  {
    ExpectedPagesExtend(dirPath, order, files, cfg);
    assert files - {TempName(order[|order| - 1])} == files;
  }

  /**
   * With no temporary-name clash, a run completes exactly when every name is
   * accepted under the policy, and then its pages are the reference
   * document, its reports are the unreadable paths (under SkipUnreadable)
   * and the directory is unchanged.
   */
  lemma {:induction false} RunAgreesWithReference(dirPath: string, order: seq<string>,
                                                  files: map<string, Option<Image>>, cfg: Config, policy: Policy)
    requires TempsAbsent(order, files)
    ensures var q := Run(dirPath, order, files, cfg, policy);
      (q.status.Completed? <==> forall n :: n in order ==> Accepted(files, n, cfg, policy)) &&
      (q.status.Completed? ==>
         q.pages == ExpectedPages(dirPath, order, files, cfg) &&
         q.reported == ExpectedReports(dirPath, order, files, policy) &&
         q.files == files)
  {
    if order != [] {
      var init := order[..|order| - 1];
      var last := order[|order| - 1];
      assert TempsAbsent(init, files);
      assert forall n :: n in order <==> n in init || n == last;
      RunAgreesWithReference(dirPath, init, files, cfg, policy);
      var p := Run(dirPath, init, files, cfg, policy);
      if p.status.Completed? {
        StepMatchesReference(dirPath, order, files, cfg, policy);
      }
    }
  }

  /** A page as the loop makes it: within the box, with one drawing at the origin filling it. */
  predicate PageFits(page: Page, cfg: Config)
  {
    1 <= page.width <= cfg.maxWidth && 1 <= page.height <= cfg.maxHeight &&
    |page.draws| == 1 && page.draws[0].x == 0 && page.draws[0].y == 0 &&
    page.draws[0].width == page.width && page.draws[0].height == page.height
  }

  /** A step adds at most one page, and that page fits. */
  lemma StepPageFits(p: Progress, dirPath: string, name: string, cfg: Config, policy: Policy)
    ensures var q := Step(p, dirPath, name, cfg, policy);
      q.pages == p.pages || (|q.pages| == |p.pages| + 1 && q.pages[..|p.pages|] == p.pages &&
                             PageFits(q.pages[|p.pages|], cfg))
  {
    var q := Step(p, dirPath, name, cfg, policy);
    if q.pages != p.pages {
      var img := p.files[name].value;
      var jpeg := JpegRoundTrip(Fit(DropAlpha(img), cfg.maxWidth, cfg.maxHeight)).value;
      assert q.pages == p.pages + [PageFor(dirPath, name, jpeg)];
    }
  }

  /** Every page has an image's size within the box, with that image drawn at the origin filling it. */
  lemma {:induction false} PagesFitTheBox(dirPath: string, order: seq<string>,
                                          files: map<string, Option<Image>>, cfg: Config, policy: Policy)
    ensures forall page :: page in Run(dirPath, order, files, cfg, policy).pages ==>
      1 <= page.width <= cfg.maxWidth && 1 <= page.height <= cfg.maxHeight &&
      |page.draws| == 1 && page.draws[0].x == 0 && page.draws[0].y == 0 &&
      page.draws[0].width == page.width && page.draws[0].height == page.height
  {
    if order != [] {
      var init := order[..|order| - 1];
      PagesFitTheBox(dirPath, init, files, cfg, policy);
      var p := Run(dirPath, init, files, cfg, policy);
      if !p.status.Aborted? {
        StepPageFits(p, dirPath, order[|order| - 1], cfg, policy);
        var q := Step(p, dirPath, order[|order| - 1], cfg, policy);
        if q.pages != p.pages {
          assert q.pages == p.pages + [q.pages[|p.pages|]];
        }
        assert forall page :: page in q.pages ==> PageFits(page, cfg);
      }
    }
  }

  /**
   * Page i of the reference document comes from the i-th renderable name:
   * it has that JPEG's size, which fits the box, is no larger than the
   * original, and equals the original when the original already fits.
   */
  lemma PagesFollowNames(dirPath: string, order: seq<string>, files: map<string, Option<Image>>, cfg: Config)
    ensures var names := Renderable(order, files, cfg);
      var pages := ExpectedPages(dirPath, order, files, cfg);
      |pages| == |names| &&
      forall i :: 0 <= i < |names| ==>
        var original := files[names[i]].value;
        pages[i].width <= original.width && pages[i].height <= original.height &&
        pages[i].width <= cfg.maxWidth && pages[i].height <= cfg.maxHeight &&
        (original.width <= cfg.maxWidth && original.height <= cfg.maxHeight ==>
           pages[i].width == original.width && pages[i].height == original.height) &&
        pages[i].draws[0].source == Join(dirPath, TempName(names[i]))
  {
  }

  /** The pages come in ascending name order: the renderable names of a sorted order are sorted. */
  lemma {:induction false} RenderableSorted(order: seq<string>, files: map<string, Option<Image>>, cfg: Config)
    requires Sorted(order)
    ensures Sorted(Renderable(order, files, cfg))
  {
    if order != [] {
      var init := order[..|order| - 1];
      var last := order[|order| - 1];
      assert Sorted(init);
      RenderableSorted(init, files, cfg);
      var r := Renderable(init, files, cfg);
      if Renders(files, last, cfg) {
        forall i | 0 <= i < |r|
          ensures LexLe(r[i], last)
        {
          assert r[i] in init;
          var k :| 0 <= k < |init| && init[k] == r[i];
          assert order[k] == r[i];
        }
      }
    }
  }

  lemma {:induction false} PagesAndReportsCoverOrder(dirPath: string, order: seq<string>,
                                                     files: map<string, Option<Image>>, cfg: Config)
    requires forall n :: n in order ==> (Decodes(files, n) ==> Renders(files, n, cfg))
    ensures |Renderable(order, files, cfg)| + |Unreadable(dirPath, order, files)| == |order|
  {
    if order != [] {
      var init := order[..|order| - 1];
      assert forall n :: n in init ==> n in order;
      PagesAndReportsCoverOrder(dirPath, init, files, cfg);
    }
  }

  /**
   * The form's policy: when every image that opens can be written, the run
   * completes, and each name yields either one page or one reported path.
   */
  lemma SkipPolicyAccountsForEveryName(dirPath: string, order: seq<string>,
                                       files: map<string, Option<Image>>, cfg: Config)
    requires TempsAbsent(order, files)
    requires forall n :: n in order ==> (Decodes(files, n) ==> Renders(files, n, cfg))
    ensures var q := Run(dirPath, order, files, cfg, SkipUnreadable);
      q.status.Completed? && |q.pages| + |q.reported| == |order| &&
      |q.pages| == |Renderable(order, files, cfg)|
  {
    RunAgreesWithReference(dirPath, order, files, cfg, SkipUnreadable);
    PagesAndReportsCoverOrder(dirPath, order, files, cfg);
    assert |ExpectedPages(dirPath, order, files, cfg)| == |Renderable(order, files, cfg)|;
  }

  lemma {:induction false} AllRenderableKeepsEveryName(order: seq<string>, files: map<string, Option<Image>>, cfg: Config)
    requires forall n :: n in order ==> Renders(files, n, cfg)
    ensures Renderable(order, files, cfg) == order
  {
    if order != [] {
      var init := order[..|order| - 1];
      assert forall n :: n in init ==> n in order;
      AllRenderableKeepsEveryName(init, files, cfg);
      assert init + [order[|order| - 1]] == order;
    }
  }

  /**
   * The command line's policy: a run completes exactly when every name opens
   * and can be written, and then there is one page per name, page i from the
   * i-th name.
   */
  lemma AbortPolicyOnePagePerName(dirPath: string, order: seq<string>,
                                  files: map<string, Option<Image>>, cfg: Config)
    requires TempsAbsent(order, files)
    ensures var q := Run(dirPath, order, files, cfg, AbortOnUnreadable);
      (q.status.Completed? <==> forall n :: n in order ==> Renders(files, n, cfg)) &&
      (q.status.Completed? ==> |q.pages| == |order| && Renderable(order, files, cfg) == order)
  {
    RunAgreesWithReference(dirPath, order, files, cfg, AbortOnUnreadable);
    var q := Run(dirPath, order, files, cfg, AbortOnUnreadable);
    if q.status.Completed? {
      assert forall n :: n in order ==> Accepted(files, n, cfg, AbortOnUnreadable);
      AllRenderableKeepsEveryName(order, files, cfg);
    }
  }

  /** On an image that opens, the policy makes no difference to a step. */
  lemma StepIgnoresPolicy(p: Progress, dirPath: string, name: string, cfg: Config)
    requires name in p.files && p.files[name].Some?
    ensures Step(p, dirPath, name, cfg, SkipUnreadable) == Step(p, dirPath, name, cfg, AbortOnUnreadable)
  {
  }

  /** When every image opens, the two entry points' policies give the same run. */
  lemma {:induction false} PoliciesAgreeWhenAllOpen(dirPath: string, order: seq<string>,
                                                    files: map<string, Option<Image>>, cfg: Config)
    requires TempsAbsent(order, files)
    requires forall n :: n in order ==> Decodes(files, n)
    ensures Run(dirPath, order, files, cfg, SkipUnreadable) == Run(dirPath, order, files, cfg, AbortOnUnreadable)
  {
    if order != [] {
      var init := order[..|order| - 1];
      assert TempsAbsent(init, files);
      assert forall n :: n in init ==> n in order;
      PoliciesAgreeWhenAllOpen(dirPath, init, files, cfg);
      RunKeepsDirectory(dirPath, init, files, cfg, SkipUnreadable);
      var p := Run(dirPath, init, files, cfg, SkipUnreadable);
      assert Decodes(files, order[|order| - 1]);
      if p.status.Completed? {
        StepIgnoresPolicy(p, dirPath, order[|order| - 1], cfg);
      }
    }
  }

  /** An RGBA image yields the same page as the same image without alpha, where a palette image would not. */
  lemma AlphaDoesNotChangeThePage(p: Progress, dirPath: string, name: string, width: Dim, height: Dim,
                                  cfg: Config, policy: Policy)
    requires p.status.Completed?
    ensures var withAlpha := Step(p.(files := p.files[name := Some(Image(width, height, "RGBA"))]), dirPath, name, cfg, policy);
      var withoutAlpha := Step(p.(files := p.files[name := Some(Image(width, height, "RGB"))]), dirPath, name, cfg, policy);
      withAlpha.pages == withoutAlpha.pages && withAlpha.reported == withoutAlpha.reported &&
      withAlpha.status == withoutAlpha.status == Completed && |withAlpha.pages| == |p.pages| + 1
  {
  }
}
