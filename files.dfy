/**
 * The input directory as the converter sees it: each entry's name and, when
 * the image library can open it, the decoded image. A subdirectory or a file
 * that is not an image is an entry that does not decode.
 */
module Files {
  import opened Wrappers
  import opened Imaging
  import opened Ordering

  class Directory {
    const path: string
    var files: map<string, Option<Image>>

    constructor (path: string, files: map<string, Option<Image>>)
      ensures this.path == path && this.files == files
    {
      this.path := path;
      this.files := files;
    }

    /** `os.listdir(path)`: every entry once, in an order the system chooses. */
    method ListDir() returns (names: seq<string>)
      ensures forall n :: n in names <==> n in files
      ensures Distinct(names)
    {
      names := [];
      var rest := files.Keys;
      while rest != {}
        invariant rest <= files.Keys
        invariant forall n :: n in names <==> n in files && n !in rest
        invariant Distinct(names)
        decreases rest
      {
        var n :| n in rest;
        names := names + [n];
        rest := rest - {n};
      }
    }

    /** `Image.open(join(path, name))`: the decoded image, or nothing when the entry is missing or does not decode. */
    method Open(name: string) returns (r: Option<Image>)
      ensures r.Some? <==> name in files && files[name].Some?
      ensures r.Some? ==> r == files[name]
    {
      r := if name in files then files[name] else None;
    }

    /**
     * `img.save(join(path, name), format="JPEG")`: fails, leaving the directory
     * as it was, when the mode cannot be written as JPEG; otherwise creates the
     * entry, or replaces an existing one of that name.
     */
    method SaveJpeg(name: string, img: Image) returns (ok: bool)
      modifies this
      ensures ok <==> JpegRoundTrip(img).Some?
      ensures files == if ok then old(files)[name := JpegRoundTrip(img)] else old(files)
    {
      var written := JpegRoundTrip(img);
      ok := written.Some?;
      if ok {
        files := files[name := written];
      }
    }

    /** `os.remove(join(path, name))`. */
    method Remove(name: string)
      requires name in files
      modifies this
      ensures files == old(files) - {name}
      ensures name !in files
    {
      files := files - {name};
    }
  }
}
