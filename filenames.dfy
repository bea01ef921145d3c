/**
 * The string rules of the converter: which directory entries count as
 * images, how a path is joined, the name of the temporary JPEG and the
 * default output path.
 */
module FileNames {
  import opened Ordering

  /** `str.lower()` on one character, for the ASCII letters. */
  function LowerChar(c: char): char
  {
    if 'A' <= c <= 'Z' then (c as int - 'A' as int + 'a' as int) as char else c
  }

  function Lower(s: string): string
  {
    seq(|s|, i requires 0 <= i < |s| => LowerChar(s[i]))
  }

  /** `s.endswith(suffix)`. */
  predicate EndsWith(s: string, suffix: string)
  {
    |suffix| <= |s| && s[|s| - |suffix|..] == suffix
  }

  /** The suffixes the converter accepts, compared after lower-casing. */
  const ImageExtensions: seq<string> := [".png", ".jpg", ".jpeg", ".gif", ".bmp"]

  /** `name.lower().endswith(('.png', '.jpg', '.jpeg', '.gif', '.bmp'))`. */
  predicate IsImageName(name: string)
    ensures IsImageName(name) ==> 4 <= |name|
  {
    exists ext :: ext in ImageExtensions && EndsWith(Lower(name), ext)
  }

  lemma {:induction false} LowerIdempotent(s: string)
    ensures Lower(Lower(s)) == Lower(s)
  {
    assert forall i :: 0 <= i < |s| ==> LowerChar(LowerChar(s[i])) == LowerChar(s[i]);
  }

  /** The filter ignores case: a name and its lower-cased form are selected alike. */
  lemma IsImageNameIgnoresCase(name: string)
    ensures IsImageName(Lower(name)) == IsImageName(name)
  {
    LowerIdempotent(name);
  }

  /** `IsImageName` spelled out as the five suffix tests. */
  lemma IsImageNameCases(name: string)
    ensures IsImageName(name) <==>
      EndsWith(Lower(name), ".png") || EndsWith(Lower(name), ".jpg") || EndsWith(Lower(name), ".jpeg") ||
      EndsWith(Lower(name), ".gif") || EndsWith(Lower(name), ".bmp")
  {
    if EndsWith(Lower(name), ".png") { assert ImageExtensions[0] == ".png"; }
    if EndsWith(Lower(name), ".jpg") { assert ImageExtensions[1] == ".jpg"; }
    if EndsWith(Lower(name), ".jpeg") { assert ImageExtensions[2] == ".jpeg"; }
    if EndsWith(Lower(name), ".gif") { assert ImageExtensions[3] == ".gif"; }
    if EndsWith(Lower(name), ".bmp") { assert ImageExtensions[4] == ".bmp"; }
  }

  /** Case is ignored: an upper-case extension is accepted. */
  lemma UpperCaseExtensionSelected()
    ensures IsImageName("scan.JPG")
  {
    IsImageNameCases("scan.JPG");
    assert Lower("scan.JPG") == "scan.jpg";
  }

  /** The dot is part of the suffix: a bare "png" is not an image name. */
  lemma BareExtensionNotSelected()
    ensures !IsImageName("png")
  {
    IsImageNameCases("png");
    assert Lower("png") == "png";
  }

  /** A string that ends with a non-empty suffix ends with that suffix's last character. */
  lemma EndsWithLast(s: string, suffix: string)
    requires EndsWith(s, suffix) && |suffix| > 0
    ensures |s| > 0 && s[|s| - 1] == suffix[|suffix| - 1]
  {
    assert s[|s| - |suffix|..][|suffix| - 1] == s[|s| - 1];
  }

  /** Every accepted extension ends in `g`, `f` or `p`, so the last character of an image name, lower-cased, is one of those. */
  lemma ImageNameLastChar(name: string)
    requires IsImageName(name)
    ensures |name| > 0 && LowerChar(name[|name| - 1]) in "gfp"
  {
    var ext :| ext in ImageExtensions && EndsWith(Lower(name), ext);
    assert |ext| > 0 && ext[|ext| - 1] in "gfp";
    EndsWithLast(Lower(name), ext);
  }

  /** A name with another extension is not an image name. */
  lemma TextFileNotSelected()
    ensures !IsImageName("notes.txt")
  {
    if IsImageName("notes.txt") {
      ImageNameLastChar("notes.txt");
      assert false;
    }
  }

  /**
   * The list comprehension over the directory listing: keeps exactly the
   * image names, in listing order, and never introduces a repetition.
   */
  function SelectImages(names: seq<string>): (r: seq<string>)
    ensures forall x :: x in r <==> x in names && IsImageName(x)
    ensures Distinct(names) ==> Distinct(r)
    ensures |r| <= |names|
  {
    if names == [] then []
    else
      var rest := SelectImages(names[1..]);
      assert Distinct(names) ==> Distinct(names[1..]) && names[0] !in names[1..];
      if IsImageName(names[0]) then [names[0]] + rest else rest
  }

  /**
   * `os.path.join(directory, name)` on POSIX: an absolute name replaces the
   * directory; otherwise a separator is inserted unless the directory is
   * empty or already ends in one.
   */
  function Join(directory: string, name: string): (r: string)
    ensures |name| <= |r| <= |directory| + 1 + |name|
  {
    if |name| > 0 && name[0] == '/' then name
    else if directory == [] || directory[|directory| - 1] == '/' then directory + name
    else directory + "/" + name
  }

  /**
   * A joined path ends with the name. An absolute name is the whole path. A
   * relative name follows the directory directly when the directory is empty
   * or already ends in a separator, and after exactly one separator otherwise.
   */
  lemma JoinShape(directory: string, name: string)
    ensures EndsWith(Join(directory, name), name)
    ensures |name| > 0 && name[0] == '/' ==> Join(directory, name) == name
    ensures (|name| == 0 || name[0] != '/') && (directory == [] || directory[|directory| - 1] == '/')
      ==> Join(directory, name) == directory + name
    ensures var r := Join(directory, name);
      (|name| == 0 || name[0] != '/') ==> |directory| <= |r| && r[..|directory|] == directory
    ensures var r := Join(directory, name);
      ((|name| == 0 || name[0] != '/') && directory != [] && directory[|directory| - 1] != '/')
        ==> |r| == |directory| + 1 + |name| && r[|directory|] == '/' && r[|directory| + 1..] == name
  {
  }

  /** The name of the temporary JPEG written for one source file. */
  function TempName(name: string): (r: string)
    ensures |r| == |name| + 11
  {
    "compressed_" + name
  }

  /** The temporary name is `compressed_` followed by the whole original name, so distinct names get distinct temporary names. */
  lemma TempNameShape(name: string, other: string)
    ensures var r := TempName(name);
      EndsWith(r, name) && |r| == |name| + 11 && r[..11] == "compressed_"
    ensures TempName(name) == TempName(other) ==> name == other
  {
    if TempName(name) == TempName(other) {
      assert name == TempName(name)[11..] && other == TempName(other)[11..];
    }
  }

  /**
   * The output path both entry points fall back to: the input directory
   * string with ".pdf" appended, nothing trimmed. A requested path that is
   * empty (the form's blank field, or the command line without the flag)
   * counts as not given.
   */
  function OutputPath(inputDir: string, requested: string): (r: string)
    ensures requested != "" ==> r == requested
    ensures requested == "" ==> |r| == |inputDir| + 4 && r[..|inputDir|] == inputDir && EndsWith(r, ".pdf")
  {
    if requested != "" then requested else inputDir + ".pdf"
  }

  /** No trimming: a trailing separator puts the PDF inside the input directory. */
  lemma OutputPathExamples()
    ensures OutputPath("/data/photos", "") == "/data/photos.pdf"
    ensures OutputPath("/data/photos/", "") == "/data/photos/.pdf"
    ensures OutputPath("/data/photos", "out.pdf") == "out.pdf"
  {
  }
}
