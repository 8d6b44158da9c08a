/** The filter that keeps image files: regular files whose name ends in one
    of the image extensions. */
module ImageFilter {
  import opened Files

  /** The image extensions, dot included. */
  const ImageFormats: set<string> := {".png", ".jpg", ".jpeg"}

  /** `String.endsWith`: `suffix` is the tail of `s`. */
  predicate EndsWith(s: string, suffix: string) {
    |suffix| <= |s| && s[|s| - |suffix|..] == suffix
  }

  /** Ending with a suffix means being some stem followed by it. */
  lemma EndsWithIsConcatenation(s: string, suffix: string)
    ensures EndsWith(s, suffix) <==> exists stem :: s == stem + suffix
  {
    if EndsWith(s, suffix) {
      var stem := s[..|s| - |suffix|];
      assert s == stem + suffix;
    }
    if exists stem :: s == stem + suffix {
      var stem :| s == stem + suffix;
      assert s[|s| - |suffix|..] == suffix;
    }
  }

  /** `accept`: not a regular file is rejected at once; otherwise the name
      must end with some image extension. */
  function Accept(f: FileEntry): (r: bool)
    ensures r <==> f.isFile && (exists stem, ext :: ext in ImageFormats && f.name == stem + ext)
  {
    AcceptByStem(f);
    if !f.isFile then false
    else exists ext | ext in ImageFormats :: EndsWith(f.name, ext)
  }

  lemma AcceptByStem(f: FileEntry)
    ensures (exists ext | ext in ImageFormats :: EndsWith(f.name, ext))
            <==> (exists stem, ext :: ext in ImageFormats && f.name == stem + ext)
  {
    forall ext | ext in ImageFormats {
      EndsWithIsConcatenation(f.name, ext);
    }
    if exists stem, ext :: ext in ImageFormats && f.name == stem + ext {
      var stem, ext :| ext in ImageFormats && f.name == stem + ext;
      EndsWithIsConcatenation(f.name, ext);
    }
  }

  /** The extensions spelled out: exactly `.png`, `.jpg` and `.jpeg`. */
  lemma AcceptsExactlyImageExtensions(f: FileEntry)
    ensures Accept(f) <==>
      f.isFile && (EndsWith(f.name, ".png") || EndsWith(f.name, ".jpg") || EndsWith(f.name, ".jpeg"))
  {
    var ext := if EndsWith(f.name, ".png") then ".png" else if EndsWith(f.name, ".jpg") then ".jpg" else ".jpeg";
    assert ext in ImageFormats;
  }

  /** Something that is not a regular file, such as a directory, is
      rejected whatever its name. */
  lemma RejectsNonFiles(f: FileEntry)
    requires !f.isFile
    ensures !Accept(f)
  {
  }

  /** Matching is on the exact, case-sensitive tail of the name. */
  lemma SuffixExamples(lastModified: int, length: int)
    ensures Accept(FileEntry("image.png", true, lastModified, length))
    ensures Accept(FileEntry("photo.jpeg", true, lastModified, length))
    ensures !Accept(FileEntry("x.PNG", true, lastModified, length))
    ensures !Accept(FileEntry("x.png.txt", true, lastModified, length))
    ensures !Accept(FileEntry("png", true, lastModified, length))
    ensures !Accept(FileEntry("test.txt", true, lastModified, length))
    ensures !Accept(FileEntry("image.png", false, lastModified, length))
  {
    AcceptsExactlyImageExtensions(FileEntry("image.png", true, lastModified, length));
    AcceptsExactlyImageExtensions(FileEntry("photo.jpeg", true, lastModified, length));
    AcceptsExactlyImageExtensions(FileEntry("x.PNG", true, lastModified, length));
    AcceptsExactlyImageExtensions(FileEntry("x.png.txt", true, lastModified, length));
    AcceptsExactlyImageExtensions(FileEntry("png", true, lastModified, length));
    AcceptsExactlyImageExtensions(FileEntry("test.txt", true, lastModified, length));
  }
}
