/** The extension whitelist applied to an uploaded file's (sanitised) name
    before anything is hashed or stored. */
module Filenames {
  import opened Strings

  /** The fixed set of accepted extensions, all lower-case. */
  const AllowedExtensions: set<string> :=
    {"png", "gif", "jpg", "jpeg", "doc", "xls", "mpp",
     "pdf", "ppt", "tiff", "bmp", "docx", "xlsx", "pptx",
     "ps", "odt", "ods", "odp", "odg", "txt"}

  /** A name is accepted when it contains a dot and the text after its last
      dot, lower-cased, is one of the allowed extensions. */
  predicate AllowedFile(filename: string)
    ensures AllowedFile(filename) ==> '.' in filename
  {
    '.' in filename && Lower(RSplitOnce(filename, '.')[1]) in AllowedExtensions
  }

  /** Every allowed extension is two to four characters long, so an
      accepted name ends in a dot and two to four more characters. */
  lemma AllowedExtensionsShape(filename: string)
    ensures forall e :: e in AllowedExtensions ==> 2 <= |e| <= 4
    ensures AllowedFile(filename) ==> 2 <= |RSplitOnce(filename, '.')[1]| <= 4
  {
  }

  /** A name without a dot is always rejected. */
  lemma NoDotRejected(filename: string)
    requires '.' !in filename
    ensures !AllowedFile(filename)
  {
  }

  /** Whether `stem.ext` is accepted depends on `ext` alone, lower-cased;
      the stem may itself contain dots. */
  lemma AllowedFileByExtension(stem: string, ext: string)
    requires '.' !in ext
    ensures AllowedFile(stem + "." + ext) <==> Lower(ext) in AllowedExtensions
  {
    RSplitOnceOfJoin(stem, '.', ext);
  }

  /** Two names with the same extension are accepted or rejected together. */
  lemma SameExtensionSameVerdict(stem1: string, stem2: string, ext: string)
    requires '.' !in ext
    ensures AllowedFile(stem1 + "." + ext) == AllowedFile(stem2 + "." + ext)
  {
    AllowedFileByExtension(stem1, ext);
    AllowedFileByExtension(stem2, ext);
  }

  /** The check ignores the letter case of the extension. */
  lemma ExtensionCaseIgnored(stem: string, ext: string)
    requires '.' !in ext
    ensures AllowedFile(stem + "." + ext) == AllowedFile(stem + "." + Lower(ext))
  {
    LowerKeepsSeparator(ext, '.');
    AllowedFileByExtension(stem, ext);
    AllowedFileByExtension(stem, Lower(ext));
    LowerIdempotent(ext);
  }

  /** Upper-case extensions pass: `x.TXT` is accepted. */
  lemma UpperCaseExtensionAccepted()
    ensures AllowedFile("x.TXT")
  {
    assert Lower("TXT") == "txt";
    assert "x.TXT" == "x" + "." + "TXT";
    AllowedFileByExtension("x", "TXT");
  }

  /** Only the last dot counts: `a.b.txt` is accepted. */
  lemma LastDotDecides()
    ensures AllowedFile("a.b.txt")
  {
    assert Lower("txt") == "txt";
    assert "a.b.txt" == "a.b" + "." + "txt";
    AllowedFileByExtension("a.b", "txt");
  }

  /** Every `.txt` name is accepted, whatever its stem: the names the
      handler's tests upload (`test.txt`, `file.txt`, `download.txt`,
      `delete.txt`) among them. */
  lemma TxtAccepted(stem: string)
    ensures AllowedFile(stem + ".txt")
  {
    assert Lower("txt") == "txt";
    assert stem + ".txt" == stem + "." + "txt";
    AllowedFileByExtension(stem, "txt");
  }

  /** `test.error` is rejected. */
  lemma UnknownExtensionRejected()
    ensures !AllowedFile("test.error")
  {
    assert Lower("error") == "error";
    assert "test.error" == "test" + "." + "error";
    AllowedFileByExtension("test", "error");
  }
}
