/**
  The image-extension check applied to every uploaded file name
  (`allowed_file` and the `ALLOWED_EXTENSIONS` setting of app.py).
*/
module Upload {
  import opened Text

  /** The configured allow-list of image extensions, all lower case. */
  const AllowedExtensions: set<string> := {"png", "jpg", "jpeg", "gif", "jfif"}

  /** `allowed_file`: the name holds a dot, and the lower-cased text after
      its LAST dot is one of the allowed extensions. */
  predicate AllowedFile(filename: string) {
    '.' in filename && Lower(RSplitOnce(filename, '.')[1]) in AllowedExtensions
  }

  /** A name with no dot is always refused, whatever it spells. */
  lemma RejectsWithoutDot(filename: string)
    requires '.' !in filename
    ensures !AllowedFile(filename)
  {
  }

  /** The verdict depends only on the text after the last dot: for any stem
      (which may itself contain dots) and any dot-free suffix, the name is
      accepted exactly when the lower-cased suffix is an allowed extension. */
  lemma AllowedFileBySuffix(stem: string, ext: string)
    requires '.' !in ext
    ensures AllowedFile(stem + "." + ext) <==> Lower(ext) in AllowedExtensions
  {
    RSplitOnceAt(stem, '.', ext);
  }

  /** Every accepted name is a stem, a dot and a case variant of one of
      the five allowed extensions. */
  lemma AcceptedNameShape(filename: string)
    requires AllowedFile(filename)
    ensures filename != []
    ensures exists k :: 0 <= k < |filename| && filename[k] == '.'
                        && '.' !in filename[k + 1..]
                        && Lower(filename[k + 1..]) in AllowedExtensions
  {
    var parts := RSplitOnce(filename, '.');
    var k := |parts[0]|;
    assert filename[k] == '.';
    assert filename[k + 1..] == parts[1];
  }

  /** The extension check ignores case, so only the letters matter: an
      upper-case or mixed-case spelling of an allowed extension passes. */
  lemma AllowedFileIgnoresCase(stem: string, ext: string, ext': string)
    requires '.' !in ext && '.' !in ext' && Lower(ext) == Lower(ext')
    ensures AllowedFile(stem + "." + ext) <==> AllowedFile(stem + "." + ext')
  {
    AllowedFileBySuffix(stem, ext);
    AllowedFileBySuffix(stem, ext');
  }

  /** Whatever the stem (dots included), a final extension from the
      allow-list passes in any letter case. */
  lemma AcceptedExamples(stem: string)
    ensures AllowedFile(stem + "." + "PNG") && AllowedFile(stem + ".b" + "." + "jpg")
    ensures AllowedFile(stem + "." + "Jfif")
  {
    assert Lower("Jfif") == "jfif";
    AllowedFileBySuffix(stem, "Jfif");
    assert Lower("PNG") == "png";
    AllowedFileBySuffix(stem, "PNG");
    assert Lower("jpg") == "jpg";
    AllowedFileBySuffix(stem + ".b", "jpg");
  }

  /** A foreign final extension, an allowed extension that is not the final
      one, an empty final suffix and a bare extension without a dot are
      refused. */
  lemma RejectedExamples(stem: string)
    ensures !AllowedFile(stem + "." + "EXE") && !AllowedFile(stem + ".png" + "." + "exe")
    ensures !AllowedFile(stem + ".") && !AllowedFile("png") && !AllowedFile("")
  {
  }
}
