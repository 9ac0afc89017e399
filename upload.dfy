/** The upload allow-list check `allowed_file` (app.py, lines 16 and 38-39). */
module Upload {
  import opened Strings

  /** `ALLOWED_EXTENSIONS`. */
  const AllowedExtensions: set<string> := {"png", "jpg", "jpeg"}

  /** The text after the last `'.'` of `name`, which is
      `name.rsplit('.', 1)[1]` when `name` holds a dot, and the whole name
      when it holds none. */
  function Extension(name: string): (ext: string)
    ensures |ext| <= |name| && ext == name[|name| - |ext|..]
    ensures '.' !in ext
    ensures '.' in name ==> |ext| < |name| && name[|name| - |ext| - 1] == '.'
    ensures '.' !in name ==> ext == name
  {
    if name == [] then []
    else if name[|name| - 1] == '.' then []
    else
      var init := name[..|name| - 1];
      assert name == init + [name[|name| - 1]];
      Extension(init) + [name[|name| - 1]]
  }

  /** `allowed_file(filename)`: a non-empty name with a dot whose last
      segment, lower-cased, is an allowed extension. */
  predicate AllowedFile(filename: string) {
    |filename| > 0 && '.' in filename && Lower(Extension(filename)) in AllowedExtensions
  }

  /** Whatever precedes the last dot, the extension is what follows it. */
  lemma {:induction false} ExtensionAfterLastDot(stem: string, ext: string)
    requires '.' !in ext
    ensures Extension(stem + "." + ext) == ext
    decreases |ext|
  {
    if ext == [] {
      assert (stem + "." + ext)[|stem + "." + ext| - 1] == '.';
    } else {
      var e := ext[..|ext| - 1];
      assert stem + "." + ext == (stem + "." + e) + [ext[|ext| - 1]];
      assert (stem + "." + e + [ext[|ext| - 1]])[..|stem + "." + ext| - 1] == stem + "." + e;
      assert '.' !in e by {
        forall i | 0 <= i < |e| ensures e[i] != '.' { assert e[i] == ext[i]; }
      }
      ExtensionAfterLastDot(stem, e);
      assert ext == e + [ext[|ext| - 1]];
    }
  }

  /** `filename` is `stem + "." + ext` with an allowed, dot-free `ext`. */
  predicate AllowedSplit(filename: string, stem: string, ext: string) {
    filename == stem + "." + ext && '.' !in ext && Lower(ext) in AllowedExtensions
  }

  /** A name is allowed exactly when it splits as `stem + "." + ext`, with
      no dot in `ext` and `ext` an allowed extension in any letter case. */
  lemma AllowedFileIff(filename: string)
    ensures AllowedFile(filename) <==> exists stem, ext :: AllowedSplit(filename, stem, ext)
  {
    if AllowedFile(filename) {
      var ext := Extension(filename);
      var n := |filename| - |ext| - 1;
      var stem := filename[..n];
      assert filename == stem + [filename[n]] + filename[n + 1..];
      assert AllowedSplit(filename, stem, ext);
    }
    if exists stem, ext :: AllowedSplit(filename, stem, ext) {
      var stem, ext :| AllowedSplit(filename, stem, ext);
      ExtensionAfterLastDot(stem, ext);
      assert filename[|stem|] == '.';
    }
  }

  /** A name without a dot, in particular the empty name, is never allowed. */
  lemma NoDotRejected(filename: string)
    requires '.' !in filename
    ensures !AllowedFile(filename)
  {
  }

  /** Only the last segment counts, in any letter case. */
  lemma AcceptedUpperCaseAfterInnerDot()
    ensures AllowedFile("x.tar" + "." + "PNG")
  {
    ExtensionAfterLastDot("x.tar", "PNG");
    assert Lower("PNG") == "png";
  }

  /** A name that is only a dot and an extension is accepted. */
  lemma AcceptedBareExtension()
    ensures AllowedFile("." + "jpg")
  {
    assert "." + "jpg" == "" + "." + "jpg";
    ExtensionAfterLastDot("", "jpg");
    assert Lower("jpg") == "jpg";
  }

  /** A dotless name is rejected even when it spells an extension. */
  lemma RejectedNoDot()
    ensures !AllowedFile("png")
  {
    assert "png"[0] != '.' && "png"[1] != '.' && "png"[2] != '.';
  }

  /** An empty last segment is rejected. */
  lemma RejectedTrailingDot()
    ensures !AllowedFile("photo" + ".")
  {
    assert ("photo" + ".")[|"photo" + "."| - 1] == '.';
  }

  /** A disallowed last segment is rejected whatever precedes it. */
  lemma RejectedInnerExtension()
    ensures !AllowedFile("photo.png" + "." + "exe")
  {
    ExtensionAfterLastDot("photo.png", "exe");
    assert Lower("exe") == "exe";
  }

  /** Appending one character: a dot ends the extension, anything else
      extends it. */
  lemma ExtensionSnoc(init: string, c: char)
    ensures c == '.' ==> Extension(init + [c]) == []
    ensures c != '.' ==> Extension(init + [c]) == Extension(init) + [c]
  {
    assert (init + [c])[..|init + [c]| - 1] == init;
  }

  /** `Extension` commutes with lower-casing, since `'.'` is not a letter. */
  lemma {:induction false} ExtensionOfLower(name: string)
    ensures Extension(Lower(name)) == Lower(Extension(name))
    decreases |name|
  {
    if name != [] {
      var init := name[..|name| - 1];
      var c := name[|name| - 1];
      assert name == init + [c];
      LowerAppend(init, [c]);
      assert Lower([c]) == [LowerChar(c)];
      ExtensionSnoc(init, c);
      ExtensionSnoc(Lower(init), LowerChar(c));
      if c != '.' {
        ExtensionOfLower(init);
        LowerAppend(Extension(init), [c]);
      }
    }
  }

  /** The check is case-insensitive as a whole: lower-casing the name first
      does not change the verdict. */
  lemma AllowedFileIgnoresCase(filename: string)
    ensures AllowedFile(Lower(filename)) == AllowedFile(filename)
  {
    ExtensionOfLower(filename);
    LowerIdempotent(Extension(filename));
    assert ('.' in Lower(filename)) == ('.' in filename) by {
      if '.' in filename {
        var i :| 0 <= i < |filename| && filename[i] == '.';
        assert Lower(filename)[i] == '.';
      }
      if '.' in Lower(filename) {
        var i :| 0 <= i < |filename| && Lower(filename)[i] == '.';
        assert filename[i] == '.';
      }
    }
  }
}
