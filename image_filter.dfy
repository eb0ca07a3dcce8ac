/**
 * The image-file filter: a path names an image when its file name has an
 * extension that, lower-cased, is one of jpg, jpeg, png, gif, bmp, webp.
 */
module ImageFilter {
  import opened Wrappers
  import opened FilePath

  const IMAGE_EXTENSIONS: seq<string> := ["jpg", "jpeg", "png", "gif", "bmp", "webp"]

  /** Lower-casing of one character; only ASCII letters change. */
  function LowerChar(c: char): (l: char)
    ensures 'A' <= c <= 'Z' ==> 'a' <= l <= 'z' && l as int == c as int + 32
    ensures !('A' <= c <= 'Z') ==> l == c
  {
    if 'A' <= c <= 'Z' then (c as int + 32) as char else c
  }

  /** Lower-casing of a string: each character is lower-cased in place. */
  function ToLower(s: string): (r: string)
    ensures |r| == |s|
    ensures forall i :: 0 <= i < |s| ==> r[i] == LowerChar(s[i])
  {
    if s == [] then [] else [LowerChar(s[0])] + ToLower(s[1..])
  }

  /**
   * The test on a file name: it has an extension and that lower-cased is an
   * image extension. Equivalently, the name has an image suffix.
   */
  function IsImageName(name: string): (accepted: bool)
    ensures accepted <==> HasImageSuffix(name)
  {
    ImageSuffixIff(name);
    match Extension(name)
    case None => false
    case Some(ext) => ToLower(ext) in IMAGE_EXTENSIONS
  }

  /**
   * The filter applied to every candidate path: no file name means no
   * extension. A path is accepted exactly when it has a file name with an
   * image suffix.
   */
  function IsImageFile(path: string): (accepted: bool)
    ensures accepted <==> FileName(Parse(path)).Some? && HasImageSuffix(FileName(Parse(path)).value)
  {
    match FileName(Parse(path))
    case None => false
    case Some(name) => IsImageName(name)
  }

  /**
   * An independent description of an image name: lower-cased, it ends in `.`
   * followed by one of the six extensions, with at least one character before
   * that `.`.
   */
  predicate HasImageSuffix(name: string)
  {
    exists e :: e in IMAGE_EXTENSIONS && EndsWithExtension(name, e)
  }

  /** Lower-cased, `name` ends in `.` and `e`, with at least one character before the `.`. */
  predicate EndsWithExtension(name: string, e: string)
  {
    |e| + 1 < |name| && ToLower(name[|name| - |e| - 1..]) == "." + e
  }

  lemma LowerCharDot(c: char)
    ensures LowerChar(c) == '.' <==> c == '.'
  {
  }

  lemma {:induction false} ToLowerConcat(a: string, b: string)
    ensures ToLower(a + b) == ToLower(a) + ToLower(b)
  {
    if a != [] {
      assert (a + b)[1..] == a[1..] + b;
      ToLowerConcat(a[1..], b);
    } else {
      assert a + b == b;
    }
  }

  lemma {:induction false} ToLowerSuffix(s: string, k: nat)
    requires k <= |s|
    ensures ToLower(s[k..]) == ToLower(s)[k..]
  {
    if k > 0 {
      assert s[k..] == s[1..][k - 1..];
      ToLowerSuffix(s[1..], k - 1);
    }
  }

  /** Lower-casing neither adds nor removes a `.`. */
  lemma {:induction false} ToLowerKeepsDots(s: string)
    ensures '.' in s <==> '.' in ToLower(s)
  {
    if s != [] {
      ToLowerKeepsDots(s[1..]);
      LowerCharDot(s[0]);
      assert s == [s[0]] + s[1..];
    }
  }

  lemma NoDotInImageExtensions(e: string)
    requires e in IMAGE_EXTENSIONS
    ensures '.' !in e && |e| >= 3
  {
  }

  /** A name whose lower-cased extension is an image extension has an image suffix. */
  lemma ImageNameHasSuffix(name: string)
    requires Extension(name).Some? && ToLower(Extension(name).value) in IMAGE_EXTENSIONS
    ensures HasImageSuffix(name)
  {
    var x := Extension(name).value;
    var e := ToLower(x);
    var k := |name| - |e| - 1;
    assert name[k..] == "." + x;
    ToLowerConcat(".", x);
    assert ToLower(".") == ".";
    assert e in IMAGE_EXTENSIONS && EndsWithExtension(name, e);
  }

  /** Lower-casing `.` followed by `x` gives `.` followed by `e` exactly when `x` lower-cases to `e`. */
  lemma DotThenLower(s: string, e: string)
    requires |s| == |e| + 1 && ToLower(s) == "." + e
    ensures s[0] == '.' && ToLower(s[1..]) == e
  {
    assert ToLower(s) == [LowerChar(s[0])] + ToLower(s[1..]);
    assert ("." + e)[1..] == e;
    LowerCharDot(s[0]);
  }

  /** A name that lower-cases to end in `.` and a dot-free `e` has the matching extension. */
  lemma ExtensionOfSuffix(name: string, e: string)
    requires e != [] && '.' !in e && |e| + 1 < |name| && ToLower(name[|name| - |e| - 1..]) == "." + e
    ensures Extension(name).Some? && ToLower(Extension(name).value) == e
  {
    var k := |name| - |e| - 1;
    var stem, x := name[..k], name[k + 1..];
    assert '.' !in x && ToLower(x) == e && stem != [] && name == stem + "." + x by {
      DotThenLower(name[k..], e);
      assert name[k..][1..] == x;
      ToLowerKeepsDots(x);
      assert name[k..] == "." + x by {
        assert name[k..] == [name[k]] + name[k..][1..];
      }
      assert name == stem + name[k..];
    }
    assert |name| != 2;
    ExtensionOfJoin(stem, x);
  }

  /** A name with an image suffix has an extension that lower-cases to an image extension. */
  lemma SuffixMakesImageName(name: string)
    requires HasImageSuffix(name)
    ensures Extension(name).Some? && ToLower(Extension(name).value) in IMAGE_EXTENSIONS
  {
    var e :| e in IMAGE_EXTENSIONS && EndsWithExtension(name, e);
    NoDotInImageExtensions(e);
    ExtensionOfSuffix(name, e);
  }

  lemma ImageSuffixIff(name: string)
    ensures HasImageSuffix(name)
        <==> Extension(name).Some? && ToLower(Extension(name).value) in IMAGE_EXTENSIONS
  {
    if HasImageSuffix(name) {
      SuffixMakesImageName(name);
    }
    if Extension(name).Some? && ToLower(Extension(name).value) in IMAGE_EXTENSIONS {
      ImageNameHasSuffix(name);
    }
  }

  lemma SuffixFollowsLower(name1: string, name2: string)
    requires ToLower(name1) == ToLower(name2) && HasImageSuffix(name1)
    ensures HasImageSuffix(name2)
  {
    var e :| e in IMAGE_EXTENSIONS && EndsWithExtension(name1, e);
    var k := |name1| - |e| - 1;
    assert EndsWithExtension(name2, e) by {
      ToLowerSuffix(name1, k);
      ToLowerSuffix(name2, k);
    }
  }

  /** Whether a name is an image depends on its lower-cased form only. */
  lemma CaseInsensitive(name1: string, name2: string)
    requires ToLower(name1) == ToLower(name2)
    ensures IsImageName(name1) == IsImageName(name2)
  {
    if IsImageName(name1) {
      SuffixFollowsLower(name1, name2);
    }
    if IsImageName(name2) {
      SuffixFollowsLower(name2, name1);
    }
  }

  /** In a directory, the filter looks at the last component only. */
  lemma FilterInDirectory(dir: string, name: string)
    requires ValidPart(name) && name != ".."
    ensures IsImageFile(dir + [SEP] + name) == IsImageName(name)
  {
    ParseAppend(dir, name);
  }

  /** A trailing separator does not change the verdict. */
  lemma FilterIgnoresTrailingSeparator(path: string)
    requires path != []
    ensures IsImageFile(path + [SEP]) == IsImageFile(path)
  {
    ParseTrailingSeparator(path);
  }

  /** Only the text after the last `.` decides, compared without regard to case. */
  lemma LastExtensionDecides(stem: string, ext: string)
    requires stem != [] && '.' !in ext && stem + "." + ext != ".."
    ensures IsImageName(stem + "." + ext) <==> ToLower(ext) in IMAGE_EXTENSIONS
  {
    ExtensionOfJoin(stem, ext);
  }

  /** A name without a `.` has no extension and is rejected. */
  lemma NoExtensionRejected(name: string)
    requires '.' !in name
    ensures !IsImageName(name)
  {
    ExtensionAbsent(name);
  }

  /** A hidden name such as `.png` has no extension and is rejected. */
  lemma HiddenNameRejected(rest: string)
    requires '.' !in rest
    ensures !IsImageName("." + rest)
  {
    var name := "." + rest;
    assert name[0] == '.' && name[1..] == rest;
    ExtensionAbsent(name);
  }

  /** An upper-case extension is accepted. */
  lemma UpperCaseAccepted(stem: string)
    requires stem != []
    ensures IsImageName(stem + ".PNG")
  {
    assert stem + ".PNG" == stem + "." + "PNG";
    LastExtensionDecides(stem, "PNG");
    assert ToLower("PNG") == "png";
  }

  /** A mixed-case extension is accepted. */
  lemma MixedCaseAccepted(stem: string)
    requires stem != []
    ensures IsImageName(stem + ".Jpeg")
  {
    assert stem + ".Jpeg" == stem + "." + "Jpeg";
    LastExtensionDecides(stem, "Jpeg");
    assert ToLower("Jpeg") == "jpeg";
  }

  /** A path ending in `..` has no file name, so it is never an image. */
  lemma ParentDirRejected(dir: string)
    ensures !IsImageFile(dir + [SEP] + "..")
  {
    ParseAppend(dir, "..");
  }
}
