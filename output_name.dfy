/**
 * The output-name rule: the watermarked copy of `dir/name` is written to
 * `dir/watermarked_name`.
 */
module OutputName {
  import opened Wrappers
  import opened FilePath
  import opened ImageFilter

  const PREFIX: string := "watermarked_"

  /**
   * The output path for an input path. `None` stands for the panic of
   * `file_name().unwrap()` on a path that has no file name. The output exists
   * exactly when the input has a file name; it is then the input's directory
   * with `watermarked_` put before the file name.
   */
  function OutputPath(path: string): (out: Option<string>)
    ensures out.None? <==> FileName(Parse(path)).None?
    ensures out.Some? ==>
      var p := Parse(path);
      var q := Parse(out.value);
      && |p.parts| > 0
      && q == Path(p.absolute, p.parts[..|p.parts| - 1] + [PREFIX + FileName(p).value])
      && FileName(q) == Some(PREFIX + FileName(p).value)
  {
    var p := Parse(path);
    match FileName(p)
    case None => None
    case Some(name) =>
      assert ValidPart(p.parts[|p.parts| - 1]);
      Some(Render(WithFileName(p, PREFIX + name)))
  }

  /** The output is never the input: another file name, longer by the prefix, in the same directory. */
  lemma OutputNeverOverwrites(path: string)
    requires OutputPath(path).Some?
    ensures var p := Parse(path);
      var q := Parse(OutputPath(path).value);
      && FileName(p).Some? && FileName(q).Some?
      && |FileName(q).value| == |FileName(p).value| + |PREFIX|
      && Directory(q) == Directory(p)
      && q != p
      && OutputPath(path).value != path
  {
    var p := Parse(path);
    var q := Parse(OutputPath(path).value);
    var n := |p.parts|;
    assert |q.parts| == n;
    assert q.parts[..n - 1] == p.parts[..n - 1];
    assert q.parts[n - 1] != p.parts[n - 1] by {
      assert |q.parts[n - 1]| == |PREFIX| + |p.parts[n - 1]|;
    }
  }

  /** A bare file name gets the prefix and nothing else. */
  lemma OutputOfBareName(name: string)
    requires ValidPart(name) && name != ".."
    ensures OutputPath(name) == Some(PREFIX + name)
  {
    ParseName(name);
    var p := Path(false, [name]);
    assert FileName(p) == Some(name);
    var w := WithFileName(p, PREFIX + name);
    assert w.parts == [] + [PREFIX + name];
    assert Join(w.parts) == PREFIX + name;
    assert Render(w) == PREFIX + name;
  }

  /**
   * The output of an image file is again an image file with the same
   * extension, so a second run over the same directory also picks up the
   * outputs of the first.
   */
  lemma OutputOfImageIsImage(path: string)
    requires IsImageFile(path)
    ensures OutputPath(path).Some? && IsImageFile(OutputPath(path).value)
  {
    var name := FileName(Parse(path)).value;
    ExtensionAfterPrefix(PREFIX, name);
    assert IsImageName(PREFIX + name) == IsImageName(name);
  }

  /**
   * A hidden name such as `.png` has no extension, but its output name
   * `watermarked_.png` does: the prefix turns the leading `.` into an
   * extension separator.
   */
  lemma PrefixCreatesExtension(rest: string)
    requires '.' !in rest
    ensures Extension("." + rest).None?
    ensures Extension(PREFIX + ("." + rest)) == Some(rest)
  {
    HiddenNameRejected(rest);
    var name := "." + rest;
    assert name[0] == '.' && name[1..] == rest;
    ExtensionAbsent(name);
    assert PREFIX + ("." + rest) == PREFIX + "." + rest;
    ExtensionOfJoin(PREFIX, rest);
  }
}
