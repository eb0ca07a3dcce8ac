/**
 * The part of Rust's `std::path` that the watermarking tool relies on, for
 * Unix paths: splitting a path into components, `file_name`, `extension`
 * and `with_file_name`.
 *
 * A parsed path keeps whether it starts at the root and its components, with
 * empty components (repeated or trailing separators) and `.` components
 * dropped, as Rust's component iterator drops them.
 */
module FilePath {
  import opened Wrappers

  const SEP: char := '/'

  // ---------------------------------------------------------------------
  // Splitting and joining on the separator
  // ---------------------------------------------------------------------

  /** The pieces of `s` between separators, empty pieces included. */
  function Split(s: string): (pieces: seq<string>)
    ensures |pieces| >= 1
    ensures forall i :: 0 <= i < |pieces| ==> SEP !in pieces[i]
  {
    if s == [] then [[]]
    else
      var rest := Split(s[1..]);
      if s[0] == SEP then [[]] + rest
      else [[s[0]] + rest[0]] + rest[1..]
  }

  /** The pieces glued back together with one separator between neighbours. */
  function Join(pieces: seq<string>): string
  {
    if |pieces| == 0 then []
    else if |pieces| == 1 then pieces[0]
    else pieces[0] + [SEP] + Join(pieces[1..])
  }

  lemma {:induction false} SplitWithoutSeparator(a: string)
    requires SEP !in a
    ensures Split(a) == [a]
  {
    if a != [] {
      SplitWithoutSeparator(a[1..]);
      assert [a[0]] + a[1..] == a;
    }
  }

  lemma {:induction false} SplitAtFirstSeparator(a: string, rest: string)
    requires SEP !in a
    ensures Split(a + [SEP] + rest) == [a] + Split(rest)
  {
    if a == [] {
      assert [] + [SEP] + rest == [SEP] + rest;
      assert ([SEP] + rest)[1..] == rest;
    } else {
      assert (a + [SEP] + rest)[1..] == a[1..] + [SEP] + rest;
      SplitAtFirstSeparator(a[1..], rest);
      assert [a[0]] + a[1..] == a;
    }
  }

  /** Splitting undoes joining pieces that hold no separator. */
  lemma {:induction false} SplitJoin(pieces: seq<string>)
    requires |pieces| >= 1
    requires forall i :: 0 <= i < |pieces| ==> SEP !in pieces[i]
    ensures Split(Join(pieces)) == pieces
  {
    if |pieces| == 1 {
      SplitWithoutSeparator(pieces[0]);
    } else {
      SplitJoin(pieces[1..]);
      SplitAtFirstSeparator(pieces[0], Join(pieces[1..]));
      assert [pieces[0]] + pieces[1..] == pieces;
    }
  }

  /** Joining undoes splitting. */
  lemma {:induction false} JoinSplit(s: string)
    ensures Join(Split(s)) == s
  {
    if s != [] {
      JoinSplit(s[1..]);
      var rest := Split(s[1..]);
      if s[0] == SEP {
        assert Join([[]] + rest) == [] + [SEP] + Join(rest);
        assert [SEP] + s[1..] == s;
      } else if |rest| == 1 {
        assert Join([[s[0]] + rest[0]]) == [s[0]] + rest[0];
        assert [s[0]] + s[1..] == s;
      } else {
        var p := [[s[0]] + rest[0]] + rest[1..];
        assert p[1..] == rest[1..];
        assert Join(rest) == rest[0] + [SEP] + Join(rest[1..]);
        assert [s[0]] + s[1..] == s;
      }
    }
  }

  // ---------------------------------------------------------------------
  // Components
  // ---------------------------------------------------------------------

  /** A component as a parsed path keeps it: not empty, not `.`, no separator. */
  predicate ValidPart(part: string)
  {
    part != [] && part != "." && SEP !in part
  }

  /** The pieces that are components: empty and `.` pieces are dropped. */
  function Components(pieces: seq<string>): (parts: seq<string>)
    ensures |parts| <= |pieces|
    ensures forall i :: 0 <= i < |parts| ==> parts[i] != [] && parts[i] != "."
    ensures (forall i :: 0 <= i < |pieces| ==> SEP !in pieces[i]) ==>
              forall i :: 0 <= i < |parts| ==> ValidPart(parts[i])
  {
    if pieces == [] then []
    else
      var rest := Components(pieces[1..]);
      if pieces[0] == [] || pieces[0] == "." then rest else [pieces[0]] + rest
  }

  lemma {:induction false} ComponentsOfValid(parts: seq<string>)
    requires forall i :: 0 <= i < |parts| ==> ValidPart(parts[i])
    ensures Components(parts) == parts
  {
    if parts != [] {
      ComponentsOfValid(parts[1..]);
      assert [parts[0]] + parts[1..] == parts;
    }
  }

  datatype Path = Path(absolute: bool, parts: seq<string>)

  predicate WellFormed(p: Path)
  {
    forall i :: 0 <= i < |p.parts| ==> ValidPart(p.parts[i])
  }

  /** A path string as Rust's component iterator sees it. */
  function Parse(s: string): (p: Path)
    ensures WellFormed(p)
  {
    Path(|s| > 0 && s[0] == SEP, Components(Split(s)))
  }

  /** The path written out, with one separator between components; parsing it gives the path back. */
  function Render(p: Path): (s: string)
    ensures WellFormed(p) ==> Parse(s) == p
  {
    var s := (if p.absolute then [SEP] else []) + Join(p.parts);
    if WellFormed(p) then ParseJoined(p.absolute, p.parts, s); s else s
  }

  /** Writing well-formed components out and parsing them back gives the same path. */
  lemma ParseJoined(absolute: bool, parts: seq<string>, s: string)
    requires forall i :: 0 <= i < |parts| ==> ValidPart(parts[i])
    requires s == (if absolute then [SEP] else []) + Join(parts)
    ensures Parse(s) == Path(absolute, parts)
  {
    if parts == [] {
      if absolute {
        assert s == [SEP];
        assert Split(s) == [[], []] by {
          assert [SEP][1..] == [];
        }
        assert Components([[], []]) == [];
      } else {
        assert s == [];
      }
    } else if absolute {
      ParseJoinedAbsolute(parts, s);
    } else {
      ParseJoinedRelative(parts, s);
    }
  }

  lemma ParseJoinedAbsolute(parts: seq<string>, s: string)
    requires parts != [] && forall i :: 0 <= i < |parts| ==> ValidPart(parts[i])
    requires s == [SEP] + Join(parts)
    ensures Parse(s) == Path(true, parts)
  {
    var j := Join(parts);
    assert Split(s) == [[]] + parts by {
      assert s == [] + [SEP] + j;
      SplitAtFirstSeparator([], j);
      SplitJoin(parts);
    }
    assert Components([[]] + parts) == parts by {
      assert ([[]] + parts)[1..] == parts;
      ComponentsOfValid(parts);
    }
    assert s[0] == SEP;
  }

  lemma ParseJoinedRelative(parts: seq<string>, s: string)
    requires parts != [] && forall i :: 0 <= i < |parts| ==> ValidPart(parts[i])
    requires s == Join(parts)
    ensures Parse(s) == Path(false, parts)
  {
    SplitJoin(parts);
    ComponentsOfValid(parts);
    if |parts| == 1 {
      assert s == parts[0];
    } else {
      assert s == parts[0] + [SEP] + Join(parts[1..]);
    }
    assert s[0] == parts[0][0];
  }

  /** Parsing ignores repeated separators and `.` components, as Rust's `components` does. */
  lemma ParseSkipsEmptyAndDot(a: string, b: string)
    requires SEP !in a && SEP !in b
    ensures Parse(a + "/./" + b).parts == Parse(a + "//" + b).parts
  {
    assert a + "/./" + b == a + [SEP] + ("." + [SEP] + b);
    assert a + "//" + b == a + [SEP] + ([] + [SEP] + b);
    SplitAtFirstSeparator(a, "." + [SEP] + b);
    SplitAtFirstSeparator(".", b);
    SplitAtFirstSeparator(a, [] + [SEP] + b);
    SplitAtFirstSeparator([], b);
    var sb := Split(b);
    var x := Split(a + "/./" + b);
    var y := Split(a + "//" + b);
    assert x == [a] + (["."] + sb);
    assert y == [a] + ([[]] + sb);
    assert (["."] + sb)[1..] == sb;
    assert ([[]] + sb)[1..] == sb;
    assert Components(["."] + sb) == Components(sb) == Components([[]] + sb);
    assert x[1..] == ["."] + sb;
    assert y[1..] == [[]] + sb;
  }

  lemma {:induction false} SplitAppend(s: string, name: string)
    requires SEP !in name
    ensures Split(s + [SEP] + name) == Split(s) + [name]
  {
    if s == [] {
      SplitAtFirstSeparator([], name);
      SplitWithoutSeparator(name);
      assert [] + [SEP] + name == s + [SEP] + name;
    } else {
      assert (s + [SEP] + name)[1..] == s[1..] + [SEP] + name;
      SplitAppend(s[1..], name);
    }
  }

  lemma {:induction false} ComponentsAppend(pieces: seq<string>, more: seq<string>)
    ensures Components(pieces + more) == Components(pieces) + Components(more)
  {
    if pieces == [] {
      assert pieces + more == more;
    } else {
      var all := pieces + more;
      assert all[0] == pieces[0];
      assert all[1..] == pieces[1..] + more;
      ComponentsAppend(pieces[1..], more);
      var head := if pieces[0] == [] || pieces[0] == "." then [] else [pieces[0]];
      assert Components(pieces) == head + Components(pieces[1..]);
      assert Components(all) == head + Components(all[1..]);
    }
  }

  /** Appending a separator and a component appends that component. */
  lemma ParseAppend(s: string, name: string)
    requires ValidPart(name)
    ensures Parse(s + [SEP] + name).parts == Parse(s).parts + [name]
  {
    SplitAppend(s, name);
    ComponentsAppend(Split(s), [name]);
    assert Components([name]) == [name];
  }

  /** A trailing separator changes nothing, as in Rust. */
  lemma ParseTrailingSeparator(s: string)
    requires s != []
    ensures Parse(s + [SEP]) == Parse(s)
  {
    SplitAppend(s, []);
    assert s + [SEP] + [] == s + [SEP];
    ComponentsAppend(Split(s), [[]]);
    assert Components([[]]) == [];
    assert (s + [SEP])[0] == s[0];
  }

  /** A bare name is a relative path of one component. */
  lemma ParseName(name: string)
    requires ValidPart(name)
    ensures Parse(name) == Path(false, [name])
  {
    SplitWithoutSeparator(name);
    assert Components([name]) == [name];
  }

  // ---------------------------------------------------------------------
  // file_name, extension, with_file_name
  // ---------------------------------------------------------------------

  /** Rust's `file_name`: the last component, unless there is none or it is `..`. */
  function FileName(p: Path): (name: Option<string>)
    ensures name.Some? ==> |p.parts| > 0 && name.value == p.parts[|p.parts| - 1] && name.value != ".."
    ensures name.None? ==> |p.parts| == 0 || p.parts[|p.parts| - 1] == ".."
  {
    if |p.parts| == 0 || p.parts[|p.parts| - 1] == ".." then None
    else Some(p.parts[|p.parts| - 1])
  }

  /**
   * On path strings: the file name of `dir/name` is `name`, and there is
   * none for the empty path, the root, `.` and a path ending in `..`.
   */
  lemma FileNameOfString(dir: string, name: string)
    requires ValidPart(name) && name != ".."
    ensures FileName(Parse(dir + [SEP] + name)) == Some(name)
    ensures FileName(Parse(name)) == Some(name)
    ensures FileName(Parse("")) == None
    ensures FileName(Parse("/")) == None
    ensures FileName(Parse(".")) == None
    ensures FileName(Parse(dir + [SEP] + "..")) == None
  {
    ParseAppend(dir, name);
    ParseName(name);
    ParseAppend(dir, "..");
    assert Split("") == [[]];
    assert Split([SEP]) == [[], []] by {
      assert [SEP][1..] == [];
    }
    assert "/" == [SEP];
    assert Split(".") == ["."] by {
      SplitWithoutSeparator(".");
    }
  }

  /** The path without its last component (what Rust's `pop` leaves). */
  function Directory(p: Path): (d: Path)
    requires |p.parts| > 0
    ensures d.absolute == p.absolute && d.parts + [p.parts[|p.parts| - 1]] == p.parts
  {
    Path(p.absolute, p.parts[..|p.parts| - 1])
  }

  /**
   * Rust's `with_file_name` for a name that is one component: the file
   * name, if any, is replaced; otherwise the name is appended.
   */
  function WithFileName(p: Path, name: string): (q: Path)
    requires ValidPart(name)
    ensures WellFormed(p) ==> WellFormed(q)
    ensures FileName(q) == Some(name) || name == ".."
    ensures q.absolute == p.absolute
    ensures |q.parts| > 0 && Directory(q) == (if FileName(p).Some? then Directory(p) else p)
  {
    if FileName(p).Some? then Path(p.absolute, Directory(p).parts + [name])
    else Path(p.absolute, p.parts + [name])
  }

  /** The position of the last `.` in `s`, if any. */
  function LastDot(s: string): (i: Option<nat>)
    ensures i.None? <==> '.' !in s
    ensures i.Some? ==> i.value < |s| && s[i.value] == '.' && '.' !in s[i.value + 1..]
  {
    if s == [] then None
    else if s[|s| - 1] == '.' then Some(|s| - 1)
    else
      var j := LastDot(s[..|s| - 1]);
      assert s == s[..|s| - 1] + [s[|s| - 1]];
      j
  }

  /**
   * Rust's extension of a file name: the text after the last `.`; none when
   * there is no `.`, when the only `.` that counts is the first character (a
   * hidden file such as `.profile`), or for `..`.
   */
  function Extension(name: string): (ext: Option<string>)
    ensures ext.Some? ==>
      var e := ext.value;
      && |e| + 1 < |name|
      && name[|name| - |e| - 1] == '.'
      && name[|name| - |e|..] == e
      && '.' !in e
  {
    if name == ".." then None
    else match LastDot(name)
      case None => None
      case Some(i) => if i == 0 then None else Some(name[i + 1..])
  }

  /** A stem before a `.` and a dot-free tail: the tail is the extension. */
  lemma ExtensionOfJoin(stem: string, ext: string)
    requires stem != [] && '.' !in ext && stem + "." + ext != ".."
    ensures Extension(stem + "." + ext) == Some(ext)
  {
    var s := stem + "." + ext;
    var k := |stem|;
    assert s[k] == '.';
    assert s[k + 1..] == ext;
  }

  /** No extension exactly for `..`, for names without a `.`, and for names whose only `.` leads. */
  lemma ExtensionAbsent(name: string)
    ensures Extension(name).None?
        <==> (|| name == ".."
              || '.' !in name
              || (name[0] == '.' && '.' !in name[1..]))
  {
    if name != ".." && '.' in name {
      var i := LastDot(name).value;
      if i == 0 {
        assert name[1..] == name[i + 1..];
      }
    }
  }

  /** Putting any text in front of a name that has an extension keeps that extension. */
  lemma ExtensionAfterPrefix(prefix: string, name: string)
    requires Extension(name).Some?
    ensures Extension(prefix + name) == Extension(name)
  {
    var x := Extension(name).value;
    var k := |name| - |x| - 1;
    var stem := name[..k];
    assert name == stem + "." + x by {
      assert name == name[..k] + name[k..];
      assert name[k..] == [name[k]] + name[k + 1..];
    }
    assert prefix + name == (prefix + stem) + "." + x;
    ExtensionOfJoin(prefix + stem, x);
  }
}
