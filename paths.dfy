/**
 * String and path helpers: the segment after the last separator (used for
 * data-URL payloads, file names and extensions), `str::trim`, ASCII
 * lower-casing, decimal formatting of `u32`, the Unix reading of
 * `Path::file_name`, `extension` and `file_stem`, and the format and mime
 * choices made from a file's extension.
 */
module Paths {
  import opened Wrappers

  /**
   * The text after the last `sep` in `s`, or all of `s` when it has none:
   * `s.split(sep).last()`.
   */
  function AfterLast(s: string, sep: char): (r: string)
    ensures |r| <= |s| && r == s[|s| - |r|..]
    ensures sep !in r
    ensures |r| < |s| ==> s[|s| - |r| - 1] == sep
  {
    if s == [] then []
    else if s[|s| - 1] == sep then []
    else AfterLast(s[..|s| - 1], sep) + [s[|s| - 1]]
  }

  /** Whatever precedes the last separator, the text after it is what follows the separator. */
  lemma {:induction false} AfterLastOfSuffix(d: string, sep: char, seg: string)
    requires sep !in seg
    ensures AfterLast(d + [sep] + seg, sep) == seg
  {
    if seg == [] {
      assert (d + [sep] + seg)[|d + [sep] + seg| - 1] == sep;
    } else {
      var init := seg[..|seg| - 1];
      assert d + [sep] + seg == (d + [sep] + init) + [seg[|seg| - 1]];
      AfterLastOfSuffix(d, sep, init);
    }
  }

  /** Unicode `White_Space`, the set Rust's `char::is_whitespace` accepts. */
  predicate IsWhitespace(ch: char) {
    ('\U{0009}' <= ch <= '\U{000D}') || ch == '\U{0020}' || ch == '\U{0085}' || ch == '\U{00A0}' ||
    ch == '\U{1680}' || ('\U{2000}' <= ch <= '\U{200A}') || ch == '\U{2028}' || ch == '\U{2029}' ||
    ch == '\U{202F}' || ch == '\U{205F}' || ch == '\U{3000}'
  }

  /** `str::trim_start`: leading white space removed. */
  function TrimStart(s: string): (r: string)
    ensures |r| <= |s|
  {
    if s != [] && IsWhitespace(s[0]) then TrimStart(s[1..]) else s
  }

  /** `str::trim_end`: trailing white space removed. */
  function TrimEnd(s: string): (r: string)
    ensures |r| <= |s|
  {
    if s != [] && IsWhitespace(s[|s| - 1]) then TrimEnd(s[..|s| - 1]) else s
  }

  /** `TrimStart(s)` is the suffix of `s` after its leading white space, and starts with none. */
  lemma {:induction false} TrimStartSuffix(s: string)
    ensures var r := TrimStart(s);
      |r| <= |s| && r == s[|s| - |r|..] &&
      (forall i :: 0 <= i < |s| - |r| ==> IsWhitespace(s[i])) &&
      (r != [] ==> !IsWhitespace(r[0]))
  {
    if s != [] && IsWhitespace(s[0]) {
      TrimStartSuffix(s[1..]);
      forall i | 1 <= i < |s| - |TrimStart(s)| ensures IsWhitespace(s[i]) {
        assert s[i] == s[1..][i - 1];
      }
    }
  }

  /** `TrimEnd(s)` is the prefix of `s` before its trailing white space, and ends with none. */
  lemma {:induction false} TrimEndPrefix(s: string)
    ensures var r := TrimEnd(s);
      |r| <= |s| && r == s[..|r|] &&
      (forall i :: |r| <= i < |s| ==> IsWhitespace(s[i])) &&
      (r != [] ==> !IsWhitespace(r[|r| - 1]))
  {
    if s != [] && IsWhitespace(s[|s| - 1]) {
      var t := s[..|s| - 1];
      TrimEndPrefix(t);
      assert TrimEnd(s) == TrimEnd(t);
      forall i | |TrimEnd(s)| <= i < |s| - 1 ensures IsWhitespace(s[i]) {
        assert s[i] == t[i];
      }
    }
  }

  /** Where `Trim(s)` begins in `s`. */
  function TrimOffset(s: string): nat {
    |s| - |TrimStart(s)|
  }

  /** `str::trim`: white space removed from both ends. */
  function Trim(s: string): string {
    TrimEnd(TrimStart(s))
  }

  /**
   * `Trim(s)` is the infix of `s` left after removing white space from both
   * ends: it is empty exactly when `s` is all white space, and otherwise
   * neither starts nor ends with white space.
   */
  lemma TrimInfix(s: string)
    ensures var r := Trim(s);
      TrimOffset(s) + |r| <= |s| && r == s[TrimOffset(s)..TrimOffset(s) + |r|] &&
      (forall i :: 0 <= i < TrimOffset(s) ==> IsWhitespace(s[i])) &&
      (forall i :: TrimOffset(s) + |r| <= i < |s| ==> IsWhitespace(s[i])) &&
      (r == [] <==> forall i :: 0 <= i < |s| ==> IsWhitespace(s[i])) &&
      (r != [] ==> !IsWhitespace(r[0]) && !IsWhitespace(r[|r| - 1]))
  {
    TrimStartSuffix(s);
    TrimEndPrefix(TrimStart(s));
    TrimParts(s, TrimStart(s), Trim(s));
  }

  /** The facts `Trim` states, for the infix `r` of `s` that the two passes leave. */
  lemma TrimParts(s: string, a: string, r: string)
    requires |a| <= |s| && a == s[|s| - |a|..]
    requires forall i :: 0 <= i < |s| - |a| ==> IsWhitespace(s[i])
    requires a != [] ==> !IsWhitespace(a[0])
    requires |r| <= |a| && r == a[..|r|]
    requires forall i :: |r| <= i < |a| ==> IsWhitespace(a[i])
    ensures r == s[|s| - |a|..|s| - |a| + |r|]
    ensures forall i :: |s| - |a| + |r| <= i < |s| ==> IsWhitespace(s[i])
  {
    var k := |s| - |a|;
    assert s[k..][..|r|] == s[k..k + |r|];
    forall i | k + |r| <= i < |s| ensures IsWhitespace(s[i]) {
      assert a[i - k] == s[i];
    }
  }

  /** `to_ascii_lowercase` (and, for the extensions compared here, `to_lowercase`). */
  function AsciiLower(s: string): (r: string)
    ensures |r| == |s|
    ensures forall i :: 0 <= i < |s| ==>
      r[i] == if 'A' <= s[i] <= 'Z' then (s[i] as int + 32) as char else s[i]
  {
    if s == [] then []
    else
      var ch := s[0];
      [if 'A' <= ch <= 'Z' then (ch as int + 32) as char else ch] + AsciiLower(s[1..])
  }

  /** Lower-casing leaves a string without capital letters alone. */
  lemma {:induction false} AsciiLowerOfLower(s: string)
    requires forall i :: 0 <= i < |s| ==> !('A' <= s[i] <= 'Z')
    ensures AsciiLower(s) == s
  {
    if s != [] {
      AsciiLowerOfLower(s[1..]);
    }
  }

  /** The extensions `file_extension` produces are already lower case. */
  lemma LowerFileExtensions()
    ensures AsciiLower("png") == "png" && AsciiLower("jpg") == "jpg"
  {
    var png, jpg := "png", "jpg";
    assert png[0] == 'p' && png[1] == 'n' && png[2] == 'g';
    assert jpg[0] == 'j' && jpg[1] == 'p' && jpg[2] == 'g';
    AsciiLowerOfLower(png);
    AsciiLowerOfLower(jpg);
  }

  predicate IsDigit(ch: char) {
    '0' <= ch <= '9'
  }

  /** `format!("{}", n)` for an unsigned integer: decimal digits, no leading zero. */
  function Decimal(n: nat): (r: string)
    ensures |r| >= 1 && forall i :: 0 <= i < |r| ==> IsDigit(r[i])
    ensures |r| > 1 ==> r[0] != '0'
  {
    var d := ['0' + (n % 10) as char];
    if n < 10 then d else Decimal(n / 10) + d
  }

  /** Distinct numbers are printed as distinct strings. */
  lemma {:induction false} DecimalInjective(m: nat, n: nat)
    requires Decimal(m) == Decimal(n)
    ensures m == n
  {
    var dm, dn := Decimal(m), Decimal(n);
    assert dm[|dm| - 1] == dn[|dn| - 1];
    assert m % 10 == n % 10;
    if m >= 10 && n >= 10 {
      assert Decimal(m / 10) == dm[..|dm| - 1] == dn[..|dn| - 1] == Decimal(n / 10);
      DecimalInjective(m / 10, n / 10);
    } else if m >= 10 || n >= 10 {
      assert false;
    }
  }

  /**
   * `Path::file_name` on a Unix path: the last component, skipping trailing
   * separators and `.` components; none for an empty path, the root, or a
   * path ending in `..`.
   */
  function FileName(p: string): (r: Option<string>)
    ensures r.Some? ==> r.value != [] && '/' !in r.value && r.value != "." && r.value != ".."
    decreases |p|
  {
    if p == [] then None
    else if p[|p| - 1] == '/' then FileName(p[..|p| - 1])
    else
      var seg := AfterLast(p, '/');
      var rest := p[..|p| - |seg|];
      if seg == "." then FileName(rest)
      else if seg == ".." then None
      else Some(seg)
  }

  /** The extension of file name `f`: what follows its last dot, unless that dot is absent or comes first. */
  function NameExtension(f: string): (r: Option<string>)
    ensures r.Some? ==> '.' !in r.value
  {
    var e := AfterLast(f, '.');
    if |e| == |f| || |e| + 1 == |f| then None else Some(e)
  }

  /** The stem of file name `f`: all of it, or what precedes its last dot. */
  function NameStem(f: string): (r: string)
    ensures |r| <= |f| && r == f[..|r|]
    ensures f != [] ==> r != []
  {
    var e := AfterLast(f, '.');
    if |e| == |f| || |e| + 1 == |f| then f else f[..|f| - |e| - 1]
  }

  /**
   * `Path::extension`: the text after the last `.` of the file name, unless
   * the name has no `.` or its only `.` comes first (a hidden file).
   */
  function Extension(p: string): (r: Option<string>)
    ensures r.Some? ==> FileName(p).Some? && '.' !in r.value
  {
    match FileName(p)
    case None => None
    case Some(f) => NameExtension(f)
  }

  /** `Path::file_stem`: the file name without its extension. */
  function FileStem(p: string): (r: Option<string>)
    ensures r.Some? <==> FileName(p).Some?
    ensures r.Some? ==> r.value != []
  {
    match FileName(p)
    case None => None
    case Some(f) => Some(NameStem(f))
  }

  /** A file stem, as part of a file name, holds no separator. */
  lemma FileStemNoSeparator(p: string)
    requires FileStem(p).Some?
    ensures '/' !in FileStem(p).value
  {
    var f := FileName(p).value;
    var st := FileStem(p).value;
    forall i | 0 <= i < |st| ensures st[i] != '/' {
      assert st[i] == f[i];
    }
  }

  /** A name placed after a separator is the file name of the resulting path. */
  lemma NamedFileName(dir: string, f: string)
    requires f != [] && '/' !in f && f != "." && f != ".."
    ensures FileName(dir + "/" + f) == Some(f)
  {
    var p := dir + "/" + f;
    assert p == dir + ['/'] + f;
    AfterLastOfSuffix(dir, '/', f);
    assert p[|p| - 1] == f[|f| - 1];
  }

  /** The name `stem.ext` splits back into `stem` and `ext` at its last dot. */
  lemma DottedName(stem: string, ext: string)
    requires stem != [] && ext != [] && '/' !in stem && '/' !in ext && '.' !in ext
    ensures var f := stem + "." + ext;
      '/' !in f && f != "." && f != ".." && AfterLast(f, '.') == ext && f[..|stem|] == stem
  {
    var f := stem + "." + ext;
    assert f == stem + ['.'] + ext;
    assert AfterLast(f, '.') == ext by {
      AfterLastOfSuffix(stem, '.', ext);
    }
    assert f[..|stem|] == stem;
    NoSeparatorAround(stem, ext, f);
    assert |f| >= 3 && |"."| == 1 && |".."| == 2;
  }

  /** Two separator-free parts joined by a dot hold no separator. */
  lemma NoSeparatorAround(stem: string, ext: string, f: string)
    requires '/' !in stem && '/' !in ext && f == stem + ['.'] + ext
    ensures '/' !in f
  {
    forall i | 0 <= i < |f| ensures f[i] != '/' {
      if i < |stem| {
        assert f[i] == stem[i];
      } else if i > |stem| {
        assert f[i] == ext[i - |stem| - 1];
      }
    }
  }

  /**
   * `Path::join` of a relative or absolute name onto a directory: an
   * absolute name replaces the directory, an empty directory contributes
   * nothing, and one separator is inserted unless the directory already
   * ends with one.
   */
  function Join(dir: string, name: string): (r: string)
    ensures name != [] && name[0] == '/' ==> r == name
    ensures |r| >= |name| && r[|r| - |name|..] == name
  {
    if name != [] && name[0] == '/' then name
    else if dir == [] then name
    else if dir[|dir| - 1] == '/' then dir + name
    else dir + "/" + name
  }

  /** A plain file name joined onto any directory is the file name of the result. */
  lemma JoinFileName(dir: string, f: string)
    requires f != [] && '/' !in f && f != "." && f != ".."
    ensures FileName(Join(dir, f)) == Some(f)
  {
    if dir == [] {
      assert AfterLast(f, '/') == f;
    } else if dir[|dir| - 1] == '/' {
      var d := dir[..|dir| - 1];
      assert dir + f == d + "/" + f;
      NamedFileName(d, f);
    } else {
      NamedFileName(dir, f);
    }
  }

  /**
   * What `Path::parent` keeps of the text before a path's last component
   * (`Components::as_path` after `next_back`): trailing separators and
   * `.` components are dropped, but a leading root `/` or a leading `.`
   * stays.
   */
  function TrimTail(q: string): string
    decreases |q|
  {
    if q == [] then []
    else if q[|q| - 1] == '/' then (if |q| == 1 then q else TrimTail(q[..|q| - 1]))
    else if |q| >= 2 && q[|q| - 1] == '.' && q[|q| - 2] == '/' then TrimTail(q[..|q| - 1])
    else q
  }

  /**
   * `Path::parent` on a Unix path: none for the empty path and the root;
   * otherwise the path without its last component (trailing separators
   * and non-leading `.` components skipped), itself trimmed by `TrimTail`.
   * A single-component relative path has the empty parent.
   */
  function Parent(p: string): (r: Option<string>)
    decreases |p|
  {
    if p == [] then None
    else if SkipsLast(p) then Parent(p[..|p| - 1])
    else if p == "." then Some([])
    else Some(TrimTail(BeforeLast(p)))
  }

  /** The last character of `p` is a trailing separator or ends a non-leading `.` component: neither is a component. */
  predicate SkipsLast(p: string)
    requires p != []
  {
    p[|p| - 1] == '/' || (|p| >= 2 && p[|p| - 1] == '.' && p[|p| - 2] == '/')
  }

  /** `p` without its last `/`-segment: everything up to and including the last separator. */
  function BeforeLast(p: string): (r: string)
    ensures |r| <= |p| && r == p[..|r|]
  {
    p[..|p| - |AfterLast(p, '/')|]
  }

  /** `TrimTail` is idempotent. */
  lemma {:induction false} TrimTailIdempotent(q: string)
    ensures TrimTail(TrimTail(q)) == TrimTail(q)
  {
    if q != [] && q[|q| - 1] == '/' && |q| > 1 {
      TrimTailIdempotent(q[..|q| - 1]);
    } else if q != [] && q[|q| - 1] != '/' && |q| >= 2 && q[|q| - 1] == '.' && q[|q| - 2] == '/' {
      TrimTailIdempotent(q[..|q| - 1]);
    }
  }

  /** A parent is already in the form `TrimTail` leaves: taking a parent's parent directory needs no further trimming. */
  lemma {:induction false} ParentTrimmed(p: string)
    requires Parent(p).Some?
    ensures TrimTail(Parent(p).value) == Parent(p).value
  {
    if SkipsLast(p) {
      ParentTrimmed(p[..|p| - 1]);
    } else if p != "." {
      TrimTailIdempotent(BeforeLast(p));
    }
  }

  /** A string without the separator is its own last segment. */
  lemma AfterLastWhole(s: string, sep: char)
    requires sep !in s
    ensures AfterLast(s, sep) == s
  {
  }

  /**
   * The parent of a plain name joined onto `dir` is `dir` in the form
   * `Path::parent` gives it: `dir` itself when it has no trailing
   * separators or `.` components.
   */
  lemma ParentOfJoin(dir: string, name: string)
    requires name != [] && '/' !in name && name != "."
    ensures Parent(Join(dir, name)) == Some(TrimTail(dir))
  {
    if dir == [] {
      assert Join(dir, name) == [] + name;
      ParentOfSegment([], name);
    } else if dir[|dir| - 1] == '/' {
      ParentOfSegment(dir, name);
    } else {
      var rest := dir + "/";
      assert Join(dir, name) == rest + name;
      ParentOfSegment(rest, name);
      assert rest[..|rest| - 1] == dir;
    }
  }

  /** A plain name after a separator (or alone) is the last component; what precedes it gives the parent. */
  lemma ParentOfSegment(rest: string, name: string)
    requires name != [] && '/' !in name && name != "."
    requires rest == [] || rest[|rest| - 1] == '/'
    ensures Parent(rest + name) == Some(TrimTail(rest))
  {
    PlainNameLast(rest, name);
    BeforeLastOfSegment(rest, name);
    ParentOfLast(rest + name);
  }

  /** When the last character starts no skipped component, the parent is what precedes the last segment. */
  lemma ParentOfLast(p: string)
    requires p != [] && !SkipsLast(p) && p != "."
    ensures Parent(p) == Some(TrimTail(BeforeLast(p)))
  {
  }

  /** The last segment of `rest + name`, for a separator-free `name` after a separator, is `name`. */
  lemma BeforeLastOfSegment(rest: string, name: string)
    requires name != [] && '/' !in name
    requires rest == [] || rest[|rest| - 1] == '/'
    ensures BeforeLast(rest + name) == rest
  {
    var p := rest + name;
    if rest == [] {
      assert p == name;
      AfterLastWhole(name, '/');
    } else {
      var d := rest[..|rest| - 1];
      assert p == d + ['/'] + name;
      AfterLastOfSuffix(d, '/', name);
    }
    assert p[..|p| - |name|] == rest;
  }

  /** A path ending in a plain name is neither `.` nor ends in a component `Path::parent` skips. */
  lemma PlainNameLast(rest: string, name: string)
    requires name != [] && '/' !in name && name != "."
    ensures var p := rest + name; !SkipsLast(p) && p != "."
  {
    var p := rest + name;
    assert p[|p| - 1] == name[|name| - 1] != '/';
    if |name| >= 2 {
      assert p[|p| - 2] == name[|name| - 2] != '/';
    } else {
      assert name == [name[0]];
      assert name[0] != '.';
    }
    if |p| == 1 {
      assert rest == [] && name == p;
    }
  }

  /** `Path::parent` of a tile path inside a directory is that directory. */
  lemma ParentExample()
    ensures Parent(Join("out", "tile_0_0.png")) == Some("out")
  {
    var d, f := "out", "tile_0_0.png";
    assert f[0] != '/' && f != ".";
    ParentOfJoin(d, f);
    assert d[2] != '/' && d[2] != '.';
  }

  /** The empty path and the root have no parent. */
  lemma RootHasNoParent()
    ensures Parent("/") == None && Parent("") == None
  {
    assert Parent("/") == Parent("");
  }

  /** A name `stem.ext` joined onto a directory has file name `stem.ext`, stem `stem` and extension `ext`. */
  lemma NamedFile(dir: string, stem: string, ext: string)
    requires stem != [] && ext != [] && '/' !in stem && '/' !in ext && '.' !in ext
    ensures var p := Join(dir, stem + "." + ext);
      FileName(p) == Some(stem + "." + ext) && Extension(p) == Some(ext) && FileStem(p) == Some(stem)
  {
    var f := stem + "." + ext;
    DottedName(stem, ext);
    JoinFileName(dir, f);
    DottedNameParts(stem, ext);
    PathParts(Join(dir, f), f);
  }

  /** The name `stem.ext` has extension `ext` and stem `stem`. */
  lemma DottedNameParts(stem: string, ext: string)
    requires stem != [] && ext != [] && '/' !in stem && '/' !in ext && '.' !in ext
    ensures NameExtension(stem + "." + ext) == Some(ext) && NameStem(stem + "." + ext) == stem
  {
    DottedName(stem, ext);
  }

  /** Extension and stem of a path are those of its file name. */
  lemma PathParts(p: string, f: string)
    requires FileName(p) == Some(f)
    ensures Extension(p) == NameExtension(f) && FileStem(p) == Some(NameStem(f))
  {
  }

  datatype ImageFileFormat = Png | Jpeg

  /** `image_format_from_path`: "jpg" or "jpeg" in any letter case is JPEG, everything else PNG. */
  function ImageFormatFromPath(p: string): (r: ImageFileFormat)
    ensures r == Jpeg <==> AsciiLower(Extension(p).GetOr("")) in {"jpg", "jpeg"}
  {
    match AsciiLower(Extension(p).GetOr(""))
    case "jpg" => Jpeg
    case "jpeg" => Jpeg
    case _ => Png
  }

  /** `file_extension` */
  function FileExtension(f: ImageFileFormat): string {
    match f
    case Png => "png"
    case Jpeg => "jpg"
  }

  /** The format read back from a path whose extension is `file_extension(f)` is `f`. */
  lemma FormatOfExtension(p: string, f: ImageFileFormat)
    requires Extension(p) == Some(FileExtension(f))
    ensures ImageFormatFromPath(p) == f
  {
    LowerFileExtensions();
  }

  /**
   * A file written under the extension `file_extension(f)` is read back as
   * format `f`; this is how `save_image_fast_auto` recovers the format of a
   * tile saved by `split_image`.
   */
  lemma FormatRoundTrip(dir: string, stem: string, f: ImageFileFormat)
    requires stem != [] && '/' !in stem
    ensures ImageFormatFromPath(Join(dir, stem + "." + FileExtension(f))) == f
  {
    var p := Join(dir, stem + "." + FileExtension(f));
    assert Extension(p) == Some(FileExtension(f)) by {
      NamedFile(dir, stem, FileExtension(f));
    }
    FormatOfExtension(p, f);
  }

  /** The mime type `load_image` puts in its data URL; a path without an extension counts as PNG. */
  function MimeType(p: string): (r: string)
    ensures Extension(p).None? ==> r == "image/png"
    ensures r in {"image/jpeg", "image/png", "image/webp", "application/octet-stream"}
    ensures r == "application/octet-stream" <==>
      Extension(p).Some? && AsciiLower(Extension(p).value) !in {"jpg", "jpeg", "png", "webp"}
  {
    LowerFileExtensions();
    match AsciiLower(Extension(p).GetOr("png"))
    case "jpg" => "image/jpeg"
    case "jpeg" => "image/jpeg"
    case "png" => "image/png"
    case "webp" => "image/webp"
    case _ => "application/octet-stream"
  }

  /** The mime type of a path, read off its extension in any letter case. */
  lemma MimeOfExtension(p: string, e: string)
    requires Extension(p) == Some(e)
    ensures AsciiLower(e) in {"jpg", "jpeg"} ==> MimeType(p) == "image/jpeg"
    ensures AsciiLower(e) == "png" ==> MimeType(p) == "image/png"
    ensures AsciiLower(e) == "webp" ==> MimeType(p) == "image/webp"
    ensures AsciiLower(e) !in {"jpg", "jpeg", "png", "webp"} ==> MimeType(p) == "application/octet-stream"
  {
  }

  /** The mime type of a file written under `file_extension(f)` names that same format. */
  lemma MimeMatchesFormat(dir: string, stem: string, f: ImageFileFormat)
    requires stem != [] && '/' !in stem
    ensures MimeType(Join(dir, stem + "." + FileExtension(f))) == if f == Jpeg then "image/jpeg" else "image/png"
  {
    var p := Join(dir, stem + "." + FileExtension(f));
    assert Extension(p) == Some(FileExtension(f)) by {
      NamedFile(dir, stem, FileExtension(f));
    }
    MimeOfFormat(p, f);
  }

  lemma MimeOfFormat(p: string, f: ImageFileFormat)
    requires Extension(p) == Some(FileExtension(f))
    ensures MimeType(p) == if f == Jpeg then "image/jpeg" else "image/png"
  {
    LowerFileExtensions();
    MimeOfExtension(p, FileExtension(f));
  }
}
