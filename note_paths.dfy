/** The string construction inside the notes handlers: where `add_note`
    writes a note's file, the public url it records, and the path that
    update and delete derive from that url; and how a path string resolves
    to a file, so that differently spelled paths can name one file. */
module NotePaths {
  import opened Options

  type Path = string

  const UrlPrefix: string := "static/"
  const Extension: string := ".md"

  predicate IsLowerHexDigit(c: char) {
    '0' <= c <= '9' || 'a' <= c <= 'f'
  }

  /** The shape of `Uuid::as_simple().encode_lower`: 32 lower-case hex digits,
      no hyphens; in particular a single path component. */
  predicate IsSimpleUuid(name: string)
    ensures IsSimpleUuid(name) ==> |name| == 32 && '/' !in name && name != "" && name != "."
  {
    |name| == 32 && forall i :: 0 <= i < |name| ==> IsLowerHexDigit(name[i])
  }

  /** Where `add_note` persists the upload: `<static_dir>/<name>.md`. */
  function NoteFilePath(staticDir: string, name: string): (p: Path)
    ensures |p| == |staticDir| + 1 + |name| + |Extension|
    ensures p[..|staticDir|] == staticDir && p[|staticDir|] == '/'
    ensures p[|staticDir| + 1..] == name + Extension
  {
    staticDir + "/" + name + Extension
  }

  /** The url `add_note` stores in the record: `static/<name>.md`. */
  function NoteFileUrl(name: string): (url: string)
    ensures |url| == |UrlPrefix| + |name| + |Extension|
  {
    UrlPrefix + name + Extension
  }

  /** The file name a stored url carries, when the url has the shape
      `NoteFileUrl` gives it; the inverse of `NoteFileUrl`. */
  function NameOfUrl(url: string): (name: Option<string>)
    ensures name.Some? ==> NoteFileUrl(name.value) == url
  {
    if |url| >= |UrlPrefix| + |Extension|
       && url[..|UrlPrefix|] == UrlPrefix
       && url[|url| - |Extension|..] == Extension
    then
      var name := url[|UrlPrefix|..|url| - |Extension|];
      assert url == url[..|UrlPrefix|] + name + url[|url| - |Extension|..];
      Some(name)
    else None
  }

  /** Every url `add_note` stores parses back to the name it was built from. */
  lemma NameOfUrlRoundTrip(name: string)
    ensures NameOfUrl(NoteFileUrl(name)) == Some(name)
  {
    var url := NoteFileUrl(name);
    assert url[..|UrlPrefix|] == UrlPrefix;
    assert url[|url| - |Extension|..] == Extension;
    assert url[|UrlPrefix|..|url| - |Extension|] == name;
  }

  /** Where update and delete look for a note's file: `./<url>`. */
  function UrlToPath(url: string): (p: Path)
    ensures |p| == |url| + 2 && p[..2] == "./" && p[2..] == url
  {
    "./" + url
  }

  /** Distinct names give distinct urls, so distinct notes never share a file through their url. */
  lemma NoteFileUrlInjective(a: string, b: string)
    ensures NoteFileUrl(a) == NoteFileUrl(b) <==> a == b
  {
    if NoteFileUrl(a) == NoteFileUrl(b) {
      NameOfUrlRoundTrip(a);
      NameOfUrlRoundTrip(b);
      assert Some(a) == NameOfUrl(NoteFileUrl(a)) == NameOfUrl(NoteFileUrl(b)) == Some(b);
    }
  }

  // ---- resolving a path string to the file it names ----

  /** The pieces of a path between its slashes, empty pieces included. */
  function Split(s: string): (parts: seq<string>)
    ensures |parts| >= 1
    decreases |s|
  {
    if s == [] then [""]
    else
      var rest := Split(s[1..]);
      if s[0] == '/' then [""] + rest
      else [[s[0]] + rest[0]] + rest[1..]
  }

  /** The pieces that name a directory step: empty pieces (from repeated
      or trailing slashes) and `.` name no step. */
  function Significant(parts: seq<string>): seq<string> {
    if parts == [] then []
    else (if parts[0] == "" || parts[0] == "." then [] else [parts[0]]) + Significant(parts[1..])
  }

  /** The file a path names, relative to the working directory unless absolute. */
  datatype FileKey = FileKey(absolute: bool, components: seq<string>)

  function Resolve(p: Path): FileKey {
    FileKey(|p| > 0 && p[0] == '/', Significant(Split(p)))
  }

  /** A configured directory that names `./static`: `static`, `./static`,
      `./static/`, `static//.` and so on. */
  predicate NamesServedDirectory(dir: string) {
    Resolve(dir) == FileKey(false, ["static"])
  }

  lemma {:induction false} SplitJoin(a: string, b: string)
    ensures Split(a + "/" + b) == Split(a) + Split(b)
    decreases |a|
  {
    if a == [] {
      assert a + "/" + b == "/" + b;
      assert ("/" + b)[1..] == b;
    } else {
      assert (a + "/" + b)[1..] == a[1..] + "/" + b;
      SplitJoin(a[1..], b);
    }
  }

  lemma {:induction false} SplitPlain(s: string)
    requires '/' !in s
    ensures Split(s) == [s]
    decreases |s|
  {
    if s != [] {
      SplitPlain(s[1..]);
      assert [s[0]] + s[1..] == s;
    }
  }

  lemma {:induction false} SignificantAppend(x: seq<string>, y: seq<string>)
    ensures Significant(x + y) == Significant(x) + Significant(y)
  {
    if x != [] {
      var head := if x[0] == "" || x[0] == "." then [] else [x[0]];
      assert (x + y)[0] == x[0];
      assert (x + y)[1..] == x[1..] + y;
      assert Significant(x + y) == head + Significant(x[1..] + y);
      SignificantAppend(x[1..], y);
    } else {
      assert x + y == y;
    }
  }

  /** Appending a single file name to a directory adds one component. */
  lemma ResolveChild(dir: string, file: string)
    requires '/' !in file && file != "" && file != "."
    ensures Resolve(dir + "/" + file)
         == FileKey(dir == "" || dir[0] == '/', Resolve(dir).components + [file])
  {
    SplitJoin(dir, file);
    SplitPlain(file);
    SignificantAppend(Split(dir), [file]);
    assert (dir + "/" + file)[0] == if dir == "" then '/' else dir[0];
  }

  /** The file add_note writes: the configured directory's components, then the file name. */
  lemma ResolveNoteFilePath(staticDir: string, name: string)
    requires IsSimpleUuid(name)
    ensures Resolve(NoteFilePath(staticDir, name))
         == FileKey(staticDir == "" || staticDir[0] == '/', Resolve(staticDir).components + [name + Extension])
  {
    assert NoteFilePath(staticDir, name) == staticDir + "/" + (name + Extension);
    ResolveChild(staticDir, name + Extension);
  }

  lemma SplitThree(a: string, b: string, c: string)
    requires '/' !in a && '/' !in b && '/' !in c
    ensures Split(a + "/" + (b + "/" + c)) == [a, b, c]
  {
    SplitJoin(a, b + "/" + c);
    SplitJoin(b, c);
    SplitPlain(a);
    SplitPlain(b);
    SplitPlain(c);
  }

  /** The file update and delete act on for a stored url is `static/<name>.md`
      under the working directory. */
  lemma ResolveUrlPath(name: string)
    requires IsSimpleUuid(name)
    ensures Resolve(UrlToPath(NoteFileUrl(name))) == FileKey(false, ["static", name + Extension])
  {
    var file := name + Extension;
    assert UrlToPath(NoteFileUrl(name)) == "." + "/" + ("static" + "/" + file);
    SplitThree(".", "static", file);
    var parts := [".", "static", file];
    assert Significant(parts[2..]) == [file];
    assert Significant(parts[1..]) == ["static", file];
  }

  /** The file `add_note` writes is the file update and delete touch exactly
      when the configured directory names `./static`. */
  lemma PathsAgreeIffServedDirectory(staticDir: string, name: string)
    requires IsSimpleUuid(name)
    ensures Resolve(UrlToPath(NoteFileUrl(name))) == Resolve(NoteFilePath(staticDir, name))
        <==> NamesServedDirectory(staticDir)
  {
    ResolveUrlPath(name);
    ResolveNoteFilePath(staticDir, name);
    var c := Resolve(staticDir).components;
    if NamesServedDirectory(staticDir) {
      SplitPlain("");
      assert staticDir != "";
    }
    if Resolve(UrlToPath(NoteFileUrl(name))) == Resolve(NoteFilePath(staticDir, name)) {
      assert c + [name + Extension] == ["static", name + Extension];
      assert c == (c + [name + Extension])[..|c|] == ["static"];
    }
  }

  /** The file a stored url leads to carries the url's name, so a file
      written for one name is the file of a url only when the url was
      built from that same name. */
  lemma NoteFileNamesAgree(staticDir: string, name: string, other: string)
    requires IsSimpleUuid(name) && IsSimpleUuid(other)
    ensures Resolve(NoteFilePath(staticDir, name)) == Resolve(UrlToPath(NoteFileUrl(other))) ==> name == other
  {
    ResolveNoteFilePath(staticDir, name);
    ResolveUrlPath(other);
    if Resolve(NoteFilePath(staticDir, name)) == Resolve(UrlToPath(NoteFileUrl(other))) {
      var c := Resolve(staticDir).components + [name + Extension];
      assert c == ["static", other + Extension];
      assert name + Extension == c[|c| - 1] == other + Extension;
      assert name == (name + Extension)[..|name|] == (other + Extension)[..|other|] == other;
    }
  }

  /** A leading `./` names no step. */
  lemma ResolveDotPrefix(dir: string)
    ensures Resolve("./" + dir) == FileKey(false, Resolve(dir).components)
  {
    assert "./" + dir == "." + "/" + dir;
    SplitJoin(".", dir);
    SplitPlain(".");
    SignificantAppend(["."], Split(dir));
    assert Significant(["."]) == [];
  }

  /** Neither does a trailing `/`. */
  lemma ResolveTrailingSlash(dir: string)
    requires dir != ""
    ensures Resolve(dir + "/") == Resolve(dir)
  {
    assert dir + "/" == dir + "/" + "";
    SplitJoin(dir, "");
    assert Split("") == [""];
    SignificantAppend(Split(dir), [""]);
    assert Significant([""]) == [];
    assert (dir + "/")[0] == dir[0];
  }

  /** `static` names the served directory, and so does any spelling of it
      with a leading `./` or a trailing `/` (`./static`, `./static/`,
      `static/`, `././static`, ...). */
  lemma ServedDirectorySpellings(dir: string)
    ensures NamesServedDirectory("static")
    ensures NamesServedDirectory(dir) ==> NamesServedDirectory("./" + dir) && NamesServedDirectory(dir + "/")
  {
    SplitPlain("static");
    ResolveDotPrefix(dir);
    if dir != "" {
      ResolveTrailingSlash(dir);
    }
  }

  /** An absolute path (`/static`) does not name the served directory,
      nor does a subdirectory of it (`./static/notes`). */
  lemma OtherDirectories(dir: string, sub: string)
    requires '/' !in sub && sub != "" && sub != "."
    ensures |dir| > 0 && dir[0] == '/' ==> !NamesServedDirectory(dir)
    ensures NamesServedDirectory(dir) ==> !NamesServedDirectory(dir + "/" + sub)
  {
    ResolveChild(dir, sub);
  }
}
