/** Input resolution of the command-line front end (src/doc2json/cli.py):
    a name given with or without its extension is resolved against the
    filesystem. Paths are taken in the normal form `pathlib` prints them
    in, so `str(Path(name)) == name`; the filesystem is a map from such
    paths to what they name. */
module Cli {
  import opened Wrappers
  import opened PyStr

  /** A suffix `Path.suffix` reads back whole: a '.', then at least one
      character, none of them a separator or a further '.'. */
  predicate SingleSuffix(e: string) {
    |e| >= 2 && e[0] == '.' && '/' !in e && '.' !in e[1..]
  }

  type Extension = e: string | SingleSuffix(e) witness ".pdf"

  /** The extensions tried, in order. */
  const SupportedExts: seq<Extension> := [".pdf", ".png", ".jpg", ".jpeg", ".tiff", ".tif"]

  datatype EntryKind = RegularFile | Directory | OtherEntry

  type FileSystem = map<string, EntryKind>

  /** `p.exists() and p.is_file()`. */
  predicate IsFile(fs: FileSystem, path: string) {
    path in fs && fs[path] == RegularFile
  }

  // ----- the parts of pathlib used -----

  /** Where the last component starts: just after the last '/'. */
  function NameStart(path: string): (i: nat)
    ensures i <= |path|
    ensures '/' !in path[i..]
    ensures i > 0 ==> path[i - 1] == '/'
  {
    LastIndexOf(path, '/') + 1
  }

  /** Everything up to and including the last '/'. */
  function DirPrefix(path: string): string {
    path[..NameStart(path)]
  }

  /** `Path.name`: the last component; "" for the root and for ".", the
      normal form of the empty path. */
  function Name(path: string): (r: string)
    ensures '/' !in r
  {
    if path == "" || path == "." then "" else path[NameStart(path)..]
  }

  /** `Path.suffix` (Python 3.12): from the last '.' of the name on, when
      that '.' is neither the first nor the last character. */
  function Suffix(name: string): (r: string)
    ensures |r| <= |name|
    ensures r != "" ==> r == name[|name| - |r|..] && r[0] == '.' && |r| >= 2 && '.' !in r[1..]
    ensures r != "" ==> |r| < |name|
  {
    var i := LastIndexOf(name, '.');
    if 0 < i < |name| - 1 then
      assert name[i..][1..] == name[i + 1..];
      name[i..]
    else ""
  }

  /** `Path.stem`: the name without its suffix. */
  function Stem(name: string): string {
    name[..|name| - |Suffix(name)|]
  }

  /** The suffixes `with_suffix` accepts: no separator, and either empty or
      a '.' followed by at least one character. */
  predicate ValidSuffix(s: string) {
    '/' !in s && (s == "" || (s[0] == '.' && s != "."))
  }

  /** The ValueError cases of `with_suffix`. */
  datatype PathError = EmptyName | InvalidSuffix

  /** `Path.with_suffix(suffix)`: the last component with its suffix
      replaced, or appended when it has none. */
  function WithSuffix(path: string, suffix: string): (r: Result<string, PathError>)
    ensures !ValidSuffix(suffix) ==> r == Err(InvalidSuffix)
    ensures ValidSuffix(suffix) && Name(path) == "" ==> r == Err(EmptyName)
    ensures ValidSuffix(suffix) && Name(path) != "" ==> r.Ok?
  {
    if !ValidSuffix(suffix) then Err(InvalidSuffix)
    else if Name(path) == "" then Err(EmptyName)
    else Ok(DirPrefix(path) + Stem(Name(path)) + suffix)
  }

  // ----- resolve_input_file -----

  /** Why resolution fails: FileNotFoundError, or the ValueError that
      `with_suffix` raises on a path with an empty name. */
  datatype ResolveError = FileNotFound(message: string) | EmptyNameError

  /** The FileNotFoundError message, which names the input and lists the
      extensions tried. */
  function NotFoundMessage(name: string): string {
    "Input file not found. Tried: " + name + " and extensions ['.pdf', '.png', '.jpg', '.jpeg', '.tiff', '.tif']"
  }

  /** The candidate tried for one extension. */
  function Candidate(name: string, ext: Extension): string
    requires Name(name) != ""
  {
    WithSuffix(name, ext).value
  }

  /** The candidates tried, one per extension, in order. */
  function Candidates(name: string, exts: seq<Extension>): (r: seq<string>)
    requires Name(name) != ""
    ensures |r| == |exts|
    ensures forall k | 0 <= k < |exts| :: r[k] == Candidate(name, exts[k])
  {
    if exts == [] then [] else [Candidate(name, exts[0])] + Candidates(name, exts[1..])
  }

  /** The first of `paths` that is a file. */
  function FirstExisting(fs: FileSystem, paths: seq<string>): Option<string> {
    if paths == [] then None
    else if IsFile(fs, paths[0]) then Some(paths[0])
    else FirstExisting(fs, paths[1..])
  }

  /** Path `k` is the first of `paths` that is a file. */
  predicate FirstFileAt(fs: FileSystem, paths: seq<string>, k: int) {
    0 <= k < |paths| && IsFile(fs, paths[k])
    && forall j | 0 <= j < k :: !IsFile(fs, paths[j])
  }

  /** What `resolve_input_file(name)` returns or raises. */
  function Resolve(fs: FileSystem, name: string): Result<string, ResolveError> {
    if IsFile(fs, name) then Ok(name)
    else if Name(name) == "" then Err(EmptyNameError)
    else match FirstExisting(fs, Candidates(name, SupportedExts))
      case Some(p) => Ok(p)
      case None => Err(FileNotFound(NotFoundMessage(name)))
  }

  /** `resolve_input_file(name)`: the name itself when it is a file,
      otherwise the first extension, in order, whose candidate is a file. */
  method ResolveInputFile(fs: FileSystem, name: string) returns (r: Result<string, ResolveError>)
    ensures r == Resolve(fs, name)
  {
    if IsFile(fs, name) {
      return Ok(name);
    }
    if Name(name) == "" {
      return Err(EmptyNameError);
    }
    var found := TryExtensions(fs, name, SupportedExts);
    if found.Some? {
      return Ok(found.value);
    }
    return Err(FileNotFound(NotFoundMessage(name)));
  }

  /** The loop of `resolve_input_file`: tries the extensions in order and
      stops at the first candidate that is a file. */
  method TryExtensions(fs: FileSystem, name: string, exts: seq<Extension>) returns (r: Option<string>)
    requires Name(name) != ""
    ensures r == FirstExisting(fs, Candidates(name, exts))
  {
    ghost var paths := Candidates(name, exts);
    for k := 0 to |exts|
      invariant FirstExisting(fs, paths) == FirstExisting(fs, paths[k..])
    {
      assert paths[k..][1..] == paths[k + 1..];
      var candidate := Candidate(name, exts[k]);
      if IsFile(fs, candidate) {
        return Some(candidate);
      }
    }
    return None;
  }
}

/** What input resolution promises, proved about Resolve and WithSuffix. */
module CliProofs {
  import opened Wrappers
  import opened PyStr
  import opened Cli

  /** A path is its directory prefix followed by its name. */
  lemma DirPrefixName(path: string)
    requires path != "" && path != "."
    ensures path == DirPrefix(path) + Name(path)
  {
  }

  /** The name of a directory prefix followed by a component is that
      component. */
  lemma ComponentAfterPrefix(path: string, n: string)
    requires '/' !in n && n != "" && n != "."
    ensures NameStart(DirPrefix(path) + n) == NameStart(path)
    ensures DirPrefix(DirPrefix(path) + n) == DirPrefix(path)
    ensures Name(DirPrefix(path) + n) == n
  {
    var d := DirPrefix(path);
    LastIndexOfConcat(d, n, '/');
    if NameStart(path) > 0 {
      assert d[|d| - 1] == '/';
      assert LastIndexOf(d, '/') == |d| - 1;
    } else {
      assert d == "";
    }
    assert (d + n)[..|d|] == d;
    assert (d + n)[|d|..] == n;
  }

  /** With a name whose stem is `stem`, appending a single suffix gives a
      name with that suffix and the same stem. */
  lemma {:induction false} SuffixOfAppended(stem: string, ext: string)
    requires stem != [] && SingleSuffix(ext)
    ensures Suffix(stem + ext) == ext
    ensures Stem(stem + ext) == stem
  {
    var n := stem + ext;
    assert n[|stem|] == '.';
    assert n[|stem| + 1..] == ext[1..];
    var i := LastIndexOf(n, '.');
    assert i == |stem|;
    assert n[i..] == ext;
  }

  /** The name's stem is never empty. */
  lemma StemNonEmpty(name: string)
    requires name != ""
    ensures Stem(name) != ""
  {
  }

  /** The name `with_suffix` builds: a component with the new suffix and
      the old stem. */
  lemma NewName(name: string, ext: string)
    requires name != "" && '/' !in name && SingleSuffix(ext)
    ensures '/' !in Stem(name) + ext && |Stem(name) + ext| >= 3
    ensures Suffix(Stem(name) + ext) == ext && Stem(Stem(name) + ext) == Stem(name)
  {
    var stem := Stem(name);
    StemNonEmpty(name);
    assert stem == name[..|stem|];
    SuffixOfAppended(stem, ext);
    assert |stem + ext| >= 3;
  }

  /** `with_suffix` replaces the suffix of the last component only: the
      directory prefix and the stem are kept and the suffix is the new one. */
  lemma WithSuffixReplacesSuffix(path: string, ext: string)
    requires Name(path) != "" && SingleSuffix(ext)
    ensures WithSuffix(path, ext).Ok?
    ensures DirPrefix(WithSuffix(path, ext).value) == DirPrefix(path)
    ensures Name(WithSuffix(path, ext).value) == Stem(Name(path)) + ext
    ensures Suffix(Name(WithSuffix(path, ext).value)) == ext
    ensures Stem(Name(WithSuffix(path, ext).value)) == Stem(Name(path))
  {
    var d, stem := DirPrefix(path), Stem(Name(path));
    var n := stem + ext;
    assert WithSuffix(path, ext).value == d + n by {
      assert d + stem + ext == d + (stem + ext);
    }
    NewName(Name(path), ext);
    ComponentAfterPrefix(path, n);
  }

  /** Giving a path the suffix it already has changes nothing more. */
  lemma WithSuffixIdempotent(path: string, ext: string)
    requires Name(path) != "" && SingleSuffix(ext)
    ensures WithSuffix(WithSuffix(path, ext).value, ext) == WithSuffix(path, ext)
  {
    WithSuffixReplacesSuffix(path, ext);
    var q := WithSuffix(path, ext).value;
    assert Name(q) != "";
    WithSuffixReplacesSuffix(q, ext);
  }

  /** A first match in the tail of the list, after a first path that is
      not a file, is a first match one place further on. */
  lemma FirstFileAtShift(fs: FileSystem, paths: seq<string>, k: int)
    requires paths != [] && !IsFile(fs, paths[0]) && FirstFileAt(fs, paths[1..], k)
    ensures FirstFileAt(fs, paths, k + 1) && paths[k + 1] == paths[1..][k]
  {
    forall j | 0 <= j < k + 1
      ensures !IsFile(fs, paths[j])
    {
      if j > 0 {
        assert paths[j] == paths[1..][j - 1];
      }
    }
  }

  /** No path of the tail is a file, nor the first: none is. */
  lemma NoFileShift(fs: FileSystem, paths: seq<string>)
    requires paths != [] && !IsFile(fs, paths[0])
    requires forall k | 0 <= k < |paths[1..]| :: !IsFile(fs, paths[1..][k])
    ensures forall k | 0 <= k < |paths| :: !IsFile(fs, paths[k])
  {
    forall k | 0 <= k < |paths|
      ensures !IsFile(fs, paths[k])
    {
      if k > 0 {
        assert paths[k] == paths[1..][k - 1];
      }
    }
  }

  /** The first path that is a file is the one found; none is found
      exactly when no path is a file. */
  lemma {:induction false} FirstExistingFirstMatch(fs: FileSystem, paths: seq<string>)
    ensures FirstExisting(fs, paths).None? <==> forall k | 0 <= k < |paths| :: !IsFile(fs, paths[k])
    ensures FirstExisting(fs, paths).Some? ==>
      exists k :: FirstFileAt(fs, paths, k) && FirstExisting(fs, paths).value == paths[k]
  {
    if paths != [] {
      var tail := paths[1..];
      FirstExistingFirstMatch(fs, tail);
      var r := FirstExisting(fs, paths);
      if IsFile(fs, paths[0]) {
        assert FirstFileAt(fs, paths, 0);
      } else if r.Some? {
        var k :| FirstFileAt(fs, tail, k) && r.value == tail[k];
        FirstFileAtShift(fs, paths, k);
      } else {
        NoFileShift(fs, paths);
      }
    }
  }

  /** An existing file is returned unchanged. */
  lemma ExactPathReturned(fs: FileSystem, name: string)
    requires IsFile(fs, name)
    ensures Resolve(fs, name) == Ok(name)
  {
  }

  /** Otherwise the first extension, in order, whose candidate is a file
      gives the result; FileNotFoundError is raised exactly when none is. */
  lemma FirstExtensionWins(fs: FileSystem, name: string)
    requires !IsFile(fs, name) && Name(name) != ""
    ensures (forall k | 0 <= k < |SupportedExts| :: !IsFile(fs, Candidate(name, SupportedExts[k])))
      <==> Resolve(fs, name) == Err(FileNotFound(NotFoundMessage(name)))
    ensures Resolve(fs, name).Ok? ==>
      exists k :: FirstFileAt(fs, Candidates(name, SupportedExts), k) && Resolve(fs, name).value == Candidate(name, SupportedExts[k])
  {
    var paths := Candidates(name, SupportedExts);
    FirstExistingFirstMatch(fs, paths);
    var found := FirstExisting(fs, paths);
    if found.Some? {
      var k :| FirstFileAt(fs, paths, k) && found.value == paths[k];
      assert Resolve(fs, name) == Ok(found.value);
    } else {
      assert Resolve(fs, name) == Err(FileNotFound(NotFoundMessage(name)));
    }
  }

  /** What is returned is an existing regular file (never a directory),
      and it is the input itself or the input with the suffix of its last
      component replaced by a supported one. */
  lemma ResolvedIsFileUpToSuffix(fs: FileSystem, name: string)
    requires Resolve(fs, name).Ok?
    ensures IsFile(fs, Resolve(fs, name).value)
    ensures fs[Resolve(fs, name).value] != Directory
    ensures Resolve(fs, name).value == name
      || (DirPrefix(Resolve(fs, name).value) == DirPrefix(name)
          && Stem(Name(Resolve(fs, name).value)) == Stem(Name(name))
          && Suffix(Name(Resolve(fs, name).value)) in SupportedExts)
  {
    if !IsFile(fs, name) {
      var paths := Candidates(name, SupportedExts);
      FirstExistingFirstMatch(fs, paths);
      var k :| FirstFileAt(fs, paths, k) && Resolve(fs, name).value == paths[k];
      WithSuffixReplacesSuffix(name, SupportedExts[k]);
    }
  }

  /** `with_suffix` raises ValueError exactly for a name that is not itself a
      file and has an empty last component, such as "/". */
  lemma EmptyNameRaises(fs: FileSystem, name: string)
    ensures Resolve(fs, name) == Err(EmptyNameError) <==> !IsFile(fs, name) && Name(name) == ""
    ensures !IsFile(fs, "/") ==> Resolve(fs, "/") == Err(EmptyNameError)
  {
    assert Name("/") == "";
  }

  /** The first test: an exact path is returned as it is. */
  lemma ExactPathExample()
    ensures Resolve(map["tmp/invoice1.pdf" := RegularFile], "tmp/invoice1.pdf") == Ok("tmp/invoice1.pdf")
  {
  }

  /** Where "tmp/invoiceX" has its last '/', and that its name has no '.'. */
  lemma InvoiceXSeparators()
    ensures LastIndexOf("tmp/invoiceX", '/') == 3
    ensures LastIndexOf("invoiceX", '.') == -1
  {
    var p := "tmp/invoiceX";
    assert p[3] == '/' && p[4..] == "invoiceX";
    assert '.' !in "invoiceX";
  }

  /** The parts of "tmp/invoiceX". */
  lemma InvoiceXParts()
    ensures DirPrefix("tmp/invoiceX") == "tmp/" && Name("tmp/invoiceX") == "invoiceX"
    ensures Stem("invoiceX") == "invoiceX"
  {
    InvoiceXSeparators();
    var p := "tmp/invoiceX";
    assert p == "tmp/" + "invoiceX";
    assert p[..4] == "tmp/";
    assert p[4..] == "invoiceX";
  }

  /** The first two candidates tried for "tmp/invoiceX". */
  lemma InvoiceXCandidates()
    ensures Candidate("tmp/invoiceX", ".pdf") == "tmp/invoiceX.pdf"
    ensures Candidate("tmp/invoiceX", ".png") == "tmp/invoiceX.png"
  {
    InvoiceXParts();
  }

  /** The second test: "tmp/invoiceX" resolves to "tmp/invoiceX.png". */
  lemma AddsExtensionExample()
    ensures Resolve(map["tmp/invoiceX.png" := RegularFile], "tmp/invoiceX") == Ok("tmp/invoiceX.png")
  {
    var fs := map["tmp/invoiceX.png" := RegularFile];
    var name := "tmp/invoiceX";
    assert Name(name) != "" && !IsFile(fs, name) by {
      InvoiceXParts();
    }
    InvoiceXFound(fs, name, Candidates(name, SupportedExts));
  }

  /** Of the candidates for "tmp/invoiceX", the ".png" one is found. */
  lemma InvoiceXFound(fs: FileSystem, name: string, paths: seq<string>)
    requires fs == map["tmp/invoiceX.png" := RegularFile] && name == "tmp/invoiceX"
    requires Name(name) != "" && paths == Candidates(name, SupportedExts)
    ensures FirstExisting(fs, paths) == Some("tmp/invoiceX.png")
  {
    assert paths[0] == "tmp/invoiceX.pdf" && paths[1] == "tmp/invoiceX.png" by {
      InvoiceXCandidates();
      assert SupportedExts[0] == ".pdf" && SupportedExts[1] == ".png";
    }
    assert !IsFile(fs, paths[0]) && IsFile(fs, paths[1]);
    SecondIsFirstFile(fs, paths);
  }

  lemma SecondIsFirstFile(fs: FileSystem, paths: seq<string>)
    requires |paths| >= 2 && !IsFile(fs, paths[0]) && IsFile(fs, paths[1])
    ensures FirstExisting(fs, paths) == Some(paths[1])
  {
    assert paths[1..][0] == paths[1];
  }

  /** The third test: nothing matches, so FileNotFoundError is raised. */
  lemma MissingFileExample(name: string)
    requires Name(name) != ""
    ensures Resolve(map[], name) == Err(FileNotFound(NotFoundMessage(name)))
  {
    FirstExtensionWins(map[], name);
  }

  /** A directory named like the input is neither returned nor stops the
      search. */
  lemma DirectorySkipped(name: string, file: string)
    requires Name(name) != "" && file != name
    requires file == Candidate(name, ".png")
    ensures Resolve(map[name := Directory, file := RegularFile], name).Ok?
  {
    var fs := map[name := Directory, file := RegularFile];
    var paths := Candidates(name, SupportedExts);
    assert SupportedExts[1] == ".png";
    assert paths[1] == file && IsFile(fs, file) && !IsFile(fs, name);
    FirstExistingFirstMatch(fs, paths);
  }
}
