/** The libxml2 build flags: environment overrides (env_var) ranked above
    the pkg-config query (pkg_config), and the three resolvers built from
    them (include_dirs, libraries, library_dirs).

    The host is passed in explicitly: the environment as a map, whether the
    interpreter runs on Windows, the path-list separator, and pkg-config as
    an oracle from its argument vector to what running it yields. */
module Flags {
  import opened Wrappers
  import opened Text

  type Env = map<string, string>

  /** What running pkg-config yields: the executable cannot be found, it
      exits with a non-zero status, or it prints flags (already split into
      shell tokens). */
  datatype QueryOutcome = NotFound | Failed(code: int) | Output(tokens: seq<string>)

  datatype Host = Host(
    env: Env,
    windows: bool,
    pathsep: char,
    pkgConfig: seq<string> -> QueryOutcome)

  const Package: string := "libxml-2.0"
  const IncludeDirsVar: string := "LIBXML_INCLUDE_DIRS"
  const LibsVar: string := "LIBXML_LIBS"
  const LibDirsVar: string := "LIBXML_LIB_DIRS"
  const ToolVar: string := "PKGCONFIG_EXE"
  const WindowsLibrary: string := "libxml2"

  // ---------------------------------------------------------------------
  // env_var

  /** `os.environ.get(which, default)`. */
  function Lookup(env: Env, which: string, default: string): string
  {
    if which in env then env[which] else default
  }

  /** What env_var returns: the raw string, or the list of pieces. */
  datatype EnvValue = Raw(text: string) | Pieces(items: seq<string>)

  /** env_var: the variable's value (or the default when it is unset), raw
      when no separator is given, else split on the separator with empty
      pieces dropped. */
  function EnvVar(env: Env, which: string, default: string, split: Option<char>): (r: EnvValue)
    ensures split.None? ==> r == Raw(if which in env then env[which] else default)
    ensures split.Some? ==> r.Pieces?
    ensures split.Some? ==> forall i :: 0 <= i < |r.items| ==> r.items[i] != [] && split.value !in r.items[i]
    ensures split.Some? ==> r.items == SplitNonEmpty(if which in env then env[which] else default, split.value)
  {
    var val := Lookup(env, which, default);
    match split
    case None => Raw(val)
    case Some(sep) => Pieces(SplitNonEmpty(val, sep))
  }

  /** env_var with the path separator, the form every resolver uses. */
  function EnvList(h: Host, which: string, default: string): seq<string>
  {
    EnvVar(h.env, which, default, Some(h.pathsep)).items
  }

  /** An unset variable with the empty default yields no pieces; so does a
      variable that is set to the empty string. */
  lemma EnvVarEmpty(env: Env, which: string, sep: char)
    requires which !in env || env[which] == ""
    ensures EnvVar(env, which, "", Some(sep)) == Pieces([])
  {
    SplitNonEmptyOfEmpty(sep);
  }

  /** Empty pieces from a doubled or a trailing separator are dropped, and
      the remaining entries keep their order. */
  lemma {:induction false} EnvVarEmptyPieces(env: Env, which: string)
    requires which in env && env[which] == "/b::/a"
    ensures EnvVar(env, which, "", Some(':')) == Pieces(["/b", "/a"])
    ensures EnvVar(env[which := "/a:"], which, "", Some(':')) == Pieces(["/a"])
  {
    assert "/b::/a" == "/b" + [':'] + ([] + [':'] + "/a");
    SplitNonEmptyAppend("/b", [] + [':'] + "/a", ':');
    SplitNonEmptyAppend([], "/a", ':');
    SplitNonEmptyPiece("/b", ':');
    SplitNonEmptyPiece([], ':');
    SplitNonEmptyPiece("/a", ':');
    assert "/a:" == "/a" + [':'] + [];
    SplitNonEmptyAppend("/a", [], ':');
  }

  /** A value written as a separator-joined list of non-empty, separator-free
      entries gives back exactly those entries, in order. */
  lemma EnvVarList(env: Env, which: string, default: string, sep: char, entries: seq<string>)
    requires forall i :: 0 <= i < |entries| ==> entries[i] != [] && sep !in entries[i]
    requires Lookup(env, which, default) == JoinWith(entries, sep)
    ensures EnvVar(env, which, default, Some(sep)) == Pieces(entries)
  {
    SplitNonEmptyJoin(entries, sep);
  }

  // ---------------------------------------------------------------------
  // pkg_config

  /** The command line: the executable named by PKGCONFIG_EXE (default
      `pkg-config`), the package, then the query flags. */
  function Argv(env: Env, pkg: string, args: seq<string>): seq<string>
  {
    [Lookup(env, ToolVar, "pkg-config"), pkg] + args
  }

  /** pkg_config: the non-empty tokens the tool prints. A tool that cannot be
      found aborts the build with the message naming pkg-config; a non-zero
      exit escapes as the subprocess error. */
  function PkgConfig(h: Host, pkg: string, args: seq<string>): (r: Result<seq<string>>)
    ensures h.pkgConfig(Argv(h.env, pkg, args)).NotFound? <==> r == Err(PkgConfigMissing)
    ensures h.pkgConfig(Argv(h.env, pkg, args)).Failed? ==>
      r == Err(PkgConfigFailed(Argv(h.env, pkg, args), h.pkgConfig(Argv(h.env, pkg, args)).code))
    ensures r.Ok? ==> h.pkgConfig(Argv(h.env, pkg, args)).Output?
    ensures h.pkgConfig(Argv(h.env, pkg, args)).Output? ==>
      r == Ok(NonEmpty(h.pkgConfig(Argv(h.env, pkg, args)).tokens))
    ensures r.Ok? ==> forall x :: x in r.value <==> x in h.pkgConfig(Argv(h.env, pkg, args)).tokens && x != []
  {
    var argv := Argv(h.env, pkg, args);
    match h.pkgConfig(argv)
    case NotFound => Err(PkgConfigMissing)
    case Failed(code) => Err(PkgConfigFailed(argv, code))
    case Output(tokens) => Ok(NonEmpty(tokens))
  }

  // ---------------------------------------------------------------------
  // The three resolvers

  /** `x[2:]`: the token without its first two characters; Python slicing
      gives the empty string for a shorter token. */
  function DropMarker(t: string): string
  {
    if |t| >= 2 then t[2..] else []
  }

  /** `[x[2:] for x in tokens]`. */
  function StripMarkers(tokens: seq<string>): (r: seq<string>)
    ensures |r| == |tokens|
    ensures forall i :: 0 <= i < |r| ==> r[i] == DropMarker(tokens[i])
  {
    seq(|tokens|, i requires 0 <= i < |tokens| => DropMarker(tokens[i]))
  }

  /** The pattern include_dirs, library_dirs and (off Windows) libraries
      share: a variable present in the environment wins, whatever its value;
      otherwise the pkg-config tokens with their two-character markers
      dropped. */
  function Resolve(h: Host, which: string, query: string): (r: Result<seq<string>>)
    ensures which in h.env ==> r == Ok(SplitNonEmpty(h.env[which], h.pathsep))
    ensures which !in h.env ==> r == match PkgConfig(h, Package, [query])
      case Ok(tokens) => Ok(StripMarkers(tokens))
      case Err(e) => Err(e)
  {
    if which in h.env then Ok(EnvList(h, which, ""))
    else
      var tokens :- PkgConfig(h, Package, [query]);
      Ok(StripMarkers(tokens))
  }

  /** include_dirs. */
  function IncludeDirs(h: Host): (r: Result<seq<string>>)
    ensures IncludeDirsVar in h.env ==> r == Ok(SplitNonEmpty(h.env[IncludeDirsVar], h.pathsep))
    ensures IncludeDirsVar !in h.env ==> r == Resolve(h, IncludeDirsVar, "--cflags-only-I")
  {
    Resolve(h, IncludeDirsVar, "--cflags-only-I")
  }

  /** libraries: on Windows pkg-config is never asked; the split LIBXML_LIBS
      when it is set, else the single name `libxml2`. Elsewhere the same rule
      as the other two resolvers. */
  function Libraries(h: Host): (r: Result<seq<string>>)
    ensures h.windows && LibsVar in h.env ==> r == Ok(SplitNonEmpty(h.env[LibsVar], h.pathsep))
    ensures h.windows && LibsVar !in h.env && h.pathsep !in WindowsLibrary ==> r == Ok([WindowsLibrary])
    ensures !h.windows ==> r == Resolve(h, LibsVar, "--libs-only-l")
  {
    if h.windows then
      assert LibsVar !in h.env && h.pathsep !in WindowsLibrary ==>
               SplitNonEmpty(WindowsLibrary, h.pathsep) == [WindowsLibrary] by {
        if LibsVar !in h.env && h.pathsep !in WindowsLibrary {
          SplitNonEmptyJoin([WindowsLibrary], h.pathsep);
        }
      }
      Ok(EnvList(h, LibsVar, WindowsLibrary))
    else Resolve(h, LibsVar, "--libs-only-l")
  }

  /** library_dirs. */
  function LibraryDirs(h: Host): (r: Result<seq<string>>)
    ensures LibDirsVar in h.env ==> r == Ok(SplitNonEmpty(h.env[LibDirsVar], h.pathsep))
    ensures LibDirsVar !in h.env ==> r == Resolve(h, LibDirsVar, "--libs-only-L")
  {
    Resolve(h, LibDirsVar, "--libs-only-L")
  }

  // ---------------------------------------------------------------------
  // Properties of the resolvers

  /** With the variable present, the result does not depend on pkg-config at
      all: two hosts that differ only in their pkg-config resolve alike, even
      when the value is empty. */
  lemma {:induction false} OverrideIgnoresPkgConfig(h1: Host, h2: Host, which: string, query: string)
    requires which in h1.env
    requires h1.env == h2.env && h1.pathsep == h2.pathsep
    ensures Resolve(h1, which, query) == Resolve(h2, which, query)
    ensures h1.env[which] == "" ==> Resolve(h1, which, query) == Ok([])
  {
    if h1.env[which] == "" {
      SplitNonEmptyOfEmpty(h1.pathsep);
    }
  }

  /** On Windows, libraries never consults pkg-config. */
  lemma {:induction false} WindowsLibrariesIgnorePkgConfig(h1: Host, h2: Host)
    requires h1.windows && h2.windows
    requires h1.env == h2.env && h1.pathsep == h2.pathsep
    ensures Libraries(h1) == Libraries(h2)
    ensures Libraries(h1).Ok?
  {
  }

  /** Without the variable, a missing pkg-config aborts the build with the
      message naming it; there is no empty-list fallback. */
  lemma ResolveToolMissing(h: Host, which: string, query: string)
    requires which !in h.env
    requires h.pkgConfig(Argv(h.env, Package, [query])) == NotFound
    ensures Resolve(h, which, query) == Err(PkgConfigMissing)
    ensures Message(Resolve(h, which, query).error) == "pkg-config is required to build html5-parser"
  {
  }

  /** Round trip with pkg-config's output: when the tool prints each entry
      behind a two-character marker (`-I`, `-l`, `-L`), the resolver returns
      exactly those entries, in order. The marker itself is not checked. */
  lemma {:induction false} ResolveQueryRoundTrip(h: Host, which: string, query: string,
                                                 tokens: seq<string>, markers: seq<string>, entries: seq<string>)
    requires which !in h.env
    requires h.pkgConfig(Argv(h.env, Package, [query])) == Output(tokens)
    requires |tokens| == |markers| == |entries|
    requires forall i :: 0 <= i < |tokens| ==> |markers[i]| == 2 && tokens[i] == markers[i] + entries[i]
    ensures Resolve(h, which, query) == Ok(entries)
  {
    NonEmptyKeepsAll(tokens);
    assert forall i :: 0 <= i < |tokens| ==> tokens[i][2..] == entries[i];
    assert StripMarkers(tokens) == entries;
  }
}
