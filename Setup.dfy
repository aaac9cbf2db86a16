/** The extension descriptor setup.py hands to setuptools: the C sources,
    the libxml2 include dirs, libraries and library dirs, the compile flags
    for the platform, and the version macros.

    The module-level statements run in this order: src_files, cargs,
    get_version, then the Extension's keyword arguments include_dirs,
    libraries and library_dirs. The first one that fails aborts the build,
    and no descriptor is produced. */
module Setup {
  import opened Wrappers
  import opened Text
  import opened Version
  import opened Flags
  import opened Sources

  const ExtensionName: string := "html5_parser.html_parser"

  /** The arguments of `Extension(...)`. */
  datatype Extension = Extension(
    name: string,
    sources: seq<string>,
    includeDirs: seq<string>,
    libraries: seq<string>,
    libraryDirs: seq<string>,
    extraCompileArgs: seq<string>,
    defineMacros: seq<(string, string)>)

  /** cargs: MSVC's optimisation flag on Windows; elsewhere optimisation,
      the C99 standard and hidden symbol visibility. */
  function CompileArgs(windows: bool): seq<string>
  {
    if windows then ["/O2"] else ["-O3", "-std=c99", "-fvisibility=hidden"]
  }

  /** define_macros: MAJOR, MINOR and PATCH in that order, each the decimal
      rendering `str(...)` of its version part, which reads back as that
      part. */
  function DefineMacros(v: Version): (r: seq<(string, string)>)
    ensures |r| == 3
    ensures r[0].0 == "MAJOR" && r[1].0 == "MINOR" && r[2].0 == "PATCH"
    ensures Canonical(r[0].1) && DecimalValue(r[0].1) == v.major
    ensures Canonical(r[1].1) && DecimalValue(r[1].1) == v.minor
    ensures Canonical(r[2].1) && DecimalValue(r[2].1) == v.patch
  {
    [("MAJOR", DecimalString(v.major)),
     ("MINOR", DecimalString(v.minor)),
     ("PATCH", DecimalString(v.patch))]
  }

  /** The whole of setup.py's resolution: a descriptor, or the first fatal
      error in the order the statements run. */
  function Assemble(h: Host, manifest: string, listings: map<string, seq<string>>): (r: Result<Extension>)
    ensures r.Ok? <==>
      CollectSources(SrcDirs, listings).Ok? && GetVersion(manifest).Ok?
      && IncludeDirs(h).Ok? && Libraries(h).Ok? && LibraryDirs(h).Ok?
    ensures CollectSources(SrcDirs, listings).Err? ==> r == Err(CollectSources(SrcDirs, listings).error)
    ensures CollectSources(SrcDirs, listings).Ok? && GetVersion(manifest).Err? ==> r == Err(VersionNotFound)
    ensures CollectSources(SrcDirs, listings).Ok? && GetVersion(manifest).Ok? && IncludeDirs(h).Err? ==>
      r == Err(IncludeDirs(h).error)
    ensures CollectSources(SrcDirs, listings).Ok? && GetVersion(manifest).Ok? && IncludeDirs(h).Ok? && Libraries(h).Err? ==>
      r == Err(Libraries(h).error)
    ensures (CollectSources(SrcDirs, listings).Ok? && GetVersion(manifest).Ok? && IncludeDirs(h).Ok? && Libraries(h).Ok?
             && LibraryDirs(h).Err?) ==>
      r == Err(LibraryDirs(h).error)
    ensures r.Ok? ==>
      r.value.name == ExtensionName
      && r.value.sources == CollectSources(SrcDirs, listings).value
      && r.value.includeDirs == IncludeDirs(h).value
      && r.value.libraries == Libraries(h).value
      && r.value.libraryDirs == LibraryDirs(h).value
      && r.value.extraCompileArgs == CompileArgs(h.windows)
      && r.value.defineMacros == DefineMacros(GetVersion(manifest).value)
  {
    var sources :- CollectSources(SrcDirs, listings);
    var cargs := CompileArgs(h.windows);
    var version :- GetVersion(manifest);
    var includeDirs :- IncludeDirs(h);
    var libraries :- Libraries(h);
    var libraryDirs :- LibraryDirs(h);
    Ok(Extension(ExtensionName, sources, includeDirs, libraries, libraryDirs, cargs,
                 DefineMacros(version)))
  }

  // ---------------------------------------------------------------------
  // Properties of the assembled descriptor

  /** The macros of a canonical version line repeat its digit strings
      exactly: `str(int(s)) == s`. */
  lemma {:induction false} MacrosEchoManifest(m: VersionMatch)
    requires Canonical(m.major) && Canonical(m.minor) && Canonical(m.patch)
    ensures DefineMacros(ValueOf(m)) == [("MAJOR", m.major), ("MINOR", m.minor), ("PATCH", m.patch)]
  {
    DecimalStringOfValue(m.major);
    DecimalStringOfValue(m.minor);
    DecimalStringOfValue(m.patch);
  }

  /** Off Windows, with no override variable set and pkg-config missing, the
      build aborts with the message naming pkg-config. */
  lemma {:induction false} AssembleToolMissing(h: Host, manifest: string, listings: map<string, seq<string>>)
    requires !h.windows
    requires IncludeDirsVar !in h.env
    requires forall q :: h.pkgConfig(q) == NotFound
    requires CollectSources(SrcDirs, listings).Ok? && GetVersion(manifest).Ok?
    ensures Assemble(h, manifest, listings) == Err(PkgConfigMissing)
  {
    ResolveToolMissing(h, IncludeDirsVar, "--cflags-only-I");
  }

  /** On Windows, with the include and library directories given in the
      environment, the descriptor never depends on pkg-config, and with
      LIBXML_LIBS unset the library list is `libxml2` alone. */
  lemma {:induction false} AssembleWindowsWithoutTool(h: Host, manifest: string, listings: map<string, seq<string>>)
    requires h.windows && h.pathsep == ';'
    requires IncludeDirsVar in h.env && LibDirsVar in h.env && LibsVar !in h.env
    requires CollectSources(SrcDirs, listings).Ok? && GetVersion(manifest).Ok?
    ensures Assemble(h, manifest, listings).Ok?
    ensures Assemble(h, manifest, listings).value.libraries == ["libxml2"]
    ensures Assemble(h, manifest, listings).value.extraCompileArgs == ["/O2"]
  {
    assert ';' !in WindowsLibrary;
    assert Libraries(h) == Ok(["libxml2"]);
    assert IncludeDirs(h).Ok? && LibraryDirs(h).Ok?;
  }

  /** Off Windows, with all three variables set, the descriptor never
      depends on pkg-config and carries the GCC/Clang flags: optimisation,
      C99, and hidden symbol visibility. */
  lemma {:induction false} AssemblePosixOverrides(h: Host, manifest: string, listings: map<string, seq<string>>)
    requires !h.windows
    requires IncludeDirsVar in h.env && LibsVar in h.env && LibDirsVar in h.env
    requires CollectSources(SrcDirs, listings).Ok? && GetVersion(manifest).Ok?
    ensures Assemble(h, manifest, listings).Ok?
    ensures Assemble(h, manifest, listings).value.extraCompileArgs == ["-O3", "-std=c99", "-fvisibility=hidden"]
    ensures Assemble(h, manifest, listings).value.libraries == SplitNonEmpty(h.env[LibsVar], h.pathsep)
  {
    assert IncludeDirs(h).Ok? && Libraries(h).Ok? && LibraryDirs(h).Ok?;
  }

  /** The descriptor lists each source file once when each directory
      listing names its entries once. */
  lemma {:induction false} AssembleSourcesDistinct(h: Host, manifest: string, listings: map<string, seq<string>>)
    requires "src" in listings && "gumbo" in listings
    requires Distinct(listings["src"]) && Distinct(listings["gumbo"])
    requires Assemble(h, manifest, listings).Ok?
    ensures Distinct(Assemble(h, manifest, listings).value.sources)
    ensures Assemble(h, manifest, listings).value.sources
         == CFiles("src", listings["src"]) + CFiles("gumbo", listings["gumbo"])
  {
    SourceFilesDistinct(listings);
    SourceFilesOrder(listings);
  }

  // ---------------------------------------------------------------------
  // The worked scenarios

  /** The line `version = "2.34.1"` is the rendering of the groups 2, 34
      and 1, whose values are (2, 34, 1). */
  lemma VersionLine2341()
    ensures WellFormed(VersionMatch("2", "34", "1"))
    ensures "version = \"2.34.1\"" == Render(VersionMatch("2", "34", "1"))
    ensures '\n' !in "version = \"2.34.1\""
    ensures ValueOf(VersionMatch("2", "34", "1")) == Version(2, 34, 1)
  {
    assert "34"[..1] == "3";
  }

  /** A manifest whose second line is `version = "2.34.1"` yields the
      version (2, 34, 1). */
  lemma {:induction false} ScenarioVersion(header: string, rest: string)
    requires '\n' !in header && MatchLine(header).None?
    ensures GetVersion(header + "\n" + "version = \"2.34.1\"" + "\n" + rest) == Ok(Version(2, 34, 1))
  {
    VersionLine2341();
    GetVersionAfterHeader(header, "version = \"2.34.1\"", rest, VersionMatch("2", "34", "1"));
  }

  /** The version (2, 34, 1) gives the macros MAJOR=2, MINOR=34, PATCH=1. */
  lemma {:induction false} ScenarioMacros()
    ensures DefineMacros(Version(2, 34, 1)) == [("MAJOR", "2"), ("MINOR", "34"), ("PATCH", "1")]
  {
    VersionLine2341();
    MacrosEchoManifest(VersionMatch("2", "34", "1"));
  }

  /** LIBXML_INCLUDE_DIRS="/a/include:/b/include" with ':' as separator gives
      the two directories, whatever pkg-config would say. */
  lemma {:induction false} ScenarioIncludeOverride(h: Host)
    requires h.pathsep == ':'
    requires IncludeDirsVar in h.env && h.env[IncludeDirsVar] == "/a/include:/b/include"
    ensures IncludeDirs(h) == Ok(["/a/include", "/b/include"])
  {
    var entries := ["/a/include", "/b/include"];
    assert JoinWith(entries, ':') == "/a/include:/b/include";
    EnvVarList(h.env, IncludeDirsVar, "", ':', entries);
  }

  /** With no override, `-I/usr/include/libxml2` from pkg-config gives the
      include directory `/usr/include/libxml2`. */
  lemma {:induction false} ScenarioIncludeQuery(h: Host)
    requires IncludeDirsVar !in h.env
    requires h.pkgConfig(Argv(h.env, Package, ["--cflags-only-I"])) == Output(["-I/usr/include/libxml2"])
    ensures IncludeDirs(h) == Ok(["/usr/include/libxml2"])
  {
    var tokens := ["-I/usr/include/libxml2"];
    var entries := ["/usr/include/libxml2"];
    assert tokens[0] == "-I" + entries[0];
    ResolveQueryRoundTrip(h, IncludeDirsVar, "--cflags-only-I", tokens, ["-I"], entries);
  }
}
