# html5-parser build configuration, modelled in Dafny

html5-parser's `setup.py` works out how to compile and link its C extension
`html5_parser.html_parser` against libxml2. It produces:

- the C sources: the sorted `.c` files of `src` and then of `gumbo`, without the `-check.c` self-tests;
- the libxml2 include directories, library names and library directories. Each one comes from an
  environment variable when that variable is present. Otherwise it comes from `pkg-config`, with the
  two-character flag marker (`-I`, `-l`, `-L`) removed from each token. The exception is library names
  on Windows: without `LIBXML_LIBS` they fall back to `libxml2`, and `pkg-config` is not asked;
- the compile flags for the platform;
- the `MAJOR`/`MINOR`/`PATCH` macros, read from the `version = "A.B.C"` line of `pyproject.toml`.

The model gives the host to every function as a value: `Flags.Host` holds the environment map, whether
the interpreter runs on Windows, the path-list separator (`os.pathsep`), and `pkg-config` as an oracle.
The oracle maps the argument vector to `NotFound`, `Failed(code)` or `Output(tokens)`. The manifest
text and each directory listing are parameters as well. Every fatal error of the build is a
`Wrappers.Result` error, so no descriptor is produced when any step fails.

Modules:

- `Wrappers`: `Option`, `Result` and the build errors.
- `Text`: `str.split` on one character, `filter(None, ...)`, `endswith`, decimal digits, Python's
  code-point order on strings, and insertion sort as the reference definition of `sorted`.
- `Version`: `get_version`.
- `Flags`: `env_var`, `pkg_config`, `include_dirs`, `libraries`, `library_dirs`.
- `Sources`: `find_c_files`, which is a method with a loop invariant, and the `src_files` concatenation.
- `Setup`: `cargs`, `define_macros`, and the assembled `Extension`, built in the order setup.py runs
  its statements.

Behaviour of setup.py worth noting, as the model states it:

- A variable that is present but set to the empty string is not treated like an unset one. The test
  is `in os.environ` (setup.py:55, 64, 71). So `LIBXML_INCLUDE_DIRS=""` gives `[]`, and `pkg-config`
  is not run (`Flags.OverrideIgnoresPkgConfig`).
- The source list is not globally sorted. It is the sorted `src` files followed by the sorted `gumbo`
  files, and `gumbo/...` sorts before `src/...`. So the whole list is out of order as soon as both
  directories contribute a file (`Sources.SourceFilesNotSorted`).
- `pkg-config` exiting with a non-zero status is a third fatal error. It is the `CalledProcessError`
  that setup.py does not catch (`Wrappers.BuildError.PkgConfigFailed`).
- The compile flags `cargs` (setup.py:92) are `Setup.CompileArgs`: `['/O2']` on Windows, otherwise
  `['-O3', '-std=c99', '-fvisibility=hidden']`. `Setup.Assemble` states that the descriptor carries
  them. `Setup.AssembleWindowsWithoutTool` and `Setup.AssemblePosixOverrides` state the two values.

## Model

| member | source | states |
|---|---|---|
| `Version.DigitRun` | setup.py:30 | a greedy `\d+` takes exactly the leading run of ASCII digits and stops at the first non-digit |
| `Version.MatchLineComplete` | setup.py:30 | any line that starts with `version = "A.B.C"` (A, B, C non-empty digit strings) matches with groups A, B, C, whatever text follows the closing quote |
| `Version.MatchLineSound` | setup.py:30 | whatever matches has non-empty digit groups, and the line starts with exactly `version = "A.B.C"`; indentation or other spacing around `=` never matches |
| `Version.MatchLineIff` | setup.py:30 | a line matches with groups m if and only if m is well formed and the line starts with its rendering |
| `Version.FirstSome` | setup.py:30 | the index found is that of the first match (as `re.search` finds the leftmost match); "none" only when no entry matches |
| `Version.GetVersion` | setup.py:27-33 | fails, with the version-not-found error and never with a default, exactly when no line of the text matches |
| `Version.GetVersionOf` | setup.py:27-33 | round trip: when line i holds `version = "A.B.C"` and no earlier line matches, the result is (int(A), int(B), int(C)) |
| `Version.LinesCons` | setup.py:30 | a line free of '\n' followed by '\n' and more text is the first line of the text; `^` in multi-line mode starts a line after each '\n' |
| `Version.GetVersionAfterHeader` | setup.py:27-33 | a version line right after one non-matching line gives that line's version |
| `Text.Split` | setup.py:50 | `str.split(sep)` gives at least one piece, and no piece contains the separator |
| `Text.JoinSplit` | setup.py:50 | joining the pieces back with the separator gives the original string |
| `Text.SplitJoin` | setup.py:50 | splitting a separator-joined list of separator-free pieces gives back exactly those pieces |
| `Text.NonEmpty` | setup.py:42 | `filter(None, ...)` keeps exactly the non-empty strings and never adds any |
| `Text.NonEmptyAppend` | setup.py:42 | the filter keeps order and repeats: filtering a concatenation gives the concatenation of the filtered parts |
| `Text.NonEmptyOne` | setup.py:42 | a single string is kept exactly when it is non-empty |
| `Text.SplitAppend` | setup.py:50 | splitting at a separator gives the pieces before it followed by the pieces after it |
| `Text.SplitNonEmpty` | setup.py:50 | no piece is empty and no piece contains the separator |
| `Text.SplitNonEmptyAppend` | setup.py:50 | the kept pieces of `a + sep + b` are those of `a` followed by those of `b`, so doubled, leading and trailing separators only drop empty pieces |
| `Text.SplitNonEmptyPiece` | setup.py:50 | text without the separator is one piece when non-empty and no piece when empty; with `SplitNonEmptyAppend` this fixes the result for every value |
| `Text.SplitNonEmptyJoin` | setup.py:50 | round trip: non-empty, separator-free entries joined by the separator split back into the same entries, in order |
| `Text.SplitNonEmptyOfEmpty` | setup.py:50 | the empty string gives no pieces |
| `Text.DecimalString` | setup.py:106-108 | `str(n)` is a canonical digit string (no leading zero unless it is "0") whose value is n |
| `Text.DecimalStringOfValue` | setup.py:106-108 | `str(int(s)) == s` for every canonical digit string s |
| `Text.Insert` | setup.py:79 | inserting adds exactly one occurrence of the string to the multiset of elements |
| `Text.InsertSorted` | setup.py:79 | inserting into an ascending list keeps it ascending |
| `Text.Sort` | setup.py:79 | `sorted` returns a permutation of its input |
| `Text.SortSorted` | setup.py:79 | `sorted` returns its input in ascending code-point order |
| `Text.SortedUnique` | setup.py:79 | two ascending permutations of the same strings are equal, so the reference sort fixes the one result `sorted` gives |
| `Flags.EnvVar` | setup.py:45-50 | without a separator, the raw value or the default; with one, the non-empty pieces of that value in order (the split-and-filter characterised by `Text.SplitNonEmptyAppend` and `Text.SplitNonEmptyPiece`), each free of the separator |
| `Flags.EnvVarEmptyPieces` | setup.py:50 | `"/b::/a"` split on ':' gives `["/b", "/a"]` and `"/a:"` gives `["/a"]`: empty pieces are dropped, order is kept |
| `Flags.EnvVarEmpty` | setup.py:45-50 | an unset variable with default '' gives `[]`, and so does a variable set to '' |
| `Flags.EnvVarList` | setup.py:45-50 | a value (or default) written as a separator-joined list of entries gives back exactly those entries, in order |
| `Flags.PkgConfig` | setup.py:36-42 | a tool that is not found gives the SystemExit naming pkg-config, and only then; a non-zero exit gives the subprocess error with its argv and code; output gives `Ok` of the non-empty tokens in their order; the executable is `PKGCONFIG_EXE` or `pkg-config` |
| `Flags.StripMarkers` | setup.py:57 | one result per token, each the token without its first two characters (the empty string for a shorter token), with no check of what those characters are |
| `Flags.Resolve` | setup.py:53-57 | a present variable decides the result alone (its split value); otherwise the stripped pkg-config tokens, or pkg-config's error unchanged |
| `Flags.IncludeDirs` | setup.py:53-57 | `LIBXML_INCLUDE_DIRS`, when present, decides the result alone; otherwise the `--cflags-only-I` query |
| `Flags.Libraries` | setup.py:60-66 | on Windows: the split `LIBXML_LIBS` when set, else `['libxml2']`, with pkg-config never consulted; elsewhere the same override-else-query rule with `--libs-only-l` |
| `Flags.LibraryDirs` | setup.py:69-73 | `LIBXML_LIB_DIRS`, when present, decides the result alone; otherwise the `--libs-only-L` query |
| `Flags.OverrideIgnoresPkgConfig` | setup.py:55-56 | with the variable present, hosts that differ only in pkg-config resolve alike, and an empty value gives `[]` without falling through to the query |
| `Flags.WindowsLibrariesIgnorePkgConfig` | setup.py:62-63 | on Windows, libraries never depends on pkg-config and never fails |
| `Flags.ResolveToolMissing` | setup.py:38-41 | without the variable, a missing pkg-config aborts with "pkg-config is required to build html5-parser", never with an empty list |
| `Flags.ResolveQueryRoundTrip` | setup.py:57 | when pkg-config prints each entry behind a two-character marker, the resolver returns exactly those entries, in order |
| `Sources.KeptMembers` | setup.py:80 | the filter keeps exactly the names ending in `.c` and not in `-check.c`, with no name added or repeated |
| `Sources.KeptAppend` | setup.py:78-81 | the filter of a listing grown by one name is the old result plus that name when it qualifies |
| `Sources.FindCFiles` | setup.py:76-82 | the loop over the sorted listing appends exactly the joined qualifying names, giving `CFiles(dir, listing)` |
| `Sources.CFilesSound` | setup.py:76-82 | every entry is `dir/name` for a listed name that ends in `.c` and not in `-check.c` |
| `Sources.CFilesComplete` | setup.py:76-82 | a listed name appears, as `dir/name`, if and only if it ends in `.c` and not in `-check.c` (`foo.c` kept; `foo-check.c` and `foo.h` dropped) |
| `Sources.CFilesSorted` | setup.py:79 | the entries are in ascending order |
| `Sources.CFilesDistinct` | setup.py:76-82 | when the listing names each entry once, each qualifying file appears exactly once |
| `Sources.CollectSources` | setup.py:86-89 | succeeds exactly when every directory can be listed; otherwise the error names the first directory of the list that cannot be listed, as `os.listdir` fails there before later directories are read |
| `Sources.SourceFilesOrder` | setup.py:86-89 | src_files is all of `src`'s files followed by all of `gumbo`'s, with no global re-sort |
| `Sources.SourceFilesDistinct` | setup.py:86-89 | the two directories' entries never collide, so every source file is listed once |
| `Sources.SourceFilesNotSorted` | setup.py:89 | once both directories contribute a file, the concatenation is not in ascending order |
| `Setup.DefineMacros` | setup.py:105-109 | exactly MAJOR, MINOR, PATCH in that order, each a canonical decimal string whose value is that version part |
| `Setup.Assemble` | setup.py:89-113 | a descriptor exactly when sources, version, include dirs, libraries and library dirs all resolve, carrying those values, the platform's compile flags and the version macros; otherwise the first error in statement order: sources, version, include dirs, libraries, library dirs |
| `Setup.MacrosEchoManifest` | setup.py:105-109 | for a manifest line with canonical digit strings, the macro values are those exact strings |
| `Setup.AssembleToolMissing` | setup.py:95-103 | off Windows, with no include override and no pkg-config, the build aborts with the pkg-config error |
| `Setup.AssembleWindowsWithoutTool` | setup.py:92-103 | on Windows, with include and library directories overridden and `LIBXML_LIBS` unset, the build succeeds without pkg-config, with libraries `['libxml2']` and flags `['/O2']` |
| `Setup.AssemblePosixOverrides` | setup.py:92-104 | off Windows, with all three variables set, the build succeeds without pkg-config and carries the flags `['-O3', '-std=c99', '-fvisibility=hidden']` and the split `LIBXML_LIBS` |
| `Setup.AssembleSourcesDistinct` | setup.py:86-89 | the descriptor's sources are `src`'s then `gumbo`'s files, each once |
| `Setup.VersionLine2341` | setup.py:30-33 | `version = "2.34.1"` is a well-formed match whose value is (2, 34, 1) |
| `Setup.ScenarioVersion` | setup.py:27-33 | a manifest whose second line is `version = "2.34.1"` gives the version (2, 34, 1) |
| `Setup.ScenarioMacros` | setup.py:105-109 | the version (2, 34, 1) gives the macros MAJOR="2", MINOR="34", PATCH="1" |
| `Setup.ScenarioIncludeOverride` | setup.py:53-56 | `LIBXML_INCLUDE_DIRS="/a/include:/b/include"` with ':' gives `["/a/include", "/b/include"]`, whatever pkg-config would say |
| `Setup.ScenarioIncludeQuery` | setup.py:53-57 | with no override, the token `-I/usr/include/libxml2` gives `["/usr/include/libxml2"]` |

## Left out

- Running `pkg-config` (setup.py:39) and splitting its output with `shlex` (setup.py:42). The oracle
  returns the shell tokens already split; UTF-8 decoding of the output is not modelled.
- Reading `pyproject.toml` (setup.py:29). The manifest text is a parameter, taken as Python's text
  mode delivers it, with `\r\n` and `\r` already turned into `\n`.
- `os.listdir` (setup.py:79). The listings are a map from directory to names. A directory missing
  from the map stands for the `FileNotFoundError`; other filesystem errors are not modelled.
- `os.environ`, `sys.getwindowsversion` and `os.pathsep` (setup.py:23-24, 45). They are the
  environment map, the `windows` flag and the separator of `Flags.Host`.
- The `setup(...)` and `Extension(...)` calls of setuptools (setup.py:97-113). The model stops at the
  `Setup.Extension` value those calls would receive. The module-level `self_path`/`base` computation
  (setup.py:19-20) only locates the files read above.
- `\d` in Python's `re` also matches non-ASCII decimal digits, and `int()` accepts them. The model
  accepts ASCII digits only.
- `os.path.join` is modelled as `dir + "/" + name`, which is what it gives for the relative directory
  names `src` and `gumbo` on POSIX. Windows uses a backslash.
- `Flags.Libraries`: the Windows default is stated as `['libxml2']` only when the separator does not
  occur in `libxml2`. Otherwise `env_var` splits the default too. With Windows' `;` the condition
  always holds.
- Two `pkg-config` failures that setup.py does not catch are not modelled. A `pkg-config` that exists
  but cannot be executed raises `PermissionError` or another `OSError` (setup.py:39-41 catch only
  `FileNotFoundError`). Output that `shlex.split` rejects, such as an unbalanced quote, raises
  `ValueError` (setup.py:42). The oracle's outcomes are only not-found, non-zero exit and tokens.
