/** find_c_files and the list of C sources: each source directory's sorted
    listing, filtered to `.c` files that are not `-check.c` self-tests, joined
    back onto the directory, and the directories' results concatenated in
    the order of SRC_DIRS.

    Directory listings are passed in: `listings[d]` is what `os.listdir`
    returns for directory `d`, and a directory missing from the map is one
    `os.listdir` cannot open. */
module Sources {
  import opened Wrappers
  import opened Text

  const SrcDirs: seq<string> := ["src", "gumbo"]

  /** The filter of find_c_files. */
  predicate IsCSource(name: string)
  {
    EndsWith(name, ".c") && !EndsWith(name, "-check.c")
  }

  /** `os.path.join(dir, name)` for a relative directory and a plain name. */
  function JoinPath(dir: string, name: string): string
  {
    dir + "/" + name
  }

  /** The names that pass the filter, in their order. */
  function Kept(names: seq<string>): seq<string>
  {
    if names == [] then []
    else if IsCSource(names[0]) then [names[0]] + Kept(names[1..])
    else Kept(names[1..])
  }

  /** The filter keeps exactly the names that pass it, each as often as it
      occurs. */
  lemma {:induction false} KeptMembers(names: seq<string>)
    ensures forall x :: x in Kept(names) <==> x in names && IsCSource(x)
    ensures multiset(Kept(names)) <= multiset(names)
  {
    if names != [] {
      KeptMembers(names[1..]);
      assert names == [names[0]] + names[1..];
    }
  }

  function JoinAll(dir: string, names: seq<string>): (r: seq<string>)
    ensures |r| == |names|
    ensures forall i :: 0 <= i < |names| ==> r[i] == JoinPath(dir, names[i])
  {
    seq(|names|, i requires 0 <= i < |names| => JoinPath(dir, names[i]))
  }

  /** What find_c_files returns for a directory with the given listing. */
  function CFiles(dir: string, listing: seq<string>): seq<string>
  {
    JoinAll(dir, Kept(Sort(listing)))
  }

  lemma {:induction false} KeptAppend(names: seq<string>, x: string)
    ensures Kept(names + [x]) == Kept(names) + (if IsCSource(x) then [x] else [])
  {
    if names == [] {
      assert names + [x] == [x];
      assert Kept([x]) == (if IsCSource(x) then [x] else []) + Kept([]);
    } else {
      assert (names + [x])[0] == names[0] && (names + [x])[1..] == names[1..] + [x];
      KeptAppend(names[1..], x);
    }
  }

  lemma JoinAllAppend(dir: string, names: seq<string>, x: string)
    ensures JoinAll(dir, names + [x]) == JoinAll(dir, names) + [JoinPath(dir, x)]
  {
  }

  /** find_c_files: walks the sorted listing and appends each kept name,
      joined onto the directory. */
  method FindCFiles(dir: string, listing: seq<string>) returns (ans: seq<string>)
    ensures ans == CFiles(dir, listing)
  {
    var names := Sort(listing);
    ans := [];
    for i := 0 to |names|
      invariant ans == JoinAll(dir, Kept(names[..i]))
    {
      var x := names[i];
      assert names[..i + 1] == names[..i] + [x];
      KeptAppend(names[..i], x);
      if IsCSource(x) {
        JoinAllAppend(dir, Kept(names[..i]), x);
        ans := ans + [JoinPath(dir, x)];
      }
    }
    assert names[..|names|] == names;
  }

  // ---------------------------------------------------------------------
  // What find_c_files promises

  lemma JoinPathName(dir: string, name: string)
    ensures |JoinPath(dir, name)| > |dir|
    ensures JoinPath(dir, name)[|dir| + 1..] == name
  {
  }

  /** Every entry is `dir/name` for a listed name that passes the filter. */
  lemma CFilesSound(dir: string, listing: seq<string>)
    ensures forall i :: 0 <= i < |CFiles(dir, listing)| ==>
      var p := CFiles(dir, listing)[i];
      |p| > |dir| && p == JoinPath(dir, p[|dir| + 1..])
      && p[|dir| + 1..] in listing && IsCSource(p[|dir| + 1..])
  {
    var names := Sort(listing);
    var kept := Kept(names);
    KeptMembers(names);
    var r := CFiles(dir, listing);
    forall i | 0 <= i < |r|
      ensures |r[i]| > |dir| && r[i] == JoinPath(dir, r[i][|dir| + 1..])
      ensures r[i][|dir| + 1..] in listing && IsCSource(r[i][|dir| + 1..])
    {
      JoinPathName(dir, kept[i]);
      assert kept[i] in multiset(names);
    }
  }

  /** Every listed name that passes the filter is there, joined onto the
      directory, and no other listed name is. */
  lemma CFilesComplete(dir: string, listing: seq<string>)
    ensures forall x :: x in listing ==> (JoinPath(dir, x) in CFiles(dir, listing) <==> IsCSource(x))
  {
    var names := Sort(listing);
    var kept := Kept(names);
    KeptMembers(names);
    var r := CFiles(dir, listing);
    forall x | x in listing
      ensures JoinPath(dir, x) in r <==> IsCSource(x)
    {
      assert x in multiset(listing);
      if IsCSource(x) {
        assert x in names;
        var k :| 0 <= k < |kept| && kept[k] == x;
        assert r[k] == JoinPath(dir, x);
      }
      if JoinPath(dir, x) in r {
        var k :| 0 <= k < |r| && r[k] == JoinPath(dir, x);
        JoinPathInjective(dir, x, kept[k]);
      }
    }
  }

  lemma {:induction false} KeptSorted(names: seq<string>)
    requires Sorted(names)
    ensures Sorted(Kept(names))
  {
    if names != [] {
      KeptSorted(names[1..]);
      KeptMembers(names[1..]);
      var t := Kept(names[1..]);
      if IsCSource(names[0]) {
        forall j | 0 <= j < |t| ensures LexLe(names[0], t[j]) {
          assert t[j] in names[1..];
        }
      }
    }
  }

  lemma {:induction false} JoinAllSorted(dir: string, names: seq<string>)
    requires Sorted(names)
    ensures Sorted(JoinAll(dir, names))
  {
    var r := JoinAll(dir, names);
    forall i, j | 0 <= i < j < |r| ensures LexLe(r[i], r[j]) {
      LexLeCommonPrefix(dir + "/", names[i], names[j]);
    }
  }

  /** The result is in ascending order. */
  lemma CFilesSorted(dir: string, listing: seq<string>)
    ensures Sorted(CFiles(dir, listing))
  {
    SortSorted(listing);
    KeptSorted(Sort(listing));
    JoinAllSorted(dir, Kept(Sort(listing)));
  }

  lemma {:induction false} KeptDistinct(names: seq<string>)
    requires Distinct(names)
    ensures Distinct(Kept(names))
  {
    KeptMembers(names);
    forall x | x in multiset(Kept(names)) ensures multiset(Kept(names))[x] == 1 {
      assert multiset(names)[x] == 1;
    }
  }

  lemma JoinPathInjective(dir: string, a: string, b: string)
    ensures JoinPath(dir, a) == JoinPath(dir, b) <==> a == b
  {
    JoinPathName(dir, a);
    JoinPathName(dir, b);
  }

  lemma JoinAllCons(dir: string, a: string, t: seq<string>)
    ensures JoinAll(dir, [a] + t) == [JoinPath(dir, a)] + JoinAll(dir, t)
  {
  }

  lemma {:induction false} JoinAllDistinct(dir: string, names: seq<string>)
    requires Distinct(names)
    ensures Distinct(JoinAll(dir, names))
  {
    if names != [] {
      var a, t := names[0], names[1..];
      assert names == [a] + t;
      DistinctCons(a, t);
      JoinAllDistinct(dir, t);
      var rt := JoinAll(dir, t);
      JoinAllCons(dir, a, t);
      forall k | 0 <= k < |rt| ensures rt[k] != JoinPath(dir, a) {
        JoinPathInjective(dir, a, t[k]);
      }
      DistinctCons(JoinPath(dir, a), rt);
    }
  }

  /** A directory listing names each entry once, so each qualifying file
      appears exactly once. */
  lemma CFilesDistinct(dir: string, listing: seq<string>)
    requires Distinct(listing)
    ensures Distinct(CFiles(dir, listing))
  {
    KeptDistinct(Sort(listing));
    JoinAllDistinct(dir, Kept(Sort(listing)));
  }

  // ---------------------------------------------------------------------
  // src_files

  /** `list(chain(*[find_c_files(d) for d in dirs]))`: the directories'
      results concatenated in the order given, never sorted as a whole; the
      first directory that cannot be listed aborts. */
  function CollectSources(dirs: seq<string>, listings: map<string, seq<string>>): (r: Result<seq<string>>)
    ensures r.Ok? <==> forall i :: 0 <= i < |dirs| ==> dirs[i] in listings
    ensures r.Err? ==> r.error.NoSuchDirectory? && r.error.dir in dirs && r.error.dir !in listings
    ensures r.Err? ==> exists k :: 0 <= k < |dirs| && r.error == NoSuchDirectory(dirs[k])
                                  && forall j :: 0 <= j < k ==> dirs[j] in listings
  {
    if dirs == [] then Ok([])
    else if dirs[0] !in listings then Err(NoSuchDirectory(dirs[0]))
    else
      assert forall i :: 1 <= i < |dirs| ==> dirs[i] == dirs[1..][i - 1];
      var rest :- CollectSources(dirs[1..], listings);
      Ok(CFiles(dirs[0], listings[dirs[0]]) + rest)
  }

  /** src_files: all of `src` first, then all of `gumbo`. */
  lemma SourceFilesOrder(listings: map<string, seq<string>>)
    requires "src" in listings && "gumbo" in listings
    ensures CollectSources(SrcDirs, listings)
         == Ok(CFiles("src", listings["src"]) + CFiles("gumbo", listings["gumbo"]))
  {
    var gumbo := CFiles("gumbo", listings["gumbo"]);
    assert SrcDirs[1..] == ["gumbo"];
    assert ["gumbo"][1..] == [];
    assert CollectSources([], listings) == Ok([]);
    assert gumbo + [] == gumbo;
    assert CollectSources(["gumbo"], listings) == Ok(gumbo);
  }

  /** Every entry begins with the directory's first character. */
  lemma CFilesFirstChar(dir: string, listing: seq<string>)
    requires |dir| > 0
    ensures forall p :: p in CFiles(dir, listing) ==> |p| > 0 && p[0] == dir[0]
  {
  }

  lemma DistinctConcat(a: seq<string>, b: seq<string>)
    requires Distinct(a) && Distinct(b)
    requires forall x :: x in a ==> x !in b
    ensures Distinct(a + b)
  {
    assert multiset(a + b) == multiset(a) + multiset(b);
    forall x | x in multiset(a + b) ensures multiset(a + b)[x] == 1 {
      if x in a {
        assert multiset(b)[x] == 0;
      } else {
        assert multiset(a)[x] == 0;
      }
    }
  }

  /** Entries of different directories never collide, so when each listing
      names its entries once, so does src_files. */
  lemma SourceFilesDistinct(listings: map<string, seq<string>>)
    requires "src" in listings && "gumbo" in listings
    requires Distinct(listings["src"]) && Distinct(listings["gumbo"])
    ensures CollectSources(SrcDirs, listings).Ok?
    ensures Distinct(CollectSources(SrcDirs, listings).value)
  {
    SourceFilesOrder(listings);
    CFilesDistinct("src", listings["src"]);
    CFilesDistinct("gumbo", listings["gumbo"]);
    CFilesFirstChar("src", listings["src"]);
    CFilesFirstChar("gumbo", listings["gumbo"]);
    DistinctConcat(CFiles("src", listings["src"]), CFiles("gumbo", listings["gumbo"]));
  }

  /** Because `gumbo/...` sorts before `src/...`, the concatenation is not in
      ascending order once both directories contribute a file. */
  lemma SourceFilesNotSorted(listings: map<string, seq<string>>)
    requires "src" in listings && "gumbo" in listings
    requires |CFiles("src", listings["src"])| > 0 && |CFiles("gumbo", listings["gumbo"])| > 0
    ensures !Sorted(CollectSources(SrcDirs, listings).value)
  {
    SourceFilesOrder(listings);
    var a := CFiles("src", listings["src"]);
    var b := CFiles("gumbo", listings["gumbo"]);
    CFilesFirstChar("src", listings["src"]);
    CFilesFirstChar("gumbo", listings["gumbo"]);
    assert a[0] in a && b[0] in b;
    var s := a + b;
    assert s[0] == a[0] && s[|a|] == b[0];
    assert !LexLe(s[0], s[|a|]);
  }
}
