/**
 * The terminal's virtual filesystem: the fixed folder list, the file table
 * (one entry of which, `~/resume.md`, holds text fetched when the terminal
 * starts), and the listing that `ls` prints.
 */
module VirtualFs {
  import opened Text
  import opened Options

  /** The folders, in their declaration order. */
  const Folders: seq<string> := ["~", "~/about", "~/projects", "~/contact"]

  /** The file table, in the insertion order of its keys; `resume` is the
      body of the site's `resume.md`, whatever it is. */
  function FileTable(resume: string): (table: seq<(string, string)>) {
    [
      ("~/about/index.html", AboutPage),
      ("~/projects/index.html", ProjectsPage),
      ("~/contact/index.html", ContactPage),
      ("~/resume.md", resume)
    ]
  }

  /** The three built-in pages' HTML. */
  const AboutPage := "<h1>About Me</h1><p>This is the about page.</p>"
  const ProjectsPage := "<h1>Projects</h1><p>This is the projects page.</p>"
  const ContactPage := "<h1>Contact</h1><p>This is the contact page.</p>"

  /** `Object.keys(files)`. */
  function Keys(table: seq<(string, string)>): (keys: seq<string>)
    ensures |keys| == |table|
    ensures forall k :: 0 <= k < |table| ==> keys[k] == table[k].0
    decreases |table|
  {
    if table == [] then [] else [table[0].0] + Keys(table[1..])
  }

  /** `files[path]`: the content stored under `path`, if any. */
  function Lookup(table: seq<(string, string)>, path: string): (found: Option<string>)
    decreases |table|
  {
    if table == [] then None
    else if table[0].0 == path then Some(table[0].1)
    else Lookup(table[1..], path)
  }

  /** `paths.filter(p => p.startsWith(cwd + '/')).map(p => p.split('/').pop())`:
      the last segment of every path below `cwd`, in order. */
  function Children(paths: seq<string>, cwd: string): (names: seq<string>)
    decreases |paths|
  {
    if paths == [] then []
    else
      (if StartsWith(paths[0], cwd + "/") then [LastSegment(paths[0])] else [])
        + Children(paths[1..], cwd)
  }

  /** What a JavaScript `Set` holds, in iteration order, after adding the
      elements of `s` one by one: each element at its first occurrence. */
  function KeepFirst(s: seq<string>): (r: seq<string>)
    decreases |s|
  {
    if s == [] then []
    else
      var init := s[..|s| - 1];
      var x := s[|s| - 1];
      if x in init then KeepFirst(init) else KeepFirst(init) + [x]
  }

  /** The names `ls` prints in `cwd`: children among the folders first,
      then among the file keys, each name once. */
  function Listing(cwd: string, table: seq<(string, string)>): (names: seq<string>) {
    KeepFirst(Children(Folders, cwd) + Children(Keys(table), cwd))
  }

  /** No element occurs twice. */
  predicate Distinct(s: seq<string>) {
    forall i, j :: 0 <= i < j < |s| ==> s[i] != s[j]
  }

  /** Builds the `ls` set the way the terminal does: folders first, then
      file keys, each name added to the set unless it is there already. */
  method ListContents(folders: seq<string>, keys: seq<string>, cwd: string)
    returns (names: seq<string>)
    ensures names == KeepFirst(Children(folders, cwd) + Children(keys, cwd))
  {
    names := AddChildren([], [], folders, cwd);
    assert [] + Children(folders, cwd) == Children(folders, cwd);
    names := AddChildren(names, Children(folders, cwd), keys, cwd);
  }

  /** One `forEach` of the listing: adds to the set `names`, built from
      the names `before`, the last segment of every path below `cwd`. */
  method AddChildren(names0: seq<string>, ghost before: seq<string>, paths: seq<string>, cwd: string)
    returns (names: seq<string>)
    requires names0 == KeepFirst(before)
    ensures names == KeepFirst(before + Children(paths, cwd))
  {
    names := names0;
    assert before + Children(paths[..0], cwd) == before;
    var i := 0;
    while i < |paths|
      invariant 0 <= i <= |paths|
      invariant names == KeepFirst(before + Children(paths[..i], cwd))
    {
      var path := paths[i];
      AddPathStep(before, paths, i, cwd, names);
      if StartsWith(path, cwd + "/") {
        var name := LastSegment(path);
        if name !in names {
          names := names + [name];
        }
      }
      i := i + 1;
    }
    assert paths[..i] == paths;
  }

  /** One step of the loop of `AddChildren`: the set built from the
      first `i` paths (after the names `before`) grows by the next path's
      last segment exactly when that path is below `cwd` and its name is
      new. */
  lemma AddPathStep(before: seq<string>, paths: seq<string>, i: nat, cwd: string, names: seq<string>)
    requires i < |paths|
    requires names == KeepFirst(before + Children(paths[..i], cwd))
    ensures KeepFirst(before + Children(paths[..i + 1], cwd)) ==
      if StartsWith(paths[i], cwd + "/") && LastSegment(paths[i]) !in names
      then names + [LastSegment(paths[i])]
      else names
  {
    ChildrenSnoc(paths, i, cwd);
    var prefix := before + Children(paths[..i], cwd);
    if StartsWith(paths[i], cwd + "/") {
      var name := LastSegment(paths[i]);
      assert before + Children(paths[..i + 1], cwd) == prefix + [name];
      KeepFirstStep(prefix, name, names);
    } else {
      assert before + Children(paths[..i + 1], cwd) == prefix;
    }
  }

  // ---------------------------------------------------------------------

  lemma {:induction false} ChildrenAppend(a: seq<string>, b: seq<string>, cwd: string)
    ensures Children(a + b, cwd) == Children(a, cwd) + Children(b, cwd)
    decreases |a|
  {
    if a == [] {
      assert a + b == b;
    } else {
      var ab := a + b;
      assert ab[0] == a[0] && ab[1..] == a[1..] + b;
      var head := if StartsWith(a[0], cwd + "/") then [LastSegment(a[0])] else [];
      assert Children(ab, cwd) == head + Children(ab[1..], cwd);
      assert Children(a, cwd) == head + Children(a[1..], cwd);
      ChildrenAppend(a[1..], b, cwd);
    }
  }

  lemma ChildrenSnoc(paths: seq<string>, i: nat, cwd: string)
    requires i < |paths|
    ensures Children(paths[..i + 1], cwd)
      == Children(paths[..i], cwd) + (if StartsWith(paths[i], cwd + "/") then [LastSegment(paths[i])] else [])
  {
    assert paths[..i + 1] == paths[..i] + [paths[i]];
    ChildrenAppend(paths[..i], [paths[i]], cwd);
  }

  lemma KeepFirstSnoc(s: seq<string>, x: string)
    ensures KeepFirst(s + [x]) == if x in s then KeepFirst(s) else KeepFirst(s) + [x]
  {
    assert (s + [x])[..|s|] == s;
  }

  /** Adding `x` to the set built from `s` appends it unless it is there. */
  lemma KeepFirstStep(s: seq<string>, x: string, names: seq<string>)
    requires names == KeepFirst(s)
    ensures KeepFirst(s + [x]) == if x in names then names else names + [x]
  {
    KeepFirstElements(s);
    KeepFirstSnoc(s, x);
  }

  /** The set holds exactly the elements added to it. */
  lemma {:induction false} KeepFirstElements(s: seq<string>)
    ensures forall x :: x in KeepFirst(s) <==> x in s
    decreases |s|
  {
    if s != [] {
      var init := s[..|s| - 1];
      KeepFirstElements(init);
      assert s == init + [s[|s| - 1]];
    }
  }

  /** The set holds every element once. */
  lemma {:induction false} KeepFirstDistinct(s: seq<string>)
    ensures Distinct(KeepFirst(s))
    decreases |s|
  {
    if s != [] {
      var init := s[..|s| - 1];
      KeepFirstDistinct(init);
      KeepFirstElements(init);
    }
  }

  /** Adding more elements never reorders or removes the earlier ones: the
      names from the first batch (the folders) come first. */
  lemma {:induction false} KeepFirstPrefix(a: seq<string>, b: seq<string>)
    ensures KeepFirst(a) <= KeepFirst(a + b)
    decreases |b|
  {
    if b == [] {
      assert a + b == a;
    } else {
      var b' := b[..|b| - 1];
      KeepFirstPrefix(a, b');
      assert a + b == (a + b') + [b[|b| - 1]];
      KeepFirstSnoc(a + b', b[|b| - 1]);
    }
  }

  /** A sequence without repetitions is kept as it is. */
  lemma {:induction false} KeepFirstOfDistinct(s: seq<string>)
    requires Distinct(s)
    ensures KeepFirst(s) == s
    decreases |s|
  {
    if s != [] {
      var init := s[..|s| - 1];
      KeepFirstOfDistinct(init);
      assert s[|s| - 1] !in init;
      assert s == init + [s[|s| - 1]];
    }
  }

  /** A name is among the children exactly when some path below `cwd` has
      it as last segment. */
  lemma {:induction false} ChildrenMembers(paths: seq<string>, cwd: string, name: string)
    ensures name in Children(paths, cwd) <==>
      exists k :: 0 <= k < |paths| && StartsWith(paths[k], cwd + "/") && LastSegment(paths[k]) == name
    decreases |paths|
  {
    if paths != [] {
      var rest := paths[1..];
      ChildrenMembers(rest, cwd, name);
      if exists k :: 0 <= k < |paths| && StartsWith(paths[k], cwd + "/") && LastSegment(paths[k]) == name {
        var k :| 0 <= k < |paths| && StartsWith(paths[k], cwd + "/") && LastSegment(paths[k]) == name;
        if k > 0 {
          assert rest[k - 1] == paths[k];
        }
      }
      if exists k :: 0 <= k < |rest| && StartsWith(rest[k], cwd + "/") && LastSegment(rest[k]) == name {
        var k :| 0 <= k < |rest| && StartsWith(rest[k], cwd + "/") && LastSegment(rest[k]) == name;
        assert paths[k + 1] == rest[k];
      }
    }
  }

  /** What `ls` prints: every name of a folder or file below `cwd`, and
      nothing else, each once, with the folders' names ahead of the
      files'. */
  lemma ListingContents(cwd: string, table: seq<(string, string)>, name: string)
    ensures Distinct(Listing(cwd, table))
    ensures KeepFirst(Children(Folders, cwd)) <= Listing(cwd, table)
    ensures name in Listing(cwd, table) <==>
      (exists k :: 0 <= k < |Folders| && StartsWith(Folders[k], cwd + "/") && LastSegment(Folders[k]) == name)
      || (exists k :: 0 <= k < |table| && StartsWith(table[k].0, cwd + "/") && LastSegment(table[k].0) == name)
  {
    var all := Children(Folders, cwd) + Children(Keys(table), cwd);
    KeepFirstDistinct(all);
    KeepFirstPrefix(Children(Folders, cwd), Children(Keys(table), cwd));
    KeepFirstElements(all);
    ChildrenMembers(Folders, cwd, name);
    ChildrenMembers(Keys(table), cwd, name);
  }

  /** The last segment of `p/seg`, for concrete paths. */
  lemma LastSegmentIs(full: string, p: string, seg: string)
    requires full == p + "/" + seg && '/' !in seg
    ensures LastSegment(full) == seg
  {
    SegmentsOfChild(p, seg);
  }

  lemma ChildrenCons(p: string, rest: seq<string>, cwd: string)
    ensures Children([p] + rest, cwd)
      == (if StartsWith(p, cwd + "/") then [LastSegment(p)] else []) + Children(rest, cwd)
  {
    assert ([p] + rest)[1..] == rest;
  }

  /** Children below `~` of the folder list shape: the root and three
      direct subfolders. */
  lemma {:induction false} ChildrenOfRootFolders(a: string, b: string, c: string)
    requires '/' !in a && '/' !in b && '/' !in c
    ensures Children(["~", "~/" + a, "~/" + b, "~/" + c], "~") == [a, b, c]
  {
    LastSegmentIs("~/" + a, "~", a);
    LastSegmentIs("~/" + b, "~", b);
    LastSegmentIs("~/" + c, "~", c);
    ChildrenCons("~/" + c, [], "~");
    ChildrenCons("~/" + b, ["~/" + c], "~");
    ChildrenCons("~/" + a, ["~/" + b, "~/" + c], "~");
    ChildrenCons("~", ["~/" + a, "~/" + b, "~/" + c], "~");
  }

  /** Children below `~` of the file key shape: one page in each of three
      subfolders and one file at the top. */
  lemma {:induction false} ChildrenOfRootFiles(a: string, b: string, c: string, page: string, top: string)
    requires '/' !in page && '/' !in top
    ensures Children(["~/" + a + "/" + page, "~/" + b + "/" + page, "~/" + c + "/" + page, "~/" + top], "~")
      == [page, page, page, top]
  {
    var ka, kb, kc, kt := "~/" + a + "/" + page, "~/" + b + "/" + page, "~/" + c + "/" + page, "~/" + top;
    LastSegmentIs(ka, "~/" + a, page);
    LastSegmentIs(kb, "~/" + b, page);
    LastSegmentIs(kc, "~/" + c, page);
    LastSegmentIs(kt, "~", top);
    assert "~/" <= ka && "~/" <= kb && "~/" <= kc && "~/" <= kt;
    ChildrenCons(kt, [], "~");
    ChildrenCons(kc, [kt], "~");
    ChildrenCons(kb, [kc, kt], "~");
    ChildrenCons(ka, [kb, kc, kt], "~");
  }

  /** Adding three distinct names, then a fourth name three times, then a
      fifth keeps each once, in order. */
  lemma KeepFirstOfRootShape(a: string, b: string, c: string, p: string, t: string)
    requires a != b && a != c && b != c && p != a && p != b && p != c
    requires t != a && t != b && t != c && t != p
    ensures KeepFirst([a, b, c] + [p, p, p, t]) == [a, b, c, p, t]
  {
    KeepFirstRepeated(a, b, c, p);
    var s := [a, b, c, p, p, p];
    assert [a, b, c] + [p, p, p, t] == s + [t];
    assert t !in s;
    KeepFirstSnoc(s, t);
  }

  lemma KeepFirstRepeated(a: string, b: string, c: string, p: string)
    requires a != b && a != c && b != c && p != a && p != b && p != c
    ensures KeepFirst([a, b, c, p, p, p]) == [a, b, c, p]
  {
    var s0 := [a, b, c, p];
    var s1 := s0 + [p];
    KeepFirstOfDistinct(s0);
    KeepFirstSnoc(s0, p);
    assert p in s1;
    KeepFirstSnoc(s1, p);
    assert s1 + [p] == [a, b, c, p, p, p];
  }

  /** The folder paths and the file keys, spelt as a parent, a slash and a
      name. */
  lemma FolderPaths()
    ensures Folders == ["~", "~/" + "about", "~/" + "projects", "~/" + "contact"]
  {
    assert "~/" + "about" == "~/about";
    assert "~/" + "projects" == "~/projects";
    assert "~/" + "contact" == "~/contact";
  }

  lemma FilePaths(resume: string)
    ensures Keys(FileTable(resume)) == ["~/" + "about" + "/" + "index.html", "~/" + "projects" + "/" + "index.html",
      "~/" + "contact" + "/" + "index.html", "~/" + "resume.md"]
  {
    var table := FileTable(resume);
    assert Keys(table) == [table[0].0, table[1].0, table[2].0, table[3].0];
    assert "~/" + "about" + "/" + "index.html" == "~/about/index.html";
    assert "~/" + "projects" + "/" + "index.html" == "~/projects/index.html";
    assert "~/" + "contact" + "/" + "index.html" == "~/contact/index.html";
    assert "~/" + "resume.md" == "~/resume.md";
  }

  /** `ls` in `~` lists the three subfolders, then `index.html` (the last
      segment of the three `index.html` keys, which all begin with `~/`),
      then `resume.md`. */
  lemma ListingOfRoot(resume: string)
    ensures Listing("~", FileTable(resume)) == ["about", "projects", "contact", "index.html", "resume.md"]
  {
    RootFolderNames();
    RootFileNames(resume);
    assert "about" != "projects" && "about" != "contact" && "projects" != "contact";
    assert "index.html" != "about" && "index.html" != "projects" && "index.html" != "contact";
    assert "resume.md" != "about" && "resume.md" != "projects" && "resume.md" != "contact";
    assert "resume.md" != "index.html";
    KeepFirstOfRootShape("about", "projects", "contact", "index.html", "resume.md");
  }

  lemma RootFolderNames()
    ensures Children(Folders, "~") == ["about", "projects", "contact"]
  {
    FolderPaths();
    ChildrenOfRootFolders("about", "projects", "contact");
  }

  lemma RootFileNames(resume: string)
    ensures Children(Keys(FileTable(resume)), "~") == ["index.html", "index.html", "index.html", "resume.md"]
  {
    FilePaths(resume);
    ChildrenOfRootFiles("about", "projects", "contact", "index.html", "resume.md");
  }

  /** A path is found in the table exactly when it is one of its keys, and
      then with the content stored under it. */
  lemma {:induction false} LookupFinds(table: seq<(string, string)>, path: string)
    ensures Lookup(table, path).Some? <==> path in Keys(table)
    ensures Lookup(table, path).Some? ==> (path, Lookup(table, path).value) in table
    decreases |table|
  {
    if table != [] {
      LookupFinds(table[1..], path);
    }
  }
}
