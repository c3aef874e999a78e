/** What extraction leaves in a workspace and what repacking reads back from it,
    stated as functions of the filesystem, and the round trip between the two. */
module Workspace {
  import opened Wrappers
  import opened Strings
  import opened Paths
  import opened Archive
  import opened FileSystem

  /** Where `unzip` puts an entry: `root/name`, as the filesystem resolves it. */
  function EntryPath(os: Os, root: string, name: string): string {
    Logical(os, root + "/" + name)
  }

  /** The files `unzip` writes below `root` (mod.ts:60-76): one per file entry, a
      later entry for the same location replacing an earlier one. */
  function Extracted(os: Os, es: seq<Entry>, root: string): map<string, Content> {
    if es == [] then map[]
    else
      var e := es[|es| - 1];
      var m := Extracted(os, es[..|es| - 1], root);
      if e.dir then m else m[EntryPath(os, root, e.name) := e.content]
  }

  /** Extracting one more entry of the same archive. */
  lemma ExtractedStep(os: Os, es: seq<Entry>, root: string, i: nat, files0: map<string, Content>)
    requires i < |es|
    ensures files0 + Extracted(os, es[..i + 1], root) ==
      if es[i].dir then files0 + Extracted(os, es[..i], root)
      else (files0 + Extracted(os, es[..i], root))[EntryPath(os, root, es[i].name) := es[i].content]
  {
    assert es[..i + 1][..i] == es[..i];
  }

  /** Every extracted location holds the content of the last file entry written to it. */
  lemma {:induction false} ExtractedSource(os: Os, es: seq<Entry>, root: string, k: string) returns (i: nat)
    requires k in Extracted(os, es, root)
    ensures i < |es| && !es[i].dir && k == EntryPath(os, root, es[i].name)
    ensures Extracted(os, es, root)[k] == es[i].content
  {
    var front := es[..|es| - 1];
    var e := es[|es| - 1];
    if !e.dir && k == EntryPath(os, root, e.name) {
      i := |es| - 1;
    } else {
      i := ExtractedSource(os, front, root, k);
      assert es[i] == front[i];
    }
  }

  /** Every extracted location lies below the workspace. */
  lemma ExtractedUnder(os: Os, es: seq<Entry>, root: string, k: string)
    requires Tidy(os, root) && |root| >= 1 && root[|root| - 1] != '/'
    requires k in Extracted(os, es, root)
    ensures Under(root, k)
  {
    var i := ExtractedSource(os, es, root, k);
    LogicalUnder(os, root, es[i].name);
  }

  /** A file entry that no later file entry overwrites is extracted with its own content. */
  lemma {:induction false} ExtractedLast(os: Os, es: seq<Entry>, root: string, j: nat)
    requires j < |es| && !es[j].dir
    requires forall i :: j < i < |es| && !es[i].dir ==> EntryPath(os, root, es[i].name) != EntryPath(os, root, es[j].name)
    ensures EntryPath(os, root, es[j].name) in Extracted(os, es, root)
    ensures Extracted(os, es, root)[EntryPath(os, root, es[j].name)] == es[j].content
  {
    var n := |es| - 1;
    if j < n {
      var front := es[..n];
      assert front[j] == es[j];
      assert forall i :: j < i < |front| ==> front[i] == es[i];
      ExtractedLast(os, front, root, j);
    }
  }

  /** A directory entry's name without the `/` jszip ends it with. */
  function DirPart(n: string): string {
    if |n| >= 1 && n[|n| - 1] == '/' then n[..|n| - 1] else n
  }

  /** The name an entry is judged by: a file's own name, a directory's without its trailing `/`. */
  function BareName(e: Entry): string {
    if e.dir then DirPart(e.name) else e.name
  }

  /** Every entry name passes the check of the corrected `unzip`. */
  predicate SafeNames(os: Os, es: seq<Entry>) {
    forall i :: 0 <= i < |es| ==> SafeName(os, es[i].name)
  }

  /** One more accepted entry extends an accepted prefix. */
  lemma SafeNamesStep(os: Os, es: seq<Entry>, i: nat)
    requires i < |es| && SafeNames(os, es[..i]) && SafeName(os, es[i].name)
    ensures SafeNames(os, es[..i + 1])
  {
    assert forall j :: 0 <= j < i ==> es[..i + 1][j] == es[..i][j];
  }

  /** A valid entry name passes the check of the corrected `unzip`. */
  lemma ValidSafe(os: Os, e: Entry)
    requires ValidName(BareName(e))
    ensures SafeName(os, e.name)
  {
    var b := BareName(e);
    if e.name != b {
      NoDotJoin(b, "");
      assert e.name == b + "/" + "";
    }
    assert '\\' !in e.name;
    ReplaceCharAbsent(e.name, '\\', '/');
  }

  /** File entry names that no two file entries share. */
  predicate DistinctNames(es: seq<Entry>) {
    forall i, j :: 0 <= i < j < |es| && !es[i].dir && !es[j].dir ==> es[i].name != es[j].name
  }

  /** Every entry name is valid, a directory's once its trailing `/` is dropped. */
  predicate ValidNames(es: seq<Entry>) {
    forall i :: 0 <= i < |es| ==> ValidName(BareName(es[i]))
  }

  lemma EntryPathInjective(root: string, a: string, b: string)
    requires a != b
    ensures root + "/" + a != root + "/" + b
  {
    assert (root + "/" + a)[|root| + 1..] == a;
    assert (root + "/" + b)[|root| + 1..] == b;
  }

  /** Distinct valid names extract to distinct locations. */
  lemma DistinctPaths(os: Os, root: string, a: string, b: string)
    requires RootForm(os, root) && ValidName(a) && ValidName(b) && a != b
    ensures EntryPath(os, root, a) != EntryPath(os, root, b)
  {
    EntryPathTidy(os, root, a);
    EntryPathTidy(os, root, b);
    EntryPathInjective(root, a, b);
  }

  /** With distinct valid names, every file entry is extracted at `root/name` with its own content. */
  lemma ExtractedHas(os: Os, es: seq<Entry>, root: string, j: nat)
    requires RootForm(os, root) && ValidNames(es) && DistinctNames(es)
    requires j < |es| && !es[j].dir
    ensures root + "/" + es[j].name in Extracted(os, es, root)
    ensures Extracted(os, es, root)[root + "/" + es[j].name] == es[j].content
  {
    forall i | j < i < |es| && !es[i].dir
      ensures EntryPath(os, root, es[i].name) != EntryPath(os, root, es[j].name)
    {
      DistinctPaths(os, root, es[i].name, es[j].name);
    }
    ExtractedLast(os, es, root, j);
    EntryPathTidy(os, root, es[j].name);
  }

  /** Every extracted file nests less deeply than the archive it came from. */
  lemma ExtractedHeight(os: Os, es: seq<Entry>, root: string, o: GenerateOptions)
    ensures forall k :: k in Extracted(os, es, root) ==> Height(Extracted(os, es, root)[k]) < Height(Jar(es, o))
  {
    var m := Extracted(os, es, root);
    forall k | k in m ensures Height(m[k]) < Height(Jar(es, o)) {
      var i := ExtractedSource(os, es, root, k);
      EntryHeight(Jar(es, o), es[i]);
    }
  }

  /** The directory `unzip` makes for an entry, ancestors included: the
      entry's own location for a directory (mod.ts:71), the split/pop/join
      parent for a file (mod.ts:73). */
  function MadeDir(os: Os, root: string, e: Entry): string {
    if e.dir then EntryPath(os, root, e.name) else Logical(os, root + "/" + ParentName(e.name))
  }

  /** The directories `unzip` makes below and above `root` (mod.ts:60-76). */
  function MadeDirs(os: Os, es: seq<Entry>, root: string): set<string> {
    if es == [] then {}
    else
      var d := MadeDir(os, root, es[|es| - 1]);
      MadeDirs(os, es[..|es| - 1], root) + Ancestors(d) + {d}
  }

  /** Extracting one more entry of the same archive makes its directory and the ancestors. */
  lemma MadeDirsStep(os: Os, es: seq<Entry>, root: string, i: nat)
    requires i < |es|
    ensures var d := MadeDir(os, root, es[i]);
      MadeDirs(os, es[..i + 1], root) == MadeDirs(os, es[..i], root) + Ancestors(d) + {d}
  {
    assert es[..i + 1][..i] == es[..i];
  }

  /** Every made directory comes from some entry. */
  lemma {:induction false} MadeDirsSource(os: Os, es: seq<Entry>, root: string, a: string) returns (j: nat)
    requires a in MadeDirs(os, es, root)
    ensures j < |es| && a in Ancestors(MadeDir(os, root, es[j])) + {MadeDir(os, root, es[j])}
  {
    var d := MadeDir(os, root, es[|es| - 1]);
    if a in Ancestors(d) + {d} {
      j := |es| - 1;
    } else {
      j := MadeDirsSource(os, es[..|es| - 1], root, a);
      assert es[j] == es[..|es| - 1][j];
    }
  }

  /** Every entry's directory and its ancestors are made. */
  lemma {:induction false} MadeDirsHas(os: Os, es: seq<Entry>, root: string, j: nat, a: string)
    requires j < |es| && a in Ancestors(MadeDir(os, root, es[j])) + {MadeDir(os, root, es[j])}
    ensures a in MadeDirs(os, es, root)
  {
    if j < |es| - 1 {
      assert es[j] == es[..|es| - 1][j];
      MadeDirsHas(os, es[..|es| - 1], root, j, a);
    }
  }

  /** `m` names a directory that extracting `e` makes below the workspace: a
      `/`-terminated prefix of the entry's name, or a directory entry's own name. */
  predicate Marks(e: Entry, m: string) {
    StartsWith(e.name, m + "/") || (e.dir && m == DirPart(e.name))
  }

  /** For a valid entry, the directory made is the workspace itself or the
      workspace joined with a valid prefix of the entry's name: a directory
      entry's own name, or a file entry's name up to its last `/`. */
  lemma MadeDirJoined(os: Os, root: string, e: Entry) returns (v: string)
    requires RootForm(os, root) && ValidName(BareName(e))
    ensures MadeDir(os, root, e) == root || (MadeDir(os, root, e) == root + "/" + v && ValidName(v))
    ensures e.dir ==> v == DirPart(e.name) && MadeDir(os, root, e) == root + "/" + v
    ensures !e.dir && MadeDir(os, root, e) != root ==>
      StartsWith(e.name, v + "/") && forall j :: |v| < j < |e.name| ==> e.name[j] != '/'
    ensures !e.dir && MadeDir(os, root, e) == root ==> '/' !in e.name
  {
    if e.dir {
      v := DirMade(os, root, e);
    } else {
      v := FileParentMade(os, root, e);
    }
  }

  lemma DirMade(os: Os, root: string, e: Entry) returns (v: string)
    requires RootForm(os, root) && e.dir && ValidName(DirPart(e.name))
    ensures v == DirPart(e.name) && ValidName(v) && MadeDir(os, root, e) == root + "/" + v
  {
    var n := e.name;
    v := DirPart(n);
    if |n| >= 1 && n[|n| - 1] == '/' {
      JoinedRootForm(os, root, v);
      RootSlash(os, root + "/" + v);
      assert root + "/" + n == (root + "/" + v) + "/";
    } else {
      EntryPathTidy(os, root, n);
    }
  }

  lemma FileParentMade(os: Os, root: string, e: Entry) returns (v: string)
    requires RootForm(os, root) && !e.dir && ValidName(e.name)
    ensures MadeDir(os, root, e) == root || (MadeDir(os, root, e) == root + "/" + v && ValidName(v))
    ensures MadeDir(os, root, e) != root ==>
      StartsWith(e.name, v + "/") && forall j :: |v| < j < |e.name| ==> e.name[j] != '/'
    ensures MadeDir(os, root, e) == root ==> '/' !in e.name
  {
    var n := e.name;
    ParentNameIsPrefix(n);
    var l := LastIndexOf(n, '/');
    LastIndexOfLast(n, '/');
    assert MadeDir(os, root, e) == Logical(os, root + "/" + ParentName(n));
    if l >= 0 {
      v := n[..l];
      NestedParent(os, root, n, l);
    } else {
      v := "";
      RootSlash(os, root);
      assert root + "/" + ParentName(n) == root + "/";
    }
  }

  /** A name with a `/` at `l`: what comes before it is a valid name, whose
      joined path is already tidy and lies strictly below `root`. */
  lemma NestedParent(os: Os, root: string, n: string, l: nat)
    requires RootForm(os, root) && ValidName(n) && l < |n| && n[l] == '/'
    ensures ValidName(n[..l]) && StartsWith(n, n[..l] + "/")
    ensures Logical(os, root + "/" + n[..l]) == root + "/" + n[..l] != root
  {
    ValidPrefix(n, l);
    EntryPrefixTidy(os, root, n, l);
    assert n[..l + 1] == n[..l] + "/";
    assert |root + "/" + n[..l]| > |root|;
  }

  /** The ancestors of `root/v` below `root` are `root/` joined with the prefixes of `v` that end before a `/`. */
  lemma AncestorsOfJoined(root: string, v: string, a: string) returns (i: nat)
    requires |root| >= 1 && ValidName(v)
    requires a in Ancestors(root + "/" + v) && Under(root, a) && a != root
    ensures 0 < i < |v| && v[i] == '/' && a == root + "/" + v[..i]
  {
    var k := root + "/" + v;
    var j :| 0 < j < |k| && k[j] == '/' && k[j - 1] != '/' && a == k[..j];
    assert |a| > |root|;
    i := j - |root| - 1;
    assert k[j] == v[i];
    assert k[..j] == root + "/" + v[..i];
  }

  /** Every prefix of a valid `v` that ends before a `/` gives an ancestor of `root/v`. */
  lemma JoinedPrefixAncestor(root: string, v: string, i: nat)
    requires ValidName(v) && 0 < i < |v| && v[i] == '/'
    ensures root + "/" + v[..i] in Ancestors(root + "/" + v)
  {
    var k := root + "/" + v;
    var j := |root| + 1 + i;
    assert k[j] == v[i] && k[j - 1] == v[i - 1];
    assert k[..j] == root + "/" + v[..i];
  }

  /** A directory below the workspace made for a valid entry is named by what the entry marks. */
  lemma MadeBy(os: Os, root: string, e: Entry, a: string) returns (m: string)
    requires RootForm(os, root) && ValidName(BareName(e))
    requires a in Ancestors(MadeDir(os, root, e)) + {MadeDir(os, root, e)}
    requires Under(root, a) && a != root
    ensures a == root + "/" + m && ValidName(m) && Marks(e, m)
  {
    var v := MadeDirJoined(os, root, e);
    var d := MadeDir(os, root, e);
    if d == root {
      assert false;
    }
    if a == d {
      m := v;
    } else {
      var i := AncestorsOfJoined(root, v, a);
      m := v[..i];
      PrefixMarks(e, v, i);
    }
  }

  /** A prefix of the made name `v` that ends before a `/` is valid and marked by the entry. */
  lemma PrefixMarks(e: Entry, v: string, i: nat)
    requires ValidName(v) && 0 < i < |v| && v[i] == '/'
    requires e.dir ==> v == DirPart(e.name)
    requires !e.dir ==> StartsWith(e.name, v + "/")
    ensures ValidName(v[..i]) && Marks(e, v[..i])
  {
    ValidPrefix(v, i);
    assert v[..i] + "/" == v[..i + 1];
    if e.dir && |e.name| >= 1 && e.name[|e.name| - 1] == '/' {
      assert e.name[..i + 1] == v[..i + 1];
    } else if !e.dir {
      assert e.name[..i + 1] == v[..i + 1];
    }
  }

  /** What a valid entry marks is made, and is a valid name. */
  lemma MakesMarks(os: Os, root: string, e: Entry, m: string)
    requires RootForm(os, root) && ValidName(BareName(e)) && Marks(e, m)
    ensures root + "/" + m in Ancestors(MadeDir(os, root, e)) + {MadeDir(os, root, e)}
    ensures ValidName(m)
  {
    var v := MadeDirJoined(os, root, e);
    if e.dir && m == DirPart(e.name) {
    } else if e.dir {
      DirMarks(os, root, e, v, m);
    } else {
      FileMarks(root, e.name, MadeDir(os, root, e), v, m);
    }
  }

  lemma DirMarks(os: Os, root: string, e: Entry, v: string, m: string)
    requires RootForm(os, root) && e.dir && ValidName(v) && v == DirPart(e.name)
    requires MadeDir(os, root, e) == root + "/" + v
    requires StartsWith(e.name, m + "/") && m != v
    ensures root + "/" + m in Ancestors(MadeDir(os, root, e))
    ensures ValidName(m)
  {
    var n := e.name;
    var i := |m|;
    assert n[..i + 1] == m + "/";
    assert n[i] == '/';
    assert n[0] == v[0];
    assert i < |v|;
    assert v[i] == n[i];
    assert v[..i] == m;
    JoinedPrefixAncestor(root, v, i);
    ValidPrefix(v, i);
  }

  lemma FileMarks(root: string, n: string, md: string, v: string, m: string)
    requires md == root || (md == root + "/" + v && ValidName(v))
    requires md != root ==> StartsWith(n, v + "/") && forall j :: |v| < j < |n| ==> n[j] != '/'
    requires md == root ==> '/' !in n
    requires StartsWith(n, m + "/")
    ensures root + "/" + m in Ancestors(md) + {md}
    ensures ValidName(m)
  {
    var i := |m|;
    assert n[..i + 1] == m + "/";
    assert n[i] == '/';
    assert md != root;
    assert n[..|v| + 1] == v + "/";
    assert m == n[..i] && v == n[..|v|];
    if i == |v| {
      assert m == v;
    } else {
      assert i < |v|;
      assert v[..i] == n[..i];
      JoinedPrefixAncestor(root, v, i);
      ValidPrefix(v, i);
    }
  }

  /** Every walked location, with back-slashes read as `/`, starts with the root. */
  lemma WalkedStartsWithRoot(os: Os, root: string, k: string)
    requires RootForm(os, root) && Under(root, k)
    ensures StartsWith(ReplaceChar(Native(os, k), '\\', '/'), root)
  {
    NormalisedNative(os, k);
    assert k == root + k[|root|..];
    ReplaceCharConcat(root, k[|root|..], '\\', '/');
    ReplaceCharAbsent(root, '\\', '/');
  }

  /** What `rezip` adds for one walked location (mod.ts:83-104): a directory
      marker for every directory but the root, the current bytes for a file read
      through the long-path shim, or the error the read throws. */
  function RepackOne(os: Os, files: map<string, Content>, dirs: set<string>, root: string, k: string): Result<Option<Entry>, FsError>
    requires RootForm(os, root) && Under(root, k)
  {
    WalkedStartsWithRoot(os, root, k);
    var filePath := ReplaceChar(Native(os, k), '\\', '/');
    if k in dirs then
      if filePath != root then Ok(Some(Entry(RelativeName(filePath, root), true, Blob([])))) else Ok(None)
    else
      var q := Logical(os, LongPathShim(os, filePath));
      if q in files then Ok(Some(Entry(RelativeName(filePath, root), false, files[q])))
      else Err(if q in dirs then IsADirectory(q) else NotFound(q))
  }

  /** The entries `rezip` collects from the walked locations `keys`. */
  function Repacked(os: Os, files: map<string, Content>, dirs: set<string>, root: string, keys: set<string>): set<Entry>
    requires RootForm(os, root)
  {
    set k | k in keys && Under(root, k) && RepackOne(os, files, dirs, root, k).Ok? && RepackOne(os, files, dirs, root, k).value.Some?
      :: RepackOne(os, files, dirs, root, k).value.value
  }

  /** The entries `rezip` collects from a whole workspace, in no particular order. */
  function RepackSet(os: Os, files: map<string, Content>, dirs: set<string>, root: string): set<Entry>
    requires RootForm(os, root)
  {
    Repacked(os, files, dirs, root, Subtree(files, dirs, root))
  }

  /** Walking one more location adds its entry, if it has one. */
  lemma RepackedAdd(os: Os, files: map<string, Content>, dirs: set<string>, root: string, keys: set<string>, k: string)
    requires RootForm(os, root) && Under(root, k)
    requires RepackOne(os, files, dirs, root, k).Ok?
    ensures var x := RepackOne(os, files, dirs, root, k).value;
      Repacked(os, files, dirs, root, keys + {k}) ==
        Repacked(os, files, dirs, root, keys) + (if x.Some? then {x.value} else {})
  {
  }

  /** A walked location that repacks to an entry contributes that entry. */
  lemma RepackedHas(os: Os, files: map<string, Content>, dirs: set<string>, root: string, keys: set<string>, k: string)
    requires RootForm(os, root) && k in keys && Under(root, k)
    requires RepackOne(os, files, dirs, root, k).Ok? && RepackOne(os, files, dirs, root, k).value.Some?
    ensures RepackOne(os, files, dirs, root, k).value.value in Repacked(os, files, dirs, root, keys)
  {
  }

  /** `rezip` gets through the whole workspace: the root is a directory and no
      read below it fails. */
  predicate Repackable(os: Os, files: map<string, Content>, dirs: set<string>, root: string)
    requires RootForm(os, root)
  {
    root in dirs && forall k :: k in Subtree(files, dirs, root) ==> RepackOne(os, files, dirs, root, k).Ok?
  }

  /** Repack never records the workspace root itself (mod.ts:86-88), and records
      every other directory below it as a marker named by its relative path. */
  lemma RepackSkipsRoot(os: Os, files: map<string, Content>, dirs: set<string>, root: string, k: string)
    requires RootForm(os, root) && Under(root, k) && k in dirs
    ensures RepackOne(os, files, dirs, root, k).Ok?
    ensures RepackOne(os, files, dirs, root, k).value.None? <==> k == root
    ensures k != root ==> RepackOne(os, files, dirs, root, k).value.value.dir
  {
    WalkedStartsWithRoot(os, root, k);
    NormalisedNative(os, k);
  }

  /** Read through the shim, a valid entry's location is found where it was written. */
  lemma ReadBackPath(os: Os, root: string, name: string)
    requires RootForm(os, root) && ValidName(name)
    ensures var k := root + "/" + name;
      && Under(root, k)
      && ReplaceChar(Native(os, k), '\\', '/') == k
      && Logical(os, LongPathShim(os, k)) == k
      && RelativeName(k, root) == name
  {
    var k := root + "/" + name;
    assert k[..|root| + 1] == root + "/";
    JoinedPlain(root, name);
    WalkedSpelling(os, k);
    ShimmedEntry(os, root, name);
  }

  lemma WalkedSpelling(os: Os, k: string)
    requires '\\' !in k
    ensures ReplaceChar(Native(os, k), '\\', '/') == k
  {
    NormalisedNative(os, k);
    ReplaceCharAbsent(k, '\\', '/');
  }

  lemma ShimmedEntry(os: Os, root: string, name: string)
    requires RootForm(os, root) && ValidName(name)
    ensures Logical(os, LongPathShim(os, root + "/" + name)) == root + "/" + name
  {
    var k := root + "/" + name;
    EntryPathTidy(os, root, name);
    assert k[0] == root[0] != '\\';
    assert !StartsWith(k, LongPathPrefix);
    LogicalOfShim(os, k);
  }

  /** A file extracted from a valid entry name is read back under that same name. */
  lemma RepackExtractedFile(os: Os, files: map<string, Content>, dirs: set<string>, root: string, name: string)
    requires RootForm(os, root) && ValidName(name)
    requires root + "/" + name in files && root + "/" + name !in dirs
    ensures Under(root, root + "/" + name)
    ensures RepackOne(os, files, dirs, root, root + "/" + name) == Ok(Some(Entry(name, false, files[root + "/" + name])))
  {
    ReadBackPath(os, root, name);
  }

  /** Every location below `root` in a workspace freshly filled by extraction is
      read back without error: a directory as a marker, a file as the entry that
      wrote it. */
  lemma RepackExtracted(os: Os, es: seq<Entry>, root: string, files0: map<string, Content>, dirs: set<string>, k: string)
    requires RootForm(os, root) && ValidNames(es) && DistinctNames(es)
    requires forall f :: f in files0 ==> !Under(root, f)
    requires (files0 + Extracted(os, es, root)).Keys !! dirs
    requires k in Subtree(files0 + Extracted(os, es, root), dirs, root)
    ensures var x := RepackOne(os, files0 + Extracted(os, es, root), dirs, root, k);
      && x.Ok?
      && (x.value.Some? && !x.value.value.dir ==> x.value.value in es)
      && (x.value.Some? && x.value.value.dir ==> x.value.value.content == Blob([]))
  {
    var files := files0 + Extracted(os, es, root);
    if k !in dirs {
      assert k in Extracted(os, es, root);
      var i := ExtractedSource(os, es, root, k);
      EntryPathTidy(os, root, es[i].name);
      RepackExtractedFile(os, files, dirs, root, es[i].name);
    }
  }

  /** A made directory below the workspace, named by a valid name, is repacked as its marker. */
  lemma RepackMarker(os: Os, files: map<string, Content>, dirs: set<string>, root: string, m: string)
    requires RootForm(os, root) && ValidName(m) && root + "/" + m in dirs
    ensures Under(root, root + "/" + m)
    ensures RepackOne(os, files, dirs, root, root + "/" + m) == Ok(Some(Entry(m, true, Blob([]))))
  {
    ReadBackPath(os, root, m);
    assert root + "/" + m != root;
  }

  /** The files half of the round trip. */
  lemma RoundTripFiles(os: Os, es: seq<Entry>, root: string, files0: map<string, Content>, dirs: set<string>)
    requires RootForm(os, root) && ValidNames(es) && DistinctNames(es)
    requires forall f :: f in files0 ==> !Under(root, f)
    requires (files0 + Extracted(os, es, root)).Keys !! dirs
    ensures var files := files0 + Extracted(os, es, root);
      && (forall k :: k in Subtree(files, dirs, root) ==> RepackOne(os, files, dirs, root, k).Ok?)
      && (forall e :: e in es && !e.dir ==> e in RepackSet(os, files, dirs, root))
      && (forall x :: x in RepackSet(os, files, dirs, root) && !x.dir ==> x in es)
      && (forall x :: x in RepackSet(os, files, dirs, root) && x.dir ==> x.content == Blob([]))
  {
    var files := files0 + Extracted(os, es, root);
    forall k | k in Subtree(files, dirs, root) ensures RepackOne(os, files, dirs, root, k).Ok? {
      RepackExtracted(os, es, root, files0, dirs, k);
    }
    forall e | e in es && !e.dir ensures e in RepackSet(os, files, dirs, root) {
      var j :| 0 <= j < |es| && es[j] == e;
      ExtractedHas(os, es, root, j);
      var k := root + "/" + e.name;
      RepackExtractedFile(os, files, dirs, root, e.name);
      assert k in Subtree(files, dirs, root);
    }
    forall x | x in RepackSet(os, files, dirs, root)
      ensures (!x.dir ==> x in es) && (x.dir ==> x.content == Blob([]))
    {
      var k :| k in Subtree(files, dirs, root) && RepackOne(os, files, dirs, root, k).Ok?
        && RepackOne(os, files, dirs, root, k).value.Some? && RepackOne(os, files, dirs, root, k).value.value == x;
      RepackExtracted(os, es, root, files0, dirs, k);
    }
  }

  /** The directories half of the round trip: the markers are exactly what the entries mark. */
  lemma RoundTripDirs(os: Os, es: seq<Entry>, root: string, files: map<string, Content>, dirs0: set<string>)
    requires RootForm(os, root) && ValidNames(es)
    requires forall d :: d in dirs0 ==> !Under(root, d)
    ensures var dirs := dirs0 + MadeDirs(os, es, root);
      && (|es| > 0 ==> root in dirs)
      && (forall x :: x in RepackSet(os, files, dirs, root) && x.dir ==> exists e :: e in es && Marks(e, x.name))
      && (forall e, m :: e in es && Marks(e, m) ==> Entry(m, true, Blob([])) in RepackSet(os, files, dirs, root))
  {
    if |es| > 0 {
      MadeRoot(os, es, root);
    }
    MarkersSound(os, es, root, files, dirs0 + MadeDirs(os, es, root));
    MarkersComplete(os, es, root, files, dirs0 + MadeDirs(os, es, root));
  }

  /** Extracting any entry makes the workspace. */
  lemma MadeRoot(os: Os, es: seq<Entry>, root: string)
    requires RootForm(os, root) && ValidNames(es) && |es| > 0
    ensures root in MadeDirs(os, es, root)
  {
    var e := es[|es| - 1];
    var v := MadeDirJoined(os, root, e);
    UnderAncestor(root, MadeDir(os, root, e));
    MadeDirsHas(os, es, root, |es| - 1, root);
  }

  /** Every marker is something an entry marks. */
  lemma MarkersSound(os: Os, es: seq<Entry>, root: string, files: map<string, Content>, dirs: set<string>)
    requires RootForm(os, root) && ValidNames(es)
    requires forall d :: d in dirs && Under(root, d) ==> d in MadeDirs(os, es, root)
    ensures forall x :: x in RepackSet(os, files, dirs, root) && x.dir ==> exists e :: e in es && Marks(e, x.name)
  {
    forall x | x in RepackSet(os, files, dirs, root) && x.dir
      ensures exists e :: e in es && Marks(e, x.name)
    {
      var k :| k in Subtree(files, dirs, root) && RepackOne(os, files, dirs, root, k).Ok?
        && RepackOne(os, files, dirs, root, k).value.Some? && RepackOne(os, files, dirs, root, k).value.value == x;
      MarkerSource(os, es, root, files, dirs, k);
    }
  }

  lemma MarkerSource(os: Os, es: seq<Entry>, root: string, files: map<string, Content>, dirs: set<string>, k: string)
    requires RootForm(os, root) && ValidNames(es)
    requires forall d :: d in dirs && Under(root, d) ==> d in MadeDirs(os, es, root)
    requires Under(root, k) && RepackOne(os, files, dirs, root, k).Ok? && RepackOne(os, files, dirs, root, k).value.Some?
    requires RepackOne(os, files, dirs, root, k).value.value.dir
    ensures exists e :: e in es && Marks(e, RepackOne(os, files, dirs, root, k).value.value.name)
  {
    assert k in dirs;
    RepackSkipsRoot(os, files, dirs, root, k);
    var j := MadeDirsSource(os, es, root, k);
    var m := MadeBy(os, root, es[j], k);
    RepackMarker(os, files, dirs, root, m);
    assert es[j] in es;
  }

  /** Everything an entry marks is a marker. */
  lemma MarkersComplete(os: Os, es: seq<Entry>, root: string, files: map<string, Content>, dirs: set<string>)
    requires RootForm(os, root) && ValidNames(es)
    requires MadeDirs(os, es, root) <= dirs
    ensures forall e, m :: e in es && Marks(e, m) ==> Entry(m, true, Blob([])) in RepackSet(os, files, dirs, root)
  {
    forall e, m | e in es && Marks(e, m) ensures Entry(m, true, Blob([])) in RepackSet(os, files, dirs, root) {
      var j :| 0 <= j < |es| && es[j] == e;
      MarkerMade(os, es, root, files, dirs, j, m);
    }
  }

  lemma MarkerMade(os: Os, es: seq<Entry>, root: string, files: map<string, Content>, dirs: set<string>, j: nat, m: string)
    requires RootForm(os, root) && ValidNames(es)
    requires MadeDirs(os, es, root) <= dirs
    requires j < |es| && Marks(es[j], m)
    ensures Entry(m, true, Blob([])) in RepackSet(os, files, dirs, root)
  {
    var k := root + "/" + m;
    MakesMarks(os, root, es[j], m);
    MadeDirsHas(os, es, root, j, k);
    RepackMarker(os, files, dirs, root, m);
    RepackedHas(os, files, dirs, root, Subtree(files, dirs, root), k);
  }


  /** The round trip of mod.ts:58-107: extracting an archive with distinct
      valid entry names into a workspace holding nothing, then repacking it,
      reads every location back, yields every file entry of the archive with
      its own name and content, and yields as directory markers exactly the
      names the entries mark: every directory entry, and every prefix of an
      entry name that ends before a `/`. */
  lemma RoundTrip(os: Os, es: seq<Entry>, root: string, files0: map<string, Content>, dirs0: set<string>)
    requires RootForm(os, root) && ValidNames(es) && DistinctNames(es)
    requires forall f :: f in files0 ==> !Under(root, f)
    requires forall d :: d in dirs0 ==> !Under(root, d)
    requires (files0 + Extracted(os, es, root)).Keys !! dirs0 + MadeDirs(os, es, root)
    ensures var files := files0 + Extracted(os, es, root);
      var dirs := dirs0 + MadeDirs(os, es, root);
      && (|es| > 0 ==> Repackable(os, files, dirs, root))
      && (forall k :: k in Subtree(files, dirs, root) ==> RepackOne(os, files, dirs, root, k).Ok?)
      && (forall e :: e in es && !e.dir ==> e in RepackSet(os, files, dirs, root))
      && (forall x :: x in RepackSet(os, files, dirs, root) && !x.dir ==> x in es)
      && (forall x :: x in RepackSet(os, files, dirs, root) && x.dir ==> x.content == Blob([]))
      && (forall x :: x in RepackSet(os, files, dirs, root) && x.dir ==> exists e :: e in es && Marks(e, x.name))
      && (forall e, m :: e in es && Marks(e, m) ==> Entry(m, true, Blob([])) in RepackSet(os, files, dirs, root))
  {
    var files := files0 + Extracted(os, es, root);
    RoundTripFiles(os, es, root, files0, dirs0 + MadeDirs(os, es, root));
    RoundTripDirs(os, es, root, files, dirs0);
  }
}
