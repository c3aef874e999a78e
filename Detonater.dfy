/** The recompressor of mod.ts: `compressJar` with its digest-keyed workspace
    cache, `unzip`, `rezip`, `searchMod` with its suffix dispatch, and the two
    per-file treatments `normalizeJson` and `optimizePng`. */
module Recompression {
  import opened Wrappers
  import opened Strings
  import opened Paths
  import opened Archive
  import opened FileSystem
  import opened Scratch
  import opened Workspace

  /** The suffixes `searchMod` dispatches on (mod.ts:111-120). */
  predicate IsJson(k: string) { EndsWith(k, ".json") || EndsWith(k, ".mcmeta") }
  predicate IsPng(k: string) { EndsWith(k, ".png") }
  predicate IsJar(k: string) { EndsWith(k, ".jar") }

  /** The suffix of a walked path is the suffix of the location it names, since
      no suffix holds a separator. */
  lemma NativeSuffixes(os: Os, k: string)
    ensures EndsWith(Native(os, k), ".json") <==> EndsWith(k, ".json")
    ensures EndsWith(Native(os, k), ".mcmeta") <==> EndsWith(k, ".mcmeta")
    ensures EndsWith(Native(os, k), ".png") <==> EndsWith(k, ".png")
    ensures EndsWith(Native(os, k), ".jar") <==> EndsWith(k, ".jar")
  {
    if os == Windows {
      ReplaceCharEndsWith(k, ".json", '/', '\\');
      ReplaceCharEndsWith(k, ".mcmeta", '/', '\\');
      ReplaceCharEndsWith(k, ".png", '/', '\\');
      ReplaceCharEndsWith(k, ".jar", '/', '\\');
    }
  }

  /** `file.name`, the last component of a walked path, ends in the suffixes
      of the location it names. */
  lemma NameSuffixes(os: Os, k: string)
    ensures EndsWith(BaseName(os, Native(os, k)), ".json") <==> EndsWith(k, ".json")
    ensures EndsWith(BaseName(os, Native(os, k)), ".mcmeta") <==> EndsWith(k, ".mcmeta")
    ensures EndsWith(BaseName(os, Native(os, k)), ".png") <==> EndsWith(k, ".png")
    ensures EndsWith(BaseName(os, Native(os, k)), ".jar") <==> EndsWith(k, ".jar")
  {
    NativeSuffixes(os, k);
    var p := Native(os, k);
    BaseNameSuffix(os, p, ".json");
    BaseNameSuffix(os, p, ".mcmeta");
    BaseNameSuffix(os, p, ".png");
    BaseNameSuffix(os, p, ".jar");
  }

  /** The ancestors of a location in a workspace are the scratch directory,
      its ancestors, or locations in that workspace. */
  lemma AncestorsBelow(os: Os, t: string, d: Digest, k: string)
    requires ScratchRoot(os, t) && Under(WorkspacePath(t, d), k)
    ensures forall a :: a in Ancestors(k) ==> a in Ancestors(t) || a == t || Under(WorkspacePath(t, d), a)
  {
    var w := WorkspacePath(t, d);
    DigestPlain(d);
    assert k[..|w|] == w;
    forall a | a in Ancestors(k) ensures a in Ancestors(t) || a == t || Under(w, a) {
      var i :| 0 < i < |k| && k[i] == '/' && k[i - 1] != '/' && a == k[..i];
      if i < |t| {
        assert t[i] == k[i] && t[i - 1] == k[i - 1] && a == t[..i];
      } else if i == |t| {
        assert a == t;
      } else if i > |w| {
        assert a[..|w| + 1] == k[..|w| + 1] == w + "/";
      }
    }
  }

  /** Once the scratch directory and its ancestors exist, making a location
      in a workspace together with its ancestors makes new directories only
      in that workspace. */
  lemma NewDirsBelow(os: Os, t: string, d: Digest, k: string, dirs: set<string>)
    requires ScratchRoot(os, t) && Under(WorkspacePath(t, d), k)
    requires t in dirs && forall a :: a in Ancestors(t) ==> a in dirs
    ensures forall a :: a in Ancestors(k) + {k} && a !in dirs ==> Under(WorkspacePath(t, d), a)
  {
    AncestorsBelow(os, t, d, k);
  }

  /** The directory one entry makes lies in the workspace, and making it
      with its ancestors makes the workspace. */
  lemma MadeDirUnder(os: Os, t: string, d: Digest, e: Entry)
    requires ScratchRoot(os, t)
    ensures var ws := WorkspacePath(t, d);
      var m := MadeDir(os, ws, e);
      && Under(ws, m) && ws in Ancestors(m) + {m}
  {
    EntryLocations(os, t, d, e.name);
  }

  /** For a name with no `.` or `..` segment, every directory the entry makes
      is one the operating system resolves to itself. */
  lemma MadeDirResolves(os: Os, t: string, d: Digest, e: Entry)
    requires ScratchRoot(os, t) && SafeName(os, e.name)
    ensures var m := MadeDir(os, WorkspacePath(t, d), e);
      forall a :: a in Ancestors(m) + {m} ==> Resolve(a) == a
  {
    var ws := WorkspacePath(t, d);
    WorkspaceForm(os, t, d);
    if e.dir {
      SafeJoin(os, ws, e.name);
    } else {
      SafeParent(os, e.name);
      SafeJoin(os, ws, ParentName(e.name));
    }
    AncestorsNoDot(MadeDir(os, ws, e));
  }

  /** Extraction makes only the scratch directory, its ancestors and
      locations in the workspace, and it makes the workspace as soon as
      there is an entry. */
  lemma MadeInWorkspace(os: Os, t: string, ws: string, es: seq<Entry>, dirs: set<string>)
    requires ScratchRoot(os, t) && IsWorkspace(t, ws)
    requires t in dirs && forall a :: a in Ancestors(t) ==> a in dirs
    ensures forall a :: a in MadeDirs(os, es, ws) && a !in dirs ==> Under(ws, a)
    ensures |es| > 0 ==> ws in MadeDirs(os, es, ws)
    ensures SafeNames(os, es) ==> forall a :: a in MadeDirs(os, es, ws) ==> Resolve(a) == a
  {
    var d := WorkspaceDigest(t, ws);
    forall a | a in MadeDirs(os, es, ws) && a !in dirs ensures Under(ws, a) {
      var j := MadeDirsSource(os, es, ws, a);
      MadeDirUnder(os, t, d, es[j]);
      NewDirsBelow(os, t, d, MadeDir(os, ws, es[j]), dirs);
    }
    if SafeNames(os, es) {
      forall a | a in MadeDirs(os, es, ws) ensures Resolve(a) == a {
        var j := MadeDirsSource(os, es, ws, a);
        MadeDirResolves(os, t, d, es[j]);
      }
    }
    if |es| > 0 {
      MadeDirUnder(os, t, d, es[0]);
      MadeDirsHas(os, es, ws, 0, ws);
    }
  }

  /** Where one entry of an archive with digest `d` lands: the shimmed path
      names `ws/name`, which lies in the workspace `ws`; making the entry's
      split/pop/join parent makes `ws`; and for a valid name that parent is the
      directory the file goes into. */
  lemma EntryLocations(os: Os, t: string, d: Digest, name: string)
    requires ScratchRoot(os, t)
    ensures var ws := WorkspacePath(t, d);
      var k := EntryPath(os, ws, name);
      var p := Logical(os, ws + "/" + ParentName(name));
      && Logical(os, LongPathShim(os, ws + "/" + name)) == k
      && Under(ws, k)
      && ws in Ancestors(k) + {k}
      && ws in Ancestors(p) + {p} && Under(ws, p)
      && StartsWith(k, t + "/") && WorkspaceOf(t, k) == ws
      && (ValidName(name) ==> ParentOf(k) == Some(p))
  {
    var ws := WorkspacePath(t, d);
    WorkspaceForm(os, t, d);
    var k := EntryPath(os, ws, name);
    var p := Logical(os, ws + "/" + ParentName(name));
    var q := ws + "/" + name;
    assert q[0] == ws[0] != '\\';
    LogicalOfShim(os, q);
    LogicalUnder(os, ws, name);
    LogicalUnder(os, ws, ParentName(name));
    UnderAncestor(ws, k);
    UnderAncestor(ws, p);
    WorkspaceOfUnder(t, d, k);
    if ValidName(name) {
      ParentOfEntry(os, ws, name);
      EntryPathTidy(os, ws, name);
    }
  }

  /** For a name with no `.` or `..` segment, the location of the entry and
      the parent made for it are the locations the operating system reaches. */
  lemma EntryResolves(os: Os, t: string, d: Digest, name: string)
    requires ScratchRoot(os, t) && SafeName(os, name)
    ensures var ws := WorkspacePath(t, d);
      && Resolve(EntryPath(os, ws, name)) == EntryPath(os, ws, name)
      && Resolve(Logical(os, ws + "/" + ParentName(name))) == Logical(os, ws + "/" + ParentName(name))
  {
    var ws := WorkspacePath(t, d);
    WorkspaceForm(os, t, d);
    SafeJoin(os, ws, name);
    SafeParent(os, name);
    SafeJoin(os, ws, ParentName(name));
  }

  /** Extraction into a workspace that does not exist yet touches no existing
      file: everything it writes lies in that workspace, and is fresh. */
  lemma FreshExtraction(os: Os, t: string, d: Digest, es: seq<Entry>, files0: map<string, Content>, dirs0: set<string>)
    requires ScratchRoot(os, t) && ScratchClosed(t, files0, dirs0) && WorkspacePath(t, d) !in dirs0
    ensures forall f :: f in Extracted(os, es, WorkspacePath(t, d)) ==> f !in files0 && FreshIn(t, f, dirs0)
    ensures forall f :: f in files0 ==> !Under(WorkspacePath(t, d), f)
    ensures SafeNames(os, es) ==> forall f :: f in Extracted(os, es, WorkspacePath(t, d)) ==> Resolve(f) == f
  {
    var ws := WorkspacePath(t, d);
    WorkspaceForm(os, t, d);
    forall f | f in files0 ensures !Under(ws, f) {
      if Under(ws, f) {
        WorkspaceOfUnder(t, d, f);
      }
    }
    forall f | f in Extracted(os, es, ws) ensures f !in files0 && FreshIn(t, f, dirs0) {
      ExtractedUnder(os, es, ws, f);
      WorkspaceOfUnder(t, d, f);
    }
    if SafeNames(os, es) {
      ExtractedResolves(os, t, d, es);
    }
  }

  /** Entries the corrected `unzip` accepts are written only at locations the
      operating system resolves to themselves. */
  lemma ExtractedResolves(os: Os, t: string, d: Digest, es: seq<Entry>)
    requires ScratchRoot(os, t) && SafeNames(os, es)
    ensures forall f :: f in Extracted(os, es, WorkspacePath(t, d)) ==> Resolve(f) == f
  {
    var ws := WorkspacePath(t, d);
    forall f | f in Extracted(os, es, ws) ensures Resolve(f) == f {
      var i := ExtractedSource(os, es, ws, f);
      EntryResolves(os, t, d, es[i].name);
    }
  }

  /** The `unzip` of mod.ts:60-76 as written joins an entry name to the
      workspace unchecked (mod.ts:63). Take a scratch directory `/a/c` (say
      `/tmp/detonater_a`) and an archive `/a/b` (say `/tmp/in.jar`) read into
      the workspace of its digest `d`, with a file entry `../../b`: the path
      the entry is written to (mod.ts:73-74) lies textually in the workspace,
      but the operating system resolves it to the archive itself, outside the
      workspace, so extracting overwrites the archive being read. The
      corrected `UnzipEntry` refuses the name. */
  lemma ZipSlip(a: string, c: string, b: string, d: Digest)
    requires PlainSegment(a) && PlainSegment(c) && PlainSegment(b)
    ensures Under(WorkspacePath("/" + a + "/" + c, d), EntryPath(Other, WorkspacePath("/" + a + "/" + c, d), "../../" + b))
    ensures Resolve(EntryPath(Other, WorkspacePath("/" + a + "/" + c, d), "../../" + b)) == "/" + a + "/" + b
    ensures !Under(WorkspacePath("/" + a + "/" + c, d), "/" + a + "/" + b)
    ensures !SafeName(Other, "../../" + b)
  {
    var ws := WorkspacePath("/" + a + "/" + c, d);
    var name := "../../" + b;
    var p := ws + "/" + name;
    assert p[|p| - 1] == b[|b| - 1];
    assert EntryPath(Other, ws, name) == p;
    assert p[..|ws| + 1] == ws + "/";
    DigestPlain(d);
    assert d != "." && d != ".." by {
      assert |d| == 32;
    }
    var up := "..";
    assert p == "/" + (a + "/" + (c + "/" + (d + "/" + (up + "/" + (up + "/" + b)))));
    SlipSplit(a, c, d, b, up, p);
    SlipResolved(a, c, d, b, up, p);
    SlipOutside(a, c, b, d);
    SlipRefused(b);
  }

  /** The corrected check refuses a name that starts with a `..` segment. */
  lemma SlipRefused(b: string)
    ensures !SafeName(Other, "../../" + b)
  {
    var name := "../../" + b;
    assert name[0] == '.' && name[1] == '.' && name[2] == '/';
    assert !NoDotAt(name, 0);
  }

  /** `/a/b` is not in the workspace `/a/c/<digest>`: it would have to go on
      with `c/` after `/a/`, and `b` holds no separator. */
  lemma SlipOutside(a: string, c: string, b: string, d: Digest)
    requires PlainSegment(a) && PlainSegment(c) && PlainSegment(b)
    ensures !Under(WorkspacePath("/" + a + "/" + c, d), "/" + a + "/" + b)
  {
    var ws := WorkspacePath("/" + a + "/" + c, d);
    var x := "/" + a + "/" + b;
    var i := |a| + 2 + |c|;
    assert ws[i] == '/';
    if Under(ws, x) {
      assert |x| > i && x[i] == ws[i] by {
        if x != ws {
          assert x[..|ws|] == ws;
        }
      }
    }
  }

  /** The path split as `SlipSplit` says resolves to `/a/b`. */
  lemma SlipResolved(a: string, c: string, d: string, b: string, up: string, p: string)
    requires PlainSegment(a) && PlainSegment(c) && PlainSegment(b) && d != "." && d != ".." && up == ".."
    requires Split(p, '/') == ["", a, c, d, up, up, b]
    ensures Resolve(p) == "/" + a + "/" + b
  {
    var segs := Split(p, '/');
    assert segs[0] == "" && segs[1..] == [a, c, d, up, up, b];
    SlipResolve(a, c, d, b, up);
    JoinCons("", [a, b], '/');
    JoinCons(a, [b], '/');
    assert [""] + [a, b] == ["", a, b];
  }

  /** One segment of a path: not empty, no separator, not `.` or `..`. */
  predicate PlainSegment(s: string) {
    |s| >= 1 && '/' !in s && s != "." && s != ".."
  }

  /** The path `ZipSlip` writes to, split at its separators. */
  lemma SlipSplit(a: string, c: string, d: string, b: string, up: string, p: string)
    requires '/' !in a && '/' !in c && '/' !in d && '/' !in b && up == ".."
    requires p == "/" + (a + "/" + (c + "/" + (d + "/" + (up + "/" + (up + "/" + b)))))
    ensures Split(p, '/') == ["", a, c, d, up, up, b]
  {
    var e := "";
    assert p == e + "/" + (a + "/" + (c + "/" + (d + "/" + (up + "/" + (up + "/" + b)))));
    SlipJoin(e, a, c, d, b, up, p);
    var parts := [e, a, c, d, up, up, b];
    assert forall j :: 0 <= j < |parts| ==> '/' !in parts[j];
    SplitJoin(parts, '/');
  }

  /** The same path as the join of its segments. */
  lemma SlipJoin(e: string, a: string, c: string, d: string, b: string, up: string, p: string)
    requires p == e + "/" + (a + "/" + (c + "/" + (d + "/" + (up + "/" + (up + "/" + b)))))
    ensures Join([e, a, c, d, up, up, b], '/') == p
  {
    var s5 := up + "/" + b;
    var s4 := up + "/" + s5;
    var s3 := d + "/" + s4;
    var s2 := c + "/" + s3;
    JoinCons(up, [b], '/');
    assert [up] + [b] == [up, b];
    JoinCons(up, [up, b], '/');
    assert [up] + [up, b] == [up, up, b];
    JoinCons(d, [up, up, b], '/');
    assert [d] + [up, up, b] == [d, up, up, b];
    JoinCons(c, [d, up, up, b], '/');
    assert [c] + [d, up, up, b] == [c, d, up, up, b];
    JoinCons(a, [c, d, up, up, b], '/');
    assert [a] + [c, d, up, up, b] == [a, c, d, up, up, b];
    JoinCons(e, [a, c, d, up, up, b], '/');
    assert [e] + [a, c, d, up, up, b] == [e, a, c, d, up, up, b];
  }

  /** Two `..` segments after three plain ones climb back to the first. */
  lemma SlipResolve(a: string, c: string, d: string, b: string, up: string)
    requires a != "." && a != ".." && c != "." && c != ".."
    requires d != "." && d != ".." && b != "." && b != ".." && up == ".."
    ensures ResolveSegments([a, c, d, up, up, b], []) == [a, b]
  {
    var t5 := [b];
    var t4 := [up] + t5;
    var t3 := [up] + t4;
    var t2 := [d] + t3;
    var t1 := [c] + t2;
    assert [a] + t1 == [a, c, d, up, up, b];
    ResolveKeeps(a, t1, []);
    assert [] + [a] == [a];
    ResolveKeeps(c, t2, [a]);
    assert [a] + [c] == [a, c];
    ResolveKeeps(d, t3, [a, c]);
    assert [a, c] + [d] == [a, c, d];
    ResolveClimbs(t4, [a, c], d);
    ResolveClimbs(t5, [a], c);
    assert t5 == [b] + [];
    ResolveKeeps(b, [], [a]);
    assert [a] + [b] == [a, b];
  }


  /** A map that differs from `m0` at most in the value held at `k` has the
      keys of `m0` and its values everywhere else. */
  lemma RewriteFrame(m0: map<string, Content>, m1: map<string, Content>, k: string)
    requires m1 == m0 || (k in m0 && k in m1 && m1 == m0[k := m1[k]])
    ensures forall f :: f in m1 <==> f in m0
    ensures forall f :: f in m0 && f != k ==> m1[f] == m0[f]
  {
  }

  /** Writing the recompressed jar back over `k`, after a recompression that
      altered no existing file, alters no file but `k`, adds nothing, and
      leaves the state the recompression packed once `k` is put back. */
  lemma WriteBackFrame(t: string, files0: map<string, Content>, dirs0: set<string>,
                       mid: map<string, Content>, k: string, c: Content)
    requires k in files0
    requires forall f :: f in files0 ==> f in mid && mid[f] == files0[f]
    requires forall f :: f in mid && f !in files0 ==> FreshIn(t, f, dirs0)
    ensures forall f :: f in files0 ==> f in mid[k := c]
    ensures forall f :: f in files0 && f != k ==> mid[k := c][f] == files0[f]
    ensures forall f :: f in mid[k := c] && f !in files0 ==> FreshIn(t, f, dirs0)
    ensures mid[k := c][k := files0[k]] == mid
  {
  }

  /** The entries of an archive, as a set. */
  function EntrySet(es: seq<Entry>): set<Entry> {
    if es == [] then {} else EntrySet(es[..|es| - 1]) + {es[|es| - 1]}
  }

  /** One turn of the `rezip` loop on the collected entries: walking `k`
      appends its entry, if it has one, and the entries stay those of the
      walked locations. */
  lemma RezipStep(os: Os, files: map<string, Content>, dirs: set<string>, root: string,
                  walked: set<string>, todo: set<string>, k: string, entries: seq<Entry>, added: Option<Entry>)
    requires RootForm(os, root) && Under(root, k) && k in todo && todo <= walked
    requires RepackOne(os, files, dirs, root, k) == Ok(added)
    requires EntrySet(entries) == Repacked(os, files, dirs, root, walked - todo)
    ensures var next := if added.Some? then entries + [added.value] else entries;
      EntrySet(next) == Repacked(os, files, dirs, root, walked - (todo - {k}))
  {
    RepackedAdd(os, files, dirs, root, walked - todo, k);
    assert walked - (todo - {k}) == (walked - todo) + {k};
    if added.Some? {
      assert (entries + [added.value])[..|entries|] == entries;
    }
  }

  /** A name cannot end in two of the dispatched suffixes. */
  lemma JarSuffixOnly(k: string)
    requires IsJar(k)
    ensures !IsJson(k) && !IsPng(k)
  {
    assert k[|k| - 1] == 'r';
  }

  class Detonater {
    /** The filesystem every call goes through. */
    const disk: Disk
    /** The scratch directory holding one workspace per archive (mod.ts:9). */
    const tempDir: string
    /** The MD5 digest of a file's bytes (mod.ts:37-38). */
    const md5: Content -> Digest
    /** `JSON.parse` followed by `JSON.stringify(_, null, 2)`; `None` where parsing fails. */
    const normalise: Content -> Option<Content>
    /** What the `oxipng` subprocess makes of a PNG file. */
    const oxipng: Content -> Content

    /** The filesystem is consistent, the scratch directory exists with its
        ancestors and is in stored form, and every scratch file lies in a
        workspace that exists. */
    ghost predicate Valid()
      reads this, disk
    {
      && disk.Valid()
      && ScratchRoot(disk.os, tempDir)
      && tempDir in disk.dirs && (forall a :: a in Ancestors(tempDir) ==> a in disk.dirs)
      && ScratchClosed(tempDir, disk.files, disk.dirs)
    }

    constructor (disk: Disk, tempDir: string, md5: Content -> Digest,
                 normalise: Content -> Option<Content>, oxipng: Content -> Content)
      requires disk.Valid() && ScratchRoot(disk.os, tempDir)
      requires tempDir in disk.dirs && forall a :: a in Ancestors(tempDir) ==> a in disk.dirs
      requires ScratchClosed(tempDir, disk.files, disk.dirs)
      ensures Valid()
      ensures this.disk == disk && this.tempDir == tempDir && this.md5 == md5
      ensures this.normalise == normalise && this.oxipng == oxipng
    {
      this.disk := disk;
      this.tempDir := tempDir;
      this.md5 := md5;
      this.normalise := normalise;
      this.oxipng := oxipng;
    }

    /** The workspace of an archive: the scratch directory joined with its digest (mod.ts:39). */
    function WorkspaceFor(c: Content): (w: string)
      requires ScratchRoot(disk.os, tempDir)
      ensures RootForm(disk.os, w) && IsWorkspace(tempDir, w)
    {
      WorkspaceForm(disk.os, tempDir, md5(c));
      WorkspaceIs(tempDir, md5(c));
      WorkspacePath(tempDir, md5(c))
    }

    /** What normalisation leaves: the re-printed text, or the file as it was
        when it does not parse (mod.ts:129-135). */
    function Normalized(c: Content): Content {
      match normalise(c)
      case Some(n) => n
      case None => c
    }

    /** What `searchMod` leaves in a walked file, given what it found there
        (mod.ts:111-124): JSON and mcmeta files normalised, PNG files optimised,
        jar files replaced by a nested (stored, uncompressed) recompression,
        anything else untouched. */
    ghost predicate Dispatched(k: string, before: Content, after: Content) {
      if IsJson(k) then after == Normalized(before)
      else if IsPng(k) then after == oxipng(before)
      else if IsJar(k) then after.Jar? && after.options == SerialisationOptions(true)
      else after == before
    }

    /** `normalizeJson` (mod.ts:128-136): a file that parses is rewritten in
        normal form; a failed read or parse is caught and leaves the file as it was. */
    method NormalizeJson(path: string)
      requires Valid()
      modifies disk
      ensures Valid() && disk.dirs == old(disk.dirs)
      ensures var k := Logical(disk.os, path);
        k in old(disk.files) && normalise(old(disk.files)[k]).Some? ==>
          disk.files == old(disk.files)[k := normalise(old(disk.files)[k]).value]
      ensures var k := Logical(disk.os, path);
        !(k in old(disk.files) && normalise(old(disk.files)[k]).Some?) ==> disk.files == old(disk.files)
    {
      var text := disk.ReadFile(path);
      if text.Ok? {
        var json := normalise(text.value);
        if json.Some? {
          var written := disk.WriteFile(path, json.value);
        }
      }
    }

    /** `optimizePng` (mod.ts:138-143): the file is handed to `oxipng`, which
        rewrites it in place; its exit status is ignored, so a path that is not
        a file is left alone. */
    method OptimizePng(path: string)
      requires Valid()
      modifies disk
      ensures Valid() && disk.dirs == old(disk.dirs)
      ensures var k := Logical(disk.os, path);
        k in old(disk.files) ==> disk.files == old(disk.files)[k := oxipng(old(disk.files)[k])]
      ensures Logical(disk.os, path) !in old(disk.files) ==> disk.files == old(disk.files)
    {
      var image := disk.ReadFile(path);
      if image.Ok? {
        var written := disk.WriteFile(path, oxipng(image.value));
      }
    }

    /** `rezip` (mod.ts:79-107): walks the workspace and collects one entry per
        walked location, failing with the first read that fails. It changes
        nothing; the entries it collects are exactly the repack set. */
    method Rezip(ws: string) returns (r: Result<seq<Entry>, FsError>)
      requires Valid() && RootForm(disk.os, ws)
      ensures r.Ok? <==> Repackable(disk.os, disk.files, disk.dirs, ws)
      ensures r.Ok? ==> EntrySet(r.value) == RepackSet(disk.os, disk.files, disk.dirs, ws)
    {
      LogicalOfTidy(disk.os, ws);
      var walked :- disk.Walk(ws);
      var todo := walked;
      var entries: seq<Entry> := [];
      while todo != {}
        invariant todo <= walked
        invariant forall k :: k in walked - todo ==> RepackOne(disk.os, disk.files, disk.dirs, ws, k).Ok?
        invariant EntrySet(entries) == Repacked(disk.os, disk.files, disk.dirs, ws, walked - todo)
        decreases todo
      {
        var k :| k in todo;
        var added := RezipEntry(ws, k);
        if added.Err? {
          assert k in Subtree(disk.files, disk.dirs, ws);
          return Err(added.error);
        }
        RezipStep(disk.os, disk.files, disk.dirs, ws, walked, todo, k, entries, added.value);
        if added.value.Some? {
          entries := entries + [added.value.value];
        }
        todo := todo - {k};
      }
      r := Ok(entries);
    }

    /** One turn of the `rezip` loop (mod.ts:83-104) for the walked location `k`:
        back-slashes become `/`; a directory other than the root becomes a
        marker named by its relative path; a file is read through the
        long-path shim and added under its relative path. */
    method RezipEntry(ws: string, k: string) returns (r: Result<Option<Entry>, FsError>)
      requires Valid() && RootForm(disk.os, ws) && Under(ws, k)
      ensures r == RepackOne(disk.os, disk.files, disk.dirs, ws, k)
    {
      WalkedStartsWithRoot(disk.os, ws, k);
      var filePath := ReplaceChar(Native(disk.os, k), '\\', '/');
      var root := ReplaceChar(ws, '\\', '/');
      ReplaceCharAbsent(ws, '\\', '/');
      if k in disk.dirs {
        if filePath != root {
          r := Ok(Some(Entry(RelativeName(filePath, root), true, Blob([]))));
        } else {
          r := Ok(None);
        }
      } else {
        var file :- disk.ReadFile(LongPathShim(disk.os, filePath));
        r := Ok(Some(Entry(RelativeName(filePath, root), false, file)));
      }
    }

    /** `unzip` (mod.ts:58-77): every entry is written below the workspace, in
        order; the first failing call ends the extraction, after the first `n`
        entries. */
    method Unzip(es: seq<Entry>, ws: string) returns (r: Result<(), FsError>, ghost n: nat)
      requires Valid() && IsWorkspace(tempDir, ws)
      modifies disk
      ensures Valid()
      ensures n <= |es| && disk.files == old(disk.files) + Extracted(disk.os, es[..n], ws)
      ensures r.Ok? ==> n == |es| && disk.dirs == old(disk.dirs) + MadeDirs(disk.os, es, ws)
      ensures r.Err? ==> old(disk.dirs) + MadeDirs(disk.os, es[..n], ws) <= disk.dirs
      ensures r.Err? ==> n < |es| && disk.dirs <= old(disk.dirs) + MadeDirs(disk.os, es[..n + 1], ws)
      ensures forall d :: d in disk.dirs && d !in old(disk.dirs) ==> Under(ws, d)
      ensures r.Ok? && |es| > 0 ==> ws in disk.dirs
      ensures |es| == 0 ==> r.Ok? && disk.dirs == old(disk.dirs)
      ensures SafeNames(disk.os, es[..n])
      ensures r.Err? && !SafeName(disk.os, es[n].name) ==> r.error == UnsafeEntry(es[n].name)
      ensures r.Err? && SafeName(disk.os, es[n].name) ==> !r.error.UnsafeEntry?
      ensures ValidNames(es) && r.Err? ==> !r.error.MissingParent? && !r.error.UnsafeEntry?
      ensures forall f :: f in Extracted(disk.os, es[..n], ws) ==> Resolve(f) == f
      ensures r.Ok? ==> forall d :: d in disk.dirs && d !in old(disk.dirs) ==> Resolve(d) == d
    {
      var i := 0;
      while i < |es|
        invariant i <= |es|
        invariant Valid()
        invariant disk.files == old(disk.files) + Extracted(disk.os, es[..i], ws)
        invariant disk.dirs == old(disk.dirs) + MadeDirs(disk.os, es[..i], ws)
        invariant SafeNames(disk.os, es[..i])
      {
        r := UnzipNext(es, ws, i, old(disk.files), old(disk.dirs));
        if r.Err? {
          n := i;
          MadeInWorkspace(disk.os, tempDir, ws, es[..i + 1], old(disk.dirs));
          var d := WorkspaceDigest(tempDir, ws);
          ExtractedResolves(disk.os, tempDir, d, es[..i]);
          return;
        }
        i := i + 1;
      }
      assert es[..i] == es;
      MadeInWorkspace(disk.os, tempDir, ws, es, old(disk.dirs));
      var d := WorkspaceDigest(tempDir, ws);
      ExtractedResolves(disk.os, tempDir, d, es);
      n := i;
      r := Ok(());
    }

    /** `UnzipEntry` on `es[i]` once `es[..i]` is extracted: the state moves
        from the prefix `es[..i]` to `es[..i + 1]`, or stays between the two
        on a failure. */
    method UnzipNext(es: seq<Entry>, ws: string, i: nat, ghost files0: map<string, Content>, ghost dirs0: set<string>)
      returns (r: Result<(), FsError>)
      requires Valid() && IsWorkspace(tempDir, ws) && i < |es|
      requires disk.files == files0 + Extracted(disk.os, es[..i], ws)
      requires disk.dirs == dirs0 + MadeDirs(disk.os, es[..i], ws)
      requires SafeNames(disk.os, es[..i])
      modifies disk
      ensures Valid()
      ensures r.Ok? ==> disk.files == files0 + Extracted(disk.os, es[..i + 1], ws)
      ensures r.Ok? ==> disk.dirs == dirs0 + MadeDirs(disk.os, es[..i + 1], ws)
      ensures r.Err? ==> disk.files == old(disk.files)
      ensures r.Err? ==> old(disk.dirs) <= disk.dirs <= dirs0 + MadeDirs(disk.os, es[..i + 1], ws)
      ensures r.Ok? ==> SafeNames(disk.os, es[..i + 1])
      ensures !SafeName(disk.os, es[i].name) ==> r == Err(UnsafeEntry(es[i].name))
      ensures SafeName(disk.os, es[i].name) && r.Err? ==> !r.error.UnsafeEntry?
      ensures ValidNames(es) && r.Err? ==> !r.error.MissingParent? && !r.error.UnsafeEntry?
    {
      r := UnzipEntry(es[i], ws);
      if ValidNames(es) {
        ValidSafe(disk.os, es[i]);
      }
      if r.Ok? {
        SafeNamesStep(disk.os, es, i);
      }
      MadeDirsStep(disk.os, es, ws, i);
      ExtractedStep(disk.os, es, ws, i, files0);
    }

    /** One turn of the corrected `unzip` loop (mod.ts:61-75). An entry name
        with a `.` or `..` segment is refused before anything is made: joined
        to the workspace as mod.ts:63 does, it would climb out of it (see
        `ZipSlip`). A directory entry is made with its ancestors through the
        long-path shim; a file entry goes to `UnzipFile`. Every location made
        is one the operating system does not move by resolving it, and for a
        valid entry name the parent is always there when the file is
        written. */
    method UnzipEntry(e: Entry, ws: string) returns (r: Result<(), FsError>)
      requires Valid() && IsWorkspace(tempDir, ws)
      modifies disk
      ensures Valid()
      ensures var d := MadeDir(disk.os, ws, e);
        && (r.Ok? ==> disk.dirs == old(disk.dirs) + Ancestors(d) + {d})
        && (r.Err? ==> old(disk.dirs) <= disk.dirs <= old(disk.dirs) + Ancestors(d) + {d})
      ensures forall d :: d in disk.dirs && d !in old(disk.dirs) ==> Under(ws, d)
      ensures r.Ok? ==> ws in disk.dirs
      ensures r.Ok? && !e.dir ==> disk.files == old(disk.files)[EntryPath(disk.os, ws, e.name) := e.content]
      ensures r.Ok? && e.dir ==> disk.files == old(disk.files)
      ensures r.Err? ==> disk.files == old(disk.files)
      ensures Under(ws, EntryPath(disk.os, ws, e.name))
      ensures (e.dir || ValidName(BareName(e))) && r.Err? ==> !r.error.MissingParent?
      ensures !SafeName(disk.os, e.name) ==> r == Err(UnsafeEntry(e.name)) && disk.dirs == old(disk.dirs)
      ensures SafeName(disk.os, e.name) && r.Err? ==> !r.error.UnsafeEntry?
      ensures forall d :: d in disk.dirs && d !in old(disk.dirs) ==> Resolve(d) == d
      ensures r.Ok? && !e.dir ==> Resolve(EntryPath(disk.os, ws, e.name)) == EntryPath(disk.os, ws, e.name)
    {
      if !SafeName(disk.os, e.name) {
        var d := WorkspaceDigest(tempDir, ws);
        EntryLocations(disk.os, tempDir, d, e.name);
        return Err(UnsafeEntry(e.name));
      }
      r := ExtractEntry(e, ws);
      var d := WorkspaceDigest(tempDir, ws);
      EntryResolves(disk.os, tempDir, d, e.name);
      MadeDirResolves(disk.os, tempDir, d, e);
    }

    /** The turn of `UnzipEntry` for a name with no `.` or `..` segment: the body of the
        loop of mod.ts:61-75 as written. */
    method ExtractEntry(e: Entry, ws: string) returns (r: Result<(), FsError>)
      requires Valid() && IsWorkspace(tempDir, ws) && SafeName(disk.os, e.name)
      modifies disk
      ensures Valid()
      ensures var d := MadeDir(disk.os, ws, e);
        && (r.Ok? ==> disk.dirs == old(disk.dirs) + Ancestors(d) + {d})
        && (r.Err? ==> old(disk.dirs) <= disk.dirs <= old(disk.dirs) + Ancestors(d) + {d})
      ensures forall d :: d in disk.dirs && d !in old(disk.dirs) ==> Under(ws, d)
      ensures r.Ok? ==> ws in disk.dirs
      ensures r.Ok? && !e.dir ==> disk.files == old(disk.files)[EntryPath(disk.os, ws, e.name) := e.content]
      ensures r.Ok? && e.dir ==> disk.files == old(disk.files)
      ensures r.Err? ==> disk.files == old(disk.files)
      ensures Under(ws, EntryPath(disk.os, ws, e.name))
      ensures (e.dir || ValidName(BareName(e))) && r.Err? ==> !r.error.MissingParent?
      ensures r.Err? ==> r.error.NotADirectory? || r.error.IsADirectory? || r.error.MissingParent?
    {
      var d := WorkspaceDigest(tempDir, ws);
      EntryLocations(disk.os, tempDir, d, e.name);
      MadeDirUnder(disk.os, tempDir, d, e);
      var fullPath := LongPathShim(disk.os, ws + "/" + e.name);
      if e.dir {
        NewDirsBelow(disk.os, tempDir, d, EntryPath(disk.os, ws, e.name), disk.dirs);
        r := disk.MkdirAll(fullPath);
      } else {
        r := UnzipFile(e, ws, fullPath);
      }
    }

    /** The file branch of the `unzip` loop (mod.ts:72-74): the parent
        directory computed by split/pop/join is made, without the shim, and
        the file is then written at the shimmed path. */
    method UnzipFile(e: Entry, ws: string, fullPath: string) returns (r: Result<(), FsError>)
      requires Valid() && IsWorkspace(tempDir, ws) && !e.dir
      requires Logical(disk.os, fullPath) == EntryPath(disk.os, ws, e.name)
      modifies disk
      ensures Valid()
      ensures var p := Logical(disk.os, ws + "/" + ParentName(e.name));
        && (r.Ok? ==> disk.dirs == old(disk.dirs) + Ancestors(p) + {p})
        && (r.Err? ==> old(disk.dirs) <= disk.dirs <= old(disk.dirs) + Ancestors(p) + {p})
      ensures forall d :: d in disk.dirs && d !in old(disk.dirs) ==> Under(ws, d)
      ensures r.Ok? ==> ws in disk.dirs
      ensures r.Ok? ==> disk.files == old(disk.files)[EntryPath(disk.os, ws, e.name) := e.content]
      ensures r.Err? ==> disk.files == old(disk.files)
      ensures ValidName(e.name) && r.Err? ==> !r.error.MissingParent?
      ensures r.Err? ==> r.error.NotADirectory? || r.error.IsADirectory? || r.error.MissingParent?
    {
      var d := WorkspaceDigest(tempDir, ws);
      ghost var k := EntryPath(disk.os, ws, e.name);
      ghost var p := Logical(disk.os, ws + "/" + ParentName(e.name));
      EntryLocations(disk.os, tempDir, d, e.name);
      NewDirsBelow(disk.os, tempDir, d, p, disk.dirs);
      var dir := ParentName(e.name);
      var done := disk.MkdirAll(ws + "/" + dir);
      if done.Err? {
        return Err(done.error);
      }
      r := WriteEntry(e, ws, fullPath, p);
    }

    /** The write of the `unzip` file branch (mod.ts:74), once the parent
        directory is made: for a valid name that directory is the parent of
        the location, so the write never fails for a missing parent. */
    method WriteEntry(e: Entry, ws: string, fullPath: string, ghost p: string) returns (r: Result<(), FsError>)
      requires Valid() && IsWorkspace(tempDir, ws) && !e.dir
      requires Logical(disk.os, fullPath) == EntryPath(disk.os, ws, e.name)
      requires ws in disk.dirs && p == Logical(disk.os, ws + "/" + ParentName(e.name)) && p in disk.dirs
      modifies disk
      ensures Valid() && disk.dirs == old(disk.dirs)
      ensures r.Ok? ==> disk.files == old(disk.files)[EntryPath(disk.os, ws, e.name) := e.content]
      ensures r.Err? ==> disk.files == old(disk.files)
      ensures ValidName(e.name) && r.Err? ==> !r.error.MissingParent?
      ensures r.Err? ==> r.error.IsADirectory? || r.error.MissingParent?
    {
      var d := WorkspaceDigest(tempDir, ws);
      ghost var k := EntryPath(disk.os, ws, e.name);
      EntryLocations(disk.os, tempDir, d, e.name);
      ghost var before := disk.files;
      r := disk.WriteFile(fullPath, e.content);
      if r.Ok? {
        ScratchClosedPut(tempDir, before, disk.dirs, k, e.content);
      }
    }

    /** Whether the workspace of an archive already exists: a cache hit. */
    ghost predicate Cached(c: Content)
      requires ScratchRoot(disk.os, tempDir)
      reads disk
    {
      WorkspaceFor(c) in disk.dirs
    }

    /** `compressJar` (mod.ts:35-56): the archive's digest names its workspace;
        when that workspace does not exist yet the archive is extracted into it
        and `searchMod` treats its files, and in every case the workspace is
        repacked with the serialisation options the nested flag selects. Files
        that existed before the call are never altered: every file it adds lies
        in a workspace that did not exist before. */
    method CompressJar(path: string, isJiJ: bool, ghost bound: nat) returns (r: Result<Content, FsError>)
      requires Valid()
      requires Logical(disk.os, path) in disk.files ==> Height(disk.files[Logical(disk.os, path)]) <= bound
      modifies disk
      decreases bound, 4
      ensures Valid()
      ensures old(disk.dirs) <= disk.dirs
      ensures forall k :: k in old(disk.files) ==> k in disk.files && disk.files[k] == old(disk.files)[k]
      ensures forall k :: k in disk.files && k !in old(disk.files) ==> FreshIn(tempDir, k, old(disk.dirs))
      ensures forall d :: d in disk.dirs && d !in old(disk.dirs) ==> FreshIn(tempDir, d, old(disk.dirs))
      ensures var k := Logical(disk.os, path);
        k !in old(disk.files) ==>
          && r == Err(if k in old(disk.dirs) then IsADirectory(k) else NotFound(k))
          && disk.files == old(disk.files) && disk.dirs == old(disk.dirs)
      ensures var k := Logical(disk.os, path);
        k in old(disk.files) && old(Cached(disk.files[k])) ==>
          && disk.files == old(disk.files) && disk.dirs == old(disk.dirs)
          && (r.Ok? <==> Repackable(disk.os, disk.files, disk.dirs, WorkspaceFor(old(disk.files)[k])))
      ensures var k := Logical(disk.os, path);
        k in old(disk.files) && !old(Cached(disk.files[k])) && !old(disk.files)[k].Jar? ==>
          && r == Err(NotAZip(k))
          && disk.files == old(disk.files) && disk.dirs == old(disk.dirs)
      ensures var k := Logical(disk.os, path);
        k in old(disk.files) && !old(Cached(disk.files[k])) && old(disk.files)[k].Jar? && |old(disk.files)[k].entries| == 0 ==>
          r.Err?
      ensures r.Ok? ==>
        var k := Logical(disk.os, path);
        && k in old(disk.files) && Cached(old(disk.files)[k])
        && r.value.Jar? && r.value.options == SerialisationOptions(isJiJ)
        && Repackable(disk.os, disk.files, disk.dirs, WorkspaceFor(old(disk.files)[k]))
        && EntrySet(r.value.entries) == RepackSet(disk.os, disk.files, disk.dirs, WorkspaceFor(old(disk.files)[k]))
    {
      var data :- disk.ReadFile(path);
      var digest := md5(data);
      var ws := tempDir + "/" + digest;
      assert ws == WorkspaceFor(data);
      WorkspaceForm(disk.os, tempDir, digest);
      LogicalOfTidy(disk.os, ws);
      assert ws !in disk.files by {
        WorkspaceOfUnder(tempDir, digest, ws);
      }
      var cached := disk.Exists(ws);
      if !cached {
        if !data.Jar? {
          return Err(NotAZip(Logical(disk.os, path)));
        }
        ghost var files0, dirs0 := disk.files, disk.dirs;
        FreshExtraction(disk.os, tempDir, digest, data.entries, files0, dirs0);
        var unzipped;
        ghost var n;
        unzipped, n := Unzip(data.entries, ws);
        FreshExtraction(disk.os, tempDir, digest, data.entries[..n], files0, dirs0);
        forall a | a in disk.dirs && a !in dirs0 ensures FreshIn(tempDir, a, dirs0) {
          WorkspaceOfUnder(tempDir, digest, a);
        }
        if unzipped.Err? {
          return Err(unzipped.error);
        }
        assert data.entries[..n] == data.entries;
        ExtractedHeight(disk.os, data.entries, ws, data.options);
        var searched :- SearchMod(ws, Height(data));
      }
      var entries :- Rezip(ws);
      r := Ok(Jar(entries, SerialisationOptions(isJiJ)));
    }

    /** Two calls of `compressJar` on the same archive (mod.ts:35-56): once the
        first has succeeded, the second finds the workspace, changes nothing on
        disk and packs the same entries with the same options. */
    method CompressAgain(path: string, isJiJ: bool, ghost bound: nat)
      returns (first: Result<Content, FsError>, second: Result<Content, FsError>,
               ghost files1: map<string, Content>, ghost dirs1: set<string>)
      requires Valid()
      requires Logical(disk.os, path) in disk.files ==> Height(disk.files[Logical(disk.os, path)]) <= bound
      modifies disk
      ensures first.Ok? ==>
        && first.value.Jar? && second.Ok? && second.value.Jar?
        && second.value.options == first.value.options
        && EntrySet(second.value.entries) == EntrySet(first.value.entries)
        && disk.files == files1 && disk.dirs == dirs1
    {
      first := CompressJar(path, isJiJ, bound);
      files1, dirs1 := disk.files, disk.dirs;
      second := CompressJar(path, isJiJ, bound);
    }

    /** `searchMod` (mod.ts:109-126): every location the walk of the workspace
        yields is dispatched on its suffix; the first failure ends the search. */
    method SearchMod(ws: string, ghost h: nat) returns (r: Result<(), FsError>)
      requires Valid() && IsWorkspace(tempDir, ws) && h >= 1
      requires forall k :: k in disk.files && Under(ws, k) ==> Height(disk.files[k]) < h
      modifies disk
      decreases h, 3
      ensures Valid()
      ensures old(disk.dirs) <= disk.dirs
      ensures forall k :: k in old(disk.files) ==> k in disk.files
      ensures forall k :: k in old(disk.files) && !Under(ws, k) ==> disk.files[k] == old(disk.files)[k]
      ensures forall k :: k in disk.files && k !in old(disk.files) ==> FreshIn(tempDir, k, old(disk.dirs))
      ensures forall d :: d in disk.dirs && d !in old(disk.dirs) ==> FreshIn(tempDir, d, old(disk.dirs))
      ensures ws !in old(disk.dirs) ==> r.Err? && disk.files == old(disk.files) && disk.dirs == old(disk.dirs)
      ensures r.Ok? ==> forall k :: k in old(disk.files) && Under(ws, k) ==> Dispatched(k, old(disk.files)[k], disk.files[k])
      ensures r.Ok? ==> forall k :: k in old(disk.files) && Under(ws, k) && IsJar(k) ==> Cached(old(disk.files)[k])
      ensures r.Ok? ==> forall k :: k in old(disk.dirs) && Under(ws, k) ==> !IsJar(k)
    {
      var d := WorkspaceDigest(tempDir, ws);
      WorkspaceForm(disk.os, tempDir, d);
      LogicalOfTidy(disk.os, ws);
      var walked :- disk.Walk(ws);
      ghost var files0, dirs0 := disk.files, disk.dirs;
      var todo := walked;
      while todo != {}
        invariant todo <= walked && walked == Subtree(files0, dirs0, ws)
        invariant Searched(ws, files0, dirs0, walked, todo)
        decreases todo
      {
        var k :| k in todo;
        var done :- SearchStep(ws, k, h, files0, dirs0, walked, todo);
        todo := todo - {k};
      }
      r := Ok(());
    }

    /** The state `searchMod` may leave behind at any point: consistent, with
        no directory removed, no file of the workspace's past removed, nothing
        outside the workspace altered, and every new file in a new workspace. */
    ghost predicate Framed(ws: string, files0: map<string, Content>, dirs0: set<string>)
      reads this, disk
    {
      && Valid()
      && dirs0 <= disk.dirs
      && (forall k :: k in files0 ==> k in disk.files)
      && (forall k :: k in files0 && !Under(ws, k) ==> disk.files[k] == files0[k])
      && (forall k :: k in disk.files && k !in files0 ==> FreshIn(tempDir, k, dirs0))
      && (forall d :: d in disk.dirs && d !in dirs0 ==> FreshIn(tempDir, d, dirs0))
    }

    /** The state of the `searchMod` loop with the walked locations `todo`
        still to visit: those are untouched, the others have been dispatched. */
    ghost predicate Searched(ws: string, files0: map<string, Content>, dirs0: set<string>,
                             walked: set<string>, todo: set<string>)
      reads this, disk
    {
      && Framed(ws, files0, dirs0)
      && (forall k :: k in files0 && k in todo ==> disk.files[k] == files0[k])
      && (forall k :: k in files0 && k in walked && k !in todo ==>
            Dispatched(k, files0[k], disk.files[k]) && (IsJar(k) ==> Cached(files0[k])))
      && (forall k :: k in dirs0 && k in walked && k !in todo ==> !IsJar(k))
    }

    /** One turn of the `searchMod` loop, seen from the loop: the location `k`
        is dispatched and leaves the locations still to visit. */
    method SearchStep(ws: string, k: string, ghost h: nat, ghost files0: map<string, Content>, ghost dirs0: set<string>,
                      ghost walked: set<string>, ghost todo: set<string>) returns (r: Result<(), FsError>)
      requires IsWorkspace(tempDir, ws) && h >= 1
      requires k in todo && todo <= walked && walked == Subtree(files0, dirs0, ws)
      requires forall f :: f in files0 && Under(ws, f) ==> Height(files0[f]) < h
      requires Searched(ws, files0, dirs0, walked, todo)
      modifies disk
      decreases h, 2
      ensures Framed(ws, files0, dirs0)
      ensures r.Ok? ==> Searched(ws, files0, dirs0, walked, todo - {k})
    {
      ghost var mid, middirs := disk.files, disk.dirs;
      r := Dispatch(ws, k, h);
      forall f | f in disk.files && f !in files0 ensures FreshIn(tempDir, f, dirs0) {
        if f !in mid {
          assert FreshIn(tempDir, f, middirs);
        }
      }
      forall a | a in disk.dirs && a !in dirs0 ensures FreshIn(tempDir, a, dirs0) {
        if a !in middirs {
          assert FreshIn(tempDir, a, middirs);
        }
      }
      if r.Ok? {
        forall f | f in files0 && f in walked && f !in todo - {k}
          ensures Dispatched(f, files0[f], disk.files[f]) && (IsJar(f) ==> Cached(files0[f]))
        {
          if f != k {
            assert disk.files[f] == mid[f];
          }
        }
      }
    }

    /** One turn of the `searchMod` loop (mod.ts:111-124) for the walked
        location `k`: only a nested jar can fail, and only it is cached. */
    method Dispatch(ws: string, k: string, ghost h: nat) returns (r: Result<(), FsError>)
      requires Valid() && IsWorkspace(tempDir, ws) && Under(ws, k) && h >= 1
      requires k in disk.files || k in disk.dirs
      requires k in disk.files ==> Height(disk.files[k]) < h
      modifies disk
      decreases h, 1
      ensures Valid()
      ensures old(disk.dirs) <= disk.dirs
      ensures forall f :: f in old(disk.files) ==> f in disk.files
      ensures forall f :: f in old(disk.files) && f != k ==> disk.files[f] == old(disk.files)[f]
      ensures forall f :: f in disk.files && f !in old(disk.files) ==> FreshIn(tempDir, f, old(disk.dirs))
      ensures forall a :: a in disk.dirs && a !in old(disk.dirs) ==> FreshIn(tempDir, a, old(disk.dirs))
      ensures r.Err? ==> IsJar(k)
      ensures r.Ok? && k in old(disk.files) ==> Dispatched(k, old(disk.files)[k], disk.files[k])
      ensures r.Ok? && k in old(disk.files) && IsJar(k) ==> Cached(old(disk.files)[k])
      ensures r.Ok? && k in old(disk.files) && IsJar(k) ==>
        EntrySet(disk.files[k].entries) == RepackSet(disk.os, disk.files[k := old(disk.files)[k]], disk.dirs, WorkspaceFor(old(disk.files)[k]))
      ensures r.Ok? && k in old(disk.dirs) ==> !IsJar(k)
    {
      var d := WorkspaceDigest(tempDir, ws);
      UnderScratchRoot(disk.os, tempDir, d, k);
      LogicalOfNative(disk.os, k);
      NameSuffixes(disk.os, k);
      var path := Native(disk.os, k);
      var name := BaseName(disk.os, path);
      if EndsWith(name, ".jar") {
        JarSuffixOnly(k);
        r := RecompressNested(path, h);
      } else {
        Treat(k);
        r := Ok(());
      }
    }

    /** The branches of the `searchMod` loop that rewrite a file in place
        (mod.ts:112-119): JSON and mcmeta files are normalised, PNG files
        optimised, and anything else but a jar is left alone. */
    method Treat(k: string)
      requires Valid() && !IsJar(k) && Logical(disk.os, Native(disk.os, k)) == k
      modifies disk
      ensures Valid() && disk.dirs == old(disk.dirs)
      ensures forall f :: f in disk.files <==> f in old(disk.files)
      ensures forall f :: f in old(disk.files) && f != k ==> disk.files[f] == old(disk.files)[f]
      ensures k in old(disk.files) ==> Dispatched(k, old(disk.files)[k], disk.files[k])
    {
      var path := Native(disk.os, k);
      var name := BaseName(disk.os, path);
      NameSuffixes(disk.os, k);
      ghost var json, mcmeta, png := EndsWith(k, ".json"), EndsWith(k, ".mcmeta"), EndsWith(k, ".png");
      assert EndsWith(name, ".json") == json && EndsWith(name, ".mcmeta") == mcmeta && EndsWith(name, ".png") == png;
      if EndsWith(name, ".json") {
        NormalizeJson(path);
      } else if EndsWith(name, ".mcmeta") {
        NormalizeJson(path);
      } else if EndsWith(name, ".png") {
        OptimizePng(path);
      }
      RewriteFrame(old(disk.files), disk.files, k);
    }

    /** The write of the recompressed jar over the original (mod.ts:123): the
        location is still a file of the disk, so the write succeeds and its
        result is the result of the branch. */
    method WriteBack(path: string, c: Content) returns (r: Result<(), FsError>)
      requires Valid() && Logical(disk.os, path) in disk.files
      modifies disk
      ensures Valid() && disk.dirs == old(disk.dirs)
      ensures r.Ok? && disk.files == old(disk.files)[Logical(disk.os, path) := c]
    {
      r := disk.WriteFile(path, c);
    }

    /** The nested-jar branch of `searchMod` (mod.ts:120-123): the jar is
        recompressed as a nested jar and the result written over it. */
    method RecompressNested(path: string, ghost h: nat) returns (r: Result<(), FsError>)
      requires Valid() && h >= 1
      requires Logical(disk.os, path) in disk.files ==> Height(disk.files[Logical(disk.os, path)]) < h
      modifies disk
      decreases h, 0
      ensures Valid()
      ensures old(disk.dirs) <= disk.dirs
      ensures forall f :: f in old(disk.files) ==> f in disk.files
      ensures var k := Logical(disk.os, path);
        forall f :: f in old(disk.files) && f != k ==> disk.files[f] == old(disk.files)[f]
      ensures forall f :: f in disk.files && f !in old(disk.files) ==> FreshIn(tempDir, f, old(disk.dirs))
      ensures forall d :: d in disk.dirs && d !in old(disk.dirs) ==> FreshIn(tempDir, d, old(disk.dirs))
      ensures var k := Logical(disk.os, path);
        r.Ok? ==> k in old(disk.files) && k in disk.files && disk.files[k].Jar?
      ensures var k := Logical(disk.os, path);
        r.Ok? ==> && disk.files[k].options == SerialisationOptions(true)
                  && Cached(old(disk.files)[k])
      ensures var k := Logical(disk.os, path);
        r.Ok? ==> EntrySet(disk.files[k].entries)
                    == RepackSet(disk.os, disk.files[k := old(disk.files)[k]], disk.dirs, WorkspaceFor(old(disk.files)[k]))
    {
      var compressed :- CompressJar(path, true, h - 1);
      ghost var k := Logical(disk.os, path);
      ghost var mid := disk.files;
      assert forall a :: a in disk.dirs && a !in old(disk.dirs) ==> FreshIn(tempDir, a, old(disk.dirs));
      r := WriteBack(path, compressed);
      WriteBackFrame(tempDir, old(disk.files), old(disk.dirs), mid, k, compressed);
    }
  }
}
