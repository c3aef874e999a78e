/** The filesystem mod.ts works on, reduced to what its calls observe: a map from
    location to file contents and a set of existing directories. Every call takes
    the path string the source passes and resolves it with `Logical`, so a
    long-path spelling and a plain spelling reach the same file. */
module FileSystem {
  import opened Wrappers
  import opened Strings
  import opened Paths
  import opened Archive

  /** The errors the Deno calls throw, and `UnsafeEntry`: the corrected `unzip`
      refusing an entry whose name has a `.` or `..` segment. */
  datatype FsError =
    | NotFound(path: string)
    | IsADirectory(path: string)
    | NotADirectory(path: string)
    | MissingParent(path: string)
    | NotAZip(path: string)
    | UnsafeEntry(name: string)

  /** The directories above `k`: each prefix that ends just before a separator
      (and not inside a run of separators). */
  function Ancestors(k: string): set<string> {
    set i | 0 < i < |k| && k[i] == '/' && k[i - 1] != '/' :: k[..i]
  }

  lemma AncestorsTidy(os: Os, k: string)
    requires Tidy(os, k)
    ensures forall a :: a in Ancestors(k) ==> Tidy(os, a)
  {
    forall a | a in Ancestors(k) ensures Tidy(os, a) {
      var i :| 0 < i < |k| && k[i] == '/' && k[i - 1] != '/' && a == k[..i];
      assert a[|a| - 1] == k[i - 1];
      if os == Windows {
        assert forall j :: 0 <= j < |a| ==> a[j] == k[j];
      }
    }
  }

  /** The directories above a location with no `.` or `..` segment have none
      either, so each resolves to itself. */
  lemma AncestorsNoDot(k: string)
    requires NoDotSegment(k)
    ensures forall a :: a in Ancestors(k) ==> NoDotSegment(a) && Resolve(a) == a
  {
    forall a | a in Ancestors(k) ensures NoDotSegment(a) && Resolve(a) == a {
      var i :| 0 < i < |k| && k[i] == '/' && k[i - 1] != '/' && a == k[..i];
      NoDotPrefix(k, i);
      ResolveNoDot(a);
    }
  }

  /** Making a directory below `root` makes `root` too. */
  lemma UnderAncestor(root: string, k: string)
    requires |root| >= 1 && root[|root| - 1] != '/' && Under(root, k)
    ensures root in Ancestors(k) + {k}
  {
    if k != root {
      assert k[..|root| + 1] == root + "/";
      assert k[|root|] == '/' && k[|root| - 1] != '/';
      assert k[..|root|] == root;
    }
  }

  /** The directory a file at `k` goes into, when `k` has one besides the
      filesystem root or the working directory. */
  function ParentOf(k: string): Option<string> {
    var i := LastIndexOf(k, '/');
    if i <= 0 then None else Some(StripTrailing(k[..i]))
  }

  /** `root` and every stored location below it. */
  function Subtree(files: map<string, Content>, dirs: set<string>, root: string): (s: set<string>)
    ensures forall k :: k in s <==> (k in files || k in dirs) && Under(root, k)
  {
    set k | k in files.Keys + dirs && Under(root, k)
  }

  class Disk {
    const os: Os
    var files: map<string, Content>
    var dirs: set<string>

    /** No location is both a file and a directory, and locations are stored tidy. */
    ghost predicate Valid()
      reads this
    {
      && files.Keys !! dirs
      && (forall k :: k in files ==> Tidy(os, k))
      && (forall k :: k in dirs ==> Tidy(os, k))
    }

    constructor (os: Os, files: map<string, Content>, dirs: set<string>)
      requires files.Keys !! dirs
      requires forall k :: k in files ==> Tidy(os, k)
      requires forall k :: k in dirs ==> Tidy(os, k)
      ensures Valid()
      ensures this.os == os && this.files == files && this.dirs == dirs
    {
      this.os := os;
      this.files := files;
      this.dirs := dirs;
    }

    /** `fs.exists`: a file or a directory is there. */
    method Exists(p: string) returns (b: bool)
      ensures b <==> Logical(os, p) in files || Logical(os, p) in dirs
    {
      var k := Logical(os, p);
      b := k in files || k in dirs;
    }

    /** `Deno.readFile`. */
    method ReadFile(p: string) returns (r: Result<Content, FsError>)
      ensures r.Ok? <==> Logical(os, p) in files
      ensures r.Ok? ==> r.value == files[Logical(os, p)]
      ensures r.Err? ==> r.error == if Logical(os, p) in dirs then IsADirectory(Logical(os, p)) else NotFound(Logical(os, p))
    {
      var k := Logical(os, p);
      if k in files {
        r := Ok(files[k]);
      } else if k in dirs {
        r := Err(IsADirectory(k));
      } else {
        r := Err(NotFound(k));
      }
    }

    /** `Deno.writeFile`: replaces an existing file, or creates one whose parent
        directory exists. */
    method WriteFile(p: string, c: Content) returns (r: Result<(), FsError>)
      requires Valid()
      modifies this
      ensures Valid() && dirs == old(dirs)
      ensures var k := Logical(os, p);
        && (r.Ok? <==> k !in dirs && (k in old(files) || ParentOf(k).None? || ParentOf(k).value in dirs))
        && (r.Ok? ==> files == old(files)[k := c])
        && (r.Err? ==> files == old(files) && r.error == if k in dirs then IsADirectory(k) else MissingParent(k))
    {
      var k := Logical(os, p);
      LogicalTidy(os, p);
      var parent := ParentOf(k);
      if k in dirs {
        r := Err(IsADirectory(k));
      } else if k in files || parent.None? || parent.value in dirs {
        files := files[k := c];
        r := Ok(());
      } else {
        r := Err(MissingParent(k));
      }
    }

    /** `Deno.mkdir(p, {recursive: true})` and `fs.ensureDir(p)`: the directory and
        all its ancestors exist afterwards; it fails where a file stands in the way. */
    method MkdirAll(p: string) returns (r: Result<(), FsError>)
      requires Valid()
      modifies this
      ensures Valid() && files == old(files)
      ensures var k := Logical(os, p);
        && (r.Ok? <==> (Ancestors(k) + {k}) !! files.Keys)
        && (r.Ok? ==> dirs == old(dirs) + Ancestors(k) + {k})
        && (r.Err? ==> dirs == old(dirs) && r.error == NotADirectory(k))
    {
      var k := Logical(os, p);
      LogicalTidy(os, p);
      var made := Ancestors(k) + {k};
      if made !! files.Keys {
        AncestorsTidy(os, k);
        dirs := dirs + made;
        r := Ok(());
      } else {
        r := Err(NotADirectory(k));
      }
    }

    /** `fs.walk(root)`: the root and every location below it, in an order the
        platform chooses; fails when the root is not a directory. */
    method Walk(root: string) returns (r: Result<set<string>, FsError>)
      ensures r.Ok? <==> Logical(os, root) in dirs
      ensures r.Ok? ==> r.value == Subtree(files, dirs, Logical(os, root))
      ensures r.Err? ==> r.error == if Logical(os, root) in files then NotADirectory(Logical(os, root)) else NotFound(Logical(os, root))
    {
      var k := Logical(os, root);
      if k in dirs {
        r := Ok(Subtree(files, dirs, k));
      } else if k in files {
        r := Err(NotADirectory(k));
      } else {
        r := Err(NotFound(k));
      }
    }
  }
}
