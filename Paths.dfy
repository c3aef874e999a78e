/** The pure path computations of mod.ts: the Windows long-path shim, how the
    operating system resolves a path string to a location, the parent directory
    computed by `unzip` and the relative entry name computed by `rezip`. */
module Paths {
  import opened Strings

  /** `Deno.build.os == "windows"` or any other platform. */
  datatype Os = Windows | Other

  /** Paths this long or longer, in UTF-16 code units, need the long-path
      escape on Windows. */
  const LongPathLimit: nat := 260

  /** Windows' long-path escape, the four characters `\\?\`. */
  const LongPathPrefix: string := "\\\\?\\"

  /** The shim of mod.ts:65-69 and mod.ts:93-97: on Windows, a path whose
      `.length` is 260 or more is prefixed with `\\?\` and every `/` becomes `\`. */
  function LongPathShim(os: Os, p: string): (r: string)
    ensures r == p <==> !(os == Windows && Utf16Length(p) >= LongPathLimit)
  {
    if os == Windows && Utf16Length(p) >= LongPathLimit then ReplaceChar(LongPathPrefix + p, '/', '\\') else p
  }

  /** A rewritten path starts with the escape, holds no `/`, and after the escape
      spells the original path with `\` for every `/`. */
  lemma LongPathShimShape(os: Os, p: string)
    requires os == Windows && Utf16Length(p) >= LongPathLimit
    ensures var r := LongPathShim(os, p);
      && StartsWith(r, LongPathPrefix)
      && '/' !in r
      && r[|LongPathPrefix|..] == ReplaceChar(p, '/', '\\')
  {
    ReplaceCharConcat(LongPathPrefix, p, '/', '\\');
    ReplaceCharAbsent(LongPathPrefix, '/', '\\');
    ReplaceCharRemoves(LongPathPrefix + p, '/', '\\');
  }

  /** Drops trailing separators, as the operating system does when it resolves `a/b/`. */
  function StripTrailing(s: string): (r: string)
    ensures |r| <= |s| && r == s[..|r|]
    ensures |s| >= 1 ==> |r| >= 1
    ensures |r| <= 1 || r[|r| - 1] != '/'
    ensures |r| < |s| ==> s[|r|] == '/'
  {
    if |s| > 1 && s[|s| - 1] == '/' then StripTrailing(s[..|s| - 1]) else s
  }

  /** Stripping stops at the first non-separator from the end. */
  lemma {:induction false} StripKeeps(s: string, k: nat)
    requires 1 <= k <= |s|
    requires k == 1 || s[k - 1] != '/'
    ensures |StripTrailing(s)| >= k
    decreases |s|
  {
    if |s| > 1 && s[|s| - 1] == '/' {
      assert k <= |s| - 1;
      StripKeeps(s[..|s| - 1], k);
    }
  }

  /** A path in the form the filesystem stores it: no trailing separator, and on
      Windows no back-slash (every `\` has been read as a separator). */
  predicate Tidy(os: Os, k: string) {
    (|k| <= 1 || k[|k| - 1] != '/') && (os == Windows ==> '\\' !in k)
  }

  /** The location a path string names: on Windows the long-path escape is dropped
      and `\` is a separator like `/`; on every platform trailing separators are
      ignored. */
  function Logical(os: Os, p: string): (k: string) {
    if os == Windows then
      var q := if StartsWith(p, LongPathPrefix) then p[|LongPathPrefix|..] else p;
      StripTrailing(ReplaceChar(q, '\\', '/'))
    else
      StripTrailing(p)
  }

  /** Every location is stored tidy. */
  lemma LogicalTidy(os: Os, p: string)
    ensures Tidy(os, Logical(os, p))
  {
    if os == Windows {
      var q := if StartsWith(p, LongPathPrefix) then p[|LongPathPrefix|..] else p;
      var r := ReplaceChar(q, '\\', '/');
      ReplaceCharRemoves(q, '\\', '/');
      var k := StripTrailing(r);
      assert forall i :: 0 <= i < |k| ==> k[i] == r[i];
    }
  }

  /** The shim is only a compatibility device: it names the same location. */
  lemma LogicalOfShim(os: Os, p: string)
    requires !StartsWith(p, LongPathPrefix)
    ensures Logical(os, LongPathShim(os, p)) == Logical(os, p)
  {
    if os == Windows && Utf16Length(p) >= LongPathLimit {
      LongPathShimShape(os, p);
      ReplaceCharThere(p, '/', '\\');
    }
  }

  /** A tidy path names itself. */
  lemma LogicalOfTidy(os: Os, k: string)
    requires Tidy(os, k)
    ensures Logical(os, k) == k
  {
    if os == Windows {
      assert !StartsWith(k, LongPathPrefix) by {
        if |k| >= 1 { assert k[0] != '\\'; }
      }
      ReplaceCharAbsent(k, '\\', '/');
    }
  }

  /** How `fs.walk` spells a stored path: with the platform's own separator. */
  function Native(os: Os, k: string): string {
    if os == Windows then ReplaceChar(k, '/', '\\') else k
  }

  /** A walked path resolves to the location it was found at, provided that
      location does not itself look like a long-path escape. */
  lemma LogicalOfNative(os: Os, k: string)
    requires Tidy(os, k)
    requires !StartsWith(k, "//?/")
    ensures Logical(os, Native(os, k)) == k
  {
    if os == Windows {
      var n := Native(os, k);
      ReplaceCharAt(k, '/', '\\');
      assert StartsWith(n, LongPathPrefix) ==> k[..4] == "//?/";
      ReplaceCharThere(k, '/', '\\');
      ReplaceCharAbsent(k, '\\', '/');
    }
  }

  /** Back-slashes normalised to `/`, as `rezip` does to every walked path: the
      same for the walked spelling as for the stored one. */
  lemma NormalisedNative(os: Os, k: string)
    ensures ReplaceChar(Native(os, k), '\\', '/') == ReplaceChar(k, '\\', '/')
  {
    if os == Windows {
      ReplaceCharThere(k, '/', '\\');
    }
  }

  /** `k` is the directory `root` itself or lies below it. */
  predicate Under(root: string, k: string) {
    k == root || StartsWith(k, root + "/")
  }

  /** Stripping a path that continues past `root/` leaves `root` or something below it. */
  lemma StripUnder(q: string, root: string)
    requires |root| >= 1 && root[|root| - 1] != '/'
    requires |q| > |root| && q[..|root|] == root && q[|root|] == '/'
    ensures Under(root, StripTrailing(q))
  {
    StripKeeps(q, |root|);
    PrefixUnder(q, root, StripTrailing(q));
  }

  lemma PrefixUnder(q: string, root: string, k: string)
    requires |root| <= |k| <= |q| && k == q[..|k|]
    requires q[..|root|] == root && (|q| > |root| ==> q[|root|] == '/')
    ensures Under(root, k)
  {
    if |k| > |root| {
      PrefixOfPrefix(k, q, |root| + 1);
      assert q[..|root| + 1] == root + "/";
    } else {
      PrefixOfPrefix(k, q, |root|);
    }
  }

  lemma PrefixOfPrefix(a: string, b: string, n: nat)
    requires n <= |a| <= |b| && a == b[..|a|]
    ensures a[..n] == b[..n]
  {
  }

  /** Whatever the entry name, `root/name` resolves to `root` or to a location below it. */
  lemma LogicalUnder(os: Os, root: string, name: string)
    requires Tidy(os, root) && |root| >= 1 && root[|root| - 1] != '/'
    ensures Under(root, Logical(os, root + "/" + name))
  {
    var p := root + "/" + name;
    assert p[..|root|] == root;
    assert p[|root|] == '/';
    if os == Windows {
      assert p[0] == root[0];
      assert !StartsWith(p, LongPathPrefix);
      assert p == root + ("/" + name);
      ReplaceCharConcat(root, "/" + name, '\\', '/');
      ReplaceCharAbsent(root, '\\', '/');
      ReplaceCharAt("/" + name, '\\', '/');
      var q := ReplaceChar(p, '\\', '/');
      var t := ReplaceChar("/" + name, '\\', '/');
      assert q == root + t;
      assert t[0] == '/';
      assert q[..|root|] == root;
      assert q[|root|] == t[0];
      StripUnder(q, root);
    } else {
      StripUnder(p, root);
    }
  }

  /** The directory `unzip` makes sure of before a write (mod.ts:61-62): split the
      entry name on `/`, drop the last part, join the rest. */
  function ParentName(name: string): string {
    var parts := Split(name, '/');
    Join(parts[..|parts| - 1], '/')
  }

  lemma JoinCons(a: string, ys: seq<string>, sep: char)
    requires |ys| >= 1
    ensures Join([a] + ys, sep) == a + [sep] + Join(ys, sep)
  {
    assert ([a] + ys)[1..] == ys;
  }

  lemma DropLastCons(a: string, ys: seq<string>)
    requires |ys| >= 2
    ensures ([a] + ys)[..|ys|] == [a] + ys[..|ys| - 1]
    ensures |ys[..|ys| - 1]| >= 1
  {
  }

  /** The last `c` is the one at `k` when none follows it. */
  lemma LastIndexOfIs(s: string, c: char, k: int)
    requires -1 <= k < |s|
    requires k >= 0 ==> s[k] == c
    requires forall j :: k < j < |s| ==> s[j] != c
    ensures LastIndexOf(s, c) == k
  {
    LastIndexOfLast(s, c);
  }

  /** There is a first `c` exactly when there is a last one. */
  lemma IndexesAgree(s: string, c: char)
    ensures IndexOf(s, c) < |s| <==> LastIndexOf(s, c) >= 0
  {
    IndexOfFirst(s, c);
    LastIndexOfLast(s, c);
    if IndexOf(s, c) < |s| {
      assert s[IndexOf(s, c)] == c;
    }
    if LastIndexOf(s, c) >= 0 {
      assert s[LastIndexOf(s, c)] == c;
    }
  }

  /** The last separator of `s` is the one after the first separator plus the last one of the rest. */
  lemma LastIndexAfterFirst(s: string, i: nat, c: char)
    requires i < |s| && s[i] == c
    ensures LastIndexOf(s[i + 1..], c) >= 0 ==> LastIndexOf(s, c) == i + 1 + LastIndexOf(s[i + 1..], c)
    ensures LastIndexOf(s[i + 1..], c) < 0 ==> LastIndexOf(s, c) == i
  {
    var rest := s[i + 1..];
    var l := LastIndexOf(rest, c);
    LastIndexOfLast(rest, c);
    assert forall j :: i + 1 + l < j < |s| ==> s[j] == rest[j - i - 1];
    if l >= 0 {
      assert s[i + 1 + l] == rest[l];
      LastIndexOfIs(s, c, i + 1 + l);
    } else {
      LastIndexOfIs(s, c, i);
    }
  }

  /** Splitting at the first separator: the first piece, then the pieces of the rest. */
  lemma SplitFirst(s: string, i: nat)
    requires i == IndexOf(s, '/') && i < |s|
    ensures Split(s, '/') == [s[..i]] + Split(s[i + 1..], '/')
  {
  }

  /** The parent name is the entry name up to its last `/`, or empty when there is none. */
  lemma {:induction false} ParentNameIsPrefix(s: string)
    ensures ParentName(s) == if LastIndexOf(s, '/') >= 0 then s[..LastIndexOf(s, '/')] else ""
    decreases |s|
  {
    var i := IndexOf(s, '/');
    IndexesAgree(s, '/');
    if i < |s| {
      var rest := s[i + 1..];
      SplitFirst(s, i);
      LastIndexAfterFirst(s, i, '/');
      IndexesAgree(rest, '/');
      if IndexOf(rest, '/') < |rest| {
        ParentNameIsPrefix(rest);
        ParentNameStep(s, i);
      } else {
        assert Split(rest, '/') == [rest];
        assert Split(s, '/')[..1] == [s[..i]];
      }
    }
  }

  /** The inductive step of ParentNameIsPrefix, when the rest still has a separator. */
  lemma ParentNameStep(s: string, i: nat)
    requires i == IndexOf(s, '/') && i < |s| && IndexOf(s[i + 1..], '/') < |s[i + 1..]|
    requires LastIndexOf(s[i + 1..], '/') >= 0
    requires Split(s, '/') == [s[..i]] + Split(s[i + 1..], '/')
    requires ParentName(s[i + 1..]) == s[i + 1..][..LastIndexOf(s[i + 1..], '/')]
    requires LastIndexOf(s, '/') == i + 1 + LastIndexOf(s[i + 1..], '/')
    ensures ParentName(s) == s[..LastIndexOf(s, '/')]
  {
    ParentNameCons(s, i);
    PrefixAcross(s, i, LastIndexOf(s[i + 1..], '/'));
  }

  lemma ParentNameCons(s: string, i: nat)
    requires i == IndexOf(s, '/') && i < |s| && IndexOf(s[i + 1..], '/') < |s[i + 1..]|
    requires Split(s, '/') == [s[..i]] + Split(s[i + 1..], '/')
    ensures ParentName(s) == s[..i] + "/" + ParentName(s[i + 1..])
  {
    var rest := s[i + 1..];
    var rp := Split(rest, '/');
    SplitFirst(rest, IndexOf(rest, '/'));
    DropLastCons(s[..i], rp);
    JoinCons(s[..i], rp[..|rp| - 1], '/');
  }

  lemma PrefixAcross(s: string, i: nat, l: nat)
    requires i < |s| && s[i] == '/' && i + 1 + l <= |s|
    ensures s[..i + 1 + l] == s[..i] + "/" + s[i + 1..][..l]
  {
  }

  /** The entry name `rezip` records for a walked path (mod.ts:88, mod.ts:100):
      the root is removed from the front and the separator after it dropped. The
      source removes the first occurrence of the root anywhere in the path; the
      walk only yields paths that start with the root, where the two agree. */
  function RelativeName(filePath: string, root: string): (rel: string)
    requires StartsWith(filePath, root)
    ensures |rel| == if |filePath| > |root| then |filePath| - |root| - 1 else 0
    ensures StartsWith(filePath, root + "/") ==> filePath == root + "/" + rel
  {
    var rest := filePath[|root|..];
    if |rest| >= 1 then rest[1..] else ""
  }

  /** Repack's name for a walked path, with back-slashes first turned into `/`. */
  function RepackName(walked: string, root: string): string
    requires StartsWith(ReplaceChar(walked, '\\', '/'), ReplaceChar(root, '\\', '/'))
  {
    RelativeName(ReplaceChar(walked, '\\', '/'), ReplaceChar(root, '\\', '/'))
  }

  /** Repack's relative name inverts extraction's `root/name` on every platform
      (back-slashes inside the name come back as `/`). */
  lemma RepackNameInverts(os: Os, root: string, name: string)
    ensures StartsWith(ReplaceChar(Native(os, root + "/" + name), '\\', '/'), ReplaceChar(root, '\\', '/'))
    ensures RepackName(Native(os, root + "/" + name), root) == ReplaceChar(name, '\\', '/')
  {
    var p := root + "/" + name;
    NormalisedNative(os, p);
    ReplaceCharConcat(root + "/", name, '\\', '/');
    ReplaceCharConcat(root, "/", '\\', '/');
    ReplaceCharAbsent("/", '\\', '/');
    var rr := ReplaceChar(root, '\\', '/');
    var f := ReplaceChar(Native(os, p), '\\', '/');
    assert f == rr + "/" + ReplaceChar(name, '\\', '/');
    assert f[..|rr|] == rr;
    assert f[..|rr| + 1] == rr + "/";
  }

  /** No `/`-separated segment of `n` is `.` or `..`: a segment that starts
      with a dot goes on with something other than `/`, and not with a second
      dot that ends it. */
  predicate NoDotSegment(n: string) {
    forall i :: 0 <= i < |n| ==> NoDotAt(n, i)
  }

  /** The segment starting at `i`, if one does and it starts with a dot, is
      neither `.` nor `..`. */
  predicate NoDotAt(n: string, i: nat)
    requires i < |n|
  {
    n[i] == '.' && (i == 0 || n[i - 1] == '/') ==>
      && i + 1 < |n| && n[i + 1] != '/'
      && !(n[i + 1] == '.' && (i + 2 == |n| || n[i + 2] == '/'))
  }

  /** No segment of `n` ends in `.` or a space: Windows trims those from a
      name, so that `a.`, `a ` and `a` are one file there. */
  predicate NoTrimmedEnd(n: string) {
    forall i :: 0 <= i < |n| ==> SegmentGoesOn(n, i)
  }

  /** A `.` or a space at `i` is followed by more of its segment. */
  predicate SegmentGoesOn(n: string, i: nat)
    requires i < |n|
  {
    n[i] == '.' || n[i] == ' ' ==> i + 1 < |n| && n[i + 1] != '/'
  }

  /** An archive entry name that names a location below the workspace in one
      way only: not empty, no leading, trailing or doubled `/`, no back-slash,
      no `.` or `..` segment, and no segment ending in `.` or a space. */
  predicate ValidName(n: string) {
    && |n| >= 1 && n[0] != '/' && n[|n| - 1] != '/' && '\\' !in n
    && (forall i :: 0 < i < |n| && n[i] == '/' ==> n[i - 1] != '/')
    && NoDotSegment(n) && NoTrimmedEnd(n)
  }

  /** The check the corrected `unzip` makes of an entry name before it joins
      it to the workspace: no segment is `.` or `..`, with `\\` read as a
      separator on Windows. */
  predicate SafeName(os: Os, n: string) {
    NoDotSegment(if os == Windows then ReplaceChar(n, '\\', '/') else n)
  }

  /** How the operating system resolves the `.` and `..` segments of a location:
      `.` stays put and `..` steps out of the segment before it. */
  function Resolve(k: string): string {
    var segs := Split(k, '/');
    Join([segs[0]] + ResolveSegments(segs[1..], []), '/')
  }

  /** Resolves the segments `segs` after the ones already `kept`. */
  function ResolveSegments(segs: seq<string>, kept: seq<string>): (r: seq<string>)
    ensures |r| <= |kept| + |segs|
    decreases |segs|
  {
    if segs == [] then kept
    else if segs[0] == "." then ResolveSegments(segs[1..], kept)
    else if segs[0] == ".." then ResolveSegments(segs[1..], if kept == [] then [] else kept[..|kept| - 1])
    else ResolveSegments(segs[1..], kept + [segs[0]])
  }

  /** A plain segment is kept. */
  lemma ResolveKeeps(seg: string, segs: seq<string>, kept: seq<string>)
    requires seg != "." && seg != ".."
    ensures ResolveSegments([seg] + segs, kept) == ResolveSegments(segs, kept + [seg])
  {
    assert ([seg] + segs)[1..] == segs;
  }

  /** A `..` segment drops the segment kept last. */
  lemma ResolveClimbs(segs: seq<string>, kept: seq<string>, last: string)
    ensures ResolveSegments([".."] + segs, kept + [last]) == ResolveSegments(segs, kept)
  {
    assert ([".."] + segs)[1..] == segs;
    assert (kept + [last])[..|kept|] == kept;
  }

  /** Without `.` or `..` segments resolution keeps every segment. */
  lemma {:induction false} ResolveSegmentsPlain(segs: seq<string>, kept: seq<string>)
    requires forall j :: 0 <= j < |segs| ==> segs[j] != "." && segs[j] != ".."
    ensures ResolveSegments(segs, kept) == kept + segs
    decreases |segs|
  {
    if segs != [] {
      ResolveSegmentsPlain(segs[1..], kept + [segs[0]]);
      assert kept + [segs[0]] + segs[1..] == kept + segs;
    }
  }

  /** A location with no `.` or `..` segment resolves to itself. */
  lemma ResolveNoDot(k: string)
    requires NoDotSegment(k)
    ensures Resolve(k) == k
  {
    var segs := Split(k, '/');
    SplitNoDot(k);
    ResolveSegmentsPlain(segs[1..], []);
    assert ResolveSegments(segs[1..], []) == segs[1..];
    assert [segs[0]] + segs[1..] == segs;
    JoinSplit(k, '/');
  }

  /** No piece of a dot-free path split at `/` is `.` or `..`. */
  lemma {:induction false} SplitNoDot(s: string)
    requires NoDotSegment(s)
    ensures forall j :: 0 <= j < |Split(s, '/')| ==> Split(s, '/')[j] != "." && Split(s, '/')[j] != ".."
    decreases |s|
  {
    var i := IndexOf(s, '/');
    if |s| > 0 {
      assert NoDotAt(s, 0);
    }
    if i < |s| {
      var first := s[..i];
      assert first != "." && first != "..";
      NoDotAfter(s, i);
      SplitNoDot(s[i + 1..]);
      SplitFirst(s, i);
    }
  }

  /** What follows a `/` of a dot-free path is dot-free. */
  lemma NoDotAfter(s: string, i: nat)
    requires NoDotSegment(s) && i < |s| && s[i] == '/'
    ensures NoDotSegment(s[i + 1..])
  {
    var r := s[i + 1..];
    forall j | 0 <= j < |r| ensures NoDotAt(r, j) {
      assert NoDotAt(s, i + 1 + j);
      assert r[j] == s[i + 1 + j];
      if j > 0 {
        assert r[j - 1] == s[i + j];
      }
      if j + 1 < |r| {
        assert r[j + 1] == s[i + 2 + j];
      }
      if j + 2 < |r| {
        assert r[j + 2] == s[i + 3 + j];
      }
    }
  }

  /** Joining two dot-free paths with `/` makes no `.` or `..` segment. */
  lemma NoDotJoin(a: string, b: string)
    requires NoDotSegment(a) && NoDotSegment(b)
    ensures NoDotSegment(a + "/" + b)
  {
    var n := a + "/" + b;
    forall i | 0 <= i < |n| ensures NoDotAt(n, i) {
      if i < |a| {
        assert NoDotAt(a, i);
        assert n[i] == a[i];
        if i > 0 {
          assert n[i - 1] == a[i - 1];
        }
        if i + 1 < |a| {
          assert n[i + 1] == a[i + 1];
        }
        if i + 2 < |a| {
          assert n[i + 2] == a[i + 2];
        }
      } else if i > |a| {
        var j := i - |a| - 1;
        assert NoDotAt(b, j);
        assert n[i] == b[j];
        if j > 0 {
          assert n[i - 1] == b[j - 1];
        }
        if j + 1 < |b| {
          assert n[i + 1] == b[j + 1];
        }
        if j + 2 < |b| {
          assert n[i + 2] == b[j + 2];
        }
      }
    }
  }

  /** For a name the corrected `unzip` accepts, the location `root/name` stands
      for is one the operating system does not move by resolving it. */
  lemma SafeJoin(os: Os, root: string, name: string)
    requires RootForm(os, root) && NoDotSegment(root) && SafeName(os, name)
    ensures NoDotSegment(Logical(os, root + "/" + name))
    ensures Resolve(Logical(os, root + "/" + name)) == Logical(os, root + "/" + name)
  {
    var n' := if os == Windows then ReplaceChar(name, '\\', '/') else name;
    var q := root + "/" + n';
    NoDotJoin(root, n');
    LogicalJoined(os, root, name);
    NoDotPrefix(q, |StripTrailing(q)|);
    ResolveNoDot(Logical(os, root + "/" + name));
  }

  /** Below a root in workspace form, `root/name` names `root/name` with every
      `\\` of the name read as `/` on Windows, less trailing separators. */
  lemma LogicalJoined(os: Os, root: string, name: string)
    requires RootForm(os, root)
    ensures Logical(os, root + "/" + name)
      == StripTrailing(root + "/" + if os == Windows then ReplaceChar(name, '\\', '/') else name)
  {
    if os == Windows {
      var p := root + "/" + name;
      assert p[0] == root[0];
      assert !StartsWith(p, LongPathPrefix);
      assert p == root + ("/" + name);
      ReplaceCharConcat(root, "/" + name, '\\', '/');
      ReplaceCharConcat("/", name, '\\', '/');
      ReplaceCharAbsent(root, '\\', '/');
      ReplaceCharAbsent("/", '\\', '/');
      assert root + ("/" + ReplaceChar(name, '\\', '/')) == root + "/" + ReplaceChar(name, '\\', '/');
    }
  }

  /** The parent directory of an accepted name is accepted too. */
  lemma SafeParent(os: Os, name: string)
    requires SafeName(os, name)
    ensures SafeName(os, ParentName(name))
  {
    ParentNameIsPrefix(name);
    var l := LastIndexOf(name, '/');
    if l >= 0 {
      var n' := if os == Windows then ReplaceChar(name, '\\', '/') else name;
      if os == Windows {
        ReplaceCharAt(name, '\\', '/');
        ReplaceCharAt(name[..l], '\\', '/');
        assert ReplaceChar(name[..l], '\\', '/') == n'[..l];
      }
      NoDotPrefix(n', l);
    }
  }

  /** A workspace directory as the scratch store spells it: tidy, no trailing
      separator, no back-slash. */
  predicate RootForm(os: Os, root: string) {
    Tidy(os, root) && |root| >= 1 && root[|root| - 1] != '/' && '\\' !in root
  }

  /** `root/name` has no back-slash when neither part has one. */
  lemma JoinedPlain(root: string, name: string)
    requires '\\' !in root && '\\' !in name
    ensures '\\' !in root + "/" + name
  {
    var k := root + "/" + name;
    assert forall j :: 0 <= j < |k| ==> k[j] == (if j < |root| then root[j] else if j == |root| then '/' else name[j - |root| - 1]);
  }

  /** `root/name` for a valid name is already the location it names. */
  lemma EntryPathTidy(os: Os, root: string, name: string)
    requires RootForm(os, root) && ValidName(name)
    ensures Logical(os, root + "/" + name) == root + "/" + name
  {
    var p := root + "/" + name;
    assert p[|p| - 1] == name[|name| - 1];
    JoinedPlain(root, name);
    LogicalOfTidy(os, p);
  }

  lemma LastIndexOfNone(s: string, c: char)
    requires forall j :: 0 <= j < |s| ==> s[j] != c
    ensures LastIndexOf(s, c) == -1
  {
    LastIndexOfIs(s, c, -1);
  }

  lemma LastIndexConcat(a: string, b: string, c: char)
    ensures LastIndexOf(b, c) >= 0 ==> LastIndexOf(a + b, c) == |a| + LastIndexOf(b, c)
    ensures LastIndexOf(b, c) < 0 ==> LastIndexOf(a + b, c) == LastIndexOf(a, c)
  {
    var s := a + b;
    var l := LastIndexOf(b, c);
    LastIndexOfLast(b, c);
    assert forall j :: |a| <= j < |s| ==> s[j] == b[j - |a|];
    if l >= 0 {
      assert s[|a| + l] == c;
      LastIndexOfIs(s, c, |a| + l);
    } else {
      var la := LastIndexOf(a, c);
      LastIndexOfLast(a, c);
      assert forall j :: 0 <= j < |a| ==> s[j] == a[j];
      if la >= 0 { assert s[la] == c; }
      LastIndexOfIs(s, c, la);
    }
  }

  /** The directory `unzip` ensures for an entry (the workspace joined with the
      split/pop/join parent name) is the directory the file is then written
      into: its last `/` splits off the same parent. */
  lemma ParentOfEntry(os: Os, root: string, name: string)
    requires RootForm(os, root) && ValidName(name)
    ensures var i := LastIndexOf(root + "/" + name, '/');
      0 < i && StripTrailing((root + "/" + name)[..i]) == Logical(os, root + "/" + ParentName(name))
  {
    ParentNameIsPrefix(name);
    LastIndexConcat(root + "/", name, '/');
    LastIndexConcat(root, "/", '/');
    if LastIndexOf(name, '/') >= 0 {
      ParentOfNestedEntry(os, root, name);
    } else {
      ParentOfFlatEntry(os, root, name);
    }
  }

  lemma ParentOfNestedEntry(os: Os, root: string, name: string)
    requires RootForm(os, root) && ValidName(name) && LastIndexOf(name, '/') >= 0
    requires ParentName(name) == name[..LastIndexOf(name, '/')]
    requires LastIndexOf(root + "/" + name, '/') == |root| + 1 + LastIndexOf(name, '/')
    ensures var i := LastIndexOf(root + "/" + name, '/');
      0 < i && StripTrailing((root + "/" + name)[..i]) == Logical(os, root + "/" + ParentName(name))
  {
    var l := LastIndexOf(name, '/');
    var p := root + "/" + name;
    assert name[l] == '/';
    assert l > 0;
    assert name[l - 1] != '/';
    PrefixOfJoined(root, name, l);
    assert p[..LastIndexOf(p, '/')] == root + "/" + name[..l];
    EntryPrefixTidy(os, root, name, l);
  }

  lemma ParentOfFlatEntry(os: Os, root: string, name: string)
    requires RootForm(os, root) && LastIndexOf(name, '/') < 0
    requires ParentName(name) == ""
    requires LastIndexOf(root + "/" + name, '/') == |root|
    ensures var i := LastIndexOf(root + "/" + name, '/');
      0 < i && StripTrailing((root + "/" + name)[..i]) == Logical(os, root + "/" + ParentName(name))
  {
    assert (root + "/" + name)[..|root|] == root;
    assert root + "/" + ParentName(name) == root + "/";
    RootSlash(os, root);
  }

  lemma PrefixOfJoined(a: string, b: string, l: nat)
    requires l <= |b|
    ensures (a + "/" + b)[..|a| + 1 + l] == a + "/" + b[..l]
  {
  }

  lemma EntryPrefixTidy(os: Os, root: string, name: string, l: nat)
    requires RootForm(os, root) && ValidName(name)
    requires 0 < l < |name| && name[l - 1] != '/'
    ensures StripTrailing(root + "/" + name[..l]) == root + "/" + name[..l]
    ensures Logical(os, root + "/" + name[..l]) == root + "/" + name[..l]
  {
    var q := root + "/" + name[..l];
    assert q[|q| - 1] == name[l - 1];
    assert '\\' !in name[..l];
    JoinedPlain(root, name[..l]);
    LogicalOfTidy(os, q);
  }

  lemma RootSlash(os: Os, root: string)
    requires RootForm(os, root)
    ensures Logical(os, root + "/") == root
    ensures StripTrailing(root) == root
  {
    var p := root + "/";
    JoinedPlain(root, "");
    assert p == root + "/" + "";
    if os == Windows {
      assert p[0] != '\\';
      ReplaceCharAbsent(p, '\\', '/');
    }
    assert p[..|root|] == root;
    assert StripTrailing(p) == StripTrailing(root);
  }

  /** A valid name cut just before one of its `/`, or at its end, is valid. */
  lemma ValidPrefix(v: string, i: nat)
    requires ValidName(v) && 0 < i <= |v| && (i == |v| || v[i] == '/')
    ensures ValidName(v[..i])
  {
    var u := v[..i];
    assert u[0] == v[0];
    if i < |v| {
      assert u[i - 1] == v[i - 1] && v[i - 1] != '/';
    }
    assert forall j :: 0 <= j < |u| ==> u[j] == v[j];
    NoDotPrefix(v, i);
    NoTrimmedPrefix(v, i);
  }

  /** Cutting a name just before a `/`, or at its end, ends no segment in `.` or
      a space. */
  lemma NoTrimmedPrefix(v: string, i: nat)
    requires NoTrimmedEnd(v) && i <= |v| && (i == |v| || v[i] == '/')
    ensures NoTrimmedEnd(v[..i])
  {
    var u := v[..i];
    forall j | 0 <= j < |u| ensures SegmentGoesOn(u, j) {
      assert SegmentGoesOn(v, j);
      if j + 1 < |u| {
        assert u[j + 1] == v[j + 1];
      }
    }
  }

  /** Cutting a name just before a `/`, or at its end, makes no new segment. */
  lemma NoDotPrefix(v: string, i: nat)
    requires NoDotSegment(v) && i <= |v| && (i == |v| || v[i] == '/')
    ensures NoDotSegment(v[..i])
  {
    var u := v[..i];
    forall j | 0 <= j < |u| ensures NoDotAt(u, j) {
      assert NoDotAt(v, j);
      if j > 0 {
        assert u[j - 1] == v[j - 1];
      }
      if j + 1 < |u| {
        assert u[j + 1] == v[j + 1];
      }
      if j + 2 < |u| {
        assert u[j + 2] == v[j + 2];
      }
    }
  }

  /** The workspace joined with a valid name is itself in workspace form. */
  lemma JoinedRootForm(os: Os, root: string, v: string)
    requires RootForm(os, root) && ValidName(v)
    ensures RootForm(os, root + "/" + v)
  {
    var k := root + "/" + v;
    assert k[|k| - 1] == v[|v| - 1];
    JoinedPlain(root, v);
  }

  /** The separator `fs.walk` spells its paths with. */
  function Separator(os: Os): char {
    if os == Windows then '\\' else '/'
  }

  /** `file.name` of a walk entry: its path after the last separator. */
  function BaseName(os: Os, p: string): string {
    p[LastIndexOf(p, Separator(os)) + 1..]
  }

  /** A suffix without a separator ends the path exactly when it ends the name. */
  lemma BaseNameSuffix(os: Os, p: string, s: string)
    requires Separator(os) !in s
    ensures EndsWith(BaseName(os, p), s) <==> EndsWith(p, s)
  {
    var c := Separator(os);
    var l := LastIndexOf(p, c);
    var b := BaseName(os, p);
    if EndsWith(p, s) {
      assert b[|b| - |s|..] == p[|p| - |s|..];
    }
    if EndsWith(b, s) {
      assert p[|p| - |s|..] == b[|b| - |s|..];
    }
  }
}
