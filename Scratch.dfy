/** The scratch store of mod.ts: one workspace directory per archive, named
    `tempDir/<digest>` after the MD5 digest of the archive (mod.ts:37-39), and
    which workspace a scratch location belongs to. */
module Scratch {
  import opened Strings
  import opened Paths

  predicate IsHexDigit(c: char) {
    '0' <= c <= '9' || 'a' <= c <= 'f'
  }

  /** The form `hash.toString()` gives an MD5 digest: 32 lower-case hex digits. */
  predicate IsDigest(d: string) {
    |d| == 32 && forall i :: 0 <= i < |d| ==> IsHexDigit(d[i])
  }

  type Digest = d: string | IsDigest(d) witness "00000000000000000000000000000000"

  /** A scratch directory as `Deno.makeTempDir` returns it, in stored form,
      not itself spelled like a long-path escape, and with no `.` or `..`
      segment. */
  predicate ScratchRoot(os: Os, t: string) {
    RootForm(os, t) && |t| >= 4 && t[..4] != "//?/" && NoDotSegment(t)
  }

  /** The workspace of an archive with digest `d` (mod.ts:39). */
  function WorkspacePath(t: string, d: Digest): string {
    t + "/" + d
  }

  /** `ws` is the workspace of some digest. */
  predicate IsWorkspace(t: string, ws: string) {
    StartsWith(ws, t + "/") && IsDigest(ws[|t| + 1..])
  }

  lemma WorkspaceIs(t: string, d: Digest)
    ensures IsWorkspace(t, WorkspacePath(t, d))
  {
    assert WorkspacePath(t, d)[|t| + 1..] == d;
  }

  /** The digest a workspace is named after. */
  lemma WorkspaceDigest(t: string, ws: string) returns (d: Digest)
    requires IsWorkspace(t, ws)
    ensures ws == WorkspacePath(t, d)
  {
    d := ws[|t| + 1..];
    assert ws == ws[..|t| + 1] + ws[|t| + 1..];
  }

  /** The workspace a scratch location `t/<name>/...` lies in: `t/<name>`. */
  function WorkspaceOf(t: string, k: string): (w: string)
    requires StartsWith(k, t + "/")
    ensures StartsWith(w, t + "/")
  {
    var rest := k[|t| + 1..];
    t + "/" + rest[..IndexOf(rest, '/')]
  }

  /** `k` lies in a workspace that is not among `dirs`. */
  predicate FreshIn(t: string, k: string, dirs: set<string>) {
    StartsWith(k, t + "/") && WorkspaceOf(t, k) !in dirs
  }

  /** Every scratch file lies in a workspace that exists. */
  predicate ScratchClosed<C>(t: string, files: map<string, C>, dirs: set<string>) {
    forall k :: k in files && StartsWith(k, t + "/") ==> WorkspaceOf(t, k) in dirs
  }

  /** Writing a file keeps the scratch store closed when the file's workspace exists. */
  lemma ScratchClosedPut<C>(t: string, files: map<string, C>, dirs: set<string>, k: string, c: C)
    requires ScratchClosed(t, files, dirs)
    requires StartsWith(k, t + "/") ==> WorkspaceOf(t, k) in dirs
    ensures ScratchClosed(t, files[k := c], dirs)
  {
  }

  /** The first `c` is the one at `k` when none comes before it. */
  lemma IndexOfIs(s: string, c: char, k: nat)
    requires k <= |s| && (k < |s| ==> s[k] == c)
    requires forall j :: 0 <= j < k ==> s[j] != c
    ensures IndexOf(s, c) == k
  {
    IndexOfFirst(s, c);
  }

  /** A digest has no separator of either kind, no dot and no space. */
  lemma DigestPlain(d: Digest)
    ensures forall i :: 0 <= i < |d| ==> d[i] != '/' && d[i] != '\\' && d[i] != '.' && d[i] != ' '
  {
    forall i | 0 <= i < |d| ensures d[i] != '/' && d[i] != '\\' && d[i] != '.' && d[i] != ' ' {
      assert IsHexDigit(d[i]);
    }
  }

  /** Every location in the workspace of `d` belongs to that workspace. */
  lemma WorkspaceOfUnder(t: string, d: Digest, k: string)
    requires Under(WorkspacePath(t, d), k)
    ensures StartsWith(k, t + "/") && WorkspaceOf(t, k) == WorkspacePath(t, d)
  {
    var w := WorkspacePath(t, d);
    assert k[..|w|] == w;
    assert k[..|t| + 1] == w[..|t| + 1] == t + "/";
    var rest := k[|t| + 1..];
    assert rest[..|d|] == d;
    DigestPlain(d);
    if |k| > |w| {
      assert k[..|w| + 1] == w + "/";
      assert rest[|d|] == k[|w|] == '/';
    }
    IndexOfIs(rest, '/', |d|);
  }

  /** A workspace is in the same stored form as the scratch directory. */
  lemma WorkspaceForm(os: Os, t: string, d: Digest)
    requires ScratchRoot(os, t)
    ensures ScratchRoot(os, WorkspacePath(t, d))
    ensures ValidName(d)
  {
    var w := WorkspacePath(t, d);
    DigestPlain(d);
    assert '\\' !in d;
    JoinedPlain(t, d);
    assert w[|w| - 1] == d[|d| - 1];
    assert w[..4] == t[..4];
    assert NoDotSegment(d) && NoTrimmedEnd(d);
    NoDotJoin(t, d);
  }

  /** A location in a workspace is not spelled like a long-path escape. */
  lemma UnderScratchRoot(os: Os, t: string, d: Digest, k: string)
    requires ScratchRoot(os, t) && Under(WorkspacePath(t, d), k)
    ensures !StartsWith(k, "//?/")
  {
    var w := WorkspacePath(t, d);
    assert k[..|w|] == w;
    assert k[..4] == w[..4] == t[..4];
  }
}
