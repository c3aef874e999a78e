/** Archives as jszip hands them to mod.ts: a sequence of entries, each a
    directory marker or a file with its contents, plus the options the archive
    is serialised with. */
module Archive {
  import opened Wrappers

  type Byte = bv8

  /** What a file holds: plain bytes, or the bytes of an archive jszip can read,
      kept in read form. A nested `.jar` is a `Jar` inside an entry, so archives
      nest as a finite tree. */
  datatype Content =
    | Blob(bytes: seq<Byte>)
    | Jar(entries: seq<Entry>, options: GenerateOptions)

  /** One archive entry: its slash-separated name, the directory flag, and the
      payload (empty for directory markers). */
  datatype Entry = Entry(name: string, dir: bool, content: Content)

  datatype Compression = Store | Deflate

  /** The options object passed to `generateAsync` (mod.ts:48-53). */
  datatype GenerateOptions = GenerateOptions(compression: Compression, level: Option<nat>, mimeType: string)

  const JarMimeType: string := "application/java-archive"

  /** The strongest DEFLATE level jszip accepts. */
  const MaxLevel: nat := 9

  /** mod.ts:48-53: a nested jar (`isJiJ`) is stored without compression so its
      consumer reads it without a second inflate; a top-level jar is deflated at
      level 9. Either way the archive is labelled as a Java archive. */
  function SerialisationOptions(isJiJ: bool): (o: GenerateOptions)
    ensures o.mimeType == JarMimeType
    ensures o.compression == Store <==> isJiJ
    ensures o.level.None? <==> o.compression == Store
    ensures o.level.Some? ==> o.level.value == MaxLevel
  {
    if isJiJ then GenerateOptions(Store, None, JarMimeType)
    else GenerateOptions(Deflate, Some(MaxLevel), JarMimeType)
  }

  function Max(s: seq<nat>): (m: nat)
    ensures forall i :: 0 <= i < |s| ==> s[i] <= m
  {
    if s == [] then 0 else var t := Max(s[1..]); if s[0] > t then s[0] else t
  }

  /** How deeply archives nest inside `c`; 0 for plain bytes. */
  function Height(c: Content): nat {
    match c
    case Blob(_) => 0
    case Jar(es, _) => 1 + Max(seq(|es|, i requires 0 <= i < |es| => Height(es[i].content)))
  }

  /** Every entry of an archive nests less deeply than the archive. */
  lemma EntryHeight(c: Content, e: Entry)
    requires c.Jar? && e in c.entries
    ensures Height(e.content) < Height(c)
  {
    var es := c.entries;
    var hs := seq(|es|, i requires 0 <= i < |es| => Height(es[i].content));
    var i :| 0 <= i < |es| && es[i] == e;
    assert hs[i] == Height(e.content);
  }
}
