/** The media catalog as values: the metadata record, the list and map
    updates that MediaStorage and MediaManager perform on their `mediaURLs`
    array and `mediaMetadata` dictionary, the persisted form of the URL list,
    the name a rename produces, and the facts about them that the two classes
    rely on. */
module Catalog {
  import opened Wrappers
  import opened Text
  import opened Hex
  import opened Paths

  /** One entry of `mediaMetadata`: the five string fields the stores write. */
  datatype Metadata = Metadata(
    fileName: string,
    size: string,
    date: string,
    hashTag: string,
    uploadedBy: string)

  type MetadataMap = map<string, Metadata>

  /** `generateFileHash`: the hex rendering of the content digest. */
  function FileHash(sha: Bytes -> Digest, data: Bytes): (h: string)
    ensures |h| == 64
    ensures forall i :: 0 <= i < |h| ==> IsHexChar(h[i])
    ensures HexDecode(h) == Option<Bytes>.Some(sha(data))
  {
    HexRoundTrip(sha(data));
    HexEncode(sha(data))
  }

  /** `"\(fileSize / 1024) KB"`. */
  function SizeText(fileSize: nat): (s: string)
    ensures HasSuffix(s, " KB") && |s| > 3
    ensures forall i :: 0 <= i < |s| - 3 ==> IsDigitChar(s[i])
  {
    var digits := DecimalString(fileSize / 1024);
    HasSuffixOfConcat(digits, " KB");
    digits + " KB"
  }

  /** The size field states the whole number of kibibytes of the file. */
  lemma SizeTextStatesKilobytes(fileSize: nat)
    ensures ParseDecimal(SizeText(fileSize)[..|SizeText(fileSize)| - 3]) == fileSize / 1024
  {
    var digits := DecimalString(fileSize / 1024);
    assert SizeText(fileSize)[..|SizeText(fileSize)| - 3] == digits;
    DecimalRoundTrip(fileSize / 1024);
  }

  /** The record `saveMetadata(for:hashTag:uploadedBy:)` stores for a URL. */
  function MakeMetadata(u: Url, fileSize: nat, date: string, hash: string, uploadedBy: string): Metadata
  {
    Metadata(LastPathComponent(u), SizeText(fileSize), date, "#" + hash, uploadedBy)
  }

  /** A file saved under `name` in a directory is described by a record that
      carries that name, the size in kilobytes, its hash behind a '#', and its
      uploader. */
  lemma SavedRecordDescribesFile(dir: Url, name: string, data: Bytes, sha: Bytes -> Digest,
                                 date: string, uploadedBy: string)
    requires '/' !in name
    ensures var m := MakeMetadata(AppendingPathComponent(dir, name), |data|, date, FileHash(sha, data), uploadedBy);
      && m.fileName == name
      && |m.hashTag| == 65 && m.hashTag[0] == '#'
      && HexDecode(m.hashTag[1..]) == Option<Bytes>.Some(sha(data))
      && ParseDecimal(m.size[..|m.size| - 3]) == |data| / 1024
      && m.uploadedBy == uploadedBy
  {
    AppendThenSplit(dir, name);
    SizeTextStatesKilobytes(|data|);
    var m := MakeMetadata(AppendingPathComponent(dir, name), |data|, date, FileHash(sha, data), uploadedBy);
    assert m.hashTag[1..] == FileHash(sha, data);
  }

  /** `mediaURLs.remove(at: i)`. */
  function RemoveAt<T>(s: seq<T>, i: nat): (r: seq<T>)
    requires i < |s|
    ensures |r| == |s| - 1
    ensures forall j :: 0 <= j < i ==> r[j] == s[j]
    ensures forall j :: i <= j < |r| ==> r[j] == s[j + 1]
  {
    s[..i] + s[i + 1..]
  }

  /** `mediaMetadata[key]?["hashTag"] = "#" + newHash`: only an existing
      entry is touched. */
  function WithHashTag(meta: MetadataMap, key: string, newHash: string): (r: MetadataMap)
    ensures r.Keys == meta.Keys
    ensures key in meta ==> r[key] == meta[key].(hashTag := "#" + newHash)
    ensures forall k :: k in meta && k != key ==> r[k] == meta[k]
  {
    if key in meta then meta[key := meta[key].(hashTag := "#" + newHash)] else meta
  }

  /** Updating a tag and then updating it again keeps only the second, and an
      update of an absent key changes nothing. */
  lemma WithHashTagLastWins(meta: MetadataMap, key: string, h1: string, h2: string)
    ensures WithHashTag(WithHashTag(meta, key, h1), key, h2) == WithHashTag(meta, key, h2)
    ensures key !in meta ==> WithHashTag(meta, key, h1) == meta
  {
  }

  /** `mediaURLs.filter { fileManager.fileExists(atPath: $0.path) }`. */
  function KeepExisting(urls: seq<Url>, present: set<string>): (r: seq<Url>)
    ensures |r| <= |urls|
    ensures forall u :: u in r <==> u in urls && u.path in present
    ensures IsSubsequence(r, urls)
    ensures forall u {:trigger multiset(r)[u]} :: multiset(r)[u] == if u.path in present then multiset(urls)[u] else 0
  {
    if urls == [] then []
    else
      assert urls == [urls[0]] + urls[1..];
      if urls[0].path in present then [urls[0]] + KeepExisting(urls[1..], present)
      else KeepExisting(urls[1..], present)
  }

  /** `a` is `b` with some elements left out and the rest in their order. */
  predicate IsSubsequence<T(==)>(a: seq<T>, b: seq<T>)
  {
    if a == [] then true
    else if b == [] then false
    else (a[0] == b[0] && IsSubsequence(a[1..], b[1..])) || IsSubsequence(a, b[1..])
  }

  /** Pruning twice prunes nothing more. */
  lemma {:induction false} KeepExistingIdempotent(urls: seq<Url>, present: set<string>)
    ensures KeepExisting(KeepExisting(urls, present), present) == KeepExisting(urls, present)
  {
    if urls != [] {
      var rest := KeepExisting(urls[1..], present);
      KeepExistingIdempotent(urls[1..], present);
      if urls[0].path in present {
        assert ([urls[0]] + rest)[0] == urls[0];
        assert ([urls[0]] + rest)[1..] == rest;
      }
    }
  }

  /** Pruning a catalog whose files all exist leaves it as it is. */
  lemma {:induction false} KeepExistingAllPresent(urls: seq<Url>, present: set<string>)
    requires forall j :: 0 <= j < |urls| ==> urls[j].path in present
    ensures KeepExisting(urls, present) == urls
  {
    if urls != [] {
      assert forall j :: 0 <= j < |urls[1..]| ==> urls[1..][j].path == urls[j + 1].path;
      KeepExistingAllPresent(urls[1..], present);
      assert urls == [urls[0]] + urls[1..];
    }
  }

  /** `mediaURLs.map { $0.absoluteString }`, the value stored under
      "savedMediaURLs". */
  function PersistedPaths(urls: seq<Url>): (paths: seq<string>)
    ensures |paths| == |urls|
    ensures forall i :: 0 <= i < |urls| ==> paths[i] == AbsoluteString(urls[i])
  {
    seq(|urls|, i requires 0 <= i < |urls| => AbsoluteString(urls[i]))
  }

  /** `paths.compactMap { URL(string: $0) }`: strings that do not parse are
      dropped. */
  function LoadUrls(paths: seq<string>): (urls: seq<Url>)
    ensures |urls| <= |paths|
    ensures forall u :: u in urls ==> AbsoluteString(u) in paths
  {
    if paths == [] then []
    else
      match ParseUrl(paths[0])
      case Some(u) => [u] + LoadUrls(paths[1..])
      case None => LoadUrls(paths[1..])
  }

  /** Persisting the catalog and loading it back yields the same catalog. */
  lemma {:induction false} UrlListRoundTrip(urls: seq<Url>)
    ensures LoadUrls(PersistedPaths(urls)) == urls
  {
    if urls != [] {
      var paths := PersistedPaths(urls);
      ParseAbsoluteString(urls[0]);
      assert paths[1..] == PersistedPaths(urls[1..]);
      UrlListRoundTrip(urls[1..]);
      assert urls == [urls[0]] + urls[1..];
    }
  }

  /** The name `renameFile` gives the file: the requested name, with
      `"." + ext` appended when the old file had an extension that the new
      name does not already end with (compared in lower case). */
  function FinalName(newName: string, ext: string): string
  {
    if ext != [] && !HasSuffix(Lower(newName), Lower(ext)) then newName + "." + ext else newName
  }

  /** Whatever name is asked for, the final name ends with the old extension
      (ignoring case), and it differs from the requested one only by the
      appended extension. The name is kept as it is exactly when there is no
      extension or the name already ends with it (ignoring case). */
  lemma FinalNameKeepsExtension(newName: string, ext: string)
    ensures ext != [] ==> HasSuffix(Lower(FinalName(newName, ext)), Lower(ext))
    ensures FinalName(newName, ext) == newName || FinalName(newName, ext) == newName + "." + ext
    ensures ext == [] ==> FinalName(newName, ext) == newName
    ensures FinalName(newName, ext) == newName <==> ext == [] || HasSuffix(Lower(newName), Lower(ext))
  {
    if ext != [] && !HasSuffix(Lower(newName), Lower(ext)) {
      LowerConcat(newName + ".", ext);
      HasSuffixOfConcat(Lower(newName + "."), Lower(ext));
    }
  }

  /** A name with neither '/' nor '.' gives a file without extension. */
  lemma NoDotNoExtension(dir: Url, name: string)
    requires '/' !in name && '.' !in name
    ensures PathExtension(AppendingPathComponent(dir, name)) == ""
  {
    AppendThenSplit(dir, name);
  }

  /** The name test looks at the bare extension, not at "." + extension: a
      new name that merely ends with the letters of the extension is kept as
      it is, and the renamed file then has no extension at all. */
  lemma FinalNameSuffixIgnoresDot(dir: Url)
    ensures FinalName("photojpg", "jpg") == "photojpg"
    ensures PathExtension(AppendingPathComponent(dir, "photojpg")) == ""
  {
    var n := "photojpg";
    assert forall i :: 0 <= i < |n| ==> LowerChar(n[i]) == n[i];
    assert Lower(n) == n;
    assert Lower("jpg") == "jpg";
    assert n[5..] == "jpg";
    NoDotNoExtension(dir, n);
  }

  /** The URL `renameFile` moves the file at `from` to. */
  function RenamedUrl(from: Url, newName: string): Url
  {
    AppendingPathComponent(DeletingLastPathComponent(from), FinalName(newName, PathExtension(from)))
  }

  /** A rename keeps the file in its directory under the final name. */
  lemma RenamedUrlStaysInDirectory(from: Url, newName: string)
    requires '/' !in newName
    ensures LastPathComponent(RenamedUrl(from, newName)) == FinalName(newName, PathExtension(from))
    ensures DeletingLastPathComponent(RenamedUrl(from, newName)) == DeletingLastPathComponent(from)
  {
    var fin := FinalName(newName, PathExtension(from));
    FinalNameKeepsExtension(newName, PathExtension(from));
    assert '/' !in fin by {
      if fin != newName {
        assert fin == newName + "." + PathExtension(from);
      }
    }
    AppendThenSplit(DeletingLastPathComponent(from), fin);
  }

  /** When the old file has an extension that the requested name lacks, the
      renamed file has that same extension. */
  lemma RenamedFileKeepsExtension(from: Url, newName: string)
    requires '/' !in newName && newName != []
    requires PathExtension(from) != []
    requires !HasSuffix(Lower(newName), Lower(PathExtension(from)))
    ensures PathExtension(RenamedUrl(from, newName)) == PathExtension(from)
  {
    var ext := PathExtension(from);
    assert FinalName(newName, ext) == newName + "." + ext;
    ExtensionOfDottedName(DeletingLastPathComponent(from), newName, ext);
  }

  /** `renameFile` does not check the requested name for '/': a name
      `sub/n` moves the file into the subdirectory `sub` of its old
      directory. */
  lemma SlashNameLeavesDirectory(from: Url, sub: string, n: string)
    requires '/' !in sub && '/' !in n
    ensures DeletingLastPathComponent(RenamedUrl(from, sub + "/" + n))
              == AppendingPathComponent(DeletingLastPathComponent(from), sub)
    ensures DeletingLastPathComponent(RenamedUrl(from, sub + "/" + n)) != DeletingLastPathComponent(from)
  {
    var dir := DeletingLastPathComponent(from);
    var ext := PathExtension(from);
    var newName := sub + "/" + n;
    var fin := FinalName(newName, ext);
    assert RenamedUrl(from, newName) == AppendingPathComponent(dir, fin);
    FinalNameKeepsExtension(newName, ext);
    var m := if fin == newName then n else n + "." + ext;
    assert fin == sub + "/" + m by {
      if fin != newName {
        Regroup(sub, n, ext);
      }
    }
    NestedName(dir, sub, m);
  }

  lemma Regroup(sub: string, n: string, ext: string)
    ensures sub + "/" + n + "." + ext == sub + "/" + (n + "." + ext)
  {
  }

  /** Appending `sub/m` to a directory puts `m` in its subdirectory `sub`. */
  lemma NestedName(dir: Url, sub: string, m: string)
    requires '/' !in sub && '/' !in m
    ensures DeletingLastPathComponent(AppendingPathComponent(dir, sub + "/" + m))
              == AppendingPathComponent(dir, sub)
    ensures AppendingPathComponent(dir, sub) != dir
  {
    var inner := AppendingPathComponent(dir, sub);
    assert dir.path + "/" + (sub + "/" + m) == inner.path + "/" + m;
    AppendThenSplit(inner, m);
    assert |inner.path| > |dir.path|;
  }

  /** `renameFile` does not reject an empty name either: the final name is
      then "." followed by the old extension, a name with a leading dot and
      so without extension. */
  lemma EmptyNameLosesExtension(from: Url)
    requires PathExtension(from) != []
    ensures FinalName("", PathExtension(from)) == "." + PathExtension(from)
    ensures PathExtension(RenamedUrl(from, "")) == ""
  {
    var ext := PathExtension(from);
    FinalNameOfEmpty(ext);
    LeadingDotNoExtension(DeletingLastPathComponent(from), ext);
  }

  lemma FinalNameOfEmpty(ext: string)
    requires ext != []
    ensures FinalName("", ext) == "." + ext
  {
    assert |Lower(ext)| > 0;
    assert "" + "." + ext == "." + ext;
  }

  /** A name that is a '.' followed by dot-free text has no extension. */
  lemma LeadingDotNoExtension(dir: Url, e: string)
    requires '/' !in e && '.' !in e
    ensures PathExtension(AppendingPathComponent(dir, "." + e)) == ""
  {
    var name := "." + e;
    assert '/' !in name;
    AppendThenSplit(dir, name);
    LastDotOf([], e);
    assert [] + "." + e == name;
  }

  /** Every URL in the catalog has a metadata entry under its key. */
  predicate Covered(urls: seq<Url>, meta: MetadataMap)
  {
    forall j :: 0 <= j < |urls| ==> AbsoluteString(urls[j]) in meta
  }

  /** The URL at `i` appears nowhere else in the catalog. */
  predicate OccursOnce(urls: seq<Url>, i: nat)
    requires i < |urls|
  {
    forall j :: 0 <= j < |urls| && j != i ==> urls[j] != urls[i]
  }

  lemma SaveKeepsCovered(urls: seq<Url>, meta: MetadataMap, u: Url, m: Metadata)
    requires Covered(urls, meta)
    ensures Covered(urls + [u], meta[AbsoluteString(u) := m])
  {
  }

  lemma KeepExistingKeepsCovered(urls: seq<Url>, meta: MetadataMap, present: set<string>)
    requires Covered(urls, meta)
    ensures Covered(KeepExisting(urls, present), meta)
  {
    var r := KeepExisting(urls, present);
    forall j | 0 <= j < |r|
      ensures AbsoluteString(r[j]) in meta
    {
      assert r[j] in urls;
    }
  }

  lemma DeleteKeepsCovered(urls: seq<Url>, meta: MetadataMap, i: nat)
    requires i < |urls| && Covered(urls, meta) && OccursOnce(urls, i)
    ensures Covered(RemoveAt(urls, i), meta - {AbsoluteString(urls[i])})
  {
    var r := RemoveAt(urls, i);
    forall j | 0 <= j < |r|
      ensures AbsoluteString(r[j]) in meta - {AbsoluteString(urls[i])}
    {
      var k := if j < i then j else j + 1;
      assert r[j] == urls[k] && k != i;
      if AbsoluteString(urls[k]) == AbsoluteString(urls[i]) {
        AbsoluteStringInjective(urls[k], urls[i]);
      }
    }
  }

  lemma RenameKeepsCovered(urls: seq<Url>, meta: MetadataMap, i: nat, v: Url, m: Metadata)
    requires i < |urls| && Covered(urls, meta) && OccursOnce(urls, i)
    ensures Covered(urls[i := v], (meta - {AbsoluteString(urls[i])})[AbsoluteString(v) := m])
  {
    forall j | 0 <= j < |urls| && j != i
      ensures AbsoluteString(urls[j]) != AbsoluteString(urls[i])
    {
      if AbsoluteString(urls[j]) == AbsoluteString(urls[i]) {
        AbsoluteStringInjective(urls[j], urls[i]);
      }
    }
  }

  /** Saving the same file name twice puts one URL in the catalog twice;
      deleting one copy then drops the key the other copy still needs. */
  lemma DuplicateDeleteLosesMetadata(u: Url, m1: Metadata, m2: Metadata)
    ensures var urls := [u] + [u];
            var meta := map[][AbsoluteString(u) := m1][AbsoluteString(u) := m2];
            Covered(urls, meta)
            && !Covered(RemoveAt(urls, 0), meta - {AbsoluteString(urls[0])})
  {
    var urls := [u] + [u];
    assert RemoveAt(urls, 0)[0] == u;
  }
}
