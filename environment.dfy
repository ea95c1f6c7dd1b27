/** The two collaborators the stores talk to, as objects whose state the
    model can see: `UserDefaults.standard` (a key/value map) and
    `FileManager.default` with the app's documents directory (a map from
    path to file content). Whether the operating system refuses a write,
    move or removal is outside the program; each such call takes a `fault`
    flag that stands for that refusal. */
module Environment {
  import opened Wrappers
  import opened Hex
  import opened Paths
  import opened Catalog
  import opened Interactions

  /** The kinds of value the app keeps in UserDefaults. */
  datatype Value =
    | Str(text: string)
    | TextList(items: seq<string>)
    | Flag(flag: bool)
    | MetadataTable(table: MetadataMap)
    | InteractionTable(arrays: map<string, seq<string>>)

  const UrlsKey: string := "savedMediaURLs"
  const MetadataKey: string := "savedMediaMetadata"
  const InteractionsKey: string := "userInteractions"
  const AuthenticatedKey: string := "isAuthenticated"

  /** The keys the stores write are pairwise different, so a write under
      one leaves what is stored under the others alone. */
  lemma StoreKeysDistinct()
    ensures UrlsKey != MetadataKey && UrlsKey != InteractionsKey && UrlsKey != AuthenticatedKey
    ensures MetadataKey != InteractionsKey && MetadataKey != AuthenticatedKey
    ensures InteractionsKey != AuthenticatedKey
  {
    assert |UrlsKey| == 14 && |MetadataKey| == 18 && |InteractionsKey| == 16 && |AuthenticatedKey| == 15;
  }

  /** The list stored under `key`, if a list is stored there. */
  function StoredList(values: map<string, Value>, key: string): (r: Option<seq<string>>)
    ensures r.Some? <==> key in values && values[key].TextList?
    ensures r.Some? ==> values[key] == TextList(r.value)
  {
    if key in values && values[key].TextList? then Some(values[key].items) else None
  }

  /** The metadata table stored under "savedMediaMetadata", if there is one. */
  function StoredMetadata(values: map<string, Value>): (r: Option<MetadataMap>)
    ensures r.Some? <==> MetadataKey in values && values[MetadataKey].MetadataTable?
    ensures r.Some? ==> values[MetadataKey] == MetadataTable(r.value)
  {
    if MetadataKey in values && values[MetadataKey].MetadataTable? then Some(values[MetadataKey].table) else None
  }

  /** Storing the list and the table, in either order, leaves both readable. */
  lemma StoredAfterWrites(values: map<string, Value>, urls: seq<Url>, meta: MetadataMap)
    ensures var v := values[MetadataKey := MetadataTable(meta)][UrlsKey := TextList(PersistedPaths(urls))];
      StoredList(v, UrlsKey) == Some(PersistedPaths(urls)) && StoredMetadata(v) == Some(meta)
    ensures var v := values[UrlsKey := TextList(PersistedPaths(urls))][MetadataKey := MetadataTable(meta)];
      StoredList(v, UrlsKey) == Some(PersistedPaths(urls)) && StoredMetadata(v) == Some(meta)
  {
    assert |UrlsKey| != |MetadataKey|;
  }

  /** Storing the list leaves the stored table as it was, and the list reads
      back. */
  lemma ListWriteKeepsTable(values: map<string, Value>, urls: seq<Url>)
    ensures var v := values[UrlsKey := TextList(PersistedPaths(urls))];
      StoredList(v, UrlsKey) == Some(PersistedPaths(urls)) && StoredMetadata(v) == StoredMetadata(values)
  {
    assert |UrlsKey| != |MetadataKey|;
  }

  /** The relation stored under "userInteractions", read back with
      `mapValues { Set($0) }`, if a table of arrays is stored there. */
  function StoredRelation(values: map<string, Value>): (r: Option<Relation>)
    ensures r.Some? <==> InteractionsKey in values && values[InteractionsKey].InteractionTable?
    ensures r.Some? ==> r.value == FromArrays(values[InteractionsKey].arrays)
  {
    if InteractionsKey in values && values[InteractionsKey].InteractionTable?
    then Some(FromArrays(values[InteractionsKey].arrays))
    else None
  }

  /** Storing the relation leaves the stored catalog as it was. */
  lemma CatalogUnaffected(a: map<string, Value>, b: map<string, Value>)
    requires a - {InteractionsKey} == b - {InteractionsKey}
    ensures StoredList(a, UrlsKey) == StoredList(b, UrlsKey)
    ensures StoredMetadata(a) == StoredMetadata(b)
  {
    StoreKeysDistinct();
    forall key | key != InteractionsKey
      ensures (key in a <==> key in b) && (key in a ==> a[key] == b[key])
    {
      assert key in a <==> key in a - {InteractionsKey};
      assert key in b <==> key in b - {InteractionsKey};
      if key in a {
        assert a[key] == (a - {InteractionsKey})[key];
        assert b[key] == (b - {InteractionsKey})[key];
      }
    }
  }

  /** Storing the catalog, in either order, leaves the stored relation as
      it was. */
  lemma RelationUnaffected(values: map<string, Value>, urls: seq<Url>, meta: MetadataMap)
    ensures StoredRelation(values[MetadataKey := MetadataTable(meta)][UrlsKey := TextList(PersistedPaths(urls))])
              == StoredRelation(values)
    ensures StoredRelation(values[UrlsKey := TextList(PersistedPaths(urls))][MetadataKey := MetadataTable(meta)])
              == StoredRelation(values)
  {
    StoreKeysDistinct();
  }

  /** `UserDefaults.standard`. */
  class Defaults {
    var values: map<string, Value>

    constructor (initial: map<string, Value>)
      ensures values == initial
    {
      values := initial;
    }

    /** `set(_:forKey:)`. */
    method Set(key: string, v: Value)
      modifies this
      ensures values == old(values)[key := v]
    {
      values := values[key := v];
    }
  }

  /** `FileManager.default` over the app's files. */
  class FileStore {
    /** `urls(for: .documentDirectory, in: .userDomainMask).first`. */
    const documentDirectory: Option<Url>
    /** The content of every existing file, by path. */
    var files: map<string, Bytes>

    constructor (documentDirectory: Option<Url>, files: map<string, Bytes>)
      ensures this.documentDirectory == documentDirectory && this.files == files
    {
      this.documentDirectory := documentDirectory;
      this.files := files;
    }

    /** `fileExists(atPath:)`. */
    predicate Exists(path: string)
      reads this
    {
      path in files
    }

    /** `attributesOfItem(atPath:)[.size] ?? 0`. */
    function SizeOf(path: string): (n: nat)
      reads this
      ensures path in files ==> n == |files[path]|
      ensures path !in files ==> n == 0
    {
      if path in files then |files[path]| else 0
    }

    /** `data.write(to:)`: replaces or creates the file unless the system
        refuses. */
    method Write(path: string, data: Bytes, fault: bool) returns (ok: bool)
      modifies this
      ensures ok == !fault
      ensures files == if ok then old(files)[path := data] else old(files)
    {
      ok := !fault;
      if ok {
        files := files[path := data];
      }
    }

    /** `removeItem(at:)`: fails when there is no such file. */
    method Remove(path: string, fault: bool) returns (ok: bool)
      modifies this
      ensures ok == (path in old(files) && !fault)
      ensures files == if ok then old(files) - {path} else old(files)
    {
      ok := path in files && !fault;
      if ok {
        files := files - {path};
      }
    }

    /** `moveItem(at:to:)`: fails when the source is missing or the
        destination already exists. */
    method Move(from: string, to: string, fault: bool) returns (ok: bool)
      modifies this
      ensures ok == (from in old(files) && to !in old(files) && !fault)
      ensures ok ==> files == (old(files) - {from})[to := old(files)[from]]
      ensures !ok ==> files == old(files)
    {
      ok := from in files && to !in files && !fault;
      if ok {
        files := (files - {from})[to := files[from]];
      }
    }
  }
}
