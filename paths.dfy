/** File URLs as the app uses them: a file URL is its path; its
    `absoluteString` is `"file://"` followed by the path; path components are
    separated by '/'. Only the parts of Foundation's `URL` the media stores
    call are modelled: `appendingPathComponent`, `lastPathComponent`,
    `deletingLastPathComponent`, `pathExtension`, `absoluteString` and
    `URL(string:)` on the strings the stores persist. */
module Paths {
  import opened Wrappers
  import opened Text

  datatype Url = Url(path: string)

  const FileScheme: string := "file://"

  /** The dictionary key and the persisted form of a URL. */
  function AbsoluteString(u: Url): (s: string)
    ensures |s| == |FileScheme| + |u.path|
    ensures s[..|FileScheme|] == FileScheme && s[|FileScheme|..] == u.path
  {
    FileScheme + u.path
  }

  /** `URL(string:)` for the strings the stores write back: a file URL string
      yields its URL; any other string yields None. */
  function ParseUrl(s: string): (r: Option<Url>)
    ensures r.Some? <==> |FileScheme| <= |s| && s[..|FileScheme|] == FileScheme
    ensures r.Some? ==> AbsoluteString(r.value) == s
  {
    if |FileScheme| <= |s| && s[..|FileScheme|] == FileScheme then
      assert s == s[..|FileScheme|] + s[|FileScheme|..];
      Some(Url(s[|FileScheme|..]))
    else None
  }

  lemma ParseAbsoluteString(u: Url)
    ensures ParseUrl(AbsoluteString(u)) == Some(u)
  {
  }

  /** Distinct URLs have distinct keys. */
  lemma AbsoluteStringInjective(u: Url, v: Url)
    requires AbsoluteString(u) == AbsoluteString(v)
    ensures u == v
  {
    ParseAbsoluteString(u);
    ParseAbsoluteString(v);
  }

  /** `directory.appendingPathComponent(name)`. */
  function AppendingPathComponent(dir: Url, name: string): Url
  {
    Url(dir.path + "/" + name)
  }

  /** `lastPathComponent`: the text after the last '/'. */
  function LastPathComponent(u: Url): (name: string)
    ensures '/' !in name
    ensures HasSuffix(u.path, name)
  {
    match LastIndexOf(u.path, '/')
    case None => u.path
    case Some(i) => u.path[i + 1..]
  }

  /** `deletingLastPathComponent()`: the text before the last '/'. */
  function DeletingLastPathComponent(u: Url): Url
  {
    match LastIndexOf(u.path, '/')
    case None => Url("")
    case Some(i) => Url(u.path[..i])
  }

  /** A file name appended to a directory is the last component of the result,
      and removing it gives the directory back. */
  lemma AppendThenSplit(dir: Url, name: string)
    requires '/' !in name
    ensures LastPathComponent(AppendingPathComponent(dir, name)) == name
    ensures DeletingLastPathComponent(AppendingPathComponent(dir, name)) == dir
  {
    var p := AppendingPathComponent(dir, name).path;
    var k := |dir.path|;
    assert p[k] == '/';
    assert forall j :: k < j < |p| ==> p[j] == name[j - k - 1];
    assert LastIndexOf(p, '/') == Some(k);
    assert p[k + 1..] == name;
    assert p[..k] == dir.path;
  }

  /** `pathExtension`: the text after the last '.' of the last component;
      empty when the component has no '.', or only a leading one. */
  function PathExtension(u: Url): (ext: string)
    ensures '.' !in ext && '/' !in ext
    ensures ext != [] ==> HasSuffix(LastPathComponent(u), "." + ext)
  {
    var name := LastPathComponent(u);
    match LastIndexOf(name, '.')
    case None => ""
    case Some(i) =>
      if i == 0 then ""
      else
        AfterLastDot(name, i);
        name[i + 1..]
  }

  /** In `base.e` with no '.' in `e`, the last '.' is the one after `base`. */
  lemma {:induction false} LastDotOf(base: string, e: string)
    requires '.' !in e
    ensures LastIndexOf(base + "." + e, '.') == Some(|base|)
  {
    var name := base + "." + e;
    if e == [] {
      assert name[|name| - 1] == '.';
    } else {
      var e' := e[..|e| - 1];
      assert name[|name| - 1] == e[|e| - 1];
      assert e[|e| - 1] in e;
      assert name[..|name| - 1] == base + "." + e';
      assert forall x :: x in e' ==> x in e;
      LastDotOf(base, e');
    }
  }

  /** The extension of a file named `base.e` is `e`, whenever `base` is not
      empty and `e` holds no '.'. */
  lemma ExtensionOfDottedName(dir: Url, base: string, e: string)
    requires '/' !in base && '/' !in e && '.' !in e && base != []
    ensures PathExtension(AppendingPathComponent(dir, base + "." + e)) == e
  {
    var name := base + "." + e;
    assert '/' !in name;
    AppendThenSplit(dir, name);
    LastDotOf(base, e);
    assert name[|base| + 1..] == e;
  }

  /** What follows the last '.' of a file name is free of '.' and '/', and
      together with that '.' it ends the name. */
  lemma AfterLastDot(name: string, i: nat)
    requires i < |name| && name[i] == '.' && '/' !in name
    requires forall j :: i < j < |name| ==> name[j] != '.'
    ensures '.' !in name[i + 1..] && '/' !in name[i + 1..]
    ensures HasSuffix(name, "." + name[i + 1..])
  {
    var ext := name[i + 1..];
    assert forall j :: 0 <= j < |ext| ==> ext[j] == name[i + 1 + j];
    assert name[i..] == "." + ext;
  }
}
