/**
 * The resource-path decomposition of GlobalPage.swift (bootstrap and
 * `getFileContents`): a bundle-relative path is split into the directory
 * part, the file name up to its first '.', and the extension after the
 * path's last '.'. Swift's `split(separator:)` omits empty components.
 */
module ResourcePaths {

  /** Length of the leading run of `s` that contains no `sep`. */
  function TokenLength(s: string, sep: char): (n: nat)
    ensures n <= |s|
    ensures forall i :: 0 <= i < n ==> s[i] != sep
    ensures n < |s| ==> s[n] == sep
  {
    if s == [] || s[0] == sep then 0 else 1 + TokenLength(s[1..], sep)
  }

  /** A non-empty component free of `sep`. */
  predicate IsComponent(p: string, sep: char) {
    |p| > 0 && sep !in p
  }

  /** `s.split(separator: sep)` with empty components omitted. */
  function Split(s: string, sep: char): (parts: seq<string>)
    ensures forall i :: 0 <= i < |parts| ==> IsComponent(parts[i], sep)
    decreases |s|
  {
    if s == [] then []
    else if s[0] == sep then Split(s[1..], sep)
    else
      var n := TokenLength(s, sep);
      assert s[0] != sep;
      [s[..n]] + Split(s[n..], sep)
  }

  /** `parts.joined(separator: sep)`. */
  function Join(parts: seq<string>, sep: char): string {
    if |parts| == 0 then ""
    else if |parts| == 1 then parts[0]
    else parts[0] + [sep] + Join(parts[1..], sep)
  }

  lemma TokenLengthOfComponent(p: string, rest: string, sep: char)
    requires sep !in p
    requires rest == [] || rest[0] == sep
    ensures TokenLength(p + rest, sep) == |p|
    decreases |p|
  {
    if p != [] {
      assert (p + rest)[1..] == p[1..] + rest;
      TokenLengthOfComponent(p[1..], rest, sep);
    }
  }

  /** The leading component of `p + rest` is `p`. */
  lemma SplitCons(p: string, rest: string, sep: char)
    requires IsComponent(p, sep)
    requires rest == [] || rest[0] == sep
    ensures Split(p + rest, sep) == [p] + Split(rest, sep)
  {
    TokenLengthOfComponent(p, rest, sep);
    assert (p + rest)[0] == p[0];
    assert (p + rest)[..|p|] == p;
    assert (p + rest)[|p|..] == rest;
  }

  /** Splitting a joined list of components gives the components back. */
  lemma {:induction false} SplitOfJoin(parts: seq<string>, sep: char)
    requires forall i :: 0 <= i < |parts| ==> IsComponent(parts[i], sep)
    ensures Split(Join(parts, sep), sep) == parts
    decreases |parts|
  {
    if |parts| == 0 {
    } else if |parts| == 1 {
      SplitCons(parts[0], "", sep);
      assert parts[0] + "" == parts[0];
    } else {
      var rest := [sep] + Join(parts[1..], sep);
      assert Join(parts, sep) == parts[0] + rest;
      SplitCons(parts[0], rest, sep);
      assert rest[1..] == Join(parts[1..], sep);
      SplitOfJoin(parts[1..], sep);
      assert parts == [parts[0]] + parts[1..];
    }
  }

  /** A separator is always a component boundary. */
  lemma {:induction false} SplitAtSeparator(a: string, b: string, sep: char)
    ensures Split(a + [sep] + b, sep) == Split(a, sep) + Split(b, sep)
    decreases |a|
  {
    var s := a + [sep] + b;
    if a == [] {
      assert s[1..] == b;
    } else if a[0] == sep {
      assert s[1..] == a[1..] + [sep] + b;
      SplitAtSeparator(a[1..], b, sep);
    } else {
      var n := TokenLength(a, sep);
      TokenLengthPrefix(a, [sep] + b, sep);
      assert s[..n] == a[..n];
      assert s[n..] == a[n..] + [sep] + b;
      SplitAtSeparator(a[n..], b, sep);
    }
  }

  lemma {:induction false} TokenLengthPrefix(a: string, b: string, sep: char)
    requires b == [] || b[0] == sep
    ensures TokenLength(a + b, sep) == TokenLength(a, sep)
    decreases |a|
  {
    if a != [] && a[0] != sep {
      assert (a + b)[1..] == a[1..] + b;
      TokenLengthPrefix(a[1..], b, sep);
    }
  }

  /** A single component splits to itself. */
  lemma SplitOfComponent(p: string, sep: char)
    requires IsComponent(p, sep)
    ensures Split(p, sep) == [p]
  {
    SplitCons(p, "", sep);
    assert p + "" == p;
  }

  /** The three parts the source takes from a resource path. */
  datatype Resource = Resource(subpath: string, filename: string, ext: string)

  /** The path has a last '/'-component, and that has a first '.'-component. */
  predicate HasFileName(path: string) {
    |Split(path, '/')| > 0 && |Split(Split(path, '/')[|Split(path, '/')| - 1], '.')| > 0
  }

  /** Besides, the path has a last '.'-component. */
  predicate IsSplittable(path: string) {
    HasFileName(path) && |Split(path, '.')| > 0
  }

  /** All '/'-components but the last, joined by '/' (`dropLast` of none is none). */
  function Directory(path: string): string {
    var dirs := Split(path, '/');
    if |dirs| == 0 then "" else Join(dirs[..|dirs| - 1], '/')
  }

  /** The last '/'-component up to its first '.'. */
  function FileName(path: string): (name: string)
    requires HasFileName(path)
    ensures IsComponent(name, '.') && '/' !in name
  {
    var dirs := Split(path, '/');
    var name := Split(dirs[|dirs| - 1], '.');
    assert forall c :: c in name[0] ==> c in dirs[|dirs| - 1] by {
      SplitComponentsAreInfixes(dirs[|dirs| - 1], '.');
    }
    name[0]
  }

  /**
   * `ext` is the last '.'-component of the whole path, `subpath` all
   * '/'-components but the last joined by '/', and `filename` the last
   * '/'-component up to its first '.'. The `.last!`/`.first!` unwraps of
   * the source become the precondition.
   */
  function SplitResourcePath(path: string): (r: Resource)
    requires IsSplittable(path)
    ensures IsComponent(r.ext, '.') && IsComponent(r.filename, '.') && '/' !in r.filename
  {
    var dots := Split(path, '.');
    Resource(Directory(path), FileName(path), dots[|dots| - 1])
  }

  /** Every character of a component occurs in the split string. */
  lemma {:induction false} SplitComponentsAreInfixes(s: string, sep: char)
    ensures forall i, c :: 0 <= i < |Split(s, sep)| && c in Split(s, sep)[i] ==> c in s
    decreases |s|
  {
    if s == [] {
    } else if s[0] == sep {
      SplitComponentsAreInfixes(s[1..], sep);
      assert forall c :: c in s[1..] ==> c in s;
    } else {
      var n := TokenLength(s, sep);
      SplitComponentsAreInfixes(s[n..], sep);
      assert Split(s, sep) == [s[..n]] + Split(s[n..], sep);
      assert forall c :: c in s[..n] ==> c in s;
      assert forall c :: c in s[n..] ==> c in s;
    }
  }

  /** The last '.'-component of a path ending in "." + ext is ext. */
  lemma LastDotComponent(path: string, ext: string)
    requires IsComponent(ext, '.') && |ext| < |path|
    requires path[|path| - |ext| - 1..] == "." + ext
    ensures |Split(path, '.')| > 0 && Split(path, '.')[|Split(path, '.')| - 1] == ext
  {
    var prefix := path[..|path| - |ext| - 1];
    assert path == prefix + ['.'] + ext;
    SplitAtSeparator(prefix, ext, '.');
    SplitOfComponent(ext, '.');
  }

  /** "name.ext" splits at its one '.'. */
  lemma SplitOfFileName(name: string, ext: string)
    requires IsComponent(name, '.') && IsComponent(ext, '.')
    ensures Split(name + "." + ext, '.') == [name, ext]
  {
    assert name + "." + ext == name + ['.'] + ext;
    SplitAtSeparator(name, ext, '.');
    SplitOfComponent(name, '.');
    SplitOfComponent(ext, '.');
  }

  /**
   * A path built from directories, a base name and an extension is split
   * back into exactly those parts.
   */
  lemma SplitOfBuiltPath(dirs: seq<string>, name: string, ext: string)
    requires forall i :: 0 <= i < |dirs| ==> IsComponent(dirs[i], '/')
    requires IsComponent(name, '.') && IsComponent(ext, '.') && '/' !in name && '/' !in ext
    ensures IsSplittable(Join(dirs + [name + "." + ext], '/'))
    ensures SplitResourcePath(Join(dirs + [name + "." + ext], '/')) == Resource(Join(dirs, '/'), name, ext)
  {
    var file := name + "." + ext;
    var parts := dirs + [file];
    var path := Join(parts, '/');
    ComponentsOfBuiltPath(dirs, name, ext);
    SplitOfFileName(name, ext);
    ExtOfJoinedPath(parts, name, ext);
    assert HasFileName(path);
    assert Directory(path) == Join(dirs, '/') by {
      assert parts[..|parts| - 1] == dirs;
    }
    assert FileName(path) == name;
  }

  /** The '/'-components of a built path are the directories and the file. */
  lemma ComponentsOfBuiltPath(dirs: seq<string>, name: string, ext: string)
    requires forall i :: 0 <= i < |dirs| ==> IsComponent(dirs[i], '/')
    requires IsComponent(name, '.') && IsComponent(ext, '.') && '/' !in name && '/' !in ext
    ensures Split(Join(dirs + [name + "." + ext], '/'), '/') == dirs + [name + "." + ext]
  {
    var file := name + "." + ext;
    var parts := dirs + [file];
    assert IsComponent(file, '/') by {
      assert forall c :: c in file ==> c in name || c == '.' || c in ext;
    }
    assert forall i :: 0 <= i < |parts| ==> IsComponent(parts[i], '/');
    SplitOfJoin(parts, '/');
  }

  /** The last '.'-component of a joined path comes from its last component. */
  lemma ExtOfJoinedPath(parts: seq<string>, name: string, ext: string)
    requires |parts| > 0 && parts[|parts| - 1] == name + "." + ext
    requires IsComponent(ext, '.')
    ensures |Split(Join(parts, '/'), '.')| > 0
    ensures Split(Join(parts, '/'), '.')[|Split(Join(parts, '/'), '.')| - 1] == ext
  {
    var path := Join(parts, '/');
    var file := name + "." + ext;
    JoinEndsWithLast(parts, '/');
    assert file[|name|..] == "." + ext;
    SuffixOfSuffix(path, file, |ext| + 1);
    LastDotComponent(path, ext);
  }

  lemma SuffixOfSuffix(s: string, t: string, k: nat)
    requires |t| <= |s| && s[|s| - |t|..] == t && k <= |t|
    ensures s[|s| - k..] == t[|t| - k..]
  {
    assert forall i :: |s| - k <= i < |s| ==> s[i] == t[i - |s| + |t|];
  }

  /** A join ends with its last component. */
  lemma {:induction false} JoinEndsWithLast(parts: seq<string>, sep: char)
    requires |parts| > 0
    ensures |parts[|parts| - 1]| <= |Join(parts, sep)|
    ensures Join(parts, sep)[|Join(parts, sep)| - |parts[|parts| - 1]|..] == parts[|parts| - 1]
    decreases |parts|
  {
    if |parts| > 1 {
      JoinEndsWithLast(parts[1..], sep);
      var j := Join(parts[1..], sep);
      assert Join(parts, sep) == (parts[0] + [sep]) + j;
    }
  }

  /**
   * One of the bundled scripts loaded at startup,
   * "utilities/resource/zoteroTypeSchemaData.js": its three parts.
   */
  lemma SchemaDataPath()
    ensures IsSplittable(Join(["utilities", "resource", "zoteroTypeSchemaData.js"], '/'))
    ensures SplitResourcePath(Join(["utilities", "resource", "zoteroTypeSchemaData.js"], '/'))
      == Resource(Join(["utilities", "resource"], '/'), "zoteroTypeSchemaData", "js")
    ensures Join(["utilities", "resource", "zoteroTypeSchemaData.js"], '/') == "utilities/resource/zoteroTypeSchemaData.js"
    ensures Join(["utilities", "resource"], '/') == "utilities/resource"
  {
    var name, ext := "zoteroTypeSchemaData", "js";
    var dirs := ["utilities", "resource"];
    assert IsComponent(name, '.') && '/' !in name;
    assert IsComponent(ext, '.') && '/' !in ext;
    assert IsComponent(dirs[0], '/') && IsComponent(dirs[1], '/');
    SplitOfBuiltPath(dirs, name, ext);
    assert name + "." + ext == "zoteroTypeSchemaData.js";
    assert dirs + [name + "." + ext] == ["utilities", "resource", "zoteroTypeSchemaData.js"];
    SchemaDataJoins();
  }

  /** The joins of the schema data entry spelled out. */
  lemma SchemaDataJoins()
    ensures Join(["utilities", "resource", "zoteroTypeSchemaData.js"], '/') == "utilities/resource/zoteroTypeSchemaData.js"
    ensures Join(["utilities", "resource"], '/') == "utilities/resource"
  {
    JoinOfThree("utilities", "resource", "zoteroTypeSchemaData.js", '/');
    assert "utilities" + "/" + "resource" == "utilities/resource";
    assert "utilities/resource" + "/" == "utilities/resource/";
    assert "utilities/resource/" + "zoteroTypeSchemaData.js" == "utilities/resource/zoteroTypeSchemaData.js";
    assert ["utilities", "resource"][1..] == ["resource"];
  }

  /** Three parts joined: each separator between two neighbours. */
  lemma JoinOfThree(a: string, b: string, c: string, sep: char)
    ensures Join([a, b, c], sep) == a + [sep] + b + [sep] + c
  {
    assert [a, b, c][1..] == [b, c];
    assert [b, c][1..] == [c];
    assert Join([c], sep) == c;
    assert Join([b, c], sep) == b + [sep] + c;
    assert a + [sep] + (b + [sep] + c) == a + [sep] + b + [sep] + c;
  }
}
