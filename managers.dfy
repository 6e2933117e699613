/** The file locations of the JSON IO managers: `_get_path` builds
    `data_path / "generated" / "/".join(asset_key.path)` and the JSON writer and loader
    both replace its suffix with ".json"; the writer first creates the parent directory.
    Paths follow pathlib: a string is split on '/', empty and "." components vanish, and a
    string that starts with '/' replaces the path it is joined to. */
module Managers {
  import opened Wrappers
  import opened Decimal

  /** A pure path: whether it starts at the root, and its components. */
  datatype Path = Path(rooted: bool, parts: seq<string>)

  /** A component pathlib keeps as it is. */
  predicate IsSegment(c: string)
  {
    c != "" && c != "." && '/' !in c
  }

  /** The pieces of a split that survive as components (a piece of a split on '/' never
      holds '/', so this drops exactly the empty and "." pieces). */
  function KeepSegments(pieces: seq<string>): (r: seq<string>)
    ensures |r| <= |pieces|
    ensures forall k :: 0 <= k < |r| ==> IsSegment(r[k])
  {
    if |pieces| == 0 then []
    else
      var rest := KeepSegments(pieces[1..]);
      if IsSegment(pieces[0]) then [pieces[0]] + rest else rest
  }

  /** The components pathlib reads from a string. */
  function Components(s: string): seq<string>
  {
    KeepSegments(Split(s, '/'))
  }

  /** `p / s`. */
  function Div(p: Path, s: string): Path
  {
    if |s| > 0 && s[0] == '/' then Path(true, Components(s)) else Path(p.rooted, p.parts + Components(s))
  }

  /** `"/".join(segments)`. */
  function JoinKey(segments: seq<string>): string
  {
    if |segments| == 0 then "" else Join(segments, '/')
  }

  /** `BaseManager._get_path`. */
  function GetPath(dataPath: Path, key: seq<string>): Path
  {
    Div(Div(dataPath, "generated"), JoinKey(key))
  }

  /** The index of the last '.' in `name`, if any. */
  function LastDot(name: string): (r: Option<nat>)
    ensures r.Some? ==> r.value < |name| && name[r.value] == '.'
                        && forall k :: r.value < k < |name| ==> name[k] != '.'
    ensures r.None? ==> '.' !in name
  {
    if |name| == 0 then None
    else if name[|name| - 1] == '.' then Some(|name| - 1)
    else LastDot(name[..|name| - 1])
  }

  /** `PurePath.suffix`: from the last dot on, unless that dot opens or ends the name. */
  function Suffix(name: string): (r: string)
    ensures |r| <= |name| && r == name[|name| - |r|..]
    ensures r != "" ==> r[0] == '.' && '.' !in r[1..] && |r| > 1 && |r| < |name|
  {
    match LastDot(name)
    case Some(i) =>
      if 0 < i < |name| - 1 then
        assert forall k :: 0 <= k < |name[i..][1..]| ==> name[i..][1..][k] == name[i + 1 + k];
        name[i..]
      else ""
    case None => ""
  }

  /** `PurePath.with_suffix(suffix)`: an empty name is a ValueError. */
  function WithSuffix(p: Path, suffix: string): (r: Result<Path>)
    ensures r.Ok? <==> |p.parts| > 0
    ensures r.Ok? ==> r.value.rooted == p.rooted && |r.value.parts| == |p.parts|
                      && r.value.parts[..|p.parts| - 1] == p.parts[..|p.parts| - 1]
  {
    if |p.parts| == 0 then Err(ValueError("has an empty name"))
    else
      var name := p.parts[|p.parts| - 1];
      var oldSuffix := Suffix(name);
      Ok(Path(p.rooted, p.parts[..|p.parts| - 1] + [name[..|name| - |oldSuffix|] + suffix]))
  }

  /** `PurePath.parent`. */
  function Parent(p: Path): Path
  {
    if |p.parts| == 0 then p else Path(p.rooted, p.parts[..|p.parts| - 1])
  }

  /** The file both `_write_serialized_json` and `_load_serialized_json` open. */
  function JsonPath(dataPath: Path, key: seq<string>): Result<Path>
  {
    WithSuffix(GetPath(dataPath, key), ".json")
  }

  /** What `_write_serialized_json` touches: the directory it creates and the file it writes. */
  function WriteTargets(dataPath: Path, key: seq<string>): Result<(Path, Path)>
  {
    match JsonPath(dataPath, key)
    case Ok(file) => Ok((Parent(file), file))
    case Err(e) => Err(e)
  }

  /** What `_load_serialized_json` opens. */
  function LoadTarget(dataPath: Path, key: seq<string>): Result<Path>
  {
    JsonPath(dataPath, key)
  }

  lemma {:induction false} KeepSegmentsPlain(pieces: seq<string>)
    requires forall k :: 0 <= k < |pieces| ==> IsSegment(pieces[k])
    ensures KeepSegments(pieces) == pieces
  {
    if |pieces| > 0 {
      KeepSegmentsPlain(pieces[1..]);
      assert [pieces[0]] + pieces[1..] == pieces;
    }
  }

  lemma GeneratedIsOneComponent()
    ensures Components("generated") == ["generated"]
  {
    SplitNoSep("generated", '/');
    KeepSegmentsPlain(["generated"]);
  }

  /** `_get_path` is the data path, then "generated", then the asset-key segments in order. */
  lemma GetPathSegments(dataPath: Path, key: seq<string>)
    requires forall k :: 0 <= k < |key| ==> IsSegment(key[k])
    ensures GetPath(dataPath, key) == Path(dataPath.rooted, dataPath.parts + ["generated"] + key)
  {
    GeneratedIsOneComponent();
    if |key| == 0 {
      assert Split("", '/') == [""];
    } else {
      SplitJoin(key, '/');
      KeepSegmentsPlain(key);
      assert JoinKey(key)[0] == key[0][0];
    }
  }

  /** The JSON file is `_get_path` with its last name's suffix replaced by ".json"; when the
      last segment holds no dot that is the segment with ".json" appended. The writer and
      the loader open that same file. */
  lemma JsonPathShape(dataPath: Path, key: seq<string>)
    requires |key| > 0
    requires forall k :: 0 <= k < |key| ==> IsSegment(key[k])
    ensures var last := key[|key| - 1];
            var stem := last[..|last| - |Suffix(last)|];
            JsonPath(dataPath, key)
              == Ok(Path(dataPath.rooted, dataPath.parts + ["generated"] + key[..|key| - 1] + [stem + ".json"]))
    ensures '.' !in key[|key| - 1] ==>
              JsonPath(dataPath, key)
                == Ok(Path(dataPath.rooted, dataPath.parts + ["generated"] + key[..|key| - 1] + [key[|key| - 1] + ".json"]))
    ensures WriteTargets(dataPath, key).Ok? && LoadTarget(dataPath, key) == Ok(WriteTargets(dataPath, key).value.1)
  {
    var last := key[|key| - 1];
    var front := dataPath.parts + ["generated"] + key[..|key| - 1];
    JsonPathSplit(dataPath, key);
    WithSuffixLast(dataPath.rooted, front, last, ".json");
    if '.' !in last {
      NoDotNoSuffix(last);
    }
  }

  /** The key's path is the generated directory, the key's leading segments and its last. */
  lemma JsonPathSplit(dataPath: Path, key: seq<string>)
    requires |key| > 0
    requires forall k :: 0 <= k < |key| ==> IsSegment(key[k])
    ensures JsonPath(dataPath, key)
              == WithSuffix(Path(dataPath.rooted, (dataPath.parts + ["generated"] + key[..|key| - 1]) + [key[|key| - 1]]), ".json")
  {
    GetPathSegments(dataPath, key);
    AppendLast(dataPath.parts + ["generated"], key);
  }

  lemma AppendLast<T>(front: seq<T>, s: seq<T>)
    requires |s| > 0
    ensures front + s == (front + s[..|s| - 1]) + [s[|s| - 1]]
  {
    assert s == s[..|s| - 1] + [s[|s| - 1]];
  }

  lemma WithSuffixLast(rooted: bool, front: seq<string>, last: string, suffix: string)
    ensures WithSuffix(Path(rooted, front + [last]), suffix)
              == Ok(Path(rooted, front + [last[..|last| - |Suffix(last)|] + suffix]))
  {
    var parts := front + [last];
    assert parts[..|parts| - 1] == front;
  }

  lemma NoDotNoSuffix(name: string)
    requires '.' !in name
    ensures name[..|name| - |Suffix(name)|] == name
  {
    assert Suffix(name) == "";
  }

  /** The directory the writer creates is the data path, "generated" and every key segment
      but the last. */
  lemma WriterDirectory(dataPath: Path, key: seq<string>)
    requires |key| > 0
    requires forall k :: 0 <= k < |key| ==> IsSegment(key[k])
    ensures JsonPath(dataPath, key).Ok?
    ensures WriteTargets(dataPath, key)
              == Ok((Path(dataPath.rooted, dataPath.parts + ["generated"] + key[..|key| - 1]),
                     JsonPath(dataPath, key).value))
  {
    JsonPathShape(dataPath, key);
  }
}
