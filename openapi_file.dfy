/**
 * `read_yaml`, `read_json` and `read_openapi_file`: an API description file is
 * read and deserialised, or a dictionary `{'error': message}` is returned in
 * its place. The file system and the two deserialisers are not modelled; they
 * are the `Environment` a caller supplies.
 */
module OpenApiFile {
  import opened Wrappers
  import opened Strings

  /** What a reader returns: the deserialised document, or `{'error': message}`. */
  datatype Loaded<D> = Document(doc: D) | ErrorDict(message: string)

  /** `isfile`, the text `open(...).read()` yields, and the two deserialisers,
      `None` standing for `JSONDecodeError` and `YAMLError`. */
  datatype Environment<D> = Environment(
    isFile: string -> bool,
    contents: string -> string,
    jsonLoad: string -> Option<D>,
    yamlLoad: string -> Option<D>)

  const NonePathError: string := "ValueError, path cannot be of None type"
  const NotFoundError: string := "File Not Found"
  const YamlError: string := "YAML error"
  const JsonError: string := "JSON error"
  const ExtensionError: string := "Invalid file extension"

  /** `read_yaml(path)`: an empty path is refused before the file system is
      asked, a missing file is reported, and otherwise the YAML text is
      deserialised or reported as a YAML error. */
  function ReadYaml<D>(path: string, env: Environment<D>): (r: Loaded<D>)
    ensures path == [] ==> r == ErrorDict(NonePathError)
    ensures path != [] && !env.isFile(path) ==> r == ErrorDict(NotFoundError)
    ensures path != [] && env.isFile(path) ==>
              (r.Document? <==> env.yamlLoad(env.contents(path)).Some?)
    ensures r.Document? ==> r.doc == env.yamlLoad(env.contents(path)).value
    ensures r.ErrorDict? && path != [] && env.isFile(path) ==> r.message == YamlError
  {
    if path == [] then ErrorDict(NonePathError)
    else if !env.isFile(path) then ErrorDict(NotFoundError)
    else
      match env.yamlLoad(env.contents(path))
      case Some(doc) => Document(doc)
      case None => ErrorDict(YamlError)
  }

  /** `read_json(path)`: the same without the empty-path check. */
  function ReadJson<D>(path: string, env: Environment<D>): (r: Loaded<D>)
    ensures !env.isFile(path) ==> r == ErrorDict(NotFoundError)
    ensures env.isFile(path) ==> (r.Document? <==> env.jsonLoad(env.contents(path)).Some?)
    ensures r.Document? ==> r.doc == env.jsonLoad(env.contents(path)).value
    ensures r.ErrorDict? && env.isFile(path) ==> r.message == JsonError
  {
    if !env.isFile(path) then ErrorDict(NotFoundError)
    else
      match env.jsonLoad(env.contents(path))
      case Some(doc) => Document(doc)
      case None => ErrorDict(JsonError)
  }

  /** `file_path.split('.')[-1]`: the text after the last `.`, or the whole
      path when it has none. */
  function Extension(path: string): (ext: string)
    ensures '.' !in ext
    ensures |ext| <= |path| && ext == path[|path| - |ext|..]
  {
    var e := Last(Split(path, '.'));
    ExtensionIsSuffix(path);
    e
  }

  /** `read_openapi_file(path)`: a missing file is reported first, then the
      extension chooses the reader, case-sensitively. */
  function ReadOpenapiFile<D>(path: string, env: Environment<D>): (r: Loaded<D>)
    ensures !env.isFile(path) ==> r == ErrorDict(NotFoundError)
  {
    if !env.isFile(path) then ErrorDict(NotFoundError)
    else
      var ext := Extension(path);
      if ext == "json" then ReadJson(path, env)
      else if ext == "yaml" then ReadYaml(path, env)
      else ErrorDict(ExtensionError)
  }

  // ---------------------------------------------------------------------------
  // The extension

  /** The extension is what follows the last `.`. */
  lemma ExtensionAfterDot(stem: string, ext: string)
    requires '.' !in ext
    ensures Extension(stem + ['.'] + ext) == ext
  {
    SplitLastPiece(stem, ext, '.');
  }

  /** A path without `.` is its own extension: a file named `json` is read as JSON. */
  lemma ExtensionWithoutDot(path: string)
    requires '.' !in path
    ensures Extension(path) == path
  {
    SplitCount(path, '.');
  }

  /** Every extension of a nonempty name ends the path; the empty path has the empty extension. */
  lemma ExtensionIsSuffix(path: string)
    ensures |Last(Split(path, '.'))| <= |path|
    ensures Last(Split(path, '.')) == path[|path| - |Last(Split(path, '.'))|..]
  {
    if '.' in path {
      var i := |path| - 1;
      while path[i] != '.'
        invariant 0 <= i < |path|
        invariant '.' in path[..i + 1]
        invariant '.' !in path[i + 1..]
        decreases i
      {
        assert path[..i + 1] == path[..i] + [path[i]];
        assert path[i..] == [path[i]] + path[i + 1..];
        i := i - 1;
      }
      assert path == path[..i] + ['.'] + path[i + 1..];
      SplitLastPiece(path[..i], path[i + 1..], '.');
    } else {
      SplitCount(path, '.');
    }
  }

  // ---------------------------------------------------------------------------
  // Which reader runs

  /** A file ending in `.json` is deserialised as JSON, whatever the YAML reader would do. */
  lemma JsonFileReadAsJson<D>(stem: string, env: Environment<D>)
    requires env.isFile(stem + ".json")
    ensures ReadOpenapiFile(stem + ".json", env) == ReadJson(stem + ".json", env)
    ensures ReadOpenapiFile(stem + ".json", env).Document? <==> env.jsonLoad(env.contents(stem + ".json")).Some?
  {
    assert stem + ".json" == stem + ['.'] + "json";
    ExtensionAfterDot(stem, "json");
  }

  /** A file ending in `.yaml` is deserialised as YAML; its path is never empty,
      so the empty-path error cannot arise. */
  lemma YamlFileReadAsYaml<D>(stem: string, env: Environment<D>)
    requires env.isFile(stem + ".yaml")
    ensures ReadOpenapiFile(stem + ".yaml", env) == ReadYaml(stem + ".yaml", env)
    ensures ReadOpenapiFile(stem + ".yaml", env).Document? <==> env.yamlLoad(env.contents(stem + ".yaml")).Some?
    ensures ReadOpenapiFile(stem + ".yaml", env) != ErrorDict(NonePathError)
  {
    assert stem + ".yaml" == stem + ['.'] + "yaml";
    ExtensionAfterDot(stem, "yaml");
  }

  /** Any other extension, `yml` and `JSON` included, is refused without reading the file. */
  lemma OtherExtensionRefused<D>(stem: string, ext: string, env: Environment<D>)
    requires '.' !in ext && ext != "json" && ext != "yaml"
    requires env.isFile(stem + ['.'] + ext)
    ensures ReadOpenapiFile(stem + ['.'] + ext, env) == ErrorDict(ExtensionError)
  {
    ExtensionAfterDot(stem, ext);
  }

  /** The reader is chosen by the extension alone: an existing file is read
      as JSON when its extension is `json`, as YAML when it is `yaml`, and is
      refused exactly when it is neither. */
  lemma ReaderChoice<D>(path: string, env: Environment<D>)
    requires env.isFile(path)
    ensures Extension(path) == "json" ==> ReadOpenapiFile(path, env) == ReadJson(path, env)
    ensures Extension(path) == "yaml" ==> ReadOpenapiFile(path, env) == ReadYaml(path, env)
    ensures Extension(path) != "json" && Extension(path) != "yaml" <==> ReadOpenapiFile(path, env) == ErrorDict(ExtensionError)
  {
    if Extension(path) == "yaml" {
      assert path != [];
    }
  }

  /** `read_openapi_file` never reports the empty-path error: an empty path
      has the empty extension, so the YAML reader never sees it. */
  lemma NoNonePathError<D>(path: string, env: Environment<D>)
    ensures ReadOpenapiFile(path, env) != ErrorDict(NonePathError)
  {
    if path == [] {
      ExtensionWithoutDot(path);
    }
  }
}
