/**
 * The template cache and the entry point of lib/renderTemplate.js:
 * `loadTemplate` keeps every template it reads in a process-wide map keyed
 * by the resolved path and never replaces an entry; `renderTemplate`
 * loads a template through that cache and renders it.
 *
 * The file system is a map from resolved path to contents, passed in on
 * each call, and path resolution is a function passed in likewise.
 */
module TemplateCache {
  import opened Wrappers
  import opened TemplateData
  import opened TemplateScan

  /** `fs.readFileSync` throws when the resolved path names no file. */
  datatype LoadError = FileNotFound(path: string)

  /** One cache step: what `loadTemplate` returns and what the cache holds afterwards. */
  datatype Loaded = Loaded(result: Result<string, LoadError>, entries: map<string, string>)

  /**
   * `loadTemplate` on a cache holding `entries`, with `files` on disk, for
   * the resolved path `abs`: a hit answers from the cache; a miss reads
   * the file and records it; a missing file fails and records nothing.
   */
  function LoadStep(entries: map<string, string>, files: map<string, string>, abs: string): (l: Loaded)
    ensures forall k :: k in entries ==> k in l.entries && l.entries[k] == entries[k]
    ensures l.entries.Keys <= entries.Keys + {abs}
    ensures l.result.Ok? <==> abs in entries || abs in files
    ensures l.result.Ok? ==> abs in l.entries && l.entries[abs] == l.result.value
    ensures abs !in entries && abs in files ==> l.result == Ok(files[abs])
    ensures l.result.Err? ==> l.entries == entries
  {
    if abs in entries then Loaded(Ok(entries[abs]), entries)
    else if abs in files then Loaded(Ok(files[abs]), entries[abs := files[abs]])
    else Loaded(Err(FileNotFound(abs)), entries)
  }

  /**
   * After a successful load, loading the same path again returns exactly the
   * same text and leaves the cache as it is, whatever the files now hold.
   */
  lemma WarmHitIgnoresFiles(entries: map<string, string>, files1: map<string, string>,
                            files2: map<string, string>, abs: string)
    requires LoadStep(entries, files1, abs).result.Ok?
    ensures var first := LoadStep(entries, files1, abs);
      LoadStep(first.entries, files2, abs) == first
  {
  }

  /** A path that was cached keeps its text through any sequence of later loads. */
  lemma {:induction false} EntryNeverOverwritten(entries: map<string, string>, files: seq<map<string, string>>,
                                                 paths: seq<string>, abs: string)
    requires |files| == |paths|
    requires abs in entries
    ensures var final := LoadAll(entries, files, paths);
      abs in final && final[abs] == entries[abs]
    decreases |paths|
  {
    if paths != [] {
      var next := LoadStep(entries, files[0], paths[0]).entries;
      EntryNeverOverwritten(next, files[1..], paths[1..], abs);
    }
  }

  /** The cache after loading `paths[i]` with `files[i]` on disk, in order. */
  function LoadAll(entries: map<string, string>, files: seq<map<string, string>>, paths: seq<string>): map<string, string>
    requires |files| == |paths|
    decreases |paths|
  {
    if paths == [] then entries
    else LoadAll(LoadStep(entries, files[0], paths[0]).entries, files[1..], paths[1..])
  }

  /** The module-level `CACHE` together with the two functions that use it. */
  class Cache {
    var entries: map<string, string>

    constructor ()
      ensures entries == map[]
    {
      entries := map[];
    }

    /** `loadTemplate(file)`: check the cache, otherwise read the file and remember it. */
    method Load(files: map<string, string>, resolve: string -> string, file: string)
      returns (r: Result<string, LoadError>)
      modifies this
      ensures Loaded(r, entries) == LoadStep(old(entries), files, resolve(file))
    {
      var abs := resolve(file);
      if abs in entries {
        return Ok(entries[abs]);
      }
      if abs !in files {
        return Err(FileNotFound(abs));
      }
      var raw := files[abs];
      entries := entries[abs := raw];
      r := Ok(raw);
    }

    /** `renderTemplate(file, data)`: load through the cache, then substitute every token. */
    method RenderFile(files: map<string, string>, resolve: string -> string, file: string, data: Value)
      returns (r: Result<string, LoadError>)
      modifies this
      ensures var l := LoadStep(old(entries), files, resolve(file));
        && entries == l.entries
        && r == match l.result
                case Ok(tpl) => Ok(Render(tpl, data))
                case Err(e) => Err(e)
    {
      var tpl := Load(files, resolve, file);
      match tpl
      case Ok(t) => r := Ok(Render(t, data));
      case Err(e) => r := Err(e);
    }
  }

  /**
   * A cold load and a later warm hit render the same output for the same
   * data, even if the file has changed on disk in between.
   */
  method ColdThenWarm(files1: map<string, string>, files2: map<string, string>,
                      resolve: string -> string, file: string, data: Value)
    returns (cold: Result<string, LoadError>, warm: Result<string, LoadError>)
    ensures cold.Ok? <==> resolve(file) in files1
    ensures cold.Ok? ==> warm == cold && cold.value == Render(files1[resolve(file)], data)
  {
    var cache := new Cache();
    cold := cache.RenderFile(files1, resolve, file, data);
    warm := cache.RenderFile(files2, resolve, file, data);
  }
}
