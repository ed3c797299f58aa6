/*
 * Watch-directory discovery (src/django_quik/loader.py): the directories the
 * proxy reloads the page for are read from the project's settings module,
 * from TEMPLATES[*]['DIRS'], STATIC_ROOT and STATICFILES_DIRS, and kept when
 * they are existing directories.
 *
 * A settings module is a map from attribute names to Python values; whether
 * a path names an existing directory is a predicate passed in by the caller.
 */
module Loader {
  import opened Text

  /** The Python values a settings attribute can hold, as far as the loader tells them apart. */
  datatype PyValue =
    | PyStr(s: string)
    | PyList(items: seq<PyValue>)
    | PyTuple(items: seq<PyValue>)
    | PyDict(entries: seq<(string, PyValue)>)  // keys in insertion order
    | PyPath(path: string)                      // a pathlib.Path, such as BASE_DIR / 'templates'
    | PyNone
    | PyOther                                   // numbers and any other object

  /** A settings module: `hasattr` is `in`, `getattr` is indexing. */
  type Settings = map<string, PyValue>

  /** `d.get(key)`: the value stored under `key`, None when there is none. */
  function DictGet(entries: seq<(string, PyValue)>, key: string): (r: Option<PyValue>)
    ensures r.Some? <==> exists i :: 0 <= i < |entries| && entries[i].0 == key
  {
    if |entries| == 0 then None
    else if entries[0].0 == key then Some(entries[0].1)
    else
      var r := DictGet(entries[1..], key);
      assert forall i :: 1 <= i < |entries| ==> entries[i] == entries[1..][i - 1];
      r
  }

  /**
   * What `list.extend(v)` appends: the items of a list or tuple, the
   * one-character strings of a string, the keys of a dict; None for a value
   * that is not iterable (the TypeError extend raises).
   */
  function Elements(v: PyValue): Option<seq<PyValue>>
  {
    match v
    case PyList(items) => Some(items)
    case PyTuple(items) => Some(items)
    case PyStr(s) => Some(seq(|s|, i requires 0 <= i < |s| => PyStr([s[i]])))
    case PyDict(entries) => Some(seq(|entries|, i requires 0 <= i < |entries| => PyStr(entries[i].0)))
    case PyPath(_) => None
    case PyNone => None
    case PyOther => None
  }

  // ---------------------------------------------------------------------------
  // load_template_dirs
  // ---------------------------------------------------------------------------

  /** The DIRS list of one TEMPLATES entry: empty unless the entry is a dict whose DIRS is a list. */
  function DirsOf(template: PyValue): seq<PyValue>
  {
    match template
    case PyDict(entries) =>
      (match DictGet(entries, "DIRS")
       case Some(PyList(dirs)) => dirs
       case _ => [])
    case _ => []
  }

  /** The DIRS lists of the entries, one after another. */
  function TemplatesDirs(templates: seq<PyValue>): seq<PyValue>
  {
    if |templates| == 0 then []
    else TemplatesDirs(templates[..|templates| - 1]) + DirsOf(templates[|templates| - 1])
  }

  /** What load_template_dirs returns: nothing unless TEMPLATES exists and is a list. */
  function TemplateDirs(settings: Settings): seq<PyValue>
  {
    if "TEMPLATES" !in settings then []
    else match settings["TEMPLATES"]
      case PyList(templates) => TemplatesDirs(templates)
      case _ => []
  }

  /** `load_template_dirs`. */
  method LoadTemplateDirs(settings: Settings) returns (templateDirs: seq<PyValue>)
    ensures templateDirs == TemplateDirs(settings)
    ensures "TEMPLATES" !in settings || !settings["TEMPLATES"].PyList? ==> templateDirs == []
  {
    if "TEMPLATES" !in settings {
      return [];
    }
    var templates := settings["TEMPLATES"];
    if !templates.PyList? {
      return [];
    }
    templateDirs := [];
    for i := 0 to |templates.items|
      invariant templateDirs == TemplatesDirs(templates.items[..i])
    {
      assert templates.items[..i + 1][..i] == templates.items[..i];
      var template := templates.items[i];
      if !template.PyDict? {
        continue;
      }
      var dirs := DictGet(template.entries, "DIRS");
      if !(dirs.Some? && dirs.value.PyList?) {
        continue;
      }
      templateDirs := templateDirs + dirs.value.items;
    }
    assert templates.items[..|templates.items|] == templates.items;
  }

  /** The DIRS lists of two runs of entries come one after the other. */
  lemma {:induction false} TemplatesDirsAppend(a: seq<PyValue>, b: seq<PyValue>)
    ensures TemplatesDirs(a + b) == TemplatesDirs(a) + TemplatesDirs(b)
    decreases |b|
  {
    if |b| == 0 {
      assert a + b == a;
    } else {
      var init := b[..|b| - 1];
      var last := b[|b| - 1];
      assert (a + b)[..|a + b| - 1] == a + init;
      assert (a + b)[|a + b| - 1] == last;
      assert TemplatesDirs(a + b) == TemplatesDirs(a + init) + DirsOf(last);
      assert TemplatesDirs(b) == TemplatesDirs(init) + DirsOf(last);
      TemplatesDirsAppend(a, init);
    }
  }

  /**
   * An entry that is not a dict, or whose DIRS is missing or not a list,
   * contributes nothing: removing it changes nothing.
   */
  lemma SkippedEntry(a: seq<PyValue>, template: PyValue, b: seq<PyValue>)
    requires !template.PyDict? || DictGet(template.entries, "DIRS").None? || !DictGet(template.entries, "DIRS").value.PyList?
    ensures TemplatesDirs(a + [template] + b) == TemplatesDirs(a + b)
  {
    var t := [template];
    assert DirsOf(template) == [];
    assert TemplatesDirs(t) == [] by {
      assert t[..0] == [];
    }
    TemplatesDirsAppend(a, t);
    assert TemplatesDirs(a + t) == TemplatesDirs(a);
    TemplatesDirsAppend(a + t, b);
    TemplatesDirsAppend(a, b);
  }

  /**
   * A directory is found exactly when some entry is a dict whose DIRS list
   * holds it.
   */
  lemma {:induction false} TemplatesDirsMembers(templates: seq<PyValue>, dir: PyValue)
    ensures dir in TemplatesDirs(templates) <==>
              exists k :: 0 <= k < |templates| && dir in DirsOf(templates[k])
  {
    if |templates| > 0 {
      var init := templates[..|templates| - 1];
      TemplatesDirsMembers(init, dir);
      assert forall k :: 0 <= k < |init| ==> init[k] == templates[k];
      if dir in TemplatesDirs(templates) && dir !in DirsOf(templates[|templates| - 1]) {
        var k :| 0 <= k < |init| && dir in DirsOf(init[k]);
        assert dir in DirsOf(templates[k]);
      }
    }
  }

  // ---------------------------------------------------------------------------
  // load_static_files_dirs and load_dirs_to_watch
  // ---------------------------------------------------------------------------

  /**
   * What load_static_files_dirs returns: STATIC_ROOT if the attribute
   * exists, whatever its value, then what extending with STATICFILES_DIRS
   * appends; None when STATICFILES_DIRS is not iterable.
   */
  function StaticFilesDirs(settings: Settings): Option<seq<PyValue>>
  {
    var root := if "STATIC_ROOT" in settings then [settings["STATIC_ROOT"]] else [];
    if "STATICFILES_DIRS" !in settings then Some(root)
    else match Elements(settings["STATICFILES_DIRS"])
      case None => None
      case Some(dirs) => Some(root + dirs)
  }

  /** `load_static_files_dirs`. */
  method LoadStaticFilesDirs(settings: Settings) returns (staticFileDirs: Option<seq<PyValue>>)
    ensures staticFileDirs == StaticFilesDirs(settings)
  {
    var dirs: seq<PyValue> := [];
    if "STATIC_ROOT" in settings {
      dirs := dirs + [settings["STATIC_ROOT"]];
      assert dirs == [settings["STATIC_ROOT"]];
    }
    if "STATICFILES_DIRS" in settings {
      var more := Elements(settings["STATICFILES_DIRS"]);
      if more.None? {
        return None;
      }
      dirs := dirs + more.value;
    }
    return Some(dirs);
  }

  /**
   * STATIC_ROOT comes first whenever the attribute exists, whatever its
   * value, and the elements of STATICFILES_DIRS follow in order.
   */
  lemma StaticFilesDirsOrder(settings: Settings)
    requires StaticFilesDirs(settings).Some?
    ensures var dirs := StaticFilesDirs(settings).value;
            var n := if "STATIC_ROOT" in settings then 1 else 0;
            && n <= |dirs|
            && ("STATIC_ROOT" in settings ==> dirs[0] == settings["STATIC_ROOT"])
            && dirs[n..] == (if "STATICFILES_DIRS" in settings then Elements(settings["STATICFILES_DIRS"]).value else [])
  {
  }

  /** Only a STATICFILES_DIRS that cannot be iterated makes the loader fail. */
  lemma StaticFilesDirsFails(settings: Settings)
    ensures StaticFilesDirs(settings).None? <==>
              "STATICFILES_DIRS" in settings && (settings["STATICFILES_DIRS"].PyPath? || settings["STATICFILES_DIRS"] in {PyNone, PyOther})
  {
  }

  /** What load_dirs_to_watch returns: the template directories, then the static ones. */
  function DirsToWatch(settings: Settings): Option<seq<PyValue>>
  {
    match StaticFilesDirs(settings)
    case None => None
    case Some(staticDirs) => Some(TemplateDirs(settings) + staticDirs)
  }

  /** `load_dirs_to_watch`. */
  method LoadDirsToWatch(settings: Settings) returns (dirs: Option<seq<PyValue>>)
    ensures dirs == DirsToWatch(settings)
  {
    var all: seq<PyValue> := [];
    var templateDirs := LoadTemplateDirs(settings);
    all := all + templateDirs;
    assert all == templateDirs;
    var staticFileDirs := LoadStaticFilesDirs(settings);
    if staticFileDirs.None? {
      return None;
    }
    all := all + staticFileDirs.value;
    return Some(all);
  }

  /** The watch list starts with the template directories and ends with the static ones. */
  lemma DirsToWatchParts(settings: Settings)
    requires DirsToWatch(settings).Some?
    ensures var dirs := DirsToWatch(settings).value;
            var t := TemplateDirs(settings);
            |t| <= |dirs| && dirs[..|t|] == t && dirs[|t|..] == StaticFilesDirs(settings).value
  {
  }

  // ---------------------------------------------------------------------------
  // load_valid_watch_dirs
  // ---------------------------------------------------------------------------

  /** The entries that satisfy `keep`, in their order. */
  function Filter(xs: seq<PyValue>, keep: PyValue -> bool): seq<PyValue>
  {
    if |xs| == 0 then []
    else Filter(xs[..|xs| - 1], keep) + (if keep(xs[|xs| - 1]) then [xs[|xs| - 1]] else [])
  }

  /** `sub` is `xs` with some entries left out, the rest in their order. */
  predicate IsSubsequence(sub: seq<PyValue>, xs: seq<PyValue>)
    decreases |xs|
  {
    if |sub| == 0 then true
    else if |xs| == 0 then false
    else if sub[|sub| - 1] == xs[|xs| - 1] then IsSubsequence(sub[..|sub| - 1], xs[..|xs| - 1])
    else IsSubsequence(sub, xs[..|xs| - 1])
  }

  /**
   * The filter keeps the order, and holds exactly the entries that satisfy
   * `keep`.
   */
  lemma FilterSpec(xs: seq<PyValue>, keep: PyValue -> bool)
    ensures IsSubsequence(Filter(xs, keep), xs)
    ensures forall x :: x in Filter(xs, keep) <==> x in xs && keep(x)
  {
    FilterOrder(xs, keep);
    FilterMembers(xs, keep);
  }

  /** The filter of one more entry: the filter of the others, then that entry if it passes. */
  lemma FilterStep(xs: seq<PyValue>, keep: PyValue -> bool)
    requires |xs| > 0
    ensures xs == xs[..|xs| - 1] + [xs[|xs| - 1]]
    ensures Filter(xs, keep) ==
              Filter(xs[..|xs| - 1], keep) + (if keep(xs[|xs| - 1]) then [xs[|xs| - 1]] else [])
  {
  }

  lemma {:induction false} FilterOrder(xs: seq<PyValue>, keep: PyValue -> bool)
    ensures IsSubsequence(Filter(xs, keep), xs)
  {
    if |xs| > 0 {
      var init := xs[..|xs| - 1];
      var last := xs[|xs| - 1];
      FilterOrder(init, keep);
      FilterStep(xs, keep);
      var f := Filter(init, keep);
      if keep(last) {
        assert (f + [last])[..|f|] == f;
      } else {
        assert f + [] == f;
        SubsequenceOfPrefix(f, init, last);
      }
    }
  }

  lemma {:induction false} FilterMembers(xs: seq<PyValue>, keep: PyValue -> bool)
    ensures forall x :: x in Filter(xs, keep) <==> x in xs && keep(x)
  {
    if |xs| > 0 {
      var init := xs[..|xs| - 1];
      var last := xs[|xs| - 1];
      FilterMembers(init, keep);
      FilterStep(xs, keep);
    }
  }

  /** A subsequence of a prefix is a subsequence of the whole. */
  lemma {:induction false} SubsequenceOfPrefix(sub: seq<PyValue>, xs: seq<PyValue>, x: PyValue)
    requires IsSubsequence(sub, xs)
    ensures IsSubsequence(sub, xs + [x])
    decreases |xs|, 1
  {
    var ys := xs + [x];
    assert ys[..|ys| - 1] == xs;
    if |sub| > 0 && sub[|sub| - 1] == x {
      SubsequenceDrop(sub[..|sub| - 1], xs, sub);
    }
  }

  /** Dropping the last entry of a subsequence keeps it a subsequence. */
  lemma {:induction false} SubsequenceDrop(shorter: seq<PyValue>, xs: seq<PyValue>, sub: seq<PyValue>)
    requires |sub| > 0 && shorter == sub[..|sub| - 1] && IsSubsequence(sub, xs)
    ensures IsSubsequence(shorter, xs)
    decreases |xs|, 0
  {
    if |shorter| > 0 && |xs| > 0 {
      var xinit := xs[..|xs| - 1];
      if sub[|sub| - 1] == xs[|xs| - 1] {
        // IsSubsequence(shorter, xinit), so shorter also fits in xs
        SubsequenceOfPrefix(shorter, xinit, xs[|xs| - 1]);
        assert xinit + [xs[|xs| - 1]] == xs;
      } else {
        SubsequenceDrop(shorter, xinit, sub);
        SubsequenceOfPrefix(shorter, xinit, xs[|xs| - 1]);
        assert xinit + [xs[|xs| - 1]] == xs;
      }
    }
  }

  /** Filtering twice keeps what filtering once kept. */
  lemma {:induction false} FilterIdempotent(xs: seq<PyValue>, keep: PyValue -> bool)
    ensures Filter(Filter(xs, keep), keep) == Filter(xs, keep)
  {
    if |xs| > 0 {
      var init := xs[..|xs| - 1];
      var last := xs[|xs| - 1];
      FilterIdempotent(init, keep);
      var f := Filter(init, keep);
      if keep(last) {
        assert (f + [last])[..|f|] == f;
      } else {
        assert f + [] == f;
      }
    }
  }

  /**
   * What load_valid_watch_dirs returns: the watch list with only the
   * entries that are existing directories.
   */
  function ValidWatchDirs(settings: Settings, isDir: PyValue -> bool): Option<seq<PyValue>>
  {
    match DirsToWatch(settings)
    case None => None
    case Some(dirs) => Some(Filter(dirs, isDir))
  }

  /** `load_valid_watch_dirs`, with `isDir` standing for `os.path.exists(d) and os.path.isdir(d)`. */
  method LoadValidWatchDirs(settings: Settings, isDir: PyValue -> bool) returns (watchDirs: Option<seq<PyValue>>)
    ensures watchDirs == ValidWatchDirs(settings, isDir)
  {
    var fromSettings := LoadDirsToWatch(settings);
    if fromSettings.None? {
      return None;
    }
    var dirs := fromSettings.value;
    var kept: seq<PyValue> := [];
    for i := 0 to |dirs|
      invariant kept == Filter(dirs[..i], isDir)
    {
      assert dirs[..i + 1][..i] == dirs[..i];
      if isDir(dirs[i]) {
        kept := kept + [dirs[i]];
      }
    }
    assert dirs[..|dirs|] == dirs;
    return Some(kept);
  }

  /**
   * The valid watch directories are a subsequence of the watch list holding
   * exactly its entries that are existing directories.
   */
  lemma ValidWatchDirsSpec(settings: Settings, isDir: PyValue -> bool)
    requires DirsToWatch(settings).Some?
    ensures var valid := ValidWatchDirs(settings, isDir).value;
            && IsSubsequence(valid, DirsToWatch(settings).value)
            && forall d :: d in valid <==> d in DirsToWatch(settings).value && isDir(d)
  {
    FilterSpec(DirsToWatch(settings).value, isDir);
  }

  /**
   * Path values are told apart: of two different paths in the watch list,
   * the one that is an existing directory is kept and the other dropped.
   */
  lemma PathDirectoryKept(settings: Settings, isDir: PyValue -> bool, dir: string, missing: string)
    requires DirsToWatch(settings) == Some([PyPath(dir), PyPath(missing)])
    requires isDir(PyPath(dir)) && !isDir(PyPath(missing))
    ensures ValidWatchDirs(settings, isDir) == Some([PyPath(dir)])
  {
    var dirs := [PyPath(dir), PyPath(missing)];
    FilterStep(dirs, isDir);
    FilterStep(dirs[..1], isDir);
    assert dirs[..1][..0] == [];
    assert Filter(dirs, isDir) == [] + [PyPath(dir)] + [] == [PyPath(dir)];
  }
}
