/**
 * `TemplateLoader`: the normalisation of a template path to a Handlebars file
 * name, the cache of compiled templates, and two of the helpers it registers
 * (`default` and `size`).
 *
 * The template directory's files are a map from the path relative to the
 * directory to the file's text; the compiler is a function parameter.
 */
module TemplateLoader {
  import opened Wrappers
  import opened Text

  const Liquid := ".liquid"
  const Hbs := ".hbs"

  /** The path a template is looked up and cached under: `.liquid` becomes `.hbs`, a path without `.hbs` gets it. */
  function NormalizeTemplatePath(templatePath: string): string {
    if EndsWith(templatePath, Liquid) then ReplaceAll(templatePath, Liquid, Hbs)
    else if !EndsWith(templatePath, Hbs) then templatePath + Hbs
    else templatePath
  }

  /** No proper prefix of ".liquid" is also a suffix of it. */
  lemma LiquidBorderless()
    ensures Borderless(Liquid)
  {
    forall k | 0 < k < |Liquid| ensures Liquid[..k] != Liquid[|Liquid| - k..] {
      assert Liquid[..k][0] == '.';
      assert Liquid[|Liquid| - k..][0] == Liquid[|Liquid| - k];
    }
  }

  /** A normalised path always names a Handlebars file. */
  lemma NormalizedEndsWithHbs(templatePath: string)
    ensures EndsWith(NormalizeTemplatePath(templatePath), Hbs)
  {
    if EndsWith(templatePath, Liquid) {
      var w := templatePath[..|templatePath| - |Liquid|];
      assert templatePath == w + Liquid;
      LiquidBorderless();
      ReplaceAllSuffix(w, Liquid, Hbs);
    } else if !EndsWith(templatePath, Hbs) {
      assert (templatePath + Hbs)[|templatePath|..] == Hbs;
    }
  }

  /** A path that ends with `.hbs` is its own normal form. */
  lemma HbsFixed(templatePath: string)
    requires EndsWith(templatePath, Hbs)
    ensures NormalizeTemplatePath(templatePath) == templatePath
  {
    assert templatePath[|templatePath| - 1] == 's';
    assert Liquid[|Liquid| - 1] == 'd';
  }

  /** Normalising leaves a path unchanged exactly when it already ends with `.hbs`; so normalising twice is normalising once. */
  lemma NormalizeFixedPoints(templatePath: string)
    ensures NormalizeTemplatePath(templatePath) == templatePath <==> EndsWith(templatePath, Hbs)
    ensures NormalizeTemplatePath(NormalizeTemplatePath(templatePath)) == NormalizeTemplatePath(templatePath)
  {
    var p := NormalizeTemplatePath(templatePath);
    NormalizedEndsWithHbs(templatePath);
    HbsFixed(p);
    if EndsWith(templatePath, Hbs) {
      HbsFixed(templatePath);
    }
  }

  /**
   * The loader. `templateCache` maps a path to its compiled template; `T`
   * stands for the compiled template the compiler returns.
   */
  class Loader<T(==)> {
    var templateCache: map<string, T>

    constructor ()
      ensures templateCache == map[]
    {
      templateCache := map[];
    }

    /**
     * `get_template`. The cache is looked up under the path as given; on a miss
     * the normalised path is read from the template directory (FileNotFoundError
     * when there is no such file), compiled and cached under the normalised path.
     */
    method GetTemplate(templatePath: string, files: map<string, string>, compile: string -> T) returns (r: Result<T, string>)
      modifies this
      ensures old(templatePath in templateCache) ==>
                r == Ok(old(templateCache[templatePath])) && templateCache == old(templateCache)
      ensures !old(templatePath in templateCache) && NormalizeTemplatePath(templatePath) !in files ==>
                r == Err("Template not found: " + NormalizeTemplatePath(templatePath)) && templateCache == old(templateCache)
      ensures !old(templatePath in templateCache) && NormalizeTemplatePath(templatePath) in files ==>
                var p := NormalizeTemplatePath(templatePath);
                r == Ok(compile(files[p])) && templateCache == old(templateCache)[p := compile(files[p])]
    {
      if templatePath in templateCache {
        return Ok(templateCache[templatePath]);
      }
      var path := templatePath;
      if EndsWith(path, Liquid) {
        path := ReplaceAll(path, Liquid, Hbs);
      } else if !EndsWith(path, Hbs) {
        path := path + Hbs;
      }
      if path !in files {
        return Err("Template not found: " + path);
      }
      var template := compile(files[path]);
      templateCache := templateCache[path := template];
      return Ok(template);
    }

    /** `clear_cache`. */
    method ClearCache()
      modifies this
      ensures templateCache == map[]
    {
      templateCache := map[];
    }
  }

  /**
   * The cache quirk: a path that does not end with `.hbs` is never itself a
   * key a load stores, so asking for it again misses the cache and reads the
   * file again.
   */
  lemma RawPathNotCached(cache: map<string, string>, templatePath: string, text: string)
    requires !EndsWith(templatePath, Hbs) && templatePath !in cache
    ensures templatePath !in cache[NormalizeTemplatePath(templatePath) := text]
  {
    NormalizeFixedPoints(templatePath);
  }

  // ---- Helpers ----

  /** The Python values the helpers can be given. */
  datatype PyValue =
    | PyNone
    | PyBool(b: bool)
    | PyInt(i: int)
    | PyStr(s: string)
    | PyList(items: seq<PyValue>)
    | PyTuple(items: seq<PyValue>)
    | PyDict(entries: map<string, PyValue>)

  /** `_default_helper`: the default for None or "", the value otherwise. */
  function DefaultHelper(value: PyValue, defaultValue: PyValue): PyValue {
    if value == PyNone || value == PyStr("") then defaultValue else value
  }

  /** The result is None or "" only when the default is; and applying the helper twice changes nothing. */
  lemma DefaultHelperProperties(value: PyValue, defaultValue: PyValue)
    ensures DefaultHelper(value, defaultValue) == PyNone ==> defaultValue == PyNone
    ensures DefaultHelper(value, defaultValue) == PyStr("") ==> defaultValue == PyStr("")
    ensures DefaultHelper(DefaultHelper(value, defaultValue), defaultValue) == DefaultHelper(value, defaultValue)
  {
  }

  /** `_size_helper`: `len` of a list, tuple, dict or str, 0 for anything else (None included). */
  function SizeHelper(value: PyValue): nat {
    match value
    case PyNone => 0
    case PyStr(s) => |s|
    case PyList(items) => |items|
    case PyTuple(items) => |items|
    case PyDict(entries) => |entries|
    case _ => 0
  }

  /**
   * The size is positive exactly for a non-empty str, list, tuple or dict; None,
   * booleans, integers and empty collections all have size 0.
   */
  lemma SizePositive(value: PyValue)
    ensures SizeHelper(value) > 0 <==>
              (value.PyStr? || value.PyList? || value.PyTuple? || value.PyDict?)
              && value != PyStr("") && value != PyList([]) && value != PyTuple([]) && value != PyDict(map[])
  {
  }
}
