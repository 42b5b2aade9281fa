/** `LanguageManager`: translations kept as a parsed JSON document, looked up
    by dot-separated key paths, and the state of which language is loaded.
    Scanning the languages directory is not modelled: the constructor receives
    its result, the table of language codes with their names and files. Reading
    a language file is the `contents` parameter, from file name to the parsed
    document; a file that cannot be opened or parsed is missing from it. */
module Language {
  import opened Wrappers
  import opened Text

  /** A parsed JSON value: an object, a string, or any other value (number,
      boolean, list, null) kept as its text. */
  datatype Json = JObject(fields: map<string, Json>) | JString(s: string) | JOther(text: string)

  /** What `scan_languages` records for one language file. */
  datatype LangInfo = LangInfo(name: string, file: string)

  /** Following `keys` one object member at a time; `None` as soon as a key is
      missing or the value reached is not an object. */
  function Resolve(value: Json, keys: seq<string>): Option<Json>
    decreases |keys|
  {
    if keys == [] then Some(value)
    else if value.JObject? && keys[0] in value.fields then Resolve(value.fields[keys[0]], keys[1..])
    else None
  }

  /** Resolving a path in two parts is resolving the first part, then the
      second part from the value it reached. */
  lemma {:induction false} ResolveAppend(value: Json, a: seq<string>, b: seq<string>)
    ensures Resolve(value, a + b) == match Resolve(value, a) case Some(w) => Resolve(w, b) case None => None
    decreases |a|
  {
    if a == [] {
      assert a + b == b;
    } else if value.JObject? && a[0] in value.fields {
      assert (a + b)[0] == a[0] && (a + b)[1..] == a[1..] + b;
      ResolveAppend(value.fields[a[0]], a[1..], b);
    } else {
      assert (a + b)[0] == a[0];
    }
  }

  /** A path through a value that is not an object fails at its first key. */
  lemma ResolveThroughLeaf(value: Json, keys: seq<string>)
    requires !value.JObject? && keys != []
    ensures Resolve(value, keys) == None
  {
  }

  class LanguageManager {
    var currentLanguage: string
    var translations: Json
    const available: map<string, LangInfo>

    /** The current language is English, the initial choice, or one the scan found. */
    ghost predicate Valid()
      reads this
    {
      currentLanguage == "en" || currentLanguage in available
    }

    /** `__init__`: English, no translations, then `load_language('en')`. */
    constructor (available: map<string, LangInfo>, contents: map<string, Json>)
      ensures Valid()
      ensures this.available == available
      ensures currentLanguage == "en"
      ensures "en" in available && available["en"].file in contents ==> translations == contents[available["en"].file]
      ensures !("en" in available && available["en"].file in contents) ==> translations == JObject(map[])
    {
      this.available := available;
      currentLanguage := "en";
      translations := JObject(map[]);
      new;
      var _ := LoadLanguage("en", contents);
    }

    /** `load_language(code)`: an unknown code falls back to English; with
        English unknown too nothing changes and the answer is `false`. A file
        that cannot be read changes nothing either. A file that is read replaces
        the translations and the current language; the answer is `true` when
        the document is an object, as the following `translations.get` raises
        otherwise. */
    method LoadLanguage(code: string, contents: map<string, Json>) returns (ok: bool)
      requires Valid()
      modifies this`currentLanguage, this`translations
      ensures Valid()
      ensures var c := if code in available then code else "en";
        if c in available && available[c].file in contents then
          && currentLanguage == c
          && translations == contents[available[c].file]
          && ok == translations.JObject?
        else
          && !ok
          && currentLanguage == old(currentLanguage)
          && translations == old(translations)
    {
      var c := code;
      if c !in available {
        c := "en";
        if c !in available {
          return false;
        }
      }
      var file := available[c].file;
      if file !in contents {
        return false;
      }
      translations := contents[file];
      currentLanguage := c;
      ok := translations.JObject?;
    }

    /** `get(key_path, default)` without format arguments: the value at the
        path as it is, whether a string, an object or another value; when the
        path does not resolve, `default` if one is given and otherwise the path
        itself. It walks the keys of the dotted path one at a
        time, stopping at the first that is missing or reached through a value
        that is not an object. */
    method Get(keyPath: string, default: Option<string>) returns (r: Json)
      ensures Resolve(translations, Split(keyPath, '.')).Some? ==> r == Resolve(translations, Split(keyPath, '.')).value
      ensures Resolve(translations, Split(keyPath, '.')).None? ==> r == JString(default.GetOr(keyPath))
    {
      var keys := Split(keyPath, '.');
      var value := translations;
      var i := 0;
      while i < |keys|
        invariant 0 <= i <= |keys|
        invariant Resolve(translations, keys) == Resolve(value, keys[i..])
      {
        var key := keys[i];
        assert keys[i..][1..] == keys[i + 1..];
        if value.JObject? && key in value.fields {
          value := value.fields[key];
        } else {
          return JString(default.GetOr(keyPath));
        }
        i := i + 1;
      }
      return value;
    }

    /** `get_language_name(code)`: no code means the current language; a known
        code gives its name and an unknown one is returned as it is. */
    function GetLanguageName(code: Option<string>): (name: string)
      reads this
      ensures code.GetOr(currentLanguage) in available ==> name == available[code.GetOr(currentLanguage)].name
      ensures code.GetOr(currentLanguage) !in available ==> name == code.GetOr(currentLanguage)
    {
      var c := code.GetOr(currentLanguage);
      if c in available then available[c].name else c
    }

    /** `get_available_languages`: each scanned code with its name. */
    function GetAvailableLanguages(): (m: map<string, string>)
      ensures m.Keys == available.Keys
      ensures forall c :: c in m ==> m[c] == available[c].name
    {
      map c | c in available :: available[c].name
    }

    /** The two agree: the name of a code is its entry in the language table,
        and a code not in the table is its own name. */
    lemma NameAgreesWithTable(code: string)
      ensures code in GetAvailableLanguages() ==> GetLanguageName(Some(code)) == GetAvailableLanguages()[code]
      ensures code !in GetAvailableLanguages() ==> GetLanguageName(Some(code)) == code
    {
    }
  }

  /** Looking up `"a.b"` is looking up `b` in what `a` gives, when `a` itself
      holds no dot. */
  lemma LookupNested(translations: Json, a: string, b: string)
    requires '.' !in a
    ensures Resolve(translations, Split(a + "." + b, '.')) ==
      match Resolve(translations, [a]) case Some(w) => Resolve(w, Split(b, '.')) case None => None
  {
    SplitAfterFirst(a, b);
    ResolveAppend(translations, [a], Split(b, '.'));
  }

  lemma SplitAfterFirst(a: string, b: string)
    requires '.' !in a
    ensures Split(a + "." + b, '.') == [a] + Split(b, '.')
  {
    var s := a + "." + b;
    assert forall k :: 0 <= k < |a| ==> s[k] == a[k];
    assert s[|a|] == '.';
    assert IndexOf(s, '.') == |a|;
    assert s[..|a|] == a && s[|a| + 1..] == b;
  }
}
