/** The translation lookup `t`: language fallback, key fallback, the
    `MISSING_KEY` marker, and first-occurrence placeholder substitution.
    The catalog's contents are a parameter. */
module Locales {
  import opened Wrappers
  import opened Text

  /** One language's templates, by key. */
  type Table = map<string, string>

  /** `strings`: language code to table. */
  type Catalog = map<string, Table>

  /** `table[key]` is truthy: present and not the empty string. */
  predicate Has(table: Table, key: string) {
    key in table && table[key] != ""
  }

  /** `strings[lang] || strings['en']`. */
  function LangTable(cat: Catalog, lang: string): Table
    requires "en" in cat
  {
    if lang in cat then cat[lang] else cat["en"]
  }

  function MissingKey(key: string): string {
    "MISSING_KEY: " + key
  }

  /** `langStrings[key] || strings['en'][key] || MISSING_KEY`: the template
      before substitution, never empty. */
  function Template(cat: Catalog, lang: string, key: string): (s: string)
    requires "en" in cat
    ensures s != ""
    ensures Has(LangTable(cat, lang), key) ==> s == LangTable(cat, lang)[key]
    ensures !Has(LangTable(cat, lang), key) && Has(cat["en"], key) ==> s == cat["en"][key]
    ensures !Has(LangTable(cat, lang), key) && !Has(cat["en"], key) ==> s == MissingKey(key)
  {
    var table := LangTable(cat, lang);
    if Has(table, key) then table[key]
    else if Has(cat["en"], key) then cat["en"][key]
    else MissingKey(key)
  }

  /** `{name}`. */
  function Placeholder(name: string): (p: string)
    ensures |p| >= 2
  {
    "{" + name + "}"
  }

  /** `s.replace(pat, v)` with a string pattern: only the first occurrence. */
  function ReplaceFirst(s: string, pat: string, v: string): string
    requires |pat| > 0
  {
    match FindFirst(s, pat)
    case None => s
    case Some(i) => s[..i] + v + s[i + |pat|..]
  }

  /** The effect of the substitution loop after the given replacements, in order. */
  function Render(s: string, reps: seq<(string, string)>): string {
    if |reps| == 0 then s
    else
      var last := reps[|reps| - 1];
      ReplaceFirst(Render(s, reps[..|reps| - 1]), Placeholder(last.0), last.1)
  }

  /** `t(key, lang, replacements)`, with the replacements in the iteration
      order of the object's keys. */
  method T(cat: Catalog, key: string, lang: string, reps: seq<(string, string)>) returns (str: string)
    requires "en" in cat
    ensures str == Render(Template(cat, lang, key), reps)
  {
    str := Template(cat, lang, key);
    for i := 0 to |reps|
      invariant str == Render(Template(cat, lang, key), reps[..i])
    {
      assert reps[..i + 1][..i] == reps[..i];
      str := ReplaceFirst(str, Placeholder(reps[i].0), reps[i].1);
    }
    assert reps[..|reps|] == reps;
  }

  /** An unknown language reads from the English table. */
  lemma UnknownLanguage(cat: Catalog, lang: string, key: string)
    requires "en" in cat && lang !in cat
    ensures Template(cat, lang, key) == Template(cat, "en", key)
  {
  }

  /** A key the chosen language lacks (or holds as "") but English has gives
      the English template. */
  lemma EnglishFallback(cat: Catalog, lang: string, key: string)
    requires "en" in cat && lang in cat
    requires !Has(cat[lang], key) && Has(cat["en"], key)
    ensures Template(cat, lang, key) == cat["en"][key]
  {
  }

  /** A key no table has gives `MISSING_KEY: ` followed by the key. */
  lemma MissingEverywhere(cat: Catalog, lang: string, key: string)
    requires "en" in cat
    requires forall l :: l in cat ==> !Has(cat[l], key)
    ensures Template(cat, lang, key) == "MISSING_KEY: " + key
  {
  }

  /** The first occurrence is replaced and nothing before or after it changes. */
  lemma ReplaceFirstAt(s: string, pat: string, v: string, i: nat)
    requires |pat| > 0 && OccursAt(s, pat, i)
    requires forall j :: 0 <= j < i ==> !OccursAt(s, pat, j)
    ensures ReplaceFirst(s, pat, v) == s[..i] + v + s[i + |pat|..]
  {
    assert FindFirst(s, pat) == Some(i);
  }

  /** A template without the pattern is left as it is. */
  lemma ReplaceAbsent(s: string, pat: string, v: string)
    requires |pat| > 0 && forall j :: !OccursAt(s, pat, j)
    ensures ReplaceFirst(s, pat, v) == s
  {
  }

  /** A template holding none of the placeholders comes back unchanged,
      whatever the replacements. */
  lemma {:induction false} RenderUntouched(s: string, reps: seq<(string, string)>)
    requires forall k, j :: k in reps ==> !OccursAt(s, Placeholder(k.0), j)
    ensures Render(s, reps) == s
  {
    if |reps| > 0 {
      var last := reps[|reps| - 1];
      assert forall k :: k in reps[..|reps| - 1] ==> k in reps;
      RenderUntouched(s, reps[..|reps| - 1]);
      assert last in reps;
      ReplaceAbsent(s, Placeholder(last.0), last.1);
    }
  }
}
