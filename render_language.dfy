/**
 * force_language_in_preview: which language translate_page works in, or none.
 */
module RenderLanguage {
  import opened Wrappers

  /** The first language of the list that differs from `current`. */
  function FirstOther(languages: seq<string>, current: string): (r: Option<string>)
    ensures r.None? <==> forall l :: l in languages ==> l == current
    ensures r.Some? ==> exists i :: 0 <= i < |languages| && languages[i] == r.value &&
                                    r.value != current &&
                                    forall j :: 0 <= j < i ==> languages[j] == current
    decreases |languages|
  {
    if languages == [] then None
    else if languages[0] != current then
      assert languages[0] in languages;
      Some(languages[0])
    else
      var r := FirstOther(languages[1..], current);
      if r.Some? then
        var i :| 0 <= i < |languages[1..]| && languages[1..][i] == r.value &&
                 forall j :: 0 <= j < i ==> languages[1..][j] == current;
        assert languages[i + 1] == r.value && languages[i + 1] in languages;
        r
      else
        assert languages == [languages[0]] + languages[1..];
        r
  }

  function ForceLanguageInPreview(current: string, languages: seq<string>, defaultLanguage: string,
                                  preview: bool): (r: Option<string>)
    ensures current !in languages ==> r.None?
    ensures current in languages && current != defaultLanguage ==> r == Some(current)
    ensures current == defaultLanguage && !preview ==> r.None?
    ensures r.Some? ==> r.value in languages
    ensures current in languages && current == defaultLanguage && preview && |languages| <= 1 ==> r == Some(current)
  {
    if current !in languages then None
    else if current == defaultLanguage then
      if preview then
        if |languages| > 1 then FirstOther(languages, current) else Some(current)
      else None
    else Some(current)
  }

  /** In preview on the default language with other languages configured, the
      working language is the first configured language other than the default. */
  lemma PreviewPicksFirstOther(current: string, languages: seq<string>, defaultLanguage: string)
    requires current in languages && current == defaultLanguage && |languages| > 1
    requires exists l :: l in languages && l != current
    ensures var r := ForceLanguageInPreview(current, languages, defaultLanguage, true);
            r.Some? && r.value != defaultLanguage &&
            exists i :: 0 <= i < |languages| && languages[i] == r.value &&
                        forall j :: 0 <= j < i ==> languages[j] == defaultLanguage
  {
  }

  /** With only the default language repeated, preview mode finds no language. */
  lemma PreviewWithOnlyDefault(current: string, languages: seq<string>)
    requires |languages| > 1 && forall l :: l in languages ==> l == current
    ensures ForceLanguageInPreview(current, languages, current, true).None?
  {
    assert languages[0] in languages;
  }
}
