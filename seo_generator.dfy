/**
 * SEO title and meta-description generation from a primary keyword.
 * Lengths count code points (mb_strlen / mb_substr). wp_strip_all_tags, the
 * site name, the two filters that may hand the job to a language model, and
 * the post/term meta stores are parameters.
 */
module SeoGenerator {
  import opened Wrappers
  import opened Strings

  const TitleMax: nat := 60
  const DescMax: nat := 155
  const KeywordMax: nat := 120

  /** What the generator asks of WordPress: wp_strip_all_tags, get_bloginfo('name'),
      the 'trp_use_llm_for_seo' filter and the 'trp_llm_generate_seo' filter
      (None when that filter returns something other than a string). */
  datatype Wp = Wp(stripAllTags: string -> string,
                   siteName: string,
                   useLlm: (string, string, int, string) -> bool,
                   llmGenerate: SeoQuery -> Option<string>)

  /** The array handed to 'trp_llm_generate_seo'. */
  datatype SeoQuery = SeoQuery(kind: string, keyword: string, language: string,
                               objectId: int, objectType: string)

  /** \s of a PCRE pattern with the /u modifier, which PHP compiles with UCP:
      \p{Z}, \h and \v. */
  predicate IsRegexSpace(c: char) {
    c == ' ' || c == '\t' || c == '\n' || c == '\U{B}' || c == '\U{C}' || c == '\r'
    || c == '\U{85}' || c == '\U{A0}' || c == '\U{1680}' || c == '\U{180E}' || ('\U{2000}' <= c <= '\U{200A}')
    || c == '\U{2028}' || c == '\U{2029}' || c == '\U{202F}' || c == '\U{205F}' || c == '\U{3000}'
  }

  predicate HasSpace(s: string) {
    exists k :: 0 <= k < |s| && IsRegexSpace(s[k])
  }

  /** Length of the longest suffix of `s` without whitespace. */
  function TrailingWordLength(s: string): (n: nat)
    ensures n <= |s|
    ensures forall k :: |s| - n <= k < |s| ==> !IsRegexSpace(s[k])
    ensures n < |s| ==> IsRegexSpace(s[|s| - n - 1])
  {
    if s == [] || IsRegexSpace(s[|s| - 1]) then 0 else TrailingWordLength(s[..|s| - 1]) + 1
  }

  /** Length of the longest all-whitespace suffix of `s`. */
  function TrailingSpaceLength(s: string): (n: nat)
    ensures n <= |s|
    ensures forall k :: |s| - n <= k < |s| ==> IsRegexSpace(s[k])
    ensures n < |s| ==> !IsRegexSpace(s[|s| - n - 1])
  {
    if s == [] || !IsRegexSpace(s[|s| - 1]) then 0 else TrailingSpaceLength(s[..|s| - 1]) + 1
  }

  /** What `$` (without the /m modifier) sees as the end of `s`: the text
      before a final "\n", or the whole text. */
  function LineBody(s: string): (b: string)
    ensures b <= s && |s| - 1 <= |b|
    ensures |b| < |s| <==> |s| > 0 && s[|s| - 1] == '\n'
  {
    if |s| > 0 && s[|s| - 1] == '\n' then s[..|s| - 1] else s
  }

  /** preg_replace('/\s+\S*$/u', '', s): drop the last whitespace run and the
      partial word after it.  `$` also matches before a final "\n", and the
      replacement is global, so a final newline goes as well.  The leftmost
      match starts at the last whitespace run of the line body, so what is
      removed from the body is one whitespace run followed by a
      whitespace-free tail, and what is kept ends in a non-space; when the
      body has no whitespace only the final newline goes. */
  function DropTrailingWord(s: string): (r: string)
    ensures r <= s
    ensures r == s <==> !HasSpace(s)
    ensures r == [] || !IsRegexSpace(r[|r| - 1])
    ensures r <= LineBody(s)
    ensures !HasSpace(LineBody(s)) ==> r == LineBody(s)
    ensures HasSpace(LineBody(s)) ==> |r| < |LineBody(s)| && IsRegexSpace(LineBody(s)[|r|])
    ensures forall a, b :: |r| <= a < b < |LineBody(s)| && !IsRegexSpace(LineBody(s)[a])
                           ==> !IsRegexSpace(LineBody(s)[b])
  {
    var body := LineBody(s);
    var w := TrailingWordLength(body);
    if w == |body| then
      assert forall k :: 0 <= k < |body| ==> !IsRegexSpace(body[k]);
      assert body != s ==> IsRegexSpace(s[|s| - 1]);
      body
    else
      var cut := |body| - w;
      var sp := TrailingSpaceLength(body[..cut]);
      var kept := cut - sp;
      assert IsRegexSpace(s[cut - 1]);
      assert forall k :: kept <= k < cut ==> IsRegexSpace(body[k]) by {
        forall k | kept <= k < cut ensures IsRegexSpace(body[k]) {
          assert body[..cut][k] == body[k];
        }
      }
      assert HasSpace(body) by {
        assert IsRegexSpace(body[cut - 1]);
      }
      assert body[..kept] == s[..kept];
      s[..kept]
  }

  /** The contract of DropTrailingWord pins its result down: any text with
      the same four properties is that result. */
  lemma {:induction false} DropTrailingWordUnique(s: string, r: string)
    requires r <= LineBody(s)
    requires r == [] || !IsRegexSpace(r[|r| - 1])
    requires !HasSpace(LineBody(s)) ==> r == LineBody(s)
    requires HasSpace(LineBody(s)) ==> |r| < |LineBody(s)| && IsRegexSpace(LineBody(s)[|r|])
    requires forall a, b :: |r| <= a < b < |LineBody(s)| && !IsRegexSpace(LineBody(s)[a])
                            ==> !IsRegexSpace(LineBody(s)[b])
    ensures r == DropTrailingWord(s)
  {
    var body := LineBody(s);
    var d := DropTrailingWord(s);
    // Both texts are prefixes of the body ending in a non-space and followed
    // by a space after which no space follows a non-space: their lengths agree.
    assert r == body[..|r|] && d == body[..|d|];
  }

  /** The cut keeps every word but the partial last one. */
  lemma DropTrailingWordExample()
    ensures DropTrailingWord("a b c") == "a b"
  {
    var s := "a b c";
    assert LineBody(s) == s;
    assert IsRegexSpace(s[3]);
    DropTrailingWordUnique(s, "a b");
  }

  /** U+180E counts as whitespace: PCRE's \h includes it under UCP. */
  lemma DropTrailingWordVowelSeparatorExample()
    ensures DropTrailingWord("a\U{180E}b") == "a"
  {
    var s := "a\U{180E}b";
    assert LineBody(s) == s;
    assert IsRegexSpace(s[1]);
    DropTrailingWordUnique(s, "a");
  }

  /** Before a final newline the partial word goes, and the newline with it. */
  lemma DropTrailingWordNewlineExample()
    ensures DropTrailingWord("a b\n") == "a"
    ensures DropTrailingWord("ab\n") == "ab"
  {
    assert LineBody("a b\n") == "a b";
    assert IsRegexSpace("a b"[1]);
    DropTrailingWordUnique("a b\n", "a");
    assert LineBody("ab\n") == "ab";
    assert !HasSpace("ab");
    DropTrailingWordUnique("ab\n", "ab");
  }

  /** normalize_keyword: trimmed, tag-stripped, at most 120 code points. */
  function NormalizeKeyword(wp: Wp, keyword: string): (r: string)
    ensures |r| <= KeywordMax
    ensures r <= Trim(wp.stripAllTags(keyword))
    ensures |Trim(wp.stripAllTags(keyword))| <= KeywordMax ==> r == Trim(wp.stripAllTags(keyword))
  {
    var k := Trim(wp.stripAllTags(keyword));
    if |k| > KeywordMax then k[..KeywordMax] else k
  }

  /** Cut `s` to `room` code points at a word boundary, right-trim, and append `tail`. */
  function CutAtWord(s: string, room: nat, tail: string): (r: string)
    requires room <= |s|
    ensures |tail| <= |r| <= room + |tail|
    ensures r[..|r| - |tail|] <= s[..room] && r[|r| - |tail|..] == tail
    ensures var kept := r[..|r| - |tail|]; kept == [] || !IsTrimChar(kept[|kept| - 1])
    ensures r[..|r| - |tail|] == RTrim(DropTrailingWord(s[..room]))
  {
    var kept := RTrim(DropTrailingWord(s[..room]));
    assert (kept + tail)[..|kept|] == kept;
    kept + tail
  }

  /** truncate_title */
  function TruncateTitle(wp: Wp, title: string): (r: string)
    ensures |r| <= TitleMax
    ensures var s := Trim(wp.stripAllTags(title));
            |s| <= TitleMax ==> r == s
    ensures var s := Trim(wp.stripAllTags(title));
            |s| > TitleMax ==> |r| >= 1 && r[|r| - 1] == '…' && r[..|r| - 1] <= s[..TitleMax - 1]
    ensures var s := Trim(wp.stripAllTags(title));
            |s| > TitleMax ==> r == RTrim(DropTrailingWord(s[..TitleMax - 1])) + "…"
  {
    var s := Trim(wp.stripAllTags(title));
    if |s| <= TitleMax then s else CutAtWord(s, TitleMax - 1, "…")
  }

  /** truncate_description */
  function TruncateDescription(wp: Wp, desc: string): (r: string)
    ensures |r| <= DescMax
    ensures var s := Trim(wp.stripAllTags(desc));
            |s| <= DescMax ==> r == s
    ensures var s := Trim(wp.stripAllTags(desc));
            |s| > DescMax ==> |r| >= 3 && r[|r| - 3..] == "..." && r[..|r| - 3] <= s[..DescMax - 3]
    ensures var s := Trim(wp.stripAllTags(desc));
            |s| > DescMax ==> r == RTrim(DropTrailingWord(s[..DescMax - 3])) + "..."
  {
    var s := Trim(wp.stripAllTags(desc));
    if |s| <= DescMax then s else CutAtWord(s, DescMax - 3, "...")
  }

  /** The language-model output, when the filters enable it and it is a non-empty string. */
  function LlmText(wp: Wp, kind: string, keyword: string, language: string,
                   objectId: int, objectType: string): Option<string>
  {
    if wp.useLlm(keyword, language, objectId, objectType) then
      var out := wp.llmGenerate(SeoQuery(kind, keyword, language, objectId, objectType));
      if out.Some? && out.value != "" then out else None
    else None
  }

  /** generate_title */
  function GenerateTitle(wp: Wp, keyword: string, language: string, objectId: int, objectType: string): (r: string)
    ensures |r| <= TitleMax
    ensures var k := NormalizeKeyword(wp, keyword);
            var llm := LlmText(wp, "title", k, language, objectId, objectType);
            (llm.Some? ==> r == TruncateTitle(wp, llm.value))
            && (llm.None? ==> r == TruncateTitle(wp, k + " - " + wp.siteName))
  {
    var k := NormalizeKeyword(wp, keyword);
    var llm := LlmText(wp, "title", k, language, objectId, objectType);
    if llm.Some? then TruncateTitle(wp, llm.value)
    else TruncateTitle(wp, k + " - " + wp.siteName)
  }

  /** The default description template '%s — %s. %s' with the call to action
      (its __() translation is not part of this model). */
  function DefaultDescription(keyword: string, site: string): string {
    keyword + " — " + "Find expert resources and practical tips on " + keyword + ". " + site
  }

  /** generate_description */
  function GenerateDescription(wp: Wp, keyword: string, language: string, objectId: int, objectType: string): (r: string)
    ensures |r| <= DescMax
    ensures var k := NormalizeKeyword(wp, keyword);
            var llm := LlmText(wp, "description", k, language, objectId, objectType);
            (llm.Some? ==> r == TruncateDescription(wp, llm.value))
            && (llm.None? ==> r == TruncateDescription(wp, DefaultDescription(k, wp.siteName)))
  {
    var k := NormalizeKeyword(wp, keyword);
    var llm := LlmText(wp, "description", k, language, objectId, objectType);
    if llm.Some? then TruncateDescription(wp, llm.value)
    else TruncateDescription(wp, DefaultDescription(k, wp.siteName))
  }

  function TitleKey(language: string): string { "trp_seo_title_" + language }
  function DescriptionKey(language: string): string { "trp_seo_description_" + language }

  lemma MetaKeysDiffer(language: string)
    ensures TitleKey(language) != DescriptionKey(language)
  {
    assert TitleKey(language)[8] == 't';
    assert DescriptionKey(language)[8] == 'd';
  }

  /** Post or term meta: (object id, meta key) -> value. */
  type Meta = map<(int, string), string>

  /** The two meta writes of generate_and_save_for_post / _for_term: the title
      and the description of the language, under their own keys. */
  function StoreSeoMeta(meta: Meta, objectId: int, language: string, title: string, desc: string): (m: Meta)
    ensures m.Keys == meta.Keys + {(objectId, TitleKey(language)), (objectId, DescriptionKey(language))}
    ensures m[(objectId, TitleKey(language))] == title
    ensures m[(objectId, DescriptionKey(language))] == desc
  {
    var titleKey := (objectId, TitleKey(language));
    var descKey := (objectId, DescriptionKey(language));
    MetaKeysDiffer(language);
    assert titleKey != descKey;
    meta[titleKey := title][descKey := desc]
  }

  /** Every other meta entry is left as it was. */
  lemma StoreSeoMetaFrame(meta: Meta, objectId: int, language: string, title: string, desc: string, k: (int, string))
    requires k in meta && k != (objectId, TitleKey(language)) && k != (objectId, DescriptionKey(language))
    ensures var m := StoreSeoMeta(meta, objectId, language, title, desc);
            k in m && m[k] == meta[k]
  {
  }

  /** Generating and saving: the stored texts are the generated ones and
      respect the length limits. */
  function SaveSeoMeta(meta: Meta, wp: Wp, objectId: int, language: string, keyword: string, objectType: string): (m: Meta)
    ensures m.Keys == meta.Keys + {(objectId, TitleKey(language)), (objectId, DescriptionKey(language))}
    ensures m[(objectId, TitleKey(language))] == GenerateTitle(wp, keyword, language, objectId, objectType)
    ensures m[(objectId, DescriptionKey(language))] == GenerateDescription(wp, keyword, language, objectId, objectType)
    ensures |m[(objectId, TitleKey(language))]| <= TitleMax
    ensures |m[(objectId, DescriptionKey(language))]| <= DescMax
  {
    StoreSeoMeta(meta, objectId, language, GenerateTitle(wp, keyword, language, objectId, objectType),
                 GenerateDescription(wp, keyword, language, objectId, objectType))
  }

  /** generate_and_save_for_post */
  function GenerateAndSaveForPost(postMeta: Meta, wp: Wp, postId: int, language: string, keyword: string): (m: Meta)
    ensures m.Keys == postMeta.Keys + {(postId, TitleKey(language)), (postId, DescriptionKey(language))}
    ensures m[(postId, TitleKey(language))] == GenerateTitle(wp, keyword, language, postId, "post")
    ensures m[(postId, DescriptionKey(language))] == GenerateDescription(wp, keyword, language, postId, "post")
  {
    SaveSeoMeta(postMeta, wp, postId, language, keyword, "post")
  }

  /** generate_and_save_for_term */
  function GenerateAndSaveForTerm(termMeta: Meta, wp: Wp, termId: int, language: string, keyword: string): (m: Meta)
    ensures m.Keys == termMeta.Keys + {(termId, TitleKey(language)), (termId, DescriptionKey(language))}
    ensures m[(termId, TitleKey(language))] == GenerateTitle(wp, keyword, language, termId, "term")
    ensures m[(termId, DescriptionKey(language))] == GenerateDescription(wp, keyword, language, termId, "term")
  {
    SaveSeoMeta(termMeta, wp, termId, language, keyword, "term")
  }

  /** Truncation is idempotent on plain text: a truncated title, truncated
      again, comes back unchanged. */
  lemma {:induction false} TruncateTitleIdempotent(wp: Wp, title: string)
    requires forall s :: wp.stripAllTags(s) == s
    ensures TruncateTitle(wp, TruncateTitle(wp, title)) == TruncateTitle(wp, title)
  {
    var s := Trim(wp.stripAllTags(title));
    var r := TruncateTitle(wp, title);
    if |s| > TitleMax {
      PrefixOfPrefix(r[..|r| - 1], s, TitleMax - 1);
      TruncatedIsTrimmed(s, r);
    }
    assert wp.stripAllTags(r) == r;
    TrimmedTitleFixed(wp, r);
  }

  /** A short, trimmed title without tags is its own truncation. */
  lemma TrimmedTitleFixed(wp: Wp, r: string)
    requires wp.stripAllTags(r) == r && IsTrimmed(r) && |r| <= TitleMax
    ensures TruncateTitle(wp, r) == r
  {
  }

  lemma PrefixOfPrefix(a: string, s: string, n: nat)
    requires n <= |s| && a <= s[..n]
    ensures a <= s
  {
    assert a == s[..|a|];
  }

  lemma TruncatedIsTrimmed(s: string, r: string)
    requires IsTrimmed(s) && |r| >= 1 && r[|r| - 1] == '…' && r[..|r| - 1] <= s
    ensures IsTrimmed(r)
  {
    var kept := r[..|r| - 1];
    if kept != [] {
      assert r[0] == kept[0] == s[0];
    }
  }
}
