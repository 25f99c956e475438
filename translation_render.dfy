/**
 * translate_page (class-translation-render.php, lines 299-794): the output
 * buffer callback that turns a rendered page into its translation. The early
 * exits decide whether the page is rendered at all; the admitted page then goes
 * through block matching, marker unwrapping, extraction, substitution and link
 * rewriting, and the final markup is stored in the translated-pages cache
 * outside preview mode.
 */
module TranslationRender {
  import opened Wrappers
  import opened Strings
  import opened Dom
  import opened RenderEnv
  import opened RenderLanguage
  import opened BlockMatcher
  import opened RowScan
  import opened MarkerUnwrapper
  import opened AttributeMarkers
  import opened FragmentExtractor
  import opened Substitution
  import opened LinkRewriter
  import PagesCache

  /** The four str_replace calls that turn the escaped special tags back into
      angle brackets. */
  function RestoreSpecialTags(s: string): string {
    ReplaceAll(ReplaceAll(ReplaceAll(ReplaceAll(s, "#!trpst#", "<"), "#!TRPST#", "<"), "#!trpen#", ">"), "#!TRPEN#", ">")
  }

  /** A page without escaped special tags passes through unchanged. */
  lemma RestoreWithoutSpecialTags(s: string)
    requires !Contains(s, "#!trpst#") && !Contains(s, "#!TRPST#")
    requires !Contains(s, "#!trpen#") && !Contains(s, "#!TRPEN#")
    ensures RestoreSpecialTags(s) == s
  {
    ReplaceAbsent(s, "#!trpst#", "<");
    ReplaceAbsent(s, "#!TRPST#", "<");
    ReplaceAbsent(s, "#!trpen#", ">");
    ReplaceAbsent(s, "#!TRPEN#", ">");
  }

  /** A REST request is translated only from a rest_prepare_ filter. */
  predicate IsRestRequest(req: Request) {
    Contains(req.curPageUrl, req.restUrl) && !StartsWith(req.currentFilter, "rest_prepare_")
  }

  /** The result of the early exits: the reply, or the parsed page, its markup
      and the language whose blocks and translations are used. */
  datatype Admission = Refused(out: string) | Admitted(markup: string, tree: Tree, languageCode: string)

  /** Lines 300-403: every exit taken before the page is parsed, in order. */
  function Admit(p: Parser, lib: Lib, hooks: Hooks, settings: Settings, req: Request, output: string): (a: Admission)
    ensures a.Admitted? ==> p.parse(a.markup) == Some(a.tree)
    ensures a.Admitted? ==> req.language in settings.translationLanguages &&
                            a.languageCode in settings.translationLanguages
    ensures a.Admitted? ==> ForceLanguageInPreview(req.language, settings.translationLanguages,
                                                   settings.defaultLanguage, req.preview) == Some(a.languageCode)
  {
    if hooks.stop(output) then Refused(output)
    else
      var s := hooks.beforeTranslate(RestoreSpecialTags(output));
      if IsEmptyString(s) then Refused(s)
      else if IsRestRequest(req) then Refused(lib.removeTrpTags(s))
      else
        var code := ForceLanguageInPreview(req.language, settings.translationLanguages,
                                           settings.defaultLanguage, req.preview);
        if code.None? then Refused(s)
        else if hooks.jsonReply(s).Some? then Refused(hooks.jsonReply(s).value)
        else
          var markup := if hooks.tryFixingHtml then hooks.repairHtml(s) else s;
          var parsed := p.parse(markup);
          if parsed.None? then Refused(lib.removeTrpTags(markup))
          else Admitted(markup, parsed.value, code.value)
  }

  /** How translate_page ends: with a value returned early, or with the final
      markup that is cached and handed to the trp_translated_html filter. */
  datatype Outcome = Returned(out: string) | Finished(html: string, languageCode: string)

  /** The blocks of the language that occur in the page (lines 405-430). */
  function PresentBlocks(p: Parser, lib: Lib, store: Store, t: Tree, markup: string, languageCode: string): seq<Block> {
    KeepPresent(TrimAll(lib, store.blocks(languageCode)), lib.trimBlock(BodyText(p, t, markup)))
  }

  /** Lines 404-539: block matching during the scan, gettext markers in nodes,
      then gettext markers in attribute values. */
  ghost function Unwrapped(p: Parser, lib: Lib, store: Store, req: Request, t0: Tree, markup: string,
                           languageCode: string, translateNormal: bool): Tree
  {
    var present := if translateNormal then PresentBlocks(p, lib, store, t0, markup, languageCode) else [];
    var ctx := BlockContext(translateNormal && |present| > 0, present, store.topParents, req.preview);
    var t1 := ScanFold(p, lib, t0, t0.order, ctx);
    var buckets := BucketsOf(t0, t0.order);
    var t2 := UnwrapAll(p, t1, Flatten(buckets, AscendingKeys(buckets.Keys)), req.preview);
    RowsFold(p, lib, t2, AttrRowsOf(t0, t0.order), req.preview)
  }

  /** The substitution pass over what extraction found, after the
      trp_translateable_strings filter (lines 550-676). */
  function PassFor(p: Parser, lib: Lib, site: Site, hooks: Hooks, store: Store, settings: Settings,
                   req: Request, t: Tree, languageCode: string): Pass
  {
    var found := AllFound(p, lib, site, hooks, req.language, t, store.accessors);
    var filtered := hooks.translateableStrings(Texts(found), Candidates(found));
    var translated := store.processStrings(filtered.0, languageCode, Skipped(found));
    Pass(filtered.0, filtered.1, translated, store.accessors, req.preview, settings.defaultLanguage == req.language)
  }

  /** Lines 710-762: anchors, forms and link tags. */
  function RewriteLinks(p: Parser, req: Request, settings: Settings, site: Site, hooks: Hooks, t: Tree): Tree {
    var t1 := Anchors(req, settings, site, hooks, t, AnchorRows(t));
    var t2 := Forms(p, req, settings, site, hooks, t1, FindTag(t1, "form"));
    LinkTags(t2, FindTag(t2, "link"))
  }

  /** What happens to an admitted page. */
  ghost function RenderAdmitted(p: Parser, lib: Lib, site: Site, hooks: Hooks, store: Store, settings: Settings,
                                req: Request, markup: string, t0: Tree, languageCode: string): Outcome
  {
    var translateNormal := languageCode != settings.defaultLanguage;
    var t3 := Unwrapped(p, lib, store, req, t0, markup, languageCode, translateNormal);
    if !translateNormal then Returned(lib.removeTrpTags(p.save(t3)))
    else
      var t4 := MarkSelectors(p, t3, hooks.noTranslateSelectors(DefaultNoTranslateSelectors, req.language));
      var ps := PassFor(p, lib, site, hooks, store, settings, req, t4, languageCode);
      var t5 := Substitute(p, lib, ps, t4, |ps.nodes|);
      Finish(p, lib, site, hooks, settings, req, t5, languageCode)
  }

  /** After substitution: the optional re-parse, the link rewriting and the final markup. */
  function Finish(p: Parser, lib: Lib, site: Site, hooks: Hooks, settings: Settings, req: Request, t5: Tree,
                  languageCode: string): Outcome
  {
    var reparsed := if hooks.handleCustomLinks then p.parse(p.save(t5)) else Some(t5);
    if reparsed.None? then Returned(p.save(t5))
    else Finished(lib.removeTrpTags(p.save(RewriteLinks(p, req, settings, site, hooks, reparsed.value))), languageCode)
  }

  /** translate_page as a whole. */
  ghost function Render(p: Parser, lib: Lib, site: Site, hooks: Hooks, store: Store, settings: Settings,
                        req: Request, output: string): Outcome
  {
    match Admit(p, lib, hooks, settings, req, output)
    case Refused(out) => Returned(out)
    case Admitted(markup, t0, code) => RenderAdmitted(p, lib, site, hooks, store, settings, req, markup, t0, code)
  }

  /** The value translate_page returns. */
  function Reply(hooks: Hooks, req: Request, o: Outcome): string {
    match o
    case Returned(out) => out
    case Finished(html, code) => hooks.translatedHtml(html, req.language, code, req.preview)
  }

  /** Whether the final markup is written to the cache: outside preview, and when
      the cache class is available and the write does not throw. */
  predicate Stores(o: Outcome, req: Request, cacheWrites: bool) {
    o.Finished? && !req.preview && cacheWrites
  }

  /** A page the trp_stop_translating_page filter stops is returned untouched. */
  lemma StoppedPageUntouched(p: Parser, lib: Lib, site: Site, hooks: Hooks, store: Store, settings: Settings,
                             req: Request, output: string)
    requires hooks.stop(output)
    ensures Render(p, lib, site, hooks, store, settings, req, output) == Returned(output)
  { }

  /** REST responses outside a rest_prepare_ filter only lose the gettext wrappers. */
  lemma RestResponseOnlyStripped(p: Parser, lib: Lib, site: Site, hooks: Hooks, store: Store, settings: Settings,
                                 req: Request, output: string)
    requires !hooks.stop(output)
    requires !IsEmptyString(hooks.beforeTranslate(RestoreSpecialTags(output)))
    requires IsRestRequest(req)
    ensures Render(p, lib, site, hooks, store, settings, req, output) ==
            Returned(lib.removeTrpTags(hooks.beforeTranslate(RestoreSpecialTags(output))))
  { }

  /** Only a page in a published language, other than the default one outside
      preview, reaches the end; it then carries a non-default language code. */
  lemma {:induction false} FinishedOnlyForTranslatedLanguages(p: Parser, lib: Lib, site: Site, hooks: Hooks,
                                                              store: Store, settings: Settings, req: Request,
                                                              output: string)
    requires Render(p, lib, site, hooks, store, settings, req, output).Finished?
    ensures req.language in settings.translationLanguages
    ensures req.language != settings.defaultLanguage || req.preview
    ensures var o := Render(p, lib, site, hooks, store, settings, req, output);
            o.languageCode in settings.translationLanguages && o.languageCode != settings.defaultLanguage
  {
    var a := Admit(p, lib, hooks, settings, req, output);
    assert a.Admitted?;
    assert Render(p, lib, site, hooks, store, settings, req, output) ==
           RenderAdmitted(p, lib, site, hooks, store, settings, req, a.markup, a.tree, a.languageCode);
    AdmittedFinishedCode(p, lib, site, hooks, store, settings, req, a.markup, a.tree, a.languageCode);
  }

  lemma AdmittedFinishedCode(p: Parser, lib: Lib, site: Site, hooks: Hooks, store: Store, settings: Settings,
                             req: Request, markup: string, t0: Tree, languageCode: string)
    requires RenderAdmitted(p, lib, site, hooks, store, settings, req, markup, t0, languageCode).Finished?
    ensures languageCode != settings.defaultLanguage
    ensures RenderAdmitted(p, lib, site, hooks, store, settings, req, markup, t0, languageCode).languageCode == languageCode
  {
  }

  /** In the default language the page is never finished, so never cached: only the
      gettext markers are unwrapped. */
  lemma DefaultCodeOnlyUnwraps(p: Parser, lib: Lib, site: Site, hooks: Hooks, store: Store, settings: Settings,
                               req: Request, markup: string, t0: Tree)
    ensures RenderAdmitted(p, lib, site, hooks, store, settings, req, markup, t0, settings.defaultLanguage) ==
            Returned(lib.removeTrpTags(p.save(Unwrapped(p, lib, store, req, t0, markup, settings.defaultLanguage, false))))
  { }

  /** The early exits of lines 300-403. */
  method AdmitPage(p: Parser, lib: Lib, hooks: Hooks, settings: Settings, req: Request, output: string)
    returns (a: Admission)
    ensures a == Admit(p, lib, hooks, settings, req, output)
  {
    if hooks.stop(output) {
      return Refused(output);
    }
    var s := RestoreSpecialTags(output);
    s := hooks.beforeTranslate(s);
    if IsEmptyString(s) {
      return Refused(s);
    }
    if IsRestRequest(req) {
      return Refused(lib.removeTrpTags(s));
    }
    var code := ForceLanguageInPreview(req.language, settings.translationLanguages,
                                       settings.defaultLanguage, req.preview);
    if code.None? {
      return Refused(s);
    }
    var json := hooks.jsonReply(s);
    if json.Some? {
      return Refused(json.value);
    }
    if hooks.tryFixingHtml {
      s := hooks.repairHtml(s);
    }
    var parsed := p.parse(s);
    if parsed.None? {
      return Refused(lib.removeTrpTags(s));
    }
    a := Admitted(s, parsed.value, code.value);
  }

  /** Block preparation and the three marker passes (lines 404-539). */
  method UnwrapPage(p: Parser, lib: Lib, store: Store, req: Request, t0: Tree, markup: string,
                    languageCode: string, translateNormal: bool)
    returns (t: Tree)
    ensures t == Unwrapped(p, lib, store, req, t0, markup, languageCode, translateNormal)
  {
    var present: seq<Block> := [];
    if translateNormal {
      var bodies := FindTag(t0, "body");
      var pageText := if |bodies| > 0 then Inner(p, t0, bodies[0]) else markup;
      present := PrepareBlocks(lib, store.blocks(languageCode), pageText);
    }
    var ctx := BlockContext(translateNormal && |present| > 0, present, store.topParents, req.preview);
    var t1, buckets, attrRows := ScanRows(p, lib, t0, ctx);
    var t2, keys, processed := ProcessMarkers(p, t1, buckets, req.preview);
    AscendingKeysUnique(keys, buckets.Keys);
    t := ResolveAttributeMarkers(p, lib, t2, attrRows, req.preview);
  }

  /** Extraction, the string filter, process_strings and substitution (lines 550-676). */
  method TranslateStrings(p: Parser, lib: Lib, site: Site, hooks: Hooks, store: Store, settings: Settings,
                          req: Request, t0: Tree, languageCode: string)
    returns (t: Tree)
    ensures var t4 := MarkSelectors(p, t0, hooks.noTranslateSelectors(DefaultNoTranslateSelectors, req.language));
            var ps := PassFor(p, lib, site, hooks, store, settings, req, t4, languageCode);
            t == Substitute(p, lib, ps, t4, |ps.nodes|)
  {
    var t4 := MarkUntranslatable(p, t0, hooks.noTranslateSelectors(DefaultNoTranslateSelectors, req.language));
    var strings, nodes, skip := Extract(p, lib, site, hooks, req.language, t4, store.accessors);
    var filtered := hooks.translateableStrings(strings, nodes);
    strings, nodes := filtered.0, filtered.1;
    var translated := store.processStrings(strings, languageCode, skip);
    var ps := Pass(strings, nodes, translated, store.accessors, req.preview, settings.defaultLanguage == req.language);
    t := SubstituteAll(p, lib, ps, t4);
  }

  /** Anchors, forms and link tags (lines 710-762). */
  method RewritePageLinks(p: Parser, req: Request, settings: Settings, site: Site, hooks: Hooks, t0: Tree)
    returns (t: Tree)
    ensures t == RewriteLinks(p, req, settings, site, hooks, t0)
  {
    var t1 := RewriteAnchors(req, settings, site, hooks, t0, AnchorRows(t0));
    var forms := FindTag(t1, "form");
    assert forall x :: x in forms ==> Tag(t1, x) == "form";
    var t2 := RewriteForms(p, req, settings, site, hooks, t1, forms);
    t := StripLinkTags(t2, FindTag(t2, "link"));
  }

  /** An admitted page from the marker passes to the final markup. */
  method RenderPage(p: Parser, lib: Lib, site: Site, hooks: Hooks, store: Store, settings: Settings,
                    req: Request, markup: string, t0: Tree, languageCode: string)
    returns (o: Outcome)
    ensures o == RenderAdmitted(p, lib, site, hooks, store, settings, req, markup, t0, languageCode)
  {
    var translateNormal := languageCode != settings.defaultLanguage;
    var t := UnwrapPage(p, lib, store, req, t0, markup, languageCode, translateNormal);
    if !translateNormal {
      return Returned(lib.removeTrpTags(p.save(t)));
    }
    t := TranslateStrings(p, lib, site, hooks, store, settings, req, t, languageCode);
    o := FinishPage(p, lib, site, hooks, settings, req, t, languageCode);
  }

  /** Lines 702-775: re-parse when custom links are handled, rewrite the links, save. */
  method FinishPage(p: Parser, lib: Lib, site: Site, hooks: Hooks, settings: Settings, req: Request, t0: Tree,
                    languageCode: string)
    returns (o: Outcome)
    ensures o == Finish(p, lib, site, hooks, settings, req, t0, languageCode)
  {
    var t := t0;
    if hooks.handleCustomLinks {
      var saved := p.save(t);
      var reparsed := p.parse(saved);
      if reparsed.None? {
        return Returned(saved);
      }
      t := reparsed.value;
    }
    t := RewritePageLinks(p, req, settings, site, hooks, t);
    o := Finished(lib.removeTrpTags(p.save(t)), languageCode);
  }

  /**
   * translate_page: the reply is that of Render, and the cache receives the
   * final markup under the request's URL and language exactly when the page
   * was finished outside preview; otherwise the cache is left as it was.
   */
  method TranslatePage(p: Parser, lib: Lib, site: Site, hooks: Hooks, store: Store, settings: Settings,
                       req: Request, output: string, cache: PagesCache.TranslatedPagesCache,
                       cacheWrites: bool, now: string)
    returns (r: string)
    requires cache.Valid()
    modifies cache
    ensures cache.Valid()
    ensures r == Reply(hooks, req, Render(p, lib, site, hooks, store, settings, req, output))
    ensures var o := Render(p, lib, site, hooks, store, settings, req, output);
            Stores(o, req, cacheWrites) ==>
              cache.rows == PagesCache.Upsert(old(cache.rows), PagesCache.Key(cache.hash(req.curPageUrl), req.language),
                                              req.curPageUrl, o.html, now, old(cache.nextId)) &&
              cache.GetCachedPage(req.curPageUrl, req.language) == Some(o.html)
    ensures !Stores(Render(p, lib, site, hooks, store, settings, req, output), req, cacheWrites) ==>
              cache.rows == old(cache.rows) && cache.nextId == old(cache.nextId)
  {
    var a := AdmitPage(p, lib, hooks, settings, req, output);
    if a.Refused? {
      return a.out;
    }
    var o := RenderPage(p, lib, site, hooks, store, settings, req, a.markup, a.tree, a.languageCode);
    if o.Returned? {
      return o.out;
    }
    if !req.preview && cacheWrites {
      cache.SetCachedPage(req.curPageUrl, req.language, o.html, now);
    }
    r := hooks.translatedHtml(o.html, req.language, o.languageCode, req.preview);
  }
}
