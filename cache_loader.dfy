/**
 * The early cache-serving gate run on template_redirect: decide whether the
 * cached translation of the requested URL is echoed (and the request ends)
 * or normal rendering continues.  Superglobals, the settings and the
 * WordPress predicates arrive as parameters; echo/exit become the `Serve`
 * decision.
 */
module CacheLoader {
  import opened Wrappers
  import PagesCache
  import RenderEnv
  import Dom
  import TranslationRender

  /** The trp_machine_translation_settings entries the gate reads (None: not set). */
  datatype MtSettings = MtSettings(machineTranslation: Option<string>,
                                   translationEngine: Option<string>,
                                   deepseekApiKey: Option<string>)

  datatype Settings = Settings(mt: MtSettings, defaultLanguage: string)

  /** What the request carries: is_admin(), $_GET['lang'], $_COOKIE['trp_language'],
      is_ssl(), $_SERVER['HTTP_HOST'] and $_SERVER['REQUEST_URI']. */
  datatype Request = Request(isAdmin: bool, getLang: Option<string>, cookieLang: Option<string>,
                             isSsl: bool, httpHost: string, requestUri: string)

  /** The plugin runtime: whether TRP_Translate_Press exists, the instance's
      settings (None: no instance), whether the cache class is loaded or its
      file exists, and sanitize_text_field. */
  datatype Runtime = Runtime(trpClassExists: bool, instance: Option<Settings>,
                             cacheClassAvailable: bool, sanitize: string -> string)

  datatype Decision = Continue | Serve(content: string)

  /** PHP empty() on an optional string setting. */
  predicate EmptyValue(v: Option<string>) {
    v.None? || v.value == "" || v.value == "0"
  }

  /** $_GET['lang'], else $_COOKIE['trp_language'], else the default language. */
  function RequestLanguage(req: Request, s: Settings, sanitize: string -> string): (lang: string)
    ensures req.getLang.Some? ==> lang == sanitize(req.getLang.value)
    ensures req.getLang.None? && req.cookieLang.Some? ==> lang == sanitize(req.cookieLang.value)
    ensures req.getLang.None? && req.cookieLang.None? ==> lang == s.defaultLanguage
  {
    if req.getLang.Some? then sanitize(req.getLang.value)
    else if req.cookieLang.Some? then sanitize(req.cookieLang.value)
    else s.defaultLanguage
  }

  /** scheme://HTTP_HOST REQUEST_URI, the scheme being https exactly when SSL is on. */
  function CacheUrl(req: Request): (url: string)
    ensures req.isSsl ==> url == "https://" + req.httpHost + req.requestUri
    ensures !req.isSsl ==> url == "http://" + req.httpHost + req.requestUri
  {
    (if req.isSsl then "https" else "http") + "://" + req.httpHost + req.requestUri
  }

  /** The checks before the lookup: not admin, plugin loaded, machine translation
      exactly 'yes', a key configured when the engine is 'deepseek', cache class available. */
  predicate MayServe(req: Request, rt: Runtime)
  {
    && !req.isAdmin
    && rt.trpClassExists
    && rt.instance.Some?
    && !EmptyValue(rt.instance.value.mt.machineTranslation)
    && rt.instance.value.mt.machineTranslation == Some("yes")
    && !(rt.instance.value.mt.translationEngine.GetOr("") == "deepseek"
         && EmptyValue(Some(rt.instance.value.mt.deepseekApiKey.GetOr(""))))
    && rt.cacheClassAvailable
  }

  /** The whole closure on a table value: serve the looked-up content only when it is truthy. */
  function DecideOn(req: Request, rt: Runtime, rows: PagesCache.Table, hash: string -> string): (d: Decision)
    ensures !MayServe(req, rt) ==> d == Continue
    ensures d.Serve? <==>
              MayServe(req, rt) &&
              PagesCache.Truthy(PagesCache.Lookup(rows, PagesCache.Key(hash(CacheUrl(req)),
                                    RequestLanguage(req, rt.instance.value, rt.sanitize))))
    ensures d.Serve? ==>
              var k := PagesCache.Key(hash(CacheUrl(req)), RequestLanguage(req, rt.instance.value, rt.sanitize));
              Some(d.content) == PagesCache.Lookup(rows, k)
  {
    if req.isAdmin then Continue
    else if !rt.trpClassExists then Continue
    else if rt.instance.None? then Continue
    else
      var settings := rt.instance.value;
      var mt := settings.mt;
      if EmptyValue(mt.machineTranslation) || mt.machineTranslation != Some("yes") then Continue
      else
        var engine := mt.translationEngine.GetOr("");
        var apiKey := mt.deepseekApiKey.GetOr("");
        if engine == "deepseek" && EmptyValue(Some(apiKey)) then Continue
        else
          var language := RequestLanguage(req, settings, rt.sanitize);
          var url := CacheUrl(req);
          if !rt.cacheClassAvailable then Continue
          else
            var cached := PagesCache.Lookup(rows, PagesCache.Key(hash(url), language));
            if PagesCache.Truthy(cached) then Serve(cached.value) else Continue
  }

  /** The closure against the live cache object. */
  function Decide(req: Request, rt: Runtime, cache: PagesCache.TranslatedPagesCache): (d: Decision)
    reads cache
    ensures d.Serve? ==> MayServe(req, rt)
    ensures d.Serve? ==>
              Some(d.content) == cache.GetCachedPage(CacheUrl(req), RequestLanguage(req, rt.instance.value, rt.sanitize))
  {
    DecideOn(req, rt, cache.rows, cache.hash)
  }

  /** After an upsert under this request's own key (its URL's digest and its
      detected language), the request is served the upserted markup, provided
      that markup is truthy. */
  lemma ServedAfterStore(req: Request, rt: Runtime, rows: PagesCache.Table, hash: string -> string,
                         content: string, now: string, id: nat)
    requires MayServe(req, rt)
    requires content != "" && content != "0"
    ensures var k := PagesCache.Key(hash(CacheUrl(req)), RequestLanguage(req, rt.instance.value, rt.sanitize));
            DecideOn(req, rt, PagesCache.Upsert(rows, k, CacheUrl(req), content, now, id), hash) == Serve(content)
  {
  }

  /** A page render followed by a later request: the later request is served
      the renderer's final markup exactly when the renderer stored it and the
      loader's key for the request is the key the renderer wrote under, i.e.
      the loader's URL equals cur_page_url() and the loader's detected
      language equals the rendering language. */
  method RenderThenLoad(p: Dom.Parser, lib: RenderEnv.Lib, site: RenderEnv.Site, hooks: RenderEnv.Hooks,
                        store: RenderEnv.Store, settings: RenderEnv.Settings, renderReq: RenderEnv.Request,
                        output: string, cache: PagesCache.TranslatedPagesCache, cacheWrites: bool,
                        now: string, req: Request, rt: Runtime)
    returns (reply: string, d: Decision)
    requires cache.Valid()
    modifies cache
    ensures var o := TranslationRender.Render(p, lib, site, hooks, store, settings, renderReq, output);
            TranslationRender.Stores(o, renderReq, cacheWrites)
            && MayServe(req, rt)
            && CacheUrl(req) == renderReq.curPageUrl
            && RequestLanguage(req, rt.instance.value, rt.sanitize) == renderReq.language
            && PagesCache.Truthy(Some(o.html))
            ==> d == Serve(o.html)
  {
    reply := TranslationRender.TranslatePage(p, lib, site, hooks, store, settings, renderReq, output,
                                             cache, cacheWrites, now);
    d := Decide(req, rt, cache);
  }

  /** The two keys need not agree: a page rendered in a non-default language
      (chosen, say, from a URL slug) whose request carries neither ?lang nor
      the trp_language cookie is looked up under the default language, and a
      table holding only the renderer's row does not serve it. */
  lemma SlugLanguageMissesCache(req: Request, rt: Runtime, hash: string -> string,
                                language: string, content: string, now: string, id: nat)
    requires rt.instance.Some?
    requires req.getLang.None? && req.cookieLang.None?
    requires language != rt.instance.value.defaultLanguage
    ensures var k := PagesCache.Key(hash(CacheUrl(req)), language);
            DecideOn(req, rt, PagesCache.Upsert(map[], k, CacheUrl(req), content, now, id), hash) == Continue
  {
    var k := PagesCache.Key(hash(CacheUrl(req)), language);
    var t := PagesCache.Upsert(map[], k, CacheUrl(req), content, now, id);
    var lk := PagesCache.Key(hash(CacheUrl(req)), RequestLanguage(req, rt.instance.value, rt.sanitize));
    assert lk != k;
    assert lk !in t;
  }
}
