/**
 * The link pass at the end of translate_page (class-translation-render.php,
 * lines 713-762): anchors get the current language forced into local URLs,
 * forms carry the current language and have their action rewritten, and the
 * "#TRPLINKPROCESSED" mark is stripped from anchors, forms and link tags.
 */
module LinkRewriter {
  import opened Wrappers
  import opened Strings
  import opened Dom
  import opened RenderEnv

  const OriginalHrefAttribute: string := "data-trp-original-href"
  const UnpreviewableAttribute: string := "data-trp-unpreviewable"
  const OriginalActionAttribute: string := "data-trp-original-action"

  /** The attribute names the anchor pass writes are distinct. */
  lemma NamesDistinct()
    ensures "href" != OriginalHrefAttribute && "href" != UnpreviewableAttribute
    ensures OriginalHrefAttribute != UnpreviewableAttribute
    ensures "action" != OriginalActionAttribute
  {
    assert |"href"| != |OriginalHrefAttribute| && |"href"| != |UnpreviewableAttribute|;
    assert OriginalHrefAttribute[9] != UnpreviewableAttribute[9];
    assert |"action"| != |OriginalActionAttribute|;
  }

  /** `== null` on get_lang_from_url_string: no language, or the empty string. */
  predicate IsNullish(o: Option<string>) {
    o.None? || o.value == ""
  }

  /** find('a[href!="#"]'): an anchor that has an href other than "#". */
  predicate IsAnchorTarget(t: Tree, id: NodeId) {
    Tag(t, id) == "a" && HasAttr(t, id, "href") && Attr(t, id, "href") != "#"
  }

  function AnchorRows(t: Tree): (r: seq<NodeId>)
    ensures forall x :: x in r <==> x in t.order && IsAnchorTarget(t, x)
  {
    Select(t.order, (x: NodeId) => IsAnchorTarget(t, x))
  }

  // ---- anchors (lines 713-737)

  /** The href after the trp_href_from_translated_page filter. */
  function FilteredHref(settings: Settings, hooks: Hooks, t: Tree, a: NodeId): string {
    hooks.hrefFromTranslatedPage(Attr(t, a, "href"), settings.defaultLanguage)
  }

  /** The URL the checks look at: the filtered href, made absolute if local. */
  function AnchorUrl(settings: Settings, site: Site, hooks: Hooks, t: Tree, a: NodeId): string {
    site.maybeIsLocalUrl(FilteredHref(settings, hooks, t, a), site.homeUrl)
  }

  /** The condition under which the current language is forced into an anchor. */
  predicate ForcesLanguage(req: Request, settings: Settings, site: Site, url: string) {
    req.language != settings.defaultLanguage &&
    settings.forceLanguageToCustomLinks == "yes" &&
    !site.isExternalLink(url, site.homeUrl) &&
    IsNullish(site.langFromUrl(url)) &&
    !site.isAdminLink(url, site.adminUrl, site.loginUrl) &&
    !HasLinkMark(url)
  }

  /** The href an anchor ends with, before the mark is stripped. */
  function ForcedHref(req: Request, settings: Settings, site: Site, hooks: Hooks, t: Tree, a: NodeId): string {
    var url := AnchorUrl(settings, site, hooks, t, a);
    if ForcesLanguage(req, settings, site, url)
    then hooks.forceCustomLinks(site.urlForLanguage(req.language, url), url, req.language)
    else FilteredHref(settings, hooks, t, a)
  }

  /** The body of the anchor loop for one anchor. */
  function AnchorStep(req: Request, settings: Settings, site: Site, hooks: Hooks, t: Tree, a: NodeId): Tree {
    var url := AnchorUrl(settings, site, hooks, t, a);
    var external := site.isExternalLink(url, site.homeUrl);
    var admin := site.isAdminLink(url, site.adminUrl, site.loginUrl);
    var forced := ForcesLanguage(req, settings, site, url);
    var href := ForcedHref(req, settings, site, hooks, t, a);
    var finalUrl := if forced then href else url;
    var t1 := SetAttr(t, a, "href", FilteredHref(settings, hooks, t, a));
    var t2 := if req.preview && !external then SetAttr(t1, a, OriginalHrefAttribute, url) else t1;
    var t3 := if forced then SetAttr(t2, a, "href", href) else t2;
    var t4 := if req.preview && (external || site.isDifferentLanguage(finalUrl) || admin)
              then SetAttr(t3, a, UnpreviewableAttribute, "trp-unpreviewable") else t3;
    SetAttr(t4, a, "href", StripLinkMark(href))
  }

  /** An anchor ends with the (possibly forced) href, the mark stripped. */
  lemma AnchorHref(req: Request, settings: Settings, site: Site, hooks: Hooks, t: Tree, a: NodeId)
    requires a in t.nodes
    ensures Attr(AnchorStep(req, settings, site, hooks, t, a), a, "href") ==
            StripLinkMark(ForcedHref(req, settings, site, hooks, t, a))
  {
    NamesDistinct();
  }

  /** External links, admin links, links that already name a language or carry the
      mark, and every link on the default language keep their filtered address. */
  lemma UnforcedKeepsAddress(req: Request, settings: Settings, site: Site, hooks: Hooks, t: Tree, a: NodeId)
    requires a in t.nodes
    requires var url := AnchorUrl(settings, site, hooks, t, a);
             req.language == settings.defaultLanguage || settings.forceLanguageToCustomLinks != "yes" ||
             site.isExternalLink(url, site.homeUrl) || !IsNullish(site.langFromUrl(url)) ||
             site.isAdminLink(url, site.adminUrl, site.loginUrl) || HasLinkMark(url)
    ensures Attr(AnchorStep(req, settings, site, hooks, t, a), a, "href") ==
            StripLinkMark(FilteredHref(settings, hooks, t, a))
  {
    AnchorHref(req, settings, site, hooks, t, a);
  }

  /** In preview, a local link records the URL it was checked against. */
  lemma PreviewRecordsOriginalHref(req: Request, settings: Settings, site: Site, hooks: Hooks, t: Tree, a: NodeId)
    requires a in t.nodes && req.preview
    requires !site.isExternalLink(AnchorUrl(settings, site, hooks, t, a), site.homeUrl)
    ensures Attr(AnchorStep(req, settings, site, hooks, t, a), a, OriginalHrefAttribute) ==
            AnchorUrl(settings, site, hooks, t, a)
  {
    NamesDistinct();
    var url := AnchorUrl(settings, site, hooks, t, a);
    var href := ForcedHref(req, settings, site, hooks, t, a);
    var t1 := SetAttr(t, a, "href", FilteredHref(settings, hooks, t, a));
    var t2 := SetAttr(t1, a, OriginalHrefAttribute, url);
    AttrAfterSetAttr(t1, a, OriginalHrefAttribute, url, OriginalHrefAttribute);
    var t3 := if ForcesLanguage(req, settings, site, url) then SetAttr(t2, a, "href", href) else t2;
    AttrAfterSetAttr(t2, a, "href", href, OriginalHrefAttribute);
    var t4 := SetAttr(t3, a, UnpreviewableAttribute, "trp-unpreviewable");
    AttrAfterSetAttr(t3, a, UnpreviewableAttribute, "trp-unpreviewable", OriginalHrefAttribute);
    var t4' := if site.isDifferentLanguage(if ForcesLanguage(req, settings, site, url) then href else url) ||
                  site.isAdminLink(url, site.adminUrl, site.loginUrl)
               then t4 else t3;
    assert Attr(t4', a, OriginalHrefAttribute) == url;
    AttrAfterSetAttr(t4', a, "href", StripLinkMark(href), OriginalHrefAttribute);
    assert AnchorStep(req, settings, site, hooks, t, a) == SetAttr(t4', a, "href", StripLinkMark(href));
  }

  /** Outside preview, an anchor gains no editor attributes. */
  lemma NoEditorAttributesOutsidePreview(req: Request, settings: Settings, site: Site, hooks: Hooks, t: Tree, a: NodeId)
    requires a in t.nodes && !req.preview
    ensures var r := AnchorStep(req, settings, site, hooks, t, a);
            HasAttr(r, a, OriginalHrefAttribute) == HasAttr(t, a, OriginalHrefAttribute) &&
            HasAttr(r, a, UnpreviewableAttribute) == HasAttr(t, a, UnpreviewableAttribute)
  {
    NamesDistinct();
  }

  /** One anchor, statement by statement (lines 714-736). */
  method RewriteAnchor(req: Request, settings: Settings, site: Site, hooks: Hooks, t0: Tree, a: NodeId)
    returns (t: Tree)
    requires a in t0.nodes
    ensures t == AnchorStep(req, settings, site, hooks, t0, a)
  {
    NamesDistinct();
    ghost var filtered := FilteredHref(settings, hooks, t0, a);
    ghost var href := ForcedHref(req, settings, site, hooks, t0, a);
    t := SetAttr(t0, a, "href", hooks.hrefFromTranslatedPage(Attr(t0, a, "href"), settings.defaultLanguage));
    ghost var t1 := t;
    var url := Attr(t, a, "href");
    assert url == filtered;
    url := site.maybeIsLocalUrl(url, site.homeUrl);
    ghost var checked := url;
    assert checked == AnchorUrl(settings, site, hooks, t0, a);
    var external := site.isExternalLink(url, site.homeUrl);
    var admin := site.isAdminLink(url, site.adminUrl, site.loginUrl);
    if req.preview && !external {
      t := SetAttr(t, a, OriginalHrefAttribute, url);
      AttrAfterSetAttr(t1, a, OriginalHrefAttribute, url, "href");
    }
    ghost var t2 := t;
    assert Attr(t2, a, "href") == filtered;
    ghost var forced := ForcesLanguage(req, settings, site, url);
    if req.language != settings.defaultLanguage && settings.forceLanguageToCustomLinks == "yes" && !external &&
       IsNullish(site.langFromUrl(url)) && !admin && !HasLinkMark(url) {
      t := SetAttr(t, a, "href", hooks.forceCustomLinks(site.urlForLanguage(req.language, url), url, req.language));
      AttrAfterSetAttr(t2, a, "href", href, "href");
      url := Attr(t, a, "href");
    }
    ghost var t3 := t;
    assert Attr(t3, a, "href") == href;
    assert url == if forced then href else checked;
    if req.preview && (external || site.isDifferentLanguage(url) || admin) {
      t := SetAttr(t, a, UnpreviewableAttribute, "trp-unpreviewable");
      AttrAfterSetAttr(t3, a, UnpreviewableAttribute, "trp-unpreviewable", "href");
    }
    assert Attr(t, a, "href") == href;
    t := SetAttr(t, a, "href", StripLinkMark(Attr(t, a, "href")));
  }

  function Anchors(req: Request, settings: Settings, site: Site, hooks: Hooks, t: Tree, rows: seq<NodeId>): Tree
    decreases |rows|
  {
    if rows == [] then t
    else AnchorStep(req, settings, site, hooks, Anchors(req, settings, site, hooks, t, rows[..|rows| - 1]), rows[|rows| - 1])
  }

  /** One anchor writes attributes of that anchor only. */
  lemma AnchorStepFrame(req: Request, settings: Settings, site: Site, hooks: Hooks, t: Tree, a: NodeId, j: NodeId)
    requires j in t.nodes && j != a
    ensures AnchorStep(req, settings, site, hooks, t, a).nodes[j] == t.nodes[j]
  {
  }

  lemma AnchorStepKeys(req: Request, settings: Settings, site: Site, hooks: Hooks, t: Tree, a: NodeId)
    ensures AnchorStep(req, settings, site, hooks, t, a).nodes.Keys == t.nodes.Keys
  {
  }

  lemma {:induction false} AnchorsKeys(req: Request, settings: Settings, site: Site, hooks: Hooks, t: Tree,
                                       rows: seq<NodeId>)
    ensures Anchors(req, settings, site, hooks, t, rows).nodes.Keys == t.nodes.Keys
    decreases |rows|
  {
    if rows != [] {
      var prefix := rows[..|rows| - 1];
      AnchorsKeys(req, settings, site, hooks, t, prefix);
      AnchorStepKeys(req, settings, site, hooks, Anchors(req, settings, site, hooks, t, prefix), rows[|rows| - 1]);
    }
  }

  /** Only the selected anchors change. */
  lemma {:induction false} AnchorsFrame(req: Request, settings: Settings, site: Site, hooks: Hooks, t: Tree,
                                        rows: seq<NodeId>, j: NodeId)
    requires j in t.nodes && j !in rows
    ensures var r := Anchors(req, settings, site, hooks, t, rows);
            j in r.nodes && r.nodes[j] == t.nodes[j]
    decreases |rows|
  {
    if rows != [] {
      var prefix := rows[..|rows| - 1];
      var prev := Anchors(req, settings, site, hooks, t, prefix);
      AnchorsFrame(req, settings, site, hooks, t, prefix, j);
      AnchorsKeys(req, settings, site, hooks, t, prefix);
      AnchorStepFrame(req, settings, site, hooks, prev, rows[|rows| - 1], j);
    }
  }

  lemma AnchorsPrefix(req: Request, settings: Settings, site: Site, hooks: Hooks, t0: Tree, rows: seq<NodeId>, k: nat)
    requires k < |rows|
    ensures Anchors(req, settings, site, hooks, t0, rows[..k + 1]) ==
            AnchorStep(req, settings, site, hooks, Anchors(req, settings, site, hooks, t0, rows[..k]), rows[k])
  {
    assert rows[..k + 1][..k] == rows[..k];
  }

  method RewriteAnchors(req: Request, settings: Settings, site: Site, hooks: Hooks, t0: Tree, rows: seq<NodeId>)
    returns (t: Tree)
    requires forall x :: x in rows ==> x in t0.nodes
    ensures t == Anchors(req, settings, site, hooks, t0, rows)
  {
    t := t0;
    var k := 0;
    while k < |rows|
      invariant 0 <= k <= |rows|
      invariant t == Anchors(req, settings, site, hooks, t0, rows[..k])
    {
      AnchorsPrefix(req, settings, site, hooks, t0, rows, k);
      AnchorsKeys(req, settings, site, hooks, t0, rows[..k]);
      t := RewriteAnchor(req, settings, site, hooks, t, rows[k]);
      k := k + 1;
    }
    assert rows[..k] == rows;
  }

  // ---- forms (lines 741-758)

  /** `$this->settings['url-slugs'][$TRP_LANGUAGE]`; a missing slug reads as "". */
  function Slug(settings: Settings, language: string): string {
    if language in settings.urlSlugs then settings.urlSlugs[language] else ""
  }

  /** The hidden input after the trp_form_inputs filter. */
  function FormInputs(req: Request, settings: Settings, hooks: Hooks): string {
    var slug := Slug(settings, req.language);
    hooks.formInputs("<input type=\"hidden\" name=\"trp-form-language\" value=\"" + slug + "\"/>", req.language, slug)
  }

  /** PHP empty() on a string: "" and "0". */
  predicate IsEmptyString(s: string) {
    s == "" || s == "0"
  }

  /** The condition under which a form's action is rewritten; unlike anchors, the
      current language is not compared with the default one. */
  predicate RewritesAction(settings: Settings, site: Site, action: string) {
    !IsEmptyString(action) &&
    settings.forceLanguageToCustomLinks == "yes" &&
    !site.isExternalLink(action, site.homeUrl) &&
    !site.isAdminLink(action, site.adminUrl, site.loginUrl) &&
    !HasLinkMark(action)
  }

  function FormAction(req: Request, settings: Settings, site: Site, t: Tree, f: NodeId): string {
    var action := Attr(t, f, "action");
    if RewritesAction(settings, site, action) then site.urlForLanguage(req.language, action) else action
  }

  function FormStep(p: Parser, req: Request, settings: Settings, site: Site, hooks: Hooks, t: Tree, f: NodeId): Tree {
    var action := Attr(t, f, "action");
    var t1 := SetAttr(t, f, OriginalActionAttribute, action);
    var t2 := SetInner(t1, f, Inner(p, t1, f) + FormInputs(req, settings, hooks));
    var t3 := if RewritesAction(settings, site, action)
              then SetAttr(t2, f, "action", site.urlForLanguage(req.language, action)) else t2;
    SetAttr(t3, f, "action", StripLinkMark(FormAction(req, settings, site, t, f)))
  }

  /** A form records its original action, carries the language input after its
      content, and ends with the (possibly rewritten) action, the mark stripped. */
  lemma FormStepEffect(p: Parser, req: Request, settings: Settings, site: Site, hooks: Hooks, t: Tree, f: NodeId)
    requires f in t.nodes
    ensures var r := FormStep(p, req, settings, site, hooks, t, f);
            Attr(r, f, OriginalActionAttribute) == Attr(t, f, "action") &&
            Inner(p, r, f) == Inner(p, SetAttr(t, f, OriginalActionAttribute, Attr(t, f, "action")), f) +
                              FormInputs(req, settings, hooks) &&
            Attr(r, f, "action") == StripLinkMark(FormAction(req, settings, site, t, f))
  {
    NamesDistinct();
    var action := Attr(t, f, "action");
    var t1 := SetAttr(t, f, OriginalActionAttribute, action);
    AttrAfterSetAttr(t, f, OriginalActionAttribute, action, OriginalActionAttribute);
    var t2 := SetInner(t1, f, Inner(p, t1, f) + FormInputs(req, settings, hooks));
    assert Attr(t2, f, OriginalActionAttribute) == action;
    assert Inner(p, t2, f) == Inner(p, t1, f) + FormInputs(req, settings, hooks);
    var t3 := if RewritesAction(settings, site, action)
              then SetAttr(t2, f, "action", site.urlForLanguage(req.language, action)) else t2;
    AttrAfterSetAttr(t2, f, "action", site.urlForLanguage(req.language, action), OriginalActionAttribute);
    assert Attr(t3, f, OriginalActionAttribute) == action;
    assert Inner(p, t3, f) == Inner(p, t2, f);
    var r := SetAttr(t3, f, "action", StripLinkMark(FormAction(req, settings, site, t, f)));
    AttrAfterSetAttr(t3, f, "action", StripLinkMark(FormAction(req, settings, site, t, f)), OriginalActionAttribute);
    AttrAfterSetAttr(t3, f, "action", StripLinkMark(FormAction(req, settings, site, t, f)), "action");
    assert FormStep(p, req, settings, site, hooks, t, f) == r;
  }

  /** A form whose action is local, non-admin and unmarked is sent to the current
      language's URL whatever the current language is, the default one included. */
  lemma FormActionForcedOnAnyLanguage(p: Parser, req: Request, settings: Settings, site: Site, hooks: Hooks,
                                      t: Tree, f: NodeId)
    requires f in t.nodes
    requires RewritesAction(settings, site, Attr(t, f, "action"))
    ensures Attr(FormStep(p, req, settings, site, hooks, t, f), f, "action") ==
            StripLinkMark(site.urlForLanguage(req.language, Attr(t, f, "action")))
  {
    NamesDistinct();
  }

  method RewriteForm(p: Parser, req: Request, settings: Settings, site: Site, hooks: Hooks, t0: Tree, f: NodeId)
    returns (t: Tree)
    requires f in t0.nodes
    ensures t == FormStep(p, req, settings, site, hooks, t0, f)
  {
    NamesDistinct();
    ghost var action := Attr(t0, f, "action");
    t := SetAttr(t0, f, OriginalActionAttribute, Attr(t0, f, "action"));
    AttrAfterSetAttr(t0, f, OriginalActionAttribute, action, "action");
    var slug := if req.language in settings.urlSlugs then settings.urlSlugs[req.language] else "";
    var inputs := hooks.formInputs("<input type=\"hidden\" name=\"trp-form-language\" value=\"" + slug + "\"/>",
                                   req.language, slug);
    assert inputs == FormInputs(req, settings, hooks);
    ghost var t1 := t;
    t := SetInner(t, f, Inner(p, t, f) + inputs);
    ghost var t2 := t;
    assert t2 == SetInner(t1, f, Inner(p, t1, f) + FormInputs(req, settings, hooks));
    var formAction := Attr(t, f, "action");
    assert formAction == action;
    var external := site.isExternalLink(formAction, site.homeUrl);
    var admin := site.isAdminLink(formAction, site.adminUrl, site.loginUrl);
    if !(formAction == "" || formAction == "0") && settings.forceLanguageToCustomLinks == "yes" &&
       !external && !admin && !HasLinkMark(formAction) {
      assert RewritesAction(settings, site, action);
      t := SetAttr(t, f, "action", site.urlForLanguage(req.language, formAction));
      AttrAfterSetAttr(t2, f, "action", site.urlForLanguage(req.language, action), "action");
    } else {
      assert !RewritesAction(settings, site, action);
    }
    assert Attr(t, f, "action") == FormAction(req, settings, site, t0, f);
    t := SetAttr(t, f, "action", StripLinkMark(Attr(t, f, "action")));
  }

  function Forms(p: Parser, req: Request, settings: Settings, site: Site, hooks: Hooks, t: Tree,
                 rows: seq<NodeId>): Tree
    decreases |rows|
  {
    if rows == [] then t
    else FormStep(p, req, settings, site, hooks, Forms(p, req, settings, site, hooks, t, rows[..|rows| - 1]), rows[|rows| - 1])
  }

  lemma FormStepKeys(p: Parser, req: Request, settings: Settings, site: Site, hooks: Hooks, t: Tree, f: NodeId)
    ensures FormStep(p, req, settings, site, hooks, t, f).nodes.Keys == t.nodes.Keys
  {
  }

  lemma {:induction false} FormsKeys(p: Parser, req: Request, settings: Settings, site: Site, hooks: Hooks, t: Tree,
                                     rows: seq<NodeId>)
    ensures Forms(p, req, settings, site, hooks, t, rows).nodes.Keys == t.nodes.Keys
    decreases |rows|
  {
    if rows != [] {
      var prefix := rows[..|rows| - 1];
      FormsKeys(p, req, settings, site, hooks, t, prefix);
      FormStepKeys(p, req, settings, site, hooks, Forms(p, req, settings, site, hooks, t, prefix), rows[|rows| - 1]);
    }
  }

  lemma FormsPrefix(p: Parser, req: Request, settings: Settings, site: Site, hooks: Hooks, t0: Tree,
                    rows: seq<NodeId>, k: nat)
    requires k < |rows|
    ensures Forms(p, req, settings, site, hooks, t0, rows[..k + 1]) ==
            FormStep(p, req, settings, site, hooks, Forms(p, req, settings, site, hooks, t0, rows[..k]), rows[k])
  {
    assert rows[..k + 1][..k] == rows[..k];
  }

  method RewriteForms(p: Parser, req: Request, settings: Settings, site: Site, hooks: Hooks, t0: Tree,
                      rows: seq<NodeId>)
    returns (t: Tree)
    requires forall x :: x in rows ==> x in t0.nodes
    ensures t == Forms(p, req, settings, site, hooks, t0, rows)
  {
    t := t0;
    var k := 0;
    while k < |rows|
      invariant 0 <= k <= |rows|
      invariant t == Forms(p, req, settings, site, hooks, t0, rows[..k])
    {
      FormsPrefix(p, req, settings, site, hooks, t0, rows, k);
      FormsKeys(p, req, settings, site, hooks, t0, rows[..k]);
      t := RewriteForm(p, req, settings, site, hooks, t, rows[k]);
      k := k + 1;
    }
    assert rows[..k] == rows;
  }

  // ---- link tags (lines 760-762)

  function LinkTags(t: Tree, rows: seq<NodeId>): (r: Tree)
    ensures SameShape(t, r)
    decreases |rows|
  {
    if rows == [] then t
    else
      var prev := LinkTags(t, rows[..|rows| - 1]);
      var l := rows[|rows| - 1];
      SetAttr(prev, l, "href", StripLinkMark(Attr(prev, l, "href")))
  }

  /** Stripping the mark leaves a link tag without it untouched in value, and only
      the href of link tags is written. */
  lemma {:induction false} LinkTagsOnlyStrip(t: Tree, rows: seq<NodeId>)
    ensures forall j :: j in t.nodes && j !in rows ==> LinkTags(t, rows).nodes[j] == t.nodes[j]
    ensures forall j :: j in t.nodes && HasAttr(t, j, "href") && !HasLinkMark(Attr(t, j, "href")) ==>
                        Attr(LinkTags(t, rows), j, "href") == Attr(t, j, "href")
    decreases |rows|
  {
    if rows != [] {
      var prefix := rows[..|rows| - 1];
      var l := rows[|rows| - 1];
      LinkTagsOnlyStrip(t, prefix);
      var prev := LinkTags(t, prefix);
      var value := StripLinkMark(Attr(prev, l, "href"));
      var r := SetAttr(prev, l, "href", value);
      assert LinkTags(t, rows) == r;
      forall j | j in t.nodes && j !in rows
        ensures r.nodes[j] == t.nodes[j]
      {
        assert j !in prefix && j != l;
      }
      forall j | j in t.nodes && HasAttr(t, j, "href") && !HasLinkMark(Attr(t, j, "href"))
        ensures Attr(r, j, "href") == Attr(t, j, "href")
      {
        if j == l {
          ReplaceAbsent(Attr(prev, l, "href"), LinkProcessedMark, "");
          AttrAfterSetAttr(prev, l, "href", value, "href");
        }
      }
    }
  }

  method StripLinkTags(t0: Tree, rows: seq<NodeId>) returns (t: Tree)
    ensures t == LinkTags(t0, rows)
  {
    t := t0;
    var k := 0;
    while k < |rows|
      invariant 0 <= k <= |rows|
      invariant t == LinkTags(t0, rows[..k])
    {
      assert rows[..k + 1][..k] == rows[..k];
      t := SetAttr(t, rows[k], "href", StripLinkMark(Attr(t, rows[k], "href")));
      k := k + 1;
    }
    assert rows[..k] == rows;
  }
}
