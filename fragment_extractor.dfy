/**
 * Candidate extraction (lines 551-641): the untranslatable selectors are
 * flagged first; then every translatable piece of the page is pushed as a
 * string onto one list and as a (node, type) pair onto another, in the order
 * translation blocks, trptext nodes, then node accessors.
 */
module FragmentExtractor {
  import opened Wrappers
  import opened Strings
  import opened Dom
  import opened RenderEnv

  /** preg_match('/^\d+%$/'): ASCII digits and a percent sign; `$` also matches
      before a final newline. */
  predicate IsPercent(s: string) {
    var body := if |s| > 0 && s[|s| - 1] == '\n' then s[..|s| - 1] else s;
    |body| >= 2 && body[|body| - 1] == '%' && forall i :: 0 <= i < |body| - 1 ==> '0' <= body[i] <= '9'
  }

  /** One accepted candidate: the string, the (node, type) pair, and whether machine
      translation is allowed for it. */
  datatype Found = Found(text: string, candidate: Candidate, machine: bool)

  function Texts(fs: seq<Found>): (r: seq<string>)
    ensures |r| == |fs| && forall i :: 0 <= i < |fs| ==> r[i] == fs[i].text
  {
    seq(|fs|, i requires 0 <= i < |fs| => fs[i].text)
  }

  function Candidates(fs: seq<Found>): (r: seq<Candidate>)
    ensures |r| == |fs| && forall i :: 0 <= i < |fs| ==> r[i] == fs[i].candidate
  {
    seq(|fs|, i requires 0 <= i < |fs| => fs[i].candidate)
  }

  /** $skip_machine_translating_strings */
  function Skipped(fs: seq<Found>): seq<string>
    decreases |fs|
  {
    if fs == [] then []
    else
      var prefix := fs[..|fs| - 1];
      var last := fs[|fs| - 1];
      Skipped(prefix) + (if last.machine then [] else [last.text])
  }

  /** A string is excluded from machine translation exactly when some candidate
      carrying it was refused by the filter. */
  lemma {:induction false} SkippedExact(fs: seq<Found>)
    ensures forall s :: s in Skipped(fs) <==> exists i :: 0 <= i < |fs| && !fs[i].machine && fs[i].text == s
    decreases |fs|
  {
    if fs != [] {
      var prefix := fs[..|fs| - 1];
      SkippedExact(prefix);
      assert forall i :: 0 <= i < |prefix| ==> prefix[i] == fs[i];
    }
  }

  lemma SkippedAppend(fs: seq<Found>, f: Found)
    ensures Skipped(fs + [f]) == Skipped(fs) + (if f.machine then [] else [f.text])
  {
    assert (fs + [f])[..|fs|] == fs;
  }

  /** The markup holds a Visual Composer shortcode ("[vc_"). */
  predicate MentionsShortcode(markup: string) {
    Contains(markup, "[vc_")
  }

  function ParentTag(t: Tree, id: NodeId): string {
    var parent := Parent(t, id);
    if parent.Some? then Tag(t, parent.value) else ""
  }

  /** The exclusions shared by blocks and trptext nodes: `trimmed` is the trimmed
      text and `markup` the text searched for "[vc_". */
  predicate TextAccepted(lib: Lib, site: Site, t: Tree, id: NodeId, trimmed: string, markup: string) {
    trimmed != "" &&
    ParentTag(t, id) != "script" && ParentTag(t, id) != "style" && ParentTag(t, id) != "title" &&
    !MentionsShortcode(markup) &&
    !lib.isNumeric(trimmed) && !IsPercent(trimmed) &&
    !site.hasAncestorAttribute(t, id, NoTranslateAttribute)
  }

  // ---- untranslatable selectors (lines 551-561)

  function MarkRows(t: Tree, rows: seq<NodeId>): (r: Tree)
    ensures SameShape(t, r)
    decreases |rows|
  {
    if rows == [] then t
    else SetAttr(MarkRows(t, rows[..|rows| - 1]), rows[|rows| - 1], NoTranslateAttribute, "")
  }

  function MarkSelectors(p: Parser, t: Tree, selectors: seq<string>): (r: Tree)
    ensures SameShape(t, r)
    decreases |selectors|
  {
    if selectors == [] then t
    else
      var prev := MarkSelectors(p, t, selectors[..|selectors| - 1]);
      MarkRows(prev, FindSelector(p, prev, selectors[|selectors| - 1]))
  }

  /** Flags are only ever added, and every row a selector matched ends up flagged. */
  lemma {:induction false} MarkRowsFlags(t: Tree, rows: seq<NodeId>)
    ensures forall x :: x in t.nodes && (x in rows || HasAttr(t, x, NoTranslateAttribute)) ==>
                        HasAttr(MarkRows(t, rows), x, NoTranslateAttribute)
    decreases |rows|
  {
    if rows != [] {
      MarkRowsFlags(t, rows[..|rows| - 1]);
      assert forall x :: x in rows ==> x in rows[..|rows| - 1] || x == rows[|rows| - 1];
    }
  }

  /** Flags are only ever added, and the last selector's matches end up flagged. */
  lemma {:induction false} MarkSelectorsFlags(p: Parser, t: Tree, selectors: seq<string>)
    ensures forall x :: HasAttr(t, x, NoTranslateAttribute) ==>
                        HasAttr(MarkSelectors(p, t, selectors), x, NoTranslateAttribute)
    ensures selectors != [] ==>
              var prev := MarkSelectors(p, t, selectors[..|selectors| - 1]);
              forall x :: x in FindSelector(p, prev, selectors[|selectors| - 1]) && x in t.nodes ==>
                          HasAttr(MarkSelectors(p, t, selectors), x, NoTranslateAttribute)
    decreases |selectors|
  {
    if selectors != [] {
      var prev := MarkSelectors(p, t, selectors[..|selectors| - 1]);
      MarkSelectorsFlags(p, t, selectors[..|selectors| - 1]);
      MarkRowsFlags(prev, FindSelector(p, prev, selectors[|selectors| - 1]));
    }
  }

  /** Every selector's matches end up flagged: a row the selector `sel`
      matched, on the tree the selectors before it left, is still flagged
      once the selectors after it have run. */
  lemma {:induction false} SelectorMatchFlagged(p: Parser, t: Tree, before: seq<string>, sel: string,
                                                after: seq<string>, x: NodeId)
    requires x in t.nodes
    requires x in FindSelector(p, MarkSelectors(p, t, before), sel)
    ensures HasAttr(MarkSelectors(p, t, before + [sel] + after), x, NoTranslateAttribute)
  {
    var prev := MarkSelectors(p, t, before);
    var mid := MarkSelectors(p, t, before + [sel]);
    MarkSelectorsSnoc(p, t, before, sel);
    MarkRowsFlags(prev, FindSelector(p, prev, sel));
    assert HasAttr(mid, x, NoTranslateAttribute);
    MarkSelectorsAppend(p, t, before + [sel], after);
    MarkSelectorsFlags(p, mid, after);
  }

  /** Running two lists of selectors one after the other is running their concatenation. */
  lemma {:induction false} MarkSelectorsAppend(p: Parser, t: Tree, a: seq<string>, b: seq<string>)
    ensures MarkSelectors(p, t, a + b) == MarkSelectors(p, MarkSelectors(p, t, a), b)
    decreases |b|
  {
    if b == [] {
      assert a + b == a;
    } else {
      var front := b[..|b| - 1];
      var last := b[|b| - 1];
      SplitLast(a, b);
      MarkSelectorsAppend(p, t, a, front);
      MarkSelectorsSnoc(p, t, a + front, last);
      MarkSelectorsSnoc(p, MarkSelectors(p, t, a), front, last);
    }
  }

  lemma SplitLast<T>(a: seq<T>, b: seq<T>)
    requires b != []
    ensures b == b[..|b| - 1] + [b[|b| - 1]]
    ensures a + b == (a + b[..|b| - 1]) + [b[|b| - 1]]
  {
  }

  /** Running one more selector marks its matches on the tree the others left. */
  lemma MarkSelectorsSnoc(p: Parser, t: Tree, front: seq<string>, sel: string)
    ensures MarkSelectors(p, t, front + [sel]) ==
            MarkRows(MarkSelectors(p, t, front), FindSelector(p, MarkSelectors(p, t, front), sel))
  {
    assert (front + [sel])[..|front|] == front;
  }

  lemma MarkRowsPrefix(t: Tree, rows: seq<NodeId>, k: nat)
    requires k < |rows|
    ensures MarkRows(t, rows[..k + 1]) == SetAttr(MarkRows(t, rows[..k]), rows[k], NoTranslateAttribute, "")
  {
    assert rows[..k + 1][..k] == rows[..k];
  }

  lemma MarkSelectorsPrefix(p: Parser, t: Tree, selectors: seq<string>, i: nat)
    requires i < |selectors|
    ensures MarkSelectors(p, t, selectors[..i + 1]) ==
            var prev := MarkSelectors(p, t, selectors[..i]);
            MarkRows(prev, FindSelector(p, prev, selectors[i]))
  {
    assert selectors[..i + 1][..i] == selectors[..i];
  }

  /** Flags every row one selector matched (lines 558-560). */
  method MarkMatches(t0: Tree, rows: seq<NodeId>) returns (t: Tree)
    ensures t == MarkRows(t0, rows)
  {
    t := t0;
    var k := 0;
    while k < |rows|
      invariant 0 <= k <= |rows|
      invariant t == MarkRows(t0, rows[..k])
    {
      MarkRowsPrefix(t0, rows, k);
      t := SetAttr(t, rows[k], NoTranslateAttribute, "");
      k := k + 1;
    }
    assert rows[..k] == rows;
  }

  /** The loop over the untranslatable selectors (lines 557-561). */
  method MarkUntranslatable(p: Parser, t0: Tree, selectors: seq<string>) returns (t: Tree)
    ensures t == MarkSelectors(p, t0, selectors)
  {
    t := t0;
    var i := 0;
    while i < |selectors|
      invariant 0 <= i <= |selectors|
      invariant t == MarkSelectors(p, t0, selectors[..i])
    {
      MarkSelectorsPrefix(p, t0, selectors, i);
      t := MarkMatches(t, FindSelector(p, t, selectors[i]));
      i := i + 1;
    }
    assert selectors[..i] == selectors;
  }

  // ---- translation blocks (lines 562-577)

  predicate BlockAccepted(p: Parser, lib: Lib, site: Site, t: Tree, id: NodeId) {
    TextAccepted(lib, site, t, id, lib.fullTrim(Inner(p, t, id)), Outer(p, t, id))
  }

  function BlockFound(p: Parser, lib: Lib, t: Tree, id: NodeId): Found {
    Found(lib.fullTrim(Inner(p, t, id)), Candidate(id, "block"), true)
  }

  function BlocksFrom(p: Parser, lib: Lib, site: Site, t: Tree, rows: seq<NodeId>): seq<Found>
    decreases |rows|
  {
    if rows == [] then []
    else
      var prefix := rows[..|rows| - 1];
      var x := rows[|rows| - 1];
      BlocksFrom(p, lib, site, t, prefix) + (if BlockAccepted(p, lib, site, t, x) then [BlockFound(p, lib, t, x)] else [])
  }

  /** The block candidates are exactly the accepted rows, each typed "block", with
      machine translation allowed and the trimmed inner text as its string. */
  lemma {:induction false} BlocksExact(p: Parser, lib: Lib, site: Site, t: Tree, rows: seq<NodeId>)
    ensures var r := BlocksFrom(p, lib, site, t, rows);
            (forall f :: f in r ==> f.candidate.kind == "block" && f.machine) &&
            (forall f :: f in r ==> f.candidate.node in rows && BlockAccepted(p, lib, site, t, f.candidate.node) &&
                                    f.text == lib.fullTrim(Inner(p, t, f.candidate.node))) &&
            (forall x :: x in rows && BlockAccepted(p, lib, site, t, x) ==> BlockFound(p, lib, t, x) in r)
    decreases |rows|
  {
    if rows != [] {
      var prefix := rows[..|rows| - 1];
      assert rows == prefix + [rows[|rows| - 1]];
      BlocksExact(p, lib, site, t, prefix);
    }
  }

  // ---- trptext nodes (lines 579-606)

  /** The type of a text candidate: its parent's tag decides. */
  function TextKind(t: Tree, id: NodeId): (k: string)
    ensures k == "button" <==> ParentTag(t, id) == "button"
    ensures k == "option" <==> ParentTag(t, id) == "option"
    ensures k == "button" || k == "option" || k == "text"
  {
    if ParentTag(t, id) == "button" then "button"
    else if ParentTag(t, id) == "option" then "option"
    else "text"
  }

  predicate TrptextAccepted(p: Parser, lib: Lib, site: Site, t: Tree, id: NodeId) {
    TextAccepted(lib, site, t, id, lib.fullTrim(Outer(p, t, id)), Outer(p, t, id)) &&
    !site.hasAncestorClass(t, id, "translation-block")
  }

  function TrptextFound(p: Parser, lib: Lib, t: Tree, id: NodeId): Found {
    Found(lib.fullTrim(Outer(p, t, id)), Candidate(id, TextKind(t, id)), true)
  }

  function TrptextsFrom(p: Parser, lib: Lib, site: Site, t: Tree, rows: seq<NodeId>): seq<Found>
    decreases |rows|
  {
    if rows == [] then []
    else
      var prefix := rows[..|rows| - 1];
      var x := rows[|rows| - 1];
      TrptextsFrom(p, lib, site, t, prefix) + (if TrptextAccepted(p, lib, site, t, x) then [TrptextFound(p, lib, t, x)] else [])
  }

  /** The trptext candidates are exactly the accepted rows, typed by their parent's
      tag, with machine translation allowed and the trimmed outer text as string. */
  lemma {:induction false} TrptextsExact(p: Parser, lib: Lib, site: Site, t: Tree, rows: seq<NodeId>)
    ensures var r := TrptextsFrom(p, lib, site, t, rows);
            (forall f :: f in r ==> f.machine && f.candidate.kind in {"button", "option", "text"}) &&
            (forall f :: f in r ==> f.candidate.node in rows && TrptextAccepted(p, lib, site, t, f.candidate.node) &&
                                    f.text == lib.fullTrim(Outer(p, t, f.candidate.node)) &&
                                    f.candidate.kind == TextKind(t, f.candidate.node)) &&
            (forall x :: x in rows && TrptextAccepted(p, lib, site, t, x) ==> TrptextFound(p, lib, t, x) in r)
    decreases |rows|
  {
    if rows != [] {
      var prefix := rows[..|rows| - 1];
      assert rows == prefix + [rows[|rows| - 1]];
      TrptextsExact(p, lib, site, t, prefix);
    }
  }

  // ---- node accessors (lines 612-641)

  /** The accessor's value, trimmed; an href that is neither external nor a file
      (as the trp_translate_this_href filter decides) counts as empty. */
  function AccessorValue(p: Parser, lib: Lib, site: Site, hooks: Hooks, language: string, t: Tree, id: NodeId,
                         accessor: string): string
  {
    var trimmed := lib.fullTrim(View(p, t, id, accessor));
    if accessor == "href" then
      var translateHref := hooks.translateHref(site.isExternalLink(trimmed, site.homeUrl) || site.urlIsFile(trimmed),
                                               t, id, language);
      if translateHref then trimmed else ""
    else trimmed
  }

  predicate AccessorAccepted(p: Parser, lib: Lib, site: Site, hooks: Hooks, language: string, t: Tree, id: NodeId,
                             accessor: string) {
    var trimmed := AccessorValue(p, lib, site, hooks, language, t, id, accessor);
    trimmed != "" && !lib.isNumeric(trimmed) && !IsPercent(trimmed) &&
    !site.hasAncestorAttribute(t, id, NoTranslateAttribute) &&
    !site.hasAncestorAttribute(t, id, NoTranslateAttribute + "-" + accessor) &&
    !site.hasAncestorClass(t, id, "translation-block") &&
    Tag(t, id) != "link"
  }

  function AccessorFound(p: Parser, lib: Lib, site: Site, hooks: Hooks, language: string, t: Tree, id: NodeId,
                         key: string, acc: Accessor): Found {
    var decoded := lib.entityDecode(AccessorValue(p, lib, site, hooks, language, t, id, acc.accessor));
    Found(decoded, Candidate(id, key), hooks.allowMachineTranslation(decoded, acc.accessor, acc))
  }

  function AccessorRowsFrom(p: Parser, lib: Lib, site: Site, hooks: Hooks, language: string, t: Tree,
                            key: string, acc: Accessor, rows: seq<NodeId>): seq<Found>
    decreases |rows|
  {
    if rows == [] then []
    else
      var prefix := rows[..|rows| - 1];
      var x := rows[|rows| - 1];
      AccessorRowsFrom(p, lib, site, hooks, language, t, key, acc, prefix) +
      (if AccessorAccepted(p, lib, site, hooks, language, t, x, acc.accessor)
       then [AccessorFound(p, lib, site, hooks, language, t, x, key, acc)] else [])
  }

  /** One accessor's candidates are exactly its accepted selector matches, typed by the accessor's key. */
  lemma {:induction false} AccessorRowsExact(p: Parser, lib: Lib, site: Site, hooks: Hooks, language: string, t: Tree,
                                             key: string, acc: Accessor, rows: seq<NodeId>)
    ensures var r := AccessorRowsFrom(p, lib, site, hooks, language, t, key, acc, rows);
            (forall f :: f in r ==> f.candidate.kind == key && f.candidate.node in rows &&
                                    AccessorAccepted(p, lib, site, hooks, language, t, f.candidate.node, acc.accessor)) &&
            (forall x :: x in rows && AccessorAccepted(p, lib, site, hooks, language, t, x, acc.accessor) ==>
                         AccessorFound(p, lib, site, hooks, language, t, x, key, acc) in r)
    decreases |rows|
  {
    if rows != [] {
      var prefix := rows[..|rows| - 1];
      assert rows == prefix + [rows[|rows| - 1]];
      AccessorRowsExact(p, lib, site, hooks, language, t, key, acc, prefix);
    }
  }

  /** The candidates one (type, accessor) entry contributes; an entry without a
      selector contributes none. */
  function EntryCandidates(p: Parser, lib: Lib, site: Site, hooks: Hooks, language: string, t: Tree,
                           entry: (string, Accessor)): seq<Found>
  {
    if entry.1.selector.Some? then
      AccessorRowsFrom(p, lib, site, hooks, language, t, entry.0, entry.1, FindSelector(p, t, entry.1.selector.value))
    else []
  }

  /** The per-entry candidate lists, in the order of the accessor table. */
  function EntryLists(p: Parser, lib: Lib, site: Site, hooks: Hooks, language: string, t: Tree,
                      accessors: seq<(string, Accessor)>): (r: seq<seq<Found>>)
    ensures |r| == |accessors|
  {
    seq(|accessors|, i requires 0 <= i < |accessors| => EntryCandidates(p, lib, site, hooks, language, t, accessors[i]))
  }

  function Concat(lists: seq<seq<Found>>): seq<Found>
    decreases |lists|
  {
    if lists == [] then [] else Concat(lists[..|lists| - 1]) + lists[|lists| - 1]
  }

  lemma ConcatPrefix(lists: seq<seq<Found>>, n: nat)
    requires n < |lists|
    ensures Concat(lists[..n + 1]) == Concat(lists[..n]) + lists[n]
  {
    assert lists[..n + 1][..n] == lists[..n];
  }

  lemma AppendAssoc(a: seq<Found>, b: seq<Found>, c: seq<Found>)
    ensures a + b + c == a + (b + c)
  {
  }

  /** Whatever the concatenation holds comes from one of the lists. */
  lemma {:induction false} ConcatMember(lists: seq<seq<Found>>, f: Found)
    requires f in Concat(lists)
    ensures exists i :: 0 <= i < |lists| && f in lists[i]
    decreases |lists|
  {
    var prefix := lists[..|lists| - 1];
    if f in Concat(prefix) {
      ConcatMember(prefix, f);
      var i :| 0 <= i < |prefix| && f in prefix[i];
      assert lists[i] == prefix[i];
    } else {
      assert f in lists[|lists| - 1];
    }
  }

  function AccessorsFrom(p: Parser, lib: Lib, site: Site, hooks: Hooks, language: string, t: Tree,
                         accessors: seq<(string, Accessor)>): seq<Found>
  {
    Concat(EntryLists(p, lib, site, hooks, language, t, accessors))
  }

  /** Every accessor candidate comes from an accessor with a selector and passed that accessor's filters. */
  lemma AccessorsSound(p: Parser, lib: Lib, site: Site, hooks: Hooks, language: string, t: Tree,
                       accessors: seq<(string, Accessor)>)
    ensures forall f :: f in AccessorsFrom(p, lib, site, hooks, language, t, accessors) ==>
              exists i :: 0 <= i < |accessors| && accessors[i].1.selector.Some? &&
                          f.candidate.kind == accessors[i].0 &&
                          AccessorAccepted(p, lib, site, hooks, language, t, f.candidate.node, accessors[i].1.accessor)
  {
    var lists := EntryLists(p, lib, site, hooks, language, t, accessors);
    forall f | f in AccessorsFrom(p, lib, site, hooks, language, t, accessors)
      ensures exists i :: 0 <= i < |accessors| && accessors[i].1.selector.Some? &&
                          f.candidate.kind == accessors[i].0 &&
                          AccessorAccepted(p, lib, site, hooks, language, t, f.candidate.node, accessors[i].1.accessor)
    {
      ConcatMember(lists, f);
      var i :| 0 <= i < |lists| && f in lists[i];
      var entry := accessors[i];
      assert entry.1.selector.Some?;
      AccessorRowsExact(p, lib, site, hooks, language, t, entry.0, entry.1, FindSelector(p, t, entry.1.selector.value));
    }
  }

  /** Everything extracted, in order: blocks, then trptext nodes, then accessors. */
  function AllFound(p: Parser, lib: Lib, site: Site, hooks: Hooks, language: string, t: Tree,
                    accessors: seq<(string, Accessor)>): seq<Found>
  {
    BlocksFrom(p, lib, site, t, FindClass(t, "translation-block")) +
    TrptextsFrom(p, lib, site, t, FindTag(t, "trptext")) +
    AccessorsFrom(p, lib, site, hooks, language, t, accessors)
  }

  /** The two lists stay index-aligned: entry i of each describes the same candidate. */
  lemma Aligned(fs: seq<Found>)
    ensures |Texts(fs)| == |Candidates(fs)|
    ensures forall i :: 0 <= i < |fs| ==> Texts(fs)[i] == fs[i].text && Candidates(fs)[i] == fs[i].candidate
  {
  }

  /** Blocks come first, then trptext nodes (typed button, option or text), then
      accessor candidates. */
  lemma ExtractionOrder(p: Parser, lib: Lib, site: Site, hooks: Hooks, language: string, t: Tree,
                        accessors: seq<(string, Accessor)>)
    ensures var blocks := BlocksFrom(p, lib, site, t, FindClass(t, "translation-block"));
            var texts := TrptextsFrom(p, lib, site, t, FindTag(t, "trptext"));
            var all := AllFound(p, lib, site, hooks, language, t, accessors);
            (forall i :: 0 <= i < |blocks| ==> all[i].candidate.kind == "block") &&
            (forall i :: |blocks| <= i < |blocks| + |texts| ==> all[i].candidate.kind in {"button", "option", "text"})
  {
    var blocks := BlocksFrom(p, lib, site, t, FindClass(t, "translation-block"));
    var texts := TrptextsFrom(p, lib, site, t, FindTag(t, "trptext"));
    var rest := AccessorsFrom(p, lib, site, hooks, language, t, accessors);
    BlocksExact(p, lib, site, t, FindClass(t, "translation-block"));
    TrptextsExact(p, lib, site, t, FindTag(t, "trptext"));
    KindsInOrder(blocks, texts, rest);
  }

  lemma KindsInOrder(blocks: seq<Found>, texts: seq<Found>, rest: seq<Found>)
    requires forall f :: f in blocks ==> f.candidate.kind == "block"
    requires forall f :: f in texts ==> f.candidate.kind in {"button", "option", "text"}
    ensures var all := blocks + texts + rest;
            (forall i :: 0 <= i < |blocks| ==> all[i].candidate.kind == "block") &&
            (forall i :: |blocks| <= i < |blocks| + |texts| ==> all[i].candidate.kind in {"button", "option", "text"})
  {
    var all := blocks + texts + rest;
    forall i | 0 <= i < |blocks| ensures all[i].candidate.kind == "block" {
      assert all[i] == blocks[i] && blocks[i] in blocks;
    }
    forall i | |blocks| <= i < |blocks| + |texts| ensures all[i].candidate.kind in {"button", "option", "text"} {
      assert all[i] == texts[i - |blocks|] && texts[i - |blocks|] in texts;
    }
  }

  /** The pushed lists reflect the candidates found so far. */
  ghost predicate Mirrors(found: seq<Found>, strings: seq<string>, nodes: seq<Candidate>, skip: seq<string>) {
    strings == Texts(found) && nodes == Candidates(found) && skip == Skipped(found)
  }

  lemma MirrorsPush(found: seq<Found>, strings: seq<string>, nodes: seq<Candidate>, skip: seq<string>, f: Found)
    requires Mirrors(found, strings, nodes, skip)
    ensures Mirrors(found + [f], strings + [f.text], nodes + [f.candidate], skip + (if f.machine then [] else [f.text]))
  {
    SkippedAppend(found, f);
  }

  /** Pushing one candidate onto the three lists keeps them mirroring the found sequence. */
  method Push(ghost found0: seq<Found>, strings0: seq<string>, nodes0: seq<Candidate>, skip0: seq<string>, f: Found)
    returns (ghost found: seq<Found>, strings: seq<string>, nodes: seq<Candidate>, skip: seq<string>)
    requires Mirrors(found0, strings0, nodes0, skip0)
    ensures found == found0 + [f]
    ensures Mirrors(found, strings, nodes, skip)
  {
    MirrorsPush(found0, strings0, nodes0, skip0, f);
    found, strings, nodes := found0 + [f], strings0 + [f.text], nodes0 + [f.candidate];
    skip := if f.machine then skip0 else skip0 + [f.text];
  }

  /** Pushes `f` when `accepted`: the body of each extraction loop. */
  method PushIf(accepted: bool, f: Found, ghost found0: seq<Found>,
                strings0: seq<string>, nodes0: seq<Candidate>, skip0: seq<string>)
    returns (ghost found: seq<Found>, strings: seq<string>, nodes: seq<Candidate>, skip: seq<string>)
    requires Mirrors(found0, strings0, nodes0, skip0)
    ensures found == found0 + (if accepted then [f] else [])
    ensures Mirrors(found, strings, nodes, skip)
  {
    found, strings, nodes, skip := found0, strings0, nodes0, skip0;
    if accepted {
      found, strings, nodes, skip := Push(found, strings, nodes, skip, f);
    } else {
      assert found0 + [] == found0;
    }
  }

  lemma BlocksPrefix(p: Parser, lib: Lib, site: Site, t: Tree, rows: seq<NodeId>, k: nat)
    requires k < |rows|
    ensures BlocksFrom(p, lib, site, t, rows[..k + 1]) ==
            BlocksFrom(p, lib, site, t, rows[..k]) +
            (if BlockAccepted(p, lib, site, t, rows[k]) then [BlockFound(p, lib, t, rows[k])] else [])
  {
    assert rows[..k + 1][..k] == rows[..k];
  }

  /** The loop over find('.translation-block') (lines 562-577). */
  method CollectBlocks(p: Parser, lib: Lib, site: Site, t: Tree, rows: seq<NodeId>, ghost found0: seq<Found>,
                       strings0: seq<string>, nodes0: seq<Candidate>, skip0: seq<string>)
    returns (ghost found: seq<Found>, strings: seq<string>, nodes: seq<Candidate>, skip: seq<string>)
    requires Mirrors(found0, strings0, nodes0, skip0)
    ensures found == found0 + BlocksFrom(p, lib, site, t, rows)
    ensures Mirrors(found, strings, nodes, skip)
  {
    found, strings, nodes, skip := found0, strings0, nodes0, skip0;
    var k := 0;
    while k < |rows|
      invariant 0 <= k <= |rows|
      invariant found == found0 + BlocksFrom(p, lib, site, t, rows[..k])
      invariant Mirrors(found, strings, nodes, skip)
    {
      var accepted := BlockAccepted(p, lib, site, t, rows[k]);
      var f := BlockFound(p, lib, t, rows[k]);
      BlocksPrefix(p, lib, site, t, rows, k);
      AppendAssoc(found0, BlocksFrom(p, lib, site, t, rows[..k]), if accepted then [f] else []);
      found, strings, nodes, skip := PushIf(accepted, f, found, strings, nodes, skip);
      k := k + 1;
    }
    assert rows[..k] == rows;
  }

  lemma TrptextsPrefix(p: Parser, lib: Lib, site: Site, t: Tree, rows: seq<NodeId>, k: nat)
    requires k < |rows|
    ensures TrptextsFrom(p, lib, site, t, rows[..k + 1]) ==
            TrptextsFrom(p, lib, site, t, rows[..k]) +
            (if TrptextAccepted(p, lib, site, t, rows[k]) then [TrptextFound(p, lib, t, rows[k])] else [])
  {
    assert rows[..k + 1][..k] == rows[..k];
  }

  /** The loop over find('trptext') (lines 579-606). */
  method CollectTrptexts(p: Parser, lib: Lib, site: Site, t: Tree, rows: seq<NodeId>, ghost found0: seq<Found>,
                         strings0: seq<string>, nodes0: seq<Candidate>, skip0: seq<string>)
    returns (ghost found: seq<Found>, strings: seq<string>, nodes: seq<Candidate>, skip: seq<string>)
    requires Mirrors(found0, strings0, nodes0, skip0)
    ensures found == found0 + TrptextsFrom(p, lib, site, t, rows)
    ensures Mirrors(found, strings, nodes, skip)
  {
    found, strings, nodes, skip := found0, strings0, nodes0, skip0;
    var k := 0;
    while k < |rows|
      invariant 0 <= k <= |rows|
      invariant found == found0 + TrptextsFrom(p, lib, site, t, rows[..k])
      invariant Mirrors(found, strings, nodes, skip)
    {
      var accepted := TrptextAccepted(p, lib, site, t, rows[k]);
      var f := TrptextFound(p, lib, t, rows[k]);
      TrptextsPrefix(p, lib, site, t, rows, k);
      AppendAssoc(found0, TrptextsFrom(p, lib, site, t, rows[..k]), if accepted then [f] else []);
      found, strings, nodes, skip := PushIf(accepted, f, found, strings, nodes, skip);
      k := k + 1;
    }
    assert rows[..k] == rows;
  }

  lemma AccessorRowsPrefix(p: Parser, lib: Lib, site: Site, hooks: Hooks, language: string, t: Tree,
                           key: string, acc: Accessor, rows: seq<NodeId>, k: nat)
    requires k < |rows|
    ensures AccessorRowsFrom(p, lib, site, hooks, language, t, key, acc, rows[..k + 1]) ==
            AccessorRowsFrom(p, lib, site, hooks, language, t, key, acc, rows[..k]) +
            (if AccessorAccepted(p, lib, site, hooks, language, t, rows[k], acc.accessor)
             then [AccessorFound(p, lib, site, hooks, language, t, rows[k], key, acc)] else [])
  {
    assert rows[..k + 1][..k] == rows[..k];
  }

  /** The loop over one accessor's selector matches (lines 614-639). */
  method CollectAccessor(p: Parser, lib: Lib, site: Site, hooks: Hooks, language: string, t: Tree,
                         key: string, acc: Accessor, rows: seq<NodeId>, ghost found0: seq<Found>,
                         strings0: seq<string>, nodes0: seq<Candidate>, skip0: seq<string>)
    returns (ghost found: seq<Found>, strings: seq<string>, nodes: seq<Candidate>, skip: seq<string>)
    requires Mirrors(found0, strings0, nodes0, skip0)
    ensures found == found0 + AccessorRowsFrom(p, lib, site, hooks, language, t, key, acc, rows)
    ensures Mirrors(found, strings, nodes, skip)
  {
    found, strings, nodes, skip := found0, strings0, nodes0, skip0;
    var k := 0;
    while k < |rows|
      invariant 0 <= k <= |rows|
      invariant found == found0 + AccessorRowsFrom(p, lib, site, hooks, language, t, key, acc, rows[..k])
      invariant Mirrors(found, strings, nodes, skip)
    {
      var accepted := AccessorAccepted(p, lib, site, hooks, language, t, rows[k], acc.accessor);
      var f := AccessorFound(p, lib, site, hooks, language, t, rows[k], key, acc);
      AccessorRowsPrefix(p, lib, site, hooks, language, t, key, acc, rows, k);
      AppendAssoc(found0, AccessorRowsFrom(p, lib, site, hooks, language, t, key, acc, rows[..k]),
                  if accepted then [f] else []);
      found, strings, nodes, skip := PushIf(accepted, f, found, strings, nodes, skip);
      k := k + 1;
    }
    assert rows[..k] == rows;
  }

  /** One node accessor: an accessor without a selector contributes nothing. */
  method CollectOneAccessor(p: Parser, lib: Lib, site: Site, hooks: Hooks, language: string, t: Tree,
                            entry: (string, Accessor), ghost found0: seq<Found>,
                            strings0: seq<string>, nodes0: seq<Candidate>, skip0: seq<string>)
    returns (ghost found: seq<Found>, strings: seq<string>, nodes: seq<Candidate>, skip: seq<string>)
    requires Mirrors(found0, strings0, nodes0, skip0)
    ensures found == found0 + EntryCandidates(p, lib, site, hooks, language, t, entry)
    ensures Mirrors(found, strings, nodes, skip)
  {
    found, strings, nodes, skip := found0, strings0, nodes0, skip0;
    var acc := entry.1;
    if acc.selector.Some? {
      var rows := FindSelector(p, t, acc.selector.value);
      found, strings, nodes, skip := CollectAccessor(p, lib, site, hooks, language, t, entry.0, acc, rows,
                                                     found, strings, nodes, skip);
    }
  }

  /** The loop over the node accessors (lines 612-641). */
  method CollectAccessors(p: Parser, lib: Lib, site: Site, hooks: Hooks, language: string, t: Tree,
                          accessors: seq<(string, Accessor)>, ghost found0: seq<Found>,
                          strings0: seq<string>, nodes0: seq<Candidate>, skip0: seq<string>)
    returns (ghost found: seq<Found>, strings: seq<string>, nodes: seq<Candidate>, skip: seq<string>)
    requires Mirrors(found0, strings0, nodes0, skip0)
    ensures found == found0 + AccessorsFrom(p, lib, site, hooks, language, t, accessors)
    ensures Mirrors(found, strings, nodes, skip)
  {
    found, strings, nodes, skip := found0, strings0, nodes0, skip0;
    ghost var lists := EntryLists(p, lib, site, hooks, language, t, accessors);
    var a := 0;
    while a < |accessors|
      invariant 0 <= a <= |accessors|
      invariant found == found0 + Concat(lists[..a])
      invariant Mirrors(found, strings, nodes, skip)
    {
      found, strings, nodes, skip := CollectOneAccessor(p, lib, site, hooks, language, t, accessors[a],
                                                        found, strings, nodes, skip);
      ConcatPrefix(lists, a);
      AppendAssoc(found0, Concat(lists[..a]), lists[a]);
      a := a + 1;
    }
    assert lists[..a] == lists;
  }

  /** Candidate extraction as a whole: the lists are exactly the texts, the
      (node, type) pairs and the machine-translation exclusions of AllFound. */
  method Extract(p: Parser, lib: Lib, site: Site, hooks: Hooks, language: string, t: Tree,
                 accessors: seq<(string, Accessor)>)
    returns (strings: seq<string>, nodes: seq<Candidate>, skip: seq<string>)
    ensures strings == Texts(AllFound(p, lib, site, hooks, language, t, accessors))
    ensures nodes == Candidates(AllFound(p, lib, site, hooks, language, t, accessors))
    ensures skip == Skipped(AllFound(p, lib, site, hooks, language, t, accessors))
  {
    ghost var found: seq<Found>;
    ghost var blocks := BlocksFrom(p, lib, site, t, FindClass(t, "translation-block"));
    found, strings, nodes, skip := CollectBlocks(p, lib, site, t, FindClass(t, "translation-block"), [], [], [], []);
    assert found == blocks;
    found, strings, nodes, skip := CollectTrptexts(p, lib, site, t, FindTag(t, "trptext"), found, strings, nodes, skip);
    found, strings, nodes, skip := CollectAccessors(p, lib, site, hooks, language, t, accessors,
                                                    found, strings, nodes, skip);
    assert found == AllFound(p, lib, site, hooks, language, t, accessors);
  }
}
