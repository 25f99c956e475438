/**
 * trp-gettext markers inside attribute values (lines 504-541).  For every
 * non-marker element and every attribute it had when the pass reached it, a
 * value containing "trp-gettext " that is not JSON is parsed; each marker in
 * that copy is replaced by its innertext, the copy is saved back into the
 * attribute (escaped, except on script and style elements) and the attribute
 * is flagged untranslatable.  In preview mode the marker's id is kept in a
 * companion attribute.
 */
module AttributeMarkers {
  import opened Wrappers
  import opened Strings
  import opened Dom
  import opened RenderEnv

  const GettextNeedle: string := "trp-gettext "

  /** The value written back: esc_attr'd, except on script and style elements. */
  function Escaped(lib: Lib, page: Tree, row: NodeId, saved: string): string {
    if Tag(page, row) != "script" && Tag(page, row) != "style" then lib.escAttr(saved) else saved
  }

  /** The companion attributes of attribute `name`. */
  function NoTranslateFlag(name: string): (r: string)
    ensures |r| > |name|
  {
    NoTranslateAttribute + "-" + name
  }

  function MarkerIdAttribute(name: string): (r: string)
    ensures |r| > |name|
  {
    MarkerAttribute + "-" + name
  }

  /** Only the row's attributes change; its overrides and every other node stay. */
  predicate OnlyRowAttributes(before: Tree, after: Tree, row: NodeId) {
    SameShape(before, after) &&
    (forall j :: j in before.nodes && j != row ==> after.nodes[j] == before.nodes[j]) &&
    (row in before.nodes ==> after.nodes[row].inner == before.nodes[row].inner &&
                             after.nodes[row].outer == before.nodes[row].outer)
  }

  lemma OnlyRowAttributesTrans(a: Tree, b: Tree, c: Tree, row: NodeId)
    requires OnlyRowAttributes(a, b, row) && OnlyRowAttributes(b, c, row)
    ensures OnlyRowAttributes(a, c, row)
  {
  }

  /** One trp-gettext node `m` of the parsed value: the copy and the page after it. */
  function MarkerStep(p: Parser, lib: Lib, frag: Tree, page: Tree, row: NodeId, name: string,
                      m: NodeId, preview: bool): (Tree, Tree)
  {
    var frag1 := SetOuter(frag, m, Inner(p, frag, m));
    var saved := Escaped(lib, page, row, p.save(frag1));
    var page1 := SetAttr(page, row, name, saved);
    var page2 := SetAttr(page1, row, NoTranslateFlag(name), "");
    var page3 := if preview then SetAttr(page2, row, MarkerIdAttribute(name), Attr(frag1, m, MarkerAttribute))
                 else page2;
    (frag1, page3)
  }

  lemma MarkerStepOnlyRow(p: Parser, lib: Lib, frag: Tree, page: Tree, row: NodeId, name: string,
                          m: NodeId, preview: bool)
    ensures OnlyRowAttributes(page, MarkerStep(p, lib, frag, page, row, name, m, preview).1, row)
  {
    var frag1 := SetOuter(frag, m, Inner(p, frag, m));
    var saved := Escaped(lib, page, row, p.save(frag1));
    var page1 := SetAttr(page, row, name, saved);
    var page2 := SetAttr(page1, row, NoTranslateFlag(name), "");
    OnlyRowAttributesTrans(page, page1, page2, row);
    if preview {
      var page3 := SetAttr(page2, row, MarkerIdAttribute(name), Attr(frag1, m, MarkerAttribute));
      OnlyRowAttributesTrans(page, page2, page3, row);
    }
  }

  function MarkersFold(p: Parser, lib: Lib, frag: Tree, page: Tree, row: NodeId, name: string,
                       ms: seq<NodeId>, preview: bool): (Tree, Tree)
    decreases |ms|
  {
    if ms == [] then (frag, page)
    else
      var prev := MarkersFold(p, lib, frag, page, row, name, ms[..|ms| - 1], preview);
      MarkerStep(p, lib, prev.0, prev.1, row, name, ms[|ms| - 1], preview)
  }

  lemma MarkersPrefix(p: Parser, lib: Lib, frag: Tree, page: Tree, row: NodeId, name: string,
                      ms: seq<NodeId>, k: nat, preview: bool)
    requires k < |ms|
    ensures MarkersFold(p, lib, frag, page, row, name, ms[..k + 1], preview) ==
            var prev := MarkersFold(p, lib, frag, page, row, name, ms[..k], preview);
            MarkerStep(p, lib, prev.0, prev.1, row, name, ms[k], preview)
  {
    assert ms[..k + 1][..k] == ms[..k];
  }

  /** Resolving the markers of one value changes only attributes of the row. */
  lemma {:induction false} MarkersFoldOnlyRow(p: Parser, lib: Lib, frag: Tree, page: Tree, row: NodeId,
                                              name: string, ms: seq<NodeId>, preview: bool)
    ensures OnlyRowAttributes(page, MarkersFold(p, lib, frag, page, row, name, ms, preview).1, row)
    decreases |ms|
  {
    if ms != [] {
      var prev := MarkersFold(p, lib, frag, page, row, name, ms[..|ms| - 1], preview);
      MarkersFoldOnlyRow(p, lib, frag, page, row, name, ms[..|ms| - 1], preview);
      MarkerStepOnlyRow(p, lib, prev.0, prev.1, row, name, ms[|ms| - 1], preview);
      OnlyRowAttributesTrans(page, prev.1, MarkerStep(p, lib, prev.0, prev.1, row, name, ms[|ms| - 1], preview).1, row);
    }
  }

  /** The parsed copy of a value that qualifies, or None. */
  function ParsedValue(p: Parser, lib: Lib, value: string): Option<Tree> {
    if !Contains(value, GettextNeedle) then None
    else if lib.decodesToArray(lib.entityDecode(value)) then None
    else p.parse(lib.entityDecode(lib.specialCharsDecode(value)))
  }

  /** One attribute of the row. */
  function AttributeStep(p: Parser, lib: Lib, page: Tree, row: NodeId, name: string, value: string,
                         preview: bool): Tree
  {
    var frag := ParsedValue(p, lib, value);
    if frag.None? then page
    else MarkersFold(p, lib, frag.value, page, row, name, FindTag(frag.value, "trp-gettext"), preview).1
  }

  lemma AttributeStepOnlyRow(p: Parser, lib: Lib, page: Tree, row: NodeId, name: string, value: string,
                             preview: bool)
    ensures OnlyRowAttributes(page, AttributeStep(p, lib, page, row, name, value, preview), row)
  {
    var frag := ParsedValue(p, lib, value);
    if frag.Some? {
      MarkersFoldOnlyRow(p, lib, frag.value, page, row, name, FindTag(frag.value, "trp-gettext"), preview);
    }
  }

  /** getAllAttributes: the row's attributes and values, in order, when the row is reached. */
  function AttributePairs(t: Tree, row: NodeId): (r: seq<(string, string)>)
    ensures |r| == |AttrOrder(t, row)|
  {
    var names := AttrOrder(t, row);
    seq(|names|, i requires 0 <= i < |names| => (names[i], Attr(t, row, names[i])))
  }

  function AttributesFold(p: Parser, lib: Lib, page: Tree, row: NodeId, pairs: seq<(string, string)>,
                          preview: bool): Tree
    decreases |pairs|
  {
    if pairs == [] then page
    else
      var prev := AttributesFold(p, lib, page, row, pairs[..|pairs| - 1], preview);
      var last := pairs[|pairs| - 1];
      AttributeStep(p, lib, prev, row, last.0, last.1, preview)
  }

  lemma AttributesPrefix(p: Parser, lib: Lib, page: Tree, row: NodeId, pairs: seq<(string, string)>,
                         k: nat, preview: bool)
    requires k < |pairs|
    ensures AttributesFold(p, lib, page, row, pairs[..k + 1], preview) ==
            AttributeStep(p, lib, AttributesFold(p, lib, page, row, pairs[..k], preview), row,
                          pairs[k].0, pairs[k].1, preview)
  {
    assert pairs[..k + 1][..k] == pairs[..k];
  }

  lemma {:induction false} AttributesFoldOnlyRow(p: Parser, lib: Lib, page: Tree, row: NodeId,
                                                 pairs: seq<(string, string)>, preview: bool)
    ensures OnlyRowAttributes(page, AttributesFold(p, lib, page, row, pairs, preview), row)
    decreases |pairs|
  {
    if pairs != [] {
      var prev := AttributesFold(p, lib, page, row, pairs[..|pairs| - 1], preview);
      var last := pairs[|pairs| - 1];
      AttributesFoldOnlyRow(p, lib, page, row, pairs[..|pairs| - 1], preview);
      AttributeStepOnlyRow(p, lib, prev, row, last.0, last.1, preview);
      OnlyRowAttributesTrans(page, prev, AttributeStep(p, lib, prev, row, last.0, last.1, preview), row);
    }
  }

  function RowStep(p: Parser, lib: Lib, page: Tree, row: NodeId, preview: bool): Tree {
    AttributesFold(p, lib, page, row, AttributePairs(page, row), preview)
  }

  /** The whole pass. */
  function RowsFold(p: Parser, lib: Lib, page: Tree, rows: seq<NodeId>, preview: bool): Tree
    decreases |rows|
  {
    if rows == [] then page
    else RowStep(p, lib, RowsFold(p, lib, page, rows[..|rows| - 1], preview), rows[|rows| - 1], preview)
  }

  lemma RowsPrefix(p: Parser, lib: Lib, page: Tree, rows: seq<NodeId>, k: nat, preview: bool)
    requires k < |rows|
    ensures RowsFold(p, lib, page, rows[..k + 1], preview) ==
            RowStep(p, lib, RowsFold(p, lib, page, rows[..k], preview), rows[k], preview)
  {
    assert rows[..k + 1][..k] == rows[..k];
  }

  /** Only attributes of the listed rows change, and no node's overrides. */
  lemma {:induction false} RowsFoldFrame(p: Parser, lib: Lib, page: Tree, rows: seq<NodeId>, preview: bool)
    ensures var r := RowsFold(p, lib, page, rows, preview);
            SameShape(page, r) &&
            (forall j :: j in page.nodes ==> r.nodes[j].inner == page.nodes[j].inner &&
                                             r.nodes[j].outer == page.nodes[j].outer) &&
            (forall j :: j in page.nodes && j !in rows ==> r.nodes[j] == page.nodes[j])
    decreases |rows|
  {
    if rows != [] {
      var prefix := rows[..|rows| - 1];
      var row := rows[|rows| - 1];
      var prev := RowsFold(p, lib, page, prefix, preview);
      var r := RowStep(p, lib, prev, row, preview);
      RowsFoldFrame(p, lib, page, prefix, preview);
      AttributesFoldOnlyRow(p, lib, prev, row, AttributePairs(prev, row), preview);
      assert r == RowsFold(p, lib, page, rows, preview);
      SameShapeTrans(page, prev, r);
      forall j | j in page.nodes
        ensures r.nodes[j].inner == page.nodes[j].inner && r.nodes[j].outer == page.nodes[j].outer
      {
        assert j in prev.nodes;
      }
      forall j | j in page.nodes && j !in rows
        ensures r.nodes[j] == page.nodes[j]
      {
        assert j !in prefix && j != row;
        assert j in prev.nodes;
      }
    }
  }

  /** A value without "trp-gettext " is left as it is. */
  lemma PlainValueUntouched(p: Parser, lib: Lib, page: Tree, row: NodeId, name: string, value: string, preview: bool)
    requires !Contains(value, GettextNeedle)
    ensures AttributeStep(p, lib, page, row, name, value, preview) == page
  {
  }

  /** After a marker is resolved, the attribute holds the saved copy (escaped unless
      on script/style) and is flagged untranslatable. */
  lemma MarkerStepWrites(p: Parser, lib: Lib, frag: Tree, page: Tree, row: NodeId, name: string,
                         m: NodeId, preview: bool)
    requires row in page.nodes
    ensures var r := MarkerStep(p, lib, frag, page, row, name, m, preview);
            Attr(r.1, row, name) == Escaped(lib, page, row, p.save(r.0)) &&
            HasAttr(r.1, row, NoTranslateFlag(name))
  {
    var flag := NoTranslateFlag(name);
    var idAttr := MarkerIdAttribute(name);
    assert name != flag && name != idAttr;
    assert flag != idAttr by {
      assert flag[5] == 'n' && idAttr[5] == 't';
    }
    var frag1 := SetOuter(frag, m, Inner(p, frag, m));
    var saved := Escaped(lib, page, row, p.save(frag1));
    var page1 := SetAttr(page, row, name, saved);
    AttrAfterSetAttr(page, row, name, saved, name);
    var page2 := SetAttr(page1, row, flag, "");
    AttrAfterSetAttr(page1, row, flag, "", name);
    AttrAfterSetAttr(page1, row, flag, "", flag);
    if preview {
      var page3 := SetAttr(page2, row, idAttr, Attr(frag1, m, MarkerAttribute));
      AttrAfterSetAttr(page2, row, idAttr, Attr(frag1, m, MarkerAttribute), name);
      AttrAfterSetAttr(page2, row, idAttr, Attr(frag1, m, MarkerAttribute), flag);
      assert MarkerStep(p, lib, frag, page, row, name, m, preview) == (frag1, page3);
    } else {
      assert MarkerStep(p, lib, frag, page, row, name, m, preview) == (frag1, page2);
    }
  }

  /** The marker's id is copied into the companion attribute only in preview mode,
      and no other attribute of the row changes. */
  lemma MarkerStepOthers(p: Parser, lib: Lib, frag: Tree, page: Tree, row: NodeId, name: string,
                         m: NodeId, preview: bool)
    requires row in page.nodes
    ensures var r := MarkerStep(p, lib, frag, page, row, name, m, preview);
            (preview ==> Attr(r.1, row, MarkerIdAttribute(name)) == Attr(frag, m, MarkerAttribute)) &&
            forall a :: a != name && a != NoTranslateFlag(name) && (preview ==> a != MarkerIdAttribute(name)) ==>
                        Attr(r.1, row, a) == Attr(page, row, a)
  {
    var flag := NoTranslateFlag(name);
    var idAttr := MarkerIdAttribute(name);
    var frag1 := SetOuter(frag, m, Inner(p, frag, m));
    var saved := Escaped(lib, page, row, p.save(frag1));
    var page1 := SetAttr(page, row, name, saved);
    var page2 := SetAttr(page1, row, flag, "");
    var page3 := if preview then SetAttr(page2, row, idAttr, Attr(frag1, m, MarkerAttribute)) else page2;
    assert MarkerStep(p, lib, frag, page, row, name, m, preview) == (frag1, page3);
    assert Attr(frag1, m, MarkerAttribute) == Attr(frag, m, MarkerAttribute);
    if preview {
      AttrAfterSetAttr(page2, row, idAttr, Attr(frag1, m, MarkerAttribute), idAttr);
    }
    forall a | a != name && a != flag && (preview ==> a != idAttr)
      ensures Attr(page3, row, a) == Attr(page, row, a)
    {
      AttrAfterSetAttr(page, row, name, saved, a);
      AttrAfterSetAttr(page1, row, flag, "", a);
      if preview {
        AttrAfterSetAttr(page2, row, idAttr, Attr(frag1, m, MarkerAttribute), a);
      }
    }
  }

  lemma MarkersFoldKeepsRow(p: Parser, lib: Lib, frag: Tree, page: Tree, row: NodeId,
                            name: string, ms: seq<NodeId>, preview: bool)
    requires row in page.nodes
    ensures var r := MarkersFold(p, lib, frag, page, row, name, ms, preview).1;
            row in r.nodes && Tag(r, row) == Tag(page, row)
  {
    MarkersFoldOnlyRow(p, lib, frag, page, row, name, ms, preview);
  }

  /** When the parsed value has at least one marker, the attribute ends up holding the
      saved copy with every marker resolved, and carries the untranslatable flag. */
  lemma {:induction false} FoldWritesLastCopy(p: Parser, lib: Lib, frag: Tree, page: Tree, row: NodeId,
                                              name: string, ms: seq<NodeId>, preview: bool)
    requires row in page.nodes && |ms| > 0
    ensures var r := MarkersFold(p, lib, frag, page, row, name, ms, preview);
            Attr(r.1, row, name) == Escaped(lib, page, row, p.save(r.0)) &&
            HasAttr(r.1, row, NoTranslateFlag(name))
  {
    var prev := MarkersFold(p, lib, frag, page, row, name, ms[..|ms| - 1], preview);
    var r := MarkerStep(p, lib, prev.0, prev.1, row, name, ms[|ms| - 1], preview);
    MarkersFoldKeepsRow(p, lib, frag, page, row, name, ms[..|ms| - 1], preview);
    MarkerStepWrites(p, lib, prev.0, prev.1, row, name, ms[|ms| - 1], preview);
    assert Escaped(lib, prev.1, row, p.save(r.0)) == Escaped(lib, page, row, p.save(r.0));
    assert MarkersFold(p, lib, frag, page, row, name, ms, preview) == r;
  }

  /** Outside preview mode, resolving markers writes only the attribute and its flag. */
  lemma {:induction false} NoMarkerIdsOutsidePreview(p: Parser, lib: Lib, frag: Tree, page: Tree, row: NodeId,
                                                     name: string, ms: seq<NodeId>)
    requires row in page.nodes
    ensures var r := MarkersFold(p, lib, frag, page, row, name, ms, false);
            forall a :: a != name && a != NoTranslateFlag(name) ==> Attr(r.1, row, a) == Attr(page, row, a)
    decreases |ms|
  {
    if ms != [] {
      var prev := MarkersFold(p, lib, frag, page, row, name, ms[..|ms| - 1], false);
      NoMarkerIdsOutsidePreview(p, lib, frag, page, row, name, ms[..|ms| - 1]);
      MarkersFoldOnlyRow(p, lib, frag, page, row, name, ms[..|ms| - 1], false);
      MarkerStepOthers(p, lib, prev.0, prev.1, row, name, ms[|ms| - 1], false);
    }
  }

  /** The body of that loop for one trp-gettext node (lines 520-535). */
  method ResolveMarkerInValue(p: Parser, lib: Lib, frag0: Tree, page0: Tree, row: NodeId, name: string,
                              m: NodeId, preview: bool)
    returns (frag: Tree, page: Tree)
    ensures (frag, page) == MarkerStep(p, lib, frag0, page0, row, name, m, preview)
  {
    frag := SetOuter(frag0, m, Inner(p, frag0, m));
    var saved := p.save(frag);
    if Tag(page0, row) != "script" && Tag(page0, row) != "style" {
      saved := lib.escAttr(saved);
    }
    page := SetAttr(page0, row, name, saved);
    page := SetAttr(page, row, NoTranslateFlag(name), "");
    if preview {
      page := SetAttr(page, row, MarkerIdAttribute(name), Attr(frag, m, MarkerAttribute));
    }
  }

  /** The loop over the trp-gettext nodes of one parsed value (lines 519-536). */
  method ResolveMarkersInValue(p: Parser, lib: Lib, frag0: Tree, page0: Tree, row: NodeId, name: string,
                               preview: bool)
    returns (frag: Tree, page: Tree)
    ensures (frag, page) == MarkersFold(p, lib, frag0, page0, row, name, FindTag(frag0, "trp-gettext"), preview)
  {
    var ms := FindTag(frag0, "trp-gettext");
    frag, page := frag0, page0;
    var k := 0;
    while k < |ms|
      invariant 0 <= k <= |ms|
      invariant (frag, page) == MarkersFold(p, lib, frag0, page0, row, name, ms[..k], preview)
    {
      MarkersPrefix(p, lib, frag0, page0, row, name, ms, k, preview);
      frag, page := ResolveMarkerInValue(p, lib, frag, page, row, name, ms[k], preview);
      k := k + 1;
    }
    assert ms[..k] == ms;
  }

  /** The body of the loop over one row's attributes (lines 508-537). */
  method ResolveAttribute(p: Parser, lib: Lib, page0: Tree, row: NodeId, name: string, value: string,
                          preview: bool)
    returns (page: Tree)
    ensures page == AttributeStep(p, lib, page0, row, name, value, preview)
  {
    page := page0;
    if Contains(value, GettextNeedle) && !lib.decodesToArray(lib.entityDecode(value)) {
      var nodeFromValue := p.parse(lib.entityDecode(lib.specialCharsDecode(value)));
      if nodeFromValue.Some? {
        var _, page' := ResolveMarkersInValue(p, lib, nodeFromValue.value, page, row, name, preview);
        page := page';
      }
    }
  }

  /** The loop over one row's attributes (lines 505-539). */
  method ResolveRowAttributes(p: Parser, lib: Lib, page0: Tree, row: NodeId, preview: bool)
    returns (page: Tree)
    ensures page == RowStep(p, lib, page0, row, preview)
  {
    var allAttributes := AttributePairs(page0, row);
    page := page0;
    var k := 0;
    while k < |allAttributes|
      invariant 0 <= k <= |allAttributes|
      invariant page == AttributesFold(p, lib, page0, row, allAttributes[..k], preview)
    {
      AttributesPrefix(p, lib, page0, row, allAttributes, k, preview);
      page := ResolveAttribute(p, lib, page, row, allAttributes[k].0, allAttributes[k].1, preview);
      k := k + 1;
    }
    assert allAttributes[..k] == allAttributes;
  }

  /** The loop over $trp_attr_rows (lines 504-540). */
  method ResolveAttributeMarkers(p: Parser, lib: Lib, page0: Tree, rows: seq<NodeId>, preview: bool)
    returns (page: Tree)
    ensures page == RowsFold(p, lib, page0, rows, preview)
  {
    page := page0;
    var k := 0;
    while k < |rows|
      invariant 0 <= k <= |rows|
      invariant page == RowsFold(p, lib, page0, rows[..k], preview)
    {
      RowsPrefix(p, lib, page0, rows, k, preview);
      page := ResolveRowAttributes(p, lib, page, rows[k], preview);
      k := k + 1;
    }
    assert rows[..k] == rows;
  }
}
