/**
 * Resolving the trp-gettext markers that wrap gettext strings (lines 478-541).
 * Node markers are taken bucket by bucket in ascending child count: a marker
 * that is all its parent contains dissolves into its innertext and marks the
 * parent untranslatable; any other becomes a trp-wrap element that is itself
 * untranslatable.  Markers inside attribute values are dissolved in a parsed
 * copy of the value, which is written back and flagged.
 */
module MarkerUnwrapper {
  import opened Wrappers
  import opened Strings
  import opened Dom
  import opened RenderEnv
  import opened RowScan

  const WrapOpen: string := "<trp-wrap class=\"trp-wrap\" data-no-translation"
  const WrapClose: string := "</trp-wrap>"

  /** The marker is all its parent contains: its only child, with the parent's
      innertext equal to the marker's outertext. */
  predicate SoleContent(p: Parser, t: Tree, id: NodeId, parent: NodeId) {
    |Children(t, parent)| == 1 && Inner(p, t, parent) == Outer(p, t, id)
  }

  /** One marker node.  The parser gives every node but the root a parent, and the
      root carries no attributes, so the parentless case does not arise from a
      parse; the model leaves such a node alone. */
  function UnwrapMarker(p: Parser, t: Tree, id: NodeId, preview: bool): Tree {
    var original := Attr(t, id, MarkerAttribute);
    match Parent(t, id)
    case None => t
    case Some(parent) =>
      if SoleContent(p, t, id, parent) then
        var t1 := SetOuter(t, id, Inner(p, t, id));
        var t2 := SetAttr(t1, parent, NoTranslateAttribute, "");
        if preview then SetAttr(t2, parent, MarkerAttribute, original) else t2
      else
        var t1 := SetOuter(t, id, WrapOpen);
        var t2 := if preview then SetOuter(t1, id, Outer(p, t1, id) + " data-trpgettextoriginal=\"" + original + "\"")
                  else t1;
        SetOuter(t2, id, Outer(p, t2, id) + ">" + Inner(p, t2, id) + WrapClose)
  }

  /** Resolving a marker never restructures the page. */
  lemma UnwrapMarkerShape(p: Parser, t: Tree, id: NodeId, preview: bool)
    ensures SameShape(t, UnwrapMarker(p, t, id, preview))
  {
    var original := Attr(t, id, MarkerAttribute);
    if Parent(t, id).Some? {
      var parent := Parent(t, id).value;
      if SoleContent(p, t, id, parent) {
        var t1 := SetOuter(t, id, Inner(p, t, id));
        var t2 := SetAttr(t1, parent, NoTranslateAttribute, "");
        var t3 := if preview then SetAttr(t2, parent, MarkerAttribute, original) else t2;
        assert UnwrapMarker(p, t, id, preview) == t3;
        SameShapeTrans(t, t1, t2);
        SameShapeTrans(t, t2, t3);
      } else {
        var t1 := SetOuter(t, id, WrapOpen);
        var t2 := if preview then SetOuter(t1, id, Outer(p, t1, id) + " data-trpgettextoriginal=\"" + original + "\"")
                  else t1;
        var t3 := SetOuter(t2, id, Outer(p, t2, id) + ">" + Inner(p, t2, id) + WrapClose);
        assert UnwrapMarker(p, t, id, preview) == t3;
        SameShapeTrans(t, t1, t2);
        SameShapeTrans(t, t2, t3);
      }
    }
  }

  /** A marker that is all its parent contains is replaced by its innertext and the
      parent becomes untranslatable; the marker's id moves up only in preview mode. */
  lemma SoleMarkerDissolves(p: Parser, t: Tree, id: NodeId, parent: NodeId, preview: bool)
    requires id in t.nodes && parent in t.nodes && id != parent
    requires Parent(t, id) == Some(parent) && SoleContent(p, t, id, parent)
    ensures var r := UnwrapMarker(p, t, id, preview);
            Outer(p, r, id) == Inner(p, t, id) &&
            HasAttr(r, parent, NoTranslateAttribute) &&
            Attr(r, parent, MarkerAttribute) == (if preview then Attr(t, id, MarkerAttribute) else Attr(t, parent, MarkerAttribute)) &&
            (forall j :: j in t.nodes && j != id && j != parent ==> r.nodes[j] == t.nodes[j])
  {
    assert NoTranslateAttribute != MarkerAttribute;
  }

  /** Any other marker becomes an untranslatable trp-wrap element around its
      innertext; its id is written into the wrapper only in preview mode. */
  lemma OtherMarkerWrapped(p: Parser, t: Tree, id: NodeId, parent: NodeId, preview: bool)
    requires id in t.nodes && Parent(t, id) == Some(parent) && !SoleContent(p, t, id, parent)
    ensures var r := UnwrapMarker(p, t, id, preview);
            var opening := WrapOpen + (if preview then " data-trpgettextoriginal=\"" + Attr(t, id, MarkerAttribute) + "\"" else "") + ">";
            r.nodes[id].outer.Some? &&
            StartsWith(Outer(p, r, id), opening) && EndsWith(Outer(p, r, id), WrapClose)
  {
    if preview {
      WrappedInPreview(p, t, id, parent);
    } else {
      WrappedPlain(p, t, id, parent);
    }
  }

  lemma WrappedPlain(p: Parser, t: Tree, id: NodeId, parent: NodeId)
    requires id in t.nodes && Parent(t, id) == Some(parent) && !SoleContent(p, t, id, parent)
    ensures var r := UnwrapMarker(p, t, id, false);
            r.nodes[id].outer.Some? &&
            StartsWith(Outer(p, r, id), WrapOpen + ">") && EndsWith(Outer(p, r, id), WrapClose)
  {
    var t1 := SetOuter(t, id, WrapOpen);
    var r := SetOuter(t1, id, Outer(p, t1, id) + ">" + Inner(p, t1, id) + WrapClose);
    assert UnwrapMarker(p, t, id, false) == r;
    assert Outer(p, t1, id) == WrapOpen;
    Framed(WrapOpen + ">", Inner(p, t1, id), WrapClose);
  }

  lemma WrappedInPreview(p: Parser, t: Tree, id: NodeId, parent: NodeId)
    requires id in t.nodes && Parent(t, id) == Some(parent) && !SoleContent(p, t, id, parent)
    ensures var r := UnwrapMarker(p, t, id, true);
            var opening := WrapOpen + (" data-trpgettextoriginal=\"" + Attr(t, id, MarkerAttribute) + "\"") + ">";
            r.nodes[id].outer.Some? &&
            StartsWith(Outer(p, r, id), opening) && EndsWith(Outer(p, r, id), WrapClose)
  {
    var original := Attr(t, id, MarkerAttribute);
    var t1 := SetOuter(t, id, WrapOpen);
    var t2 := SetOuter(t1, id, Outer(p, t1, id) + " data-trpgettextoriginal=\"" + original + "\"");
    var r := SetOuter(t2, id, Outer(p, t2, id) + ">" + Inner(p, t2, id) + WrapClose);
    assert UnwrapMarker(p, t, id, true) == r;
    assert Outer(p, t1, id) == WrapOpen;
    assert Outer(p, r, id) == WrapOpen + " data-trpgettextoriginal=\"" + original + "\"" + ">" + Inner(p, t2, id) + WrapClose;
    PreviewWrapper(original, Inner(p, t2, id));
  }

  /** The preview wrapper, as text: the opening tag with the id, then the body. */
  lemma PreviewWrapper(original: string, body: string)
    ensures var s := WrapOpen + " data-trpgettextoriginal=\"" + original + "\"" + ">" + body + WrapClose;
            var opening := WrapOpen + (" data-trpgettextoriginal=\"" + original + "\"") + ">";
            StartsWith(s, opening) && EndsWith(s, WrapClose)
  {
    var opening := WrapOpen + (" data-trpgettextoriginal=\"" + original + "\"") + ">";
    assert WrapOpen + " data-trpgettextoriginal=\"" + original + "\"" + ">" + body + WrapClose
        == opening + body + WrapClose;
    Framed(opening, body, WrapClose);
  }

  /** Wrapping a marker touches no other node. */
  lemma OtherMarkerFrame(p: Parser, t: Tree, id: NodeId, parent: NodeId, preview: bool, j: NodeId)
    requires Parent(t, id) == Some(parent) && !SoleContent(p, t, id, parent)
    requires j in t.nodes && j != id
    ensures var r := UnwrapMarker(p, t, id, preview);
            j in r.nodes && r.nodes[j] == t.nodes[j]
  {
    var original := Attr(t, id, MarkerAttribute);
    var t1 := SetOuter(t, id, WrapOpen);
    var t2 := if preview then SetOuter(t1, id, Outer(p, t1, id) + " data-trpgettextoriginal=\"" + original + "\"") else t1;
    var r := SetOuter(t2, id, Outer(p, t2, id) + ">" + Inner(p, t2, id) + WrapClose);
    assert UnwrapMarker(p, t, id, preview) == r;
    assert j in t1.nodes && t1.nodes[j] == t.nodes[j];
    assert j in t2.nodes && t2.nodes[j] == t1.nodes[j];
  }

  lemma Framed(opening: string, body: string, closing: string)
    ensures StartsWith(opening + body + closing, opening) && EndsWith(opening + body + closing, closing)
  {
    assert (opening + body + closing)[..|opening|] == opening;
    var s := opening + body + closing;
    assert s[|s| - |closing|..] == closing;
  }

  predicate EndsWith(s: string, suffix: string) {
    |suffix| <= |s| && s[|s| - |suffix|..] == suffix
  }

  /** Outside preview mode, no node's data-trpgettextoriginal changes. */
  lemma MarkerIdsStayOutsidePreview(p: Parser, t: Tree, id: NodeId)
    ensures forall j :: Attr(UnwrapMarker(p, t, id, false), j, MarkerAttribute) == Attr(t, j, MarkerAttribute)
  {
    assert NoTranslateAttribute != MarkerAttribute;
    var r := UnwrapMarker(p, t, id, false);
    forall j ensures Attr(r, j, MarkerAttribute) == Attr(t, j, MarkerAttribute) {
      if Parent(t, id).Some? {
        var parent := Parent(t, id).value;
        if SoleContent(p, t, id, parent) {
          var t1 := SetOuter(t, id, Inner(p, t, id));
          assert r == SetAttr(t1, parent, NoTranslateAttribute, "");
          assert Attr(t1, j, MarkerAttribute) == Attr(t, j, MarkerAttribute);
          if j == parent && parent in t1.nodes {
            AttrAfterSetAttr(t1, parent, NoTranslateAttribute, "", MarkerAttribute);
          }
        } else {
          OtherMarkerNoAttrs(p, t, id, parent, j);
        }
      }
    }
  }

  lemma OtherMarkerNoAttrs(p: Parser, t: Tree, id: NodeId, parent: NodeId, j: NodeId)
    requires Parent(t, id) == Some(parent) && !SoleContent(p, t, id, parent)
    ensures Attr(UnwrapMarker(p, t, id, false), j, MarkerAttribute) == Attr(t, j, MarkerAttribute)
  {
    var t1 := SetOuter(t, id, WrapOpen);
    var r := SetOuter(t1, id, Outer(p, t1, id) + ">" + Inner(p, t1, id) + WrapClose);
    assert UnwrapMarker(p, t, id, false) == r;
    AttrAfterSetOuter(t, id, WrapOpen, j, MarkerAttribute);
    AttrAfterSetOuter(t1, id, Outer(p, t1, id) + ">" + Inner(p, t1, id) + WrapClose, j, MarkerAttribute);
  }

  /** The markers in processing order, each on the tree its predecessors left. */
  function UnwrapAll(p: Parser, t: Tree, ids: seq<NodeId>, preview: bool): Tree
    decreases |ids|
  {
    if ids == [] then t
    else UnwrapMarker(p, UnwrapAll(p, t, ids[..|ids| - 1], preview), ids[|ids| - 1], preview)
  }

  lemma {:induction false} UnwrapAllShape(p: Parser, t: Tree, ids: seq<NodeId>, preview: bool)
    ensures SameShape(t, UnwrapAll(p, t, ids, preview))
    decreases |ids|
  {
    if ids != [] {
      var prev := UnwrapAll(p, t, ids[..|ids| - 1], preview);
      UnwrapAllShape(p, t, ids[..|ids| - 1], preview);
      UnwrapMarkerShape(p, prev, ids[|ids| - 1], preview);
      SameShapeTrans(t, prev, UnwrapMarker(p, prev, ids[|ids| - 1], preview));
    }
  }

  /** Resolving a marker never removes an assigned outertext. */
  lemma UnwrapKeepsOverrides(p: Parser, t: Tree, id: NodeId, preview: bool, j: NodeId)
    requires j in t.nodes && t.nodes[j].outer.Some?
    ensures UnwrapMarker(p, t, id, preview).nodes[j].outer.Some?
  {
    var original := Attr(t, id, MarkerAttribute);
    if Parent(t, id).Some? {
      var parent := Parent(t, id).value;
      if SoleContent(p, t, id, parent) {
        var t1 := SetOuter(t, id, Inner(p, t, id));
        var t2 := SetAttr(t1, parent, NoTranslateAttribute, "");
        assert t2.nodes[j].outer.Some?;
        var t3 := if preview then SetAttr(t2, parent, MarkerAttribute, original) else t2;
        assert t3.nodes[j].outer.Some?;
      }
    }
  }

  /** After the pass, every marker that has a parent carries an assigned outertext:
      none is left for the serialiser to print as it was parsed. */
  lemma {:induction false} AllMarkersResolved(p: Parser, t: Tree, ids: seq<NodeId>, preview: bool, x: NodeId)
    requires x in ids && x in t.nodes && Parent(t, x).Some?
    ensures x in UnwrapAll(p, t, ids, preview).nodes && UnwrapAll(p, t, ids, preview).nodes[x].outer.Some?
    decreases |ids|
  {
    var prefix := ids[..|ids| - 1];
    var last := ids[|ids| - 1];
    var prev := UnwrapAll(p, t, prefix, preview);
    UnwrapAllShape(p, t, prefix, preview);
    UnwrapMarkerShape(p, prev, last, preview);
    assert UnwrapAll(p, t, ids, preview) == UnwrapMarker(p, prev, last, preview);
    if x == last {
      var parent := Parent(prev, x).value;
      if !SoleContent(p, prev, x, parent) {
        OtherMarkerWrapped(p, prev, x, parent, preview);
      }
    } else {
      assert x in prefix by {
        assert ids == prefix + [last];
      }
      AllMarkersResolved(p, t, prefix, preview, x);
      UnwrapKeepsOverrides(p, prev, last, preview, x);
    }
  }

  /** The body of the bucket loop for one marker (lines 481-500). */
  method ResolveMarker(p: Parser, t0: Tree, row: NodeId, preview: bool) returns (t: Tree)
    ensures t == UnwrapMarker(p, t0, row, preview)
  {
    t := t0;
    var original := Attr(t, row, MarkerAttribute);
    var parent := Parent(t, row);
    if parent.Some? {
      if |Children(t, parent.value)| == 1 && Inner(p, t, parent.value) == Outer(p, t, row) {
        t := SetOuter(t, row, Inner(p, t, row));
        t := SetAttr(t, parent.value, NoTranslateAttribute, "");
        if preview {
          t := SetAttr(t, parent.value, MarkerAttribute, original);
        }
      } else {
        t := SetOuter(t, row, WrapOpen);
        if preview {
          t := SetOuter(t, row, Outer(p, t, row) + " data-trpgettextoriginal=\"" + original + "\"");
        }
        t := SetOuter(t, row, Outer(p, t, row) + ">" + Inner(p, t, row) + WrapClose);
      }
    }
  }

  lemma UnwrapAllSnoc(p: Parser, t: Tree, done: seq<NodeId>, row: NodeId, preview: bool)
    ensures UnwrapAll(p, t, done + [row], preview) == UnwrapMarker(p, UnwrapAll(p, t, done, preview), row, preview)
  {
    assert (done + [row])[..|done|] == done;
  }

  lemma FlattenPrefix(b: Buckets, keys: seq<nat>, i: nat)
    requires i < |keys|
    ensures Flatten(b, keys[..i + 1]) == Flatten(b, keys[..i]) + Bucket(b, keys[i])
  {
    assert keys[..i + 1][..i] == keys[..i];
  }

  /** One bucket, marker by marker (lines 480-501). */
  method ResolveLevel(p: Parser, ghost start: Tree, t0: Tree, done: seq<NodeId>, level: seq<NodeId>, preview: bool)
    returns (t: Tree, processed: seq<NodeId>)
    requires t0 == UnwrapAll(p, start, done, preview)
    ensures processed == done + level
    ensures t == UnwrapAll(p, start, processed, preview)
  {
    t := t0;
    processed := done;
    var k := 0;
    while k < |level|
      invariant 0 <= k <= |level|
      invariant processed == done + level[..k]
      invariant t == UnwrapAll(p, start, processed, preview)
    {
      var row := level[k];
      t := ResolveMarker(p, t, row, preview);
      UnwrapAllSnoc(p, start, processed, row, preview);
      processed := processed + [row];
      assert level[..k + 1] == level[..k] + [row];
      k := k + 1;
    }
    assert level[..k] == level;
  }

  /** The ksort'ed loop over the buckets (lines 478-502): `keys` is the ksort order
      and `processed` the order in which markers were resolved. */
  method ProcessMarkers(p: Parser, t0: Tree, buckets: Buckets, preview: bool)
    returns (t: Tree, keys: seq<nat>, processed: seq<NodeId>)
    ensures (forall n :: n in keys <==> n in buckets) && StrictlyAscending(keys)
    ensures processed == Flatten(buckets, keys)
    ensures t == UnwrapAll(p, t0, processed, preview)
  {
    keys := SortedKeys(buckets);
    t := t0;
    processed := [];
    var i := 0;
    while i < |keys|
      invariant 0 <= i <= |keys|
      invariant processed == Flatten(buckets, keys[..i])
      invariant t == UnwrapAll(p, t0, processed, preview)
    {
      FlattenPrefix(buckets, keys, i);
      t, processed := ResolveLevel(p, t0, t, processed, Bucket(buckets, keys[i]), preview);
      i := i + 1;
    }
    assert keys[..i] == keys;
  }
}
