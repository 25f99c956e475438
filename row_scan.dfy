/**
 * The single pass of translate_page over every node (lines 440-476): marker
 * nodes (those carrying data-trpgettextoriginal) are bucketed by their number
 * of children, the other element nodes are kept for the attribute-marker pass,
 * and, when normal strings are translated and some block occurs in the page,
 * each non-marker node is matched against the blocks.
 */
module RowScan {
  import opened Wrappers
  import opened Dom
  import opened RenderEnv
  import opened BlockMatcher

  predicate IsMarker(t: Tree, id: NodeId) {
    HasAttr(t, id, MarkerAttribute)
  }

  /** Neither the root nor a text node. */
  predicate IsElement(t: Tree, id: NodeId) {
    id in t.nodes && t.nodes[id].nodeType == Element
  }

  /** What block matching needs: whether it runs at all (normal strings are
      translated and at least one block survived the pre-filter), the blocks,
      the merge rules' top parents and the preview flag. */
  datatype BlockContext = BlockContext(active: bool, blocks: seq<Block>, topParents: seq<string>, preview: bool)

  type Buckets = map<nat, seq<NodeId>>

  /** One node of the pass, as far as the tree is concerned. */
  function ScanStep(p: Parser, lib: Lib, t: Tree, id: NodeId, ctx: BlockContext): (r: Tree)
    ensures SameShape(t, r)
    ensures forall j :: j in t.nodes && j != id ==> r.nodes[j] == t.nodes[j]
  {
    if IsMarker(t, id) || !ctx.active then t
    else
      var b := FindTranslationBlock(p, lib, t, id, ctx.blocks, ctx.topParents);
      if b.Some? then ApplyBlock(p, lib, t, id, b.value, ctx.topParents, ctx.preview) else t
  }

  /** The tree after the pass over `ids`; it never gains or loses a marker. */
  function ScanFold(p: Parser, lib: Lib, t: Tree, ids: seq<NodeId>, ctx: BlockContext): (r: Tree)
    ensures SameShape(t, r)
    ensures forall j :: IsMarker(r, j) == IsMarker(t, j)
    decreases |ids|
  {
    if ids == [] then t
    else
      var prev := ScanFold(p, lib, t, ids[..|ids| - 1], ctx);
      var id := ids[|ids| - 1];
      ScanStepKeepsMarkers(p, lib, prev, id, ctx);
      ScanStep(p, lib, prev, id, ctx)
  }

  /** Block matching only writes innertext, class and the block-id attributes,
      none of which is the marker attribute. */
  lemma StepKeepsMarkerAttribute(p: Parser, lib: Lib, t: Tree, id: NodeId, ctx: BlockContext)
    requires id in t.nodes && !IsMarker(t, id) && ctx.active
    ensures !IsMarker(ScanStep(p, lib, t, id, ctx), id)
  {
    var b := FindTranslationBlock(p, lib, t, id, ctx.blocks, ctx.topParents);
    if b.Some? {
      var existing := Attr(t, id, "class");
      assert "class" != MarkerAttribute;
      assert "data-trp-translate-id" != MarkerAttribute;
      assert "data-trp-translate-id-deprecated" != MarkerAttribute;
    }
  }

  lemma ScanStepKeepsMarkers(p: Parser, lib: Lib, t: Tree, id: NodeId, ctx: BlockContext)
    ensures forall j :: IsMarker(ScanStep(p, lib, t, id, ctx), j) == IsMarker(t, j)
  {
    var r := ScanStep(p, lib, t, id, ctx);
    if id in t.nodes && !IsMarker(t, id) && ctx.active {
      StepKeepsMarkerAttribute(p, lib, t, id, ctx);
    }
    assert IsMarker(r, id) == IsMarker(t, id);
  }

  function Bucket(b: Buckets, n: nat): seq<NodeId> {
    if n in b then b[n] else []
  }

  /** $trp_rows: each marker of `ids`, in order, appended to the bucket of its child count. */
  function BucketsOf(t: Tree, ids: seq<NodeId>): Buckets
    decreases |ids|
  {
    if ids == [] then map[]
    else
      var b := BucketsOf(t, ids[..|ids| - 1]);
      var id := ids[|ids| - 1];
      if IsMarker(t, id) then
        var n := |Children(t, id)|;
        b[n := Bucket(b, n) + [id]]
      else b
  }

  /** Every bucket holds markers of `ids` with that many children. */
  lemma {:induction false} BucketsOfSound(t: Tree, ids: seq<NodeId>, n: nat, x: NodeId)
    requires n in BucketsOf(t, ids) && x in BucketsOf(t, ids)[n]
    ensures x in ids && IsMarker(t, x) && |Children(t, x)| == n
    decreases |ids|
  {
    var prefix := ids[..|ids| - 1];
    var id := ids[|ids| - 1];
    assert ids == prefix + [id];
    var b0 := BucketsOf(t, prefix);
    var m := |Children(t, id)|;
    if IsMarker(t, id) && n == m {
      assert BucketsOf(t, ids)[n] == Bucket(b0, m) + [id];
      if x != id {
        assert m in b0 && x in b0[m];
        BucketsOfSound(t, prefix, n, x);
      }
    } else {
      assert n in b0 && BucketsOf(t, ids)[n] == b0[n];
      BucketsOfSound(t, prefix, n, x);
    }
  }

  /** Every marker of `ids` is in the bucket of its child count. */
  lemma {:induction false} BucketsOfComplete(t: Tree, ids: seq<NodeId>, x: NodeId)
    requires x in ids && IsMarker(t, x)
    ensures x in Bucket(BucketsOf(t, ids), |Children(t, x)|)
    decreases |ids|
  {
    var prefix := ids[..|ids| - 1];
    var id := ids[|ids| - 1];
    assert ids == prefix + [id];
    var b0 := BucketsOf(t, prefix);
    var m := |Children(t, id)|;
    if x != id {
      BucketsOfComplete(t, prefix, x);
      assert x in Bucket(b0, |Children(t, x)|);
      if IsMarker(t, id) {
        assert BucketsOf(t, ids) == b0[m := Bucket(b0, m) + [id]];
      }
    }
  }

  /** $trp_attr_rows: the element nodes that are not markers, in document order. */
  function AttrRowsOf(t: Tree, ids: seq<NodeId>): seq<NodeId>
    decreases |ids|
  {
    if ids == [] then []
    else
      var id := ids[|ids| - 1];
      AttrRowsOf(t, ids[..|ids| - 1]) + if !IsMarker(t, id) && IsElement(t, id) then [id] else []
  }

  /** The attribute rows are exactly the non-marker elements of `ids`. */
  lemma {:induction false} AttrRowsOfExact(t: Tree, ids: seq<NodeId>)
    ensures forall x :: x in AttrRowsOf(t, ids) <==> x in ids && !IsMarker(t, x) && IsElement(t, x)
    decreases |ids|
  {
    if ids != [] {
      var prefix := ids[..|ids| - 1];
      assert ids == prefix + [ids[|ids| - 1]];
      AttrRowsOfExact(t, prefix);
    }
  }

  /** The three folds of the pass, one row further. */
  lemma ScanPrefix(p: Parser, lib: Lib, t0: Tree, rows: seq<NodeId>, k: nat, ctx: BlockContext)
    requires k < |rows|
    ensures ScanFold(p, lib, t0, rows[..k + 1], ctx) == ScanStep(p, lib, ScanFold(p, lib, t0, rows[..k], ctx), rows[k], ctx)
    ensures var b := BucketsOf(t0, rows[..k]);
            var n := |Children(t0, rows[k])|;
            BucketsOf(t0, rows[..k + 1]) == if IsMarker(t0, rows[k]) then b[n := Bucket(b, n) + [rows[k]]] else b
    ensures AttrRowsOf(t0, rows[..k + 1]) ==
            AttrRowsOf(t0, rows[..k]) + if !IsMarker(t0, rows[k]) && IsElement(t0, rows[k]) then [rows[k]] else []
  {
    assert rows[..k + 1][..k] == rows[..k];
  }

  /** What the pass tests about a row is the same before and after matching. */
  lemma ScanKeepsRow(p: Parser, lib: Lib, t0: Tree, ids: seq<NodeId>, ctx: BlockContext, row: NodeId)
    ensures var t := ScanFold(p, lib, t0, ids, ctx);
            && (IsMarker(t, row) <==> IsMarker(t0, row))
            && Children(t, row) == Children(t0, row)
            && ((row in t.nodes && t.nodes[row].nodeType != Root && t.nodes[row].nodeType != Text) <==> IsElement(t0, row))
  {
  }

  /** Block matching for one non-marker row (lines 449-473). */
  method MatchRow(p: Parser, lib: Lib, t0: Tree, row: NodeId, ctx: BlockContext) returns (t: Tree)
    requires !IsMarker(t0, row)
    ensures t == ScanStep(p, lib, t0, row, ctx)
  {
    t := t0;
    if ctx.active {
      var block := FindTranslationBlock(p, lib, t, row, ctx.blocks, ctx.topParents);
      if block.Some? {
        var existingClasses := Attr(t, row, "class");
        if block.value.blockType == 1 {
          var foundInner := FindInnerBlock(p, lib, t, row, block.value, ctx.topParents);
          if !foundInner {
            t := SetInner(t, row, block.value.original);
            t := SetAttr(t, row, "class", existingClasses + " translation-block");
          }
        } else if ctx.preview && block.value.blockType == 2 && block.value.status != 0 {
          t := SetAttr(t, row, "data-trp-translate-id", block.value.id);
          t := SetAttr(t, row, "data-trp-translate-id-deprecated", block.value.id);
          t := SetAttr(t, row, "class", existingClasses + "trp-deprecated-tb");
        }
      }
    }
  }

  /** The body of the pass for one row. */
  method ScanRow(p: Parser, lib: Lib, t0: Tree, t: Tree, buckets: Buckets, attrRows: seq<NodeId>, row: NodeId,
                 ctx: BlockContext)
    returns (t': Tree, buckets': Buckets, attrRows': seq<NodeId>)
    requires IsMarker(t, row) <==> IsMarker(t0, row)
    requires Children(t, row) == Children(t0, row)
    requires (row in t.nodes && t.nodes[row].nodeType != Root && t.nodes[row].nodeType != Text) <==> IsElement(t0, row)
    ensures t' == ScanStep(p, lib, t, row, ctx)
    ensures var n := |Children(t0, row)|;
            buckets' == if IsMarker(t0, row) then buckets[n := Bucket(buckets, n) + [row]] else buckets
    ensures attrRows' == attrRows + if !IsMarker(t0, row) && IsElement(t0, row) then [row] else []
  {
    t', buckets', attrRows' := t, buckets, attrRows;
    if HasAttr(t, row, MarkerAttribute) {
      var n := |Children(t, row)|;
      buckets' := buckets[n := Bucket(buckets, n) + [row]];
    } else {
      if row in t.nodes && t.nodes[row].nodeType != Root && t.nodes[row].nodeType != Text {
        attrRows' := attrRows + [row];
      }
      t' := MatchRow(p, lib, t, row, ctx);
    }
  }

  /** The pass itself. */
  method ScanRows(p: Parser, lib: Lib, t0: Tree, ctx: BlockContext)
    returns (t: Tree, buckets: Buckets, attrRows: seq<NodeId>)
    ensures t == ScanFold(p, lib, t0, t0.order, ctx)
    ensures buckets == BucketsOf(t0, t0.order)
    ensures attrRows == AttrRowsOf(t0, t0.order)
  {
    var rows := t0.order;
    t := t0;
    buckets := map[];
    attrRows := [];
    var k := 0;
    while k < |rows|
      invariant 0 <= k <= |rows|
      invariant t == ScanFold(p, lib, t0, rows[..k], ctx)
      invariant buckets == BucketsOf(t0, rows[..k])
      invariant attrRows == AttrRowsOf(t0, rows[..k])
    {
      var row := rows[k];
      ScanPrefix(p, lib, t0, rows, k, ctx);
      ScanKeepsRow(p, lib, t0, rows[..k], ctx, row);
      t, buckets, attrRows := ScanRow(p, lib, t0, t, buckets, attrRows, row, ctx);
      k := k + 1;
    }
    assert rows[..k] == rows;
  }

  predicate StrictlyAscending(keys: seq<nat>) {
    forall i, j :: 0 <= i < j < |keys| ==> keys[i] < keys[j]
  }

  /** ksort: the bucket keys in ascending order. */
  method SortedKeys(b: Buckets) returns (keys: seq<nat>)
    ensures forall n :: n in keys <==> n in b
    ensures StrictlyAscending(keys)
  {
    var rest := b.Keys;
    keys := [];
    while rest != {}
      invariant forall n :: n in keys ==> n in b && n !in rest
      invariant forall n :: n in b ==> n in keys || n in rest
      invariant rest <= b.Keys
      invariant StrictlyAscending(keys)
      invariant forall n :: n in rest && |keys| > 0 ==> keys[|keys| - 1] < n
      decreases |rest|
    {
      ghost var least := Least(rest);
      var m :| m in rest && forall n :: n in rest ==> m <= n;
      AppendAscendingKey(keys, m);
      keys := keys + [m];
      assert rest == (rest - {m}) + {m};
      rest := rest - {m};
    }
  }

  lemma AppendAscendingKey(keys: seq<nat>, m: nat)
    requires StrictlyAscending(keys) && (|keys| > 0 ==> keys[|keys| - 1] < m)
    ensures StrictlyAscending(keys + [m])
  {
    var r := keys + [m];
    forall i, j | 0 <= i < j < |r| ensures r[i] < r[j] {
      if j == |keys| && i < |keys| - 1 {
        assert keys[i] < keys[|keys| - 1];
      }
    }
  }

  lemma {:induction false} Least(s: set<nat>) returns (m: nat)
    requires s != {}
    ensures m in s && forall n :: n in s ==> m <= n
    decreases |s|
  {
    var x :| x in s;
    var rest := s - {x};
    if rest == {} {
      m := x;
      forall n | n in s ensures m <= n {
        assert n !in rest;
      }
    } else {
      var r := Least(rest);
      m := if x < r then x else r;
      forall n | n in s ensures m <= n {
        if n != x {
          assert n in rest;
        }
      }
    }
  }

  lemma HasLeast(s: set<nat>)
    requires s != {}
    ensures exists m :: m in s && forall n :: n in s ==> m <= n
  {
    var m := Least(s);
  }

  /** The keys of `s` in ascending order: the only order ksort can produce. */
  ghost function AscendingKeys(s: set<nat>): (r: seq<nat>)
    decreases |s|
  {
    if s == {} then []
    else
      HasLeast(s);
      var m :| m in s && forall n :: n in s ==> m <= n;
      var rest := s - {m};
      assert |rest| < |s| by {
        assert s == rest + {m};
      }
      [m] + AscendingKeys(rest)
  }

  lemma AscendingKeysHead(s: set<nat>)
    requires s != {}
    ensures var r := AscendingKeys(s);
            r != [] && r[0] in s && (forall n :: n in s ==> r[0] <= n) && r == [r[0]] + AscendingKeys(s - {r[0]})
  {
  }

  /** Dropping the first key of a strictly ascending sequence drops it from its elements. */
  lemma AscendingTail(keys: seq<nat>, s: set<nat>)
    requires keys != [] && StrictlyAscending(keys)
    requires forall n :: n in keys <==> n in s
    ensures StrictlyAscending(keys[1..])
    ensures forall n :: n in keys[1..] <==> n in s - {keys[0]}
    ensures forall n :: n in s ==> keys[0] <= n
  {
    var tail := keys[1..];
    forall i, j | 0 <= i < j < |tail| ensures tail[i] < tail[j] {
      assert keys[i + 1] < keys[j + 1];
    }
    forall n | n in s ensures keys[0] <= n && (n in tail <==> n != keys[0]) {
      var i :| 0 <= i < |keys| && keys[i] == n;
      if i > 0 {
        assert keys[0] < keys[i];
        assert tail[i - 1] == n;
      }
      if n in tail {
        var i' :| 0 <= i' < |tail| && tail[i'] == n;
        assert keys[0] < keys[i' + 1];
      }
    }
  }

  /** A strictly ascending sequence is determined by its elements, so whatever
      SortedKeys returns is AscendingKeys of the bucket numbers. */
  lemma {:induction false} AscendingKeysUnique(keys: seq<nat>, s: set<nat>)
    requires StrictlyAscending(keys)
    requires forall n :: n in keys <==> n in s
    ensures keys == AscendingKeys(s)
    decreases |keys|
  {
    if keys == [] {
      assert s == {};
    } else {
      assert keys[0] in s;
      AscendingKeysHead(s);
      var m := AscendingKeys(s)[0];
      AscendingTail(keys, s);
      assert keys[0] == m;
      AscendingKeysUnique(keys[1..], s - {m});
      assert keys == [keys[0]] + keys[1..];
    }
  }

  /** The buckets' rows, bucket after bucket in the order of `keys`. */
  function Flatten(b: Buckets, keys: seq<nat>): (r: seq<NodeId>)
    ensures forall n, x :: n in keys && x in Bucket(b, n) ==> x in r
    ensures forall x :: x in r ==> exists n :: n in keys && x in Bucket(b, n)
    decreases |keys|
  {
    if keys == [] then []
    else
      var prefix := keys[..|keys| - 1];
      var last := keys[|keys| - 1];
      assert keys == prefix + [last];
      Flatten(b, prefix) + Bucket(b, last)
  }

  /** Every row of bucket n has n children. */
  predicate Levelled(t: Tree, b: Buckets) {
    forall n, x :: n in b && x in b[n] ==> |Children(t, x)| == n
  }

  predicate ChildCountsAscending(t: Tree, r: seq<NodeId>) {
    forall i, j :: 0 <= i < j < |r| ==> |Children(t, r[i])| <= |Children(t, r[j])|
  }

  /** Taking the buckets in ascending key order yields rows in non-decreasing
      order of child count: the simplest markers are resolved first. */
  lemma {:induction false} FlattenSorted(t: Tree, b: Buckets, keys: seq<nat>)
    requires Levelled(t, b) && StrictlyAscending(keys)
    ensures ChildCountsAscending(t, Flatten(b, keys))
    ensures |keys| > 0 ==> forall x :: x in Flatten(b, keys) ==> |Children(t, x)| <= keys[|keys| - 1]
    decreases |keys|
  {
    if keys != [] {
      var prefix := keys[..|keys| - 1];
      var last := keys[|keys| - 1];
      assert StrictlyAscending(prefix);
      FlattenSorted(t, b, prefix);
      var head := Flatten(b, prefix);
      assert forall x :: x in head ==> |Children(t, x)| <= last by {
        if prefix != [] {
          assert prefix[|prefix| - 1] < last;
        }
      }
      AppendLevel(t, head, Bucket(b, last), last);
    }
  }

  lemma AppendLevel(t: Tree, head: seq<NodeId>, tail: seq<NodeId>, level: nat)
    requires ChildCountsAscending(t, head)
    requires forall x :: x in head ==> |Children(t, x)| <= level
    requires forall x :: x in tail ==> |Children(t, x)| == level
    ensures ChildCountsAscending(t, head + tail)
    ensures forall x :: x in head + tail ==> |Children(t, x)| <= level
  {
    var r := head + tail;
    forall i, j | 0 <= i < j < |r| ensures |Children(t, r[i])| <= |Children(t, r[j])| {
      if j < |head| {
        assert r[i] == head[i] && r[j] == head[j];
      } else {
        assert r[j] in tail;
        if i < |head| {
          assert r[i] in head;
        } else {
          assert r[i] in tail;
        }
      }
    }
  }

  /** The rows processed bucket by bucket in ksort order are exactly the page's
      markers, in non-decreasing order of child count. */
  lemma ProcessingOrder(t: Tree, ids: seq<NodeId>, keys: seq<nat>)
    requires forall n :: n in keys <==> n in BucketsOf(t, ids)
    requires StrictlyAscending(keys)
    ensures ChildCountsAscending(t, Flatten(BucketsOf(t, ids), keys))
    ensures forall x :: x in Flatten(BucketsOf(t, ids), keys) <==> x in ids && IsMarker(t, x)
  {
    var b := BucketsOf(t, ids);
    assert Levelled(t, b) by {
      forall n, x | n in b && x in b[n] ensures |Children(t, x)| == n {
        BucketsOfSound(t, ids, n, x);
      }
    }
    FlattenSorted(t, b, keys);
    forall x | x in ids && IsMarker(t, x) ensures x in Flatten(b, keys) {
      BucketsOfComplete(t, ids, x);
      var n := |Children(t, x)|;
      assert n in b;
    }
    forall x | x in Flatten(b, keys) ensures x in ids && IsMarker(t, x) {
      var n :| n in keys && x in Bucket(b, n);
      BucketsOfSound(t, ids, n, x);
    }
  }
}
