/**
 * Translation blocks: a stored block is a whole element whose trimmed inner
 * text equals the block's trimmed original.  Matching is restricted to
 * elements with a "top parent" tag that have no top-parent child, and to the
 * blocks whose trimmed original occurs in the page at all.
 */
module BlockMatcher {
  import opened Wrappers
  import opened Strings
  import opened Dom
  import opened RenderEnv

  /** check_children_for_tags: true as soon as a direct child has one of the tags,
      and otherwise null (None), never false.  For a child that does not match,
      the function calls itself on that child and discards the result; the call
      has no effect, so only direct children decide. */
  function CheckChildrenForTags(t: Tree, id: NodeId, tags: seq<string>): (r: Option<bool>)
    ensures r != Some(false)
    ensures r == Some(true) <==> exists c :: c in Children(t, id) && Tag(t, c) in tags
  {
    if AnyChildTagged(t, Children(t, id), tags) then Some(true) else None
  }

  predicate AnyChildTagged(t: Tree, children: seq<NodeId>, tags: seq<string>)
    ensures AnyChildTagged(t, children, tags) <==> exists c :: c in children && Tag(t, c) in tags
    decreases |children|
  {
    if children == [] then false
    else Tag(t, children[0]) in tags || (assert children == [children[0]] + children[1..];
                                        AnyChildTagged(t, children[1..], tags))
  }

  /** The position of the first block, in list order, whose trimmed original is `text`. */
  function FirstMatch(blocks: seq<Block>, text: string): (r: Option<nat>)
    ensures r.Some? ==> r.value < |blocks| && blocks[r.value].trimmedOriginal == text &&
                        forall j :: 0 <= j < r.value ==> blocks[j].trimmedOriginal != text
    ensures r.None? <==> forall b :: b in blocks ==> b.trimmedOriginal != text
    decreases |blocks|
  {
    if blocks == [] then None
    else if blocks[0].trimmedOriginal == text then Some(0)
    else
      assert blocks == [blocks[0]] + blocks[1..];
      var r := FirstMatch(blocks[1..], text);
      if r.Some? then Some(r.value + 1) else None
  }

  /** find_translation_block */
  function FindTranslationBlock(p: Parser, lib: Lib, t: Tree, id: NodeId, blocks: seq<Block>,
                                topParents: seq<string>): (r: Option<Block>)
    ensures r.Some? ==> Tag(t, id) in topParents &&
                        (forall c :: c in Children(t, id) ==> Tag(t, c) !in topParents) &&
                        r.value in blocks && r.value.trimmedOriginal == lib.trimBlock(Inner(p, t, id))
    ensures r.Some? ==> exists i :: 0 <= i < |blocks| && blocks[i] == r.value &&
                                    forall j :: 0 <= j < i ==> blocks[j].trimmedOriginal != r.value.trimmedOriginal
    ensures (Tag(t, id) in topParents && (forall c :: c in Children(t, id) ==> Tag(t, c) !in topParents) &&
             exists b :: b in blocks && b.trimmedOriginal == lib.trimBlock(Inner(p, t, id))) ==> r.Some?
  {
    if Tag(t, id) in topParents then
      var skip := CheckChildrenForTags(t, id, topParents);
      if skip.None? then
        var m := FirstMatch(blocks, lib.trimBlock(Inner(p, t, id)));
        if m.Some? then Some(blocks[m.value]) else None
      else None
    else None
  }

  /** The trimmed-original pass over the loaded blocks, in closed form: the
      reference definition the trimming loop TrimBlocks is proved against. */
  function TrimAll(lib: Lib, blocks: seq<Block>): (r: seq<Block>)
    ensures |r| == |blocks|
    ensures forall i :: 0 <= i < |blocks| ==>
              r[i] == blocks[i].(trimmedOriginal := lib.trimBlock(blocks[i].original))
  {
    seq(|blocks|, i requires 0 <= i < |blocks| => blocks[i].(trimmedOriginal := lib.trimBlock(blocks[i].original)))
  }

  /** The blocks, in order, whose trimmed original occurs in the trimmed page text. */
  function KeepPresent(blocks: seq<Block>, page: string): (r: seq<Block>)
    ensures |r| <= |blocks|
    ensures forall b :: b in r <==> b in blocks && Contains(page, b.trimmedOriginal)
    decreases |blocks|
  {
    if blocks == [] then []
    else
      var last := blocks[|blocks| - 1];
      var rest := KeepPresent(blocks[..|blocks| - 1], page);
      assert blocks == blocks[..|blocks| - 1] + [last];
      if Contains(page, last.trimmedOriginal) then rest + [last] else rest
  }

  /** The text the pre-filter searches: the body's innertext, or the whole output
      when the page has no body. */
  function BodyText(p: Parser, t: Tree, output: string): string {
    var bodies := FindTag(t, "body");
    if bodies == [] then output else Inner(p, t, bodies[0])
  }

  /** The trimming loop (lines 407-409), over the array in place. */
  method TrimBlocks(lib: Lib, all: seq<Block>) returns (blocks: seq<Block>)
    ensures blocks == TrimAll(lib, all)
  {
    blocks := all;
    var k := 0;
    while k < |blocks|
      invariant 0 <= k <= |blocks| == |all|
      invariant blocks[..k] == TrimAll(lib, all)[..k] && blocks[k..] == all[k..]
    {
      blocks := blocks[k := blocks[k].(trimmedOriginal := lib.trimBlock(blocks[k].original))];
      k := k + 1;
    }
    assert blocks == blocks[..k];
  }

  lemma KeepPresentPrefix(blocks: seq<Block>, page: string, k: nat)
    requires k < |blocks|
    ensures KeepPresent(blocks[..k + 1], page) ==
            KeepPresent(blocks[..k], page) + (if Contains(page, blocks[k].trimmedOriginal) then [blocks[k]] else [])
  {
    assert blocks[..k + 1][..k] == blocks[..k];
  }

  /** The unset loop (lines 419-423): the blocks not in the page are dropped. */
  method DropAbsent(blocks: seq<Block>, trimmedBody: string) returns (present: seq<Block>)
    ensures present == KeepPresent(blocks, trimmedBody)
  {
    present := [];
    var k := 0;
    while k < |blocks|
      invariant 0 <= k <= |blocks|
      invariant present == KeepPresent(blocks[..k], trimmedBody)
    {
      KeepPresentPrefix(blocks, trimmedBody, k);
      if Contains(trimmedBody, blocks[k].trimmedOriginal) {
        present := present + [blocks[k]];
      }
      k := k + 1;
    }
    assert blocks[..k] == blocks;
  }

  /** Loading the blocks (translate_page, lines 405-424): trim every original, then
      drop the blocks whose trimmed original is not in the trimmed page. */
  method PrepareBlocks(lib: Lib, all: seq<Block>, pageText: string) returns (present: seq<Block>)
    ensures present == KeepPresent(TrimAll(lib, all), lib.trimBlock(pageText))
  {
    var blocks := TrimBlocks(lib, all);
    present := DropAbsent(blocks, lib.trimBlock(pageText));
  }

  /** Once a row has matched a block, no direct child can match it too: a
      matching child would carry a top-parent tag, and such a child makes
      check_children_for_tags skip the row itself. */
  lemma InnerBlockNeverFound(p: Parser, lib: Lib, t: Tree, id: NodeId, blocks: seq<Block>,
                             block: Block, topParents: seq<string>)
    requires FindTranslationBlock(p, lib, t, id, blocks, topParents) == Some(block)
    ensures !InnerBlockFound(p, lib, t, id, block, topParents)
  {
    forall c | c in Children(t, id)
      ensures FindTranslationBlock(p, lib, t, c, [block], topParents).None?
    {
      assert Tag(t, c) !in topParents;
    }
  }

  /** The loop over the row's children (lines 455-460): does a child match the same block?
      On a row that find_translation_block matched this never holds (see
      InnerBlockNeverFound): the child check is kept as the code has it. */
  predicate InnerBlockFound(p: Parser, lib: Lib, t: Tree, id: NodeId, block: Block, topParents: seq<string>) {
    exists c :: c in Children(t, id) && FindTranslationBlock(p, lib, t, c, [block], topParents).Some?
  }

  method FindInnerBlock(p: Parser, lib: Lib, t: Tree, id: NodeId, block: Block, topParents: seq<string>)
    returns (found: bool)
    ensures found == InnerBlockFound(p, lib, t, id, block, topParents)
  {
    found := false;
    var children := Children(t, id);
    var k := 0;
    while k < |children|
      invariant 0 <= k <= |children|
      invariant forall c :: c in children[..k] ==> FindTranslationBlock(p, lib, t, c, [block], topParents).None?
    {
      if FindTranslationBlock(p, lib, t, children[k], [block], topParents).Some? {
        found := true;
        break;
      }
      assert children[..k + 1] == children[..k] + [children[k]];
      k := k + 1;
    }
    assert !found ==> children[..k] == children;
  }

  /** What a matched block does to its row (lines 450-472): a type-1 block with no
      child matching it gets its stored original as innertext and the
      translation-block class; a type-2 block with a non-zero status only gets
      its id, and only in preview mode. */
  function ApplyBlock(p: Parser, lib: Lib, t: Tree, id: NodeId, block: Block,
                      topParents: seq<string>, preview: bool): (r: Tree)
    ensures SameShape(t, r)
    ensures forall j :: j in t.nodes && j != id ==> r.nodes[j] == t.nodes[j]
  {
    var existing := Attr(t, id, "class");
    if block.blockType == 1 then
      if InnerBlockFound(p, lib, t, id, block, topParents) then t
      else SetAttr(SetInner(t, id, block.original), id, "class", existing + " translation-block")
    else if preview && block.blockType == 2 && block.status != 0 then
      var t1 := SetAttr(t, id, "data-trp-translate-id", block.id);
      var t2 := SetAttr(t1, id, "data-trp-translate-id-deprecated", block.id);
      SetAttr(t2, id, "class", existing + "trp-deprecated-tb")
    else t
  }

  lemma {:induction false} SplitWordIsWhole(w: string)
    requires ' ' !in w
    ensures SplitOnSpace(w) == [w]
    decreases |w|
  {
    if w != [] {
      assert ' ' !in w[1..] by { assert forall c :: c in w[1..] ==> c in w; }
      SplitWordIsWhole(w[1..]);
      assert [w[0]] + w[1..] == w;
    }
  }

  /** Appending " w" to a class list makes w its last class. */
  lemma {:induction false} AppendedClassIsLast(s: string, w: string)
    requires ' ' !in w
    ensures var parts := SplitOnSpace(s + " " + w); |parts| >= 2 && parts[|parts| - 1] == w
    decreases |s|
  {
    if s == [] {
      assert s + " " + w == [' '] + w;
      assert ([' '] + w)[1..] == w;
      SplitWordIsWhole(w);
    } else {
      assert (s + " " + w)[1..] == s[1..] + " " + w;
      AppendedClassIsLast(s[1..], w);
    }
  }

  /** A type-1 block whose children do not match it: the row's innertext becomes the
      stored original and the row is found again by find('.translation-block'). */
  lemma TypeOneBlockApplied(p: Parser, lib: Lib, t: Tree, id: NodeId, block: Block,
                            topParents: seq<string>, preview: bool)
    requires id in t.nodes && block.blockType == 1 && !InnerBlockFound(p, lib, t, id, block, topParents)
    ensures var r := ApplyBlock(p, lib, t, id, block, topParents, preview);
            Inner(p, r, id) == block.original &&
            Attr(r, id, "class") == Attr(t, id, "class") + " translation-block" &&
            HasClass(r, id, "translation-block")
  {
    var r := ApplyBlock(p, lib, t, id, block, topParents, preview);
    assert Attr(r, id, "class") == Attr(t, id, "class") + " translation-block";
    TranslationBlockClass(Attr(t, id, "class"));
  }

  /** Appending " w" to a class list gives it the class w. */
  lemma ClassAppended(s: string, w: string)
    requires ' ' !in w
    ensures w in SplitOnSpace(s + " " + w)
  {
    AppendedClassIsLast(s, w);
    var parts := SplitOnSpace(s + " " + w);
    assert parts[|parts| - 1] in parts;
  }

  lemma TranslationBlockClass(s: string)
    ensures "translation-block" in SplitOnSpace(s + " translation-block")
  {
    assert s + " translation-block" == s + " " + "translation-block";
    ClassAppended(s, "translation-block");
  }

  /** Outside preview mode, a block of any type other than 1 leaves the page as it is. */
  lemma OtherBlocksInertOutsidePreview(p: Parser, lib: Lib, t: Tree, id: NodeId, block: Block,
                                       topParents: seq<string>)
    requires block.blockType != 1
    ensures ApplyBlock(p, lib, t, id, block, topParents, false) == t
  {
  }
}
