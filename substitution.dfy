/**
 * Writing the translations back into the page (class-translation-render.php,
 * lines 656-676, and maybe_correct_translatable_string, lines 804-812): every
 * candidate with a translation has the original string replaced inside the
 * node's current value, by literal substring replacement, so that the spacing
 * around the original survives.
 */
module Substitution {
  import opened Wrappers
  import opened Strings
  import opened Dom
  import opened RenderEnv

  /** `$node_accessors[$type]`: the accessor registered under a candidate type.
      PHP array keys are unique; the first entry with the key is the one read. */
  function AccessorFor(accessors: seq<(string, Accessor)>, kind: string): (r: Option<Accessor>)
    ensures r.None? <==> forall e :: e in accessors ==> e.0 != kind
    ensures r.Some? ==> (kind, r.value) in accessors
    decreases |accessors|
  {
    if accessors == [] then None
    else if accessors[0].0 == kind then Some(accessors[0].1)
    else
      var r := AccessorFor(accessors[1..], kind);
      assert forall e :: e in accessors ==> e == accessors[0] || e in accessors[1..];
      r
  }

  /** maybe_correct_translatable_string: the original if it occurs in the node's
      value, else its HTML-entity encoding if that occurs, else the whole value. */
  function MaybeCorrect(lib: Lib, original: string, value: string): (r: string)
    ensures Contains(value, r)
    ensures Contains(value, original) ==> r == original
    ensures !Contains(value, original) && Contains(value, lib.htmlEntities(original)) ==> r == lib.htmlEntities(original)
    ensures r == original || r == lib.htmlEntities(original) || r == value
  {
    ContainsSelf(value);
    if Contains(value, original) then original
    else if Contains(value, lib.htmlEntities(original)) then lib.htmlEntities(original)
    else value
  }

  /** The node value after the substitution of one translation. */
  function Substituted(lib: Lib, original: string, value: string, translation: string): string {
    ReplaceAll(value, MaybeCorrect(lib, original, value), translation)
  }

  /** A trimmed original found between blank padding is replaced and the padding
      kept: the reason the code replaces a substring instead of assigning. */
  lemma SubstitutionKeepsSpacing(lib: Lib, pre: string, original: string, post: string, translation: string)
    requires original != [] && !IsTrimChar(original[0])
    requires AllTrimChars(pre) && AllTrimChars(post)
    ensures Substituted(lib, original, pre + original + post, translation) == pre + translation + post
  {
    ContainsInfix(pre, original, post);
    ReplaceKeepsPadding(pre, original, post, translation);
  }

  /** When neither the original nor its entity encoding occurs, the whole non-empty
      value is replaced by the translation. */
  lemma SubstitutionFallsBackToWhole(lib: Lib, original: string, value: string, translation: string)
    requires value != []
    requires !Contains(value, original) && !Contains(value, lib.htmlEntities(original))
    ensures Substituted(lib, original, value, translation) == translation
  {
    ReplaceWhole(value, translation);
  }

  /** What one pass of the substitution loop works from: the extracted strings and
      candidates (after the trp_translateable_strings filter), the translations
      by index, the accessor table, preview mode, and whether the current
      language is the default one. */
  datatype Pass = Pass(strings: seq<string>, nodes: seq<Candidate>, translated: map<nat, string>,
                       accessors: seq<(string, Accessor)>, preview: bool, onDefault: bool)

  /** `$translateable_strings[$i]`; an index past the end reads as null, i.e. "". */
  function StringAt(ps: Pass, i: nat): string {
    if i < |ps.strings| then ps.strings[i] else ""
  }

  /** The loop body for candidate i (the preview annotations are not modelled). */
  function Step(p: Parser, lib: Lib, ps: Pass, t: Tree, i: nat): Tree
    requires i < |ps.nodes|
  {
    var c := ps.nodes[i];
    var acc := AccessorFor(ps.accessors, c.kind);
    if acc.None? || i !in ps.translated || (ps.preview && ps.onDefault) then t
    else if acc.value.attribute then
      var value := Attr(t, c.node, acc.value.accessor);
      SetAttr(t, c.node, acc.value.accessor,
              Substituted(lib, StringAt(ps, i), value, lib.escAttr(ps.translated[i])))
    else
      var value := View(p, t, c.node, acc.value.accessor);
      SetView(t, c.node, acc.value.accessor, Substituted(lib, StringAt(ps, i), value, ps.translated[i]))
  }

  /** The page after the first n candidates were processed. */
  function Substitute(p: Parser, lib: Lib, ps: Pass, t0: Tree, n: nat): Tree
    requires n <= |ps.nodes|
  {
    if n == 0 then t0 else Step(p, lib, ps, Substitute(p, lib, ps, t0, n - 1), n - 1)
  }

  /** One step writes only its candidate's node. */
  lemma StepFrame(p: Parser, lib: Lib, ps: Pass, t: Tree, i: nat, j: NodeId)
    requires i < |ps.nodes| && j in t.nodes && j != ps.nodes[i].node
    ensures j in Step(p, lib, ps, t, i).nodes && Step(p, lib, ps, t, i).nodes[j] == t.nodes[j]
  {
  }

  lemma StepShape(p: Parser, lib: Lib, ps: Pass, t: Tree, i: nat)
    requires i < |ps.nodes|
    ensures SameShape(t, Step(p, lib, ps, t, i))
  {
  }

  /** Substitution never restructures the page: only attributes and overrides change. */
  lemma {:induction false} SubstituteShape(p: Parser, lib: Lib, ps: Pass, t0: Tree, n: nat)
    requires n <= |ps.nodes|
    ensures SameShape(t0, Substitute(p, lib, ps, t0, n))
  {
    if n > 0 {
      var prev := Substitute(p, lib, ps, t0, n - 1);
      SubstituteShape(p, lib, ps, t0, n - 1);
      StepShape(p, lib, ps, prev, n - 1);
      SameShapeTrans(t0, prev, Step(p, lib, ps, prev, n - 1));
    }
  }

  /** Nodes that are no candidate's node are left as they were. */
  lemma {:induction false} SubstituteFrame(p: Parser, lib: Lib, ps: Pass, t0: Tree, n: nat, j: NodeId)
    requires n <= |ps.nodes| && j in t0.nodes
    requires forall k :: 0 <= k < n ==> ps.nodes[k].node != j
    ensures j in Substitute(p, lib, ps, t0, n).nodes && Substitute(p, lib, ps, t0, n).nodes[j] == t0.nodes[j]
  {
    if n > 0 {
      var prev := Substitute(p, lib, ps, t0, n - 1);
      SubstituteFrame(p, lib, ps, t0, n - 1, j);
      StepFrame(p, lib, ps, prev, n - 1, j);
    }
  }

  /** Preview in the default language annotates only: nothing is substituted. */
  lemma {:induction false} PreviewOnDefaultSubstitutesNothing(p: Parser, lib: Lib, ps: Pass, t0: Tree, n: nat)
    requires n <= |ps.nodes|
    requires ps.preview && ps.onDefault
    ensures Substitute(p, lib, ps, t0, n) == t0
  {
    if n > 0 {
      PreviewOnDefaultSubstitutesNothing(p, lib, ps, t0, n - 1);
    }
  }

  /** Without translations the page is left as it was. */
  lemma {:induction false} NoTranslationsNoChange(p: Parser, lib: Lib, ps: Pass, t0: Tree, n: nat)
    requires n <= |ps.nodes|
    requires ps.translated == map[]
    ensures Substitute(p, lib, ps, t0, n) == t0
  {
    if n > 0 {
      NoTranslationsNoChange(p, lib, ps, t0, n - 1);
    }
  }

  /** An attribute candidate whose original sits between blank padding gets the
      escaped translation in its place and keeps the padding. */
  lemma AttributeStepKeepsSpacing(p: Parser, lib: Lib, ps: Pass, t: Tree, i: nat, pre: string, post: string)
    requires i < |ps.nodes| && i in ps.translated && !(ps.preview && ps.onDefault)
    requires AccessorFor(ps.accessors, ps.nodes[i].kind).Some?
    requires AccessorFor(ps.accessors, ps.nodes[i].kind).value.attribute
    requires ps.nodes[i].node in t.nodes
    requires StringAt(ps, i) != [] && !IsTrimChar(StringAt(ps, i)[0])
    requires AllTrimChars(pre) && AllTrimChars(post)
    requires Attr(t, ps.nodes[i].node, AccessorFor(ps.accessors, ps.nodes[i].kind).value.accessor) ==
             pre + StringAt(ps, i) + post
    ensures var name := AccessorFor(ps.accessors, ps.nodes[i].kind).value.accessor;
            Attr(Step(p, lib, ps, t, i), ps.nodes[i].node, name) == pre + lib.escAttr(ps.translated[i]) + post
  {
    SubstitutionKeepsSpacing(lib, pre, StringAt(ps, i), post, lib.escAttr(ps.translated[i]));
  }

  /** A view candidate (innertext, outertext or a named property) whose original
      sits between blank padding gets the translation in its place. */
  lemma ViewStepKeepsSpacing(p: Parser, lib: Lib, ps: Pass, t: Tree, i: nat, pre: string, post: string)
    requires i < |ps.nodes| && i in ps.translated && !(ps.preview && ps.onDefault)
    requires AccessorFor(ps.accessors, ps.nodes[i].kind).Some?
    requires !AccessorFor(ps.accessors, ps.nodes[i].kind).value.attribute
    requires ps.nodes[i].node in t.nodes
    requires StringAt(ps, i) != [] && !IsTrimChar(StringAt(ps, i)[0])
    requires AllTrimChars(pre) && AllTrimChars(post)
    requires View(p, t, ps.nodes[i].node, AccessorFor(ps.accessors, ps.nodes[i].kind).value.accessor) ==
             pre + StringAt(ps, i) + post
    ensures var name := AccessorFor(ps.accessors, ps.nodes[i].kind).value.accessor;
            View(p, Step(p, lib, ps, t, i), ps.nodes[i].node, name) == pre + ps.translated[i] + post
  {
    var name := AccessorFor(ps.accessors, ps.nodes[i].kind).value.accessor;
    SubstitutionKeepsSpacing(lib, pre, StringAt(ps, i), post, ps.translated[i]);
    ViewAfterSetView(p, t, ps.nodes[i].node, name, pre + ps.translated[i] + post);
  }

  /** The loop body for one candidate, statement by statement. */
  method SubstituteOne(p: Parser, lib: Lib, ps: Pass, t0: Tree, i: nat) returns (t: Tree)
    requires i < |ps.nodes|
    ensures t == Step(p, lib, ps, t0, i)
  {
    t := t0;
    var acc := AccessorFor(ps.accessors, ps.nodes[i].kind);
    var available := i in ps.translated;
    if !((available || ps.preview) && acc.Some?) {
      return;
    }
    if available && !(ps.preview && ps.onDefault) {
      var node := ps.nodes[i].node;
      var name := acc.value.accessor;
      var original := if i < |ps.strings| then ps.strings[i] else "";
      if acc.value.attribute {
        var current := Attr(t, node, name);
        original := MaybeCorrect(lib, original, current);
        t := SetAttr(t, node, name, ReplaceAll(current, original, lib.escAttr(ps.translated[i])));
      } else {
        var current := View(p, t, node, name);
        original := MaybeCorrect(lib, original, current);
        t := SetView(t, node, name, ReplaceAll(current, original, ps.translated[i]));
      }
    }
  }

  /** The substitution loop over `$nodes` (lines 656-676). */
  method SubstituteAll(p: Parser, lib: Lib, ps: Pass, t0: Tree) returns (t: Tree)
    ensures t == Substitute(p, lib, ps, t0, |ps.nodes|)
  {
    t := t0;
    var i := 0;
    while i < |ps.nodes|
      invariant 0 <= i <= |ps.nodes|
      invariant t == Substitute(p, lib, ps, t0, i)
    {
      t := SubstituteOne(p, lib, ps, t, i);
      i := i + 1;
    }
  }
}
