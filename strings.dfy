/**
 * String helpers with PHP semantics: substring search (strpos), replacement
 * of every occurrence (str_replace with one search string) and the default
 * character set of trim/rtrim.  Strings are sequences of code points, as the
 * mb_* functions count them.
 */
module Strings {

  predicate StartsWith(s: string, prefix: string) {
    |prefix| <= |s| && s[..|prefix|] == prefix
  }

  /** strpos(s, sub) !== false; as in PHP 8, the empty string is found everywhere. */
  predicate Contains(s: string, sub: string)
    decreases |s|
  {
    StartsWith(s, sub) || (|s| > 0 && Contains(s[1..], sub))
  }

  /** str_replace(from, to, s): every non-overlapping occurrence, scanned left to right;
      an empty search string leaves the subject unchanged. */
  function ReplaceAll(s: string, from: string, to: string): string
    decreases |s|
  {
    if from == [] || |s| < |from| then s
    else if s[..|from|] == from then to + ReplaceAll(s[|from|..], from, to)
    else [s[0]] + ReplaceAll(s[1..], from, to)
  }

  /** The characters trim() and rtrim() remove by default: " \t\n\r\0\x0B". */
  predicate IsTrimChar(c: char) {
    c == ' ' || c == '\t' || c == '\n' || c == '\r' || c == '\0' || c == '\U{B}'
  }

  function RTrim(s: string): (r: string)
    ensures r <= s
    ensures r == [] || !IsTrimChar(r[|r| - 1])
  {
    if s == [] || !IsTrimChar(s[|s| - 1]) then s else RTrim(s[..|s| - 1])
  }

  /** rtrim removes trim characters only. */
  lemma {:induction false} RTrimRemovesBlanks(s: string)
    ensures forall k :: |RTrim(s)| <= k < |s| ==> IsTrimChar(s[k])
    decreases |s|
  {
    if s != [] && IsTrimChar(s[|s| - 1]) {
      RTrimRemovesBlanks(s[..|s| - 1]);
    }
  }

  function LTrim(s: string): (r: string)
    ensures |r| <= |s| && r == s[|s| - |r|..]
    ensures r == [] || !IsTrimChar(r[0])
  {
    if s == [] || !IsTrimChar(s[0]) then s else LTrim(s[1..])
  }

  /** ltrim removes trim characters only. */
  lemma {:induction false} LTrimRemovesBlanks(s: string)
    ensures forall k :: 0 <= k < |s| - |LTrim(s)| ==> IsTrimChar(s[k])
    decreases |s|
  {
    if s != [] && IsTrimChar(s[0]) {
      LTrimRemovesBlanks(s[1..]);
      assert forall k :: 1 <= k < |s| ==> s[k] == s[1..][k - 1];
    }
  }

  /** Neither end of the string is a trim character. */
  predicate IsTrimmed(s: string) {
    s == [] || (!IsTrimChar(s[0]) && !IsTrimChar(s[|s| - 1]))
  }

  function Trim(s: string): (r: string)
    ensures IsTrimmed(r)
    ensures IsTrimmed(s) ==> r == s
  {
    var right := RTrim(s);
    var r := LTrim(right);
    assert r != [] ==> r[|r| - 1] == right[|right| - 1];
    r
  }

  /** Every string contains itself. */
  lemma ContainsSelf(s: string)
    ensures Contains(s, s)
  {
    assert s[..|s|] == s;
  }

  /** A string placed between two others is found in the whole. */
  lemma {:induction false} ContainsInfix(pre: string, s: string, post: string)
    ensures Contains(pre + s + post, s)
    decreases |pre|
  {
    if pre == [] {
      assert (pre + s + post)[..|s|] == s;
    } else {
      ContainsInfix(pre[1..], s, post);
      assert (pre + s + post)[1..] == pre[1..] + s + post;
    }
  }

  lemma {:induction false} NotContainsTail(s: string, sub: string)
    requires |s| > 0 && !Contains(s, sub)
    ensures !Contains(s[1..], sub)
  {
  }

  /** Replacing a string that does not occur changes nothing. */
  lemma {:induction false} ReplaceAbsent(s: string, from: string, to: string)
    requires !Contains(s, from)
    ensures ReplaceAll(s, from, to) == s
    decreases |s|
  {
    if from == [] || |s| < |from| {
    } else {
      assert s[..|from|] != from;
      ReplaceAbsent(s[1..], from, to);
      assert [s[0]] + s[1..] == s;
    }
  }

  /** Replacing the whole value yields exactly the replacement. */
  lemma ReplaceWhole(v: string, to: string)
    requires v != []
    ensures ReplaceAll(v, v, to) == to
  {
    assert v[..|v|] == v;
    assert v[|v|..] == [];
  }

  predicate AllTrimChars(s: string) {
    forall k :: 0 <= k < |s| ==> IsTrimChar(s[k])
  }

  /** A trimmed string (non-blank at both ends) found between blank padding is
      replaced exactly once and the padding survives untouched. */
  lemma {:induction false} ReplaceKeepsPadding(pre: string, s: string, post: string, to: string)
    requires s != [] && !IsTrimChar(s[0])
    requires AllTrimChars(pre) && AllTrimChars(post)
    ensures ReplaceAll(pre + s + post, s, to) == pre + to + post
    decreases |pre|
  {
    if pre == [] {
      ReplaceKeepsTrailing(s, post, to);
      assert [] + s + post == s + post;
      assert [] + to + post == to + post;
    } else {
      var rest := pre[1..] + s + post;
      assert pre + s + post == [pre[0]] + rest;
      ReplaceSkipsBlank(pre[0], rest, s, to);
      ReplaceKeepsPadding(pre[1..], s, post, to);
      assert [pre[0]] + (pre[1..] + to + post) == pre + to + post;
    }
  }

  lemma ReplaceKeepsTrailing(s: string, post: string, to: string)
    requires s != [] && !IsTrimChar(s[0]) && AllTrimChars(post)
    ensures ReplaceAll(s + post, s, to) == to + post
  {
    ReplaceAtStart(s, post, to);
    PaddingHasNoOccurrence(post, s);
    ReplaceAbsent(post, s, to);
  }

  lemma ReplaceAtStart(s: string, post: string, to: string)
    requires s != []
    ensures ReplaceAll(s + post, s, to) == to + ReplaceAll(post, s, to)
  {
    var v := s + post;
    assert v[..|s|] == s;
    assert v[|s|..] == post;
  }

  lemma ReplaceSkipsBlank(c: char, rest: string, s: string, to: string)
    requires IsTrimChar(c) && s != [] && !IsTrimChar(s[0])
    ensures ReplaceAll([c] + rest, s, to) == [c] + ReplaceAll(rest, s, to)
  {
    var v := [c] + rest;
    if |v| >= |s| {
      assert v[..|s|][0] != s[0];
    }
    assert v[1..] == rest;
  }

  lemma {:induction false} PaddingHasNoOccurrence(pad: string, s: string)
    requires s != [] && !IsTrimChar(s[0]) && AllTrimChars(pad)
    ensures !Contains(pad, s)
    decreases |pad|
  {
    if |pad| > 0 {
      assert !StartsWith(pad, s) by {
        if |s| <= |pad| {
          assert pad[..|s|][0] != s[0];
        }
      }
      PaddingHasNoOccurrence(pad[1..], s);
    }
  }
}
