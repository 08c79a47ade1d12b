/**
  The string operations behind the PDF export script's regular-expression
  replacements. Each one stands for one `String.prototype.replace` call whose
  pattern is a literal anchored with `^` or `$` (no `m` flag, so the anchors
  match only at the very start or end of the input), or a single character
  replaced with the `g` flag.
 */
module Strings {

  /** `s` begins with `p`, as JavaScript's `startsWith` and a `^`-anchored literal test it. */
  predicate StartsWith(s: string, p: string) {
    |p| <= |s| && s[..|p|] == p
  }

  /** `s` ends with `p`, as a `$`-anchored literal tests it. */
  predicate EndsWith(s: string, p: string) {
    |p| <= |s| && s[|s| - |p|..] == p
  }

  /** A string ends with whatever it was extended by. */
  lemma EndsWithAppended(s: string, p: string)
    ensures EndsWith(s + p, p)
  {
    assert (s + p)[|s|..] == p;
  }

  /** Ending with `p` implies ending with every suffix of `p`. */
  lemma EndsWithSuffix(s: string, p: string, q: string)
    requires EndsWith(p, q)
    ensures EndsWith(s, p) ==> EndsWith(s, q)
  {
    if EndsWith(s, p) {
      assert s[|s| - |q|..] == s[|s| - |p|..][|p| - |q|..];
    }
  }

  /** Putting something in front of a string does not change how it ends. */
  lemma EndsWithPrepended(t: string, s: string, p: string)
    requires EndsWith(s, p)
    ensures EndsWith(t + s, p)
  {
    assert (t + s)[|t + s| - |p|..] == s[|s| - |p|..];
  }

  /** A suffix no longer than the tail of a string is a suffix of that tail. */
  lemma EndsWithDropped(t: string, s: string, p: string)
    requires EndsWith(t + s, p) && |p| <= |s|
    ensures EndsWith(s, p)
  {
    assert s[|s| - |p|..] == (t + s)[|t + s| - |p|..];
  }

  /** A character missing from a string is missing from its tail. */
  lemma NotInTail(s: string, c: char)
    requires c !in s && |s| > 0
    ensures c !in s[1..]
  {
    assert forall i :: 0 <= i < |s| - 1 ==> s[1..][i] == s[i + 1];
  }

  /** Two suffixes of one string agree on their common length. */
  lemma SuffixesAgree(s: string, p: string, q: string)
    requires EndsWith(s, p) && EndsWith(s, q) && |q| <= |p|
    ensures EndsWith(p, q)
  {
    assert p[|p| - |q|..] == s[|s| - |p|..][|p| - |q|..];
  }

  /** Extending both a string and its suffix by the same tail keeps the suffix. */
  lemma EndsWithExtended(s: string, p: string, t: string)
    requires EndsWith(s, p)
    ensures EndsWith(s + t, p + t)
  {
    assert (s + t)[|s + t| - |p + t|..] == s[|s| - |p|..] + t;
  }

  /** A common tail can be taken off both a string and its suffix. */
  lemma EndsWithTrimmed(s: string, p: string, t: string)
    requires EndsWith(s + t, p + t)
    ensures EndsWith(s, p)
  {
    assert s[|s| - |p|..] == (s + t)[|s + t| - |p + t|..][..|p|];
  }

  /** A string ending in `p + q` is its part before `q`, which ends in `p`, followed by `q`. */
  lemma SplitSuffix(s: string, p: string, q: string)
    requires EndsWith(s, p + q)
    ensures s == s[..|s| - |q|] + q
    ensures EndsWith(s[..|s| - |q|], p)
  {
    var t := s[..|s| - |q|];
    assert t[|t| - |p|..] == s[|s| - |p + q|..][..|p|];
    assert s[|s| - |q|..] == s[|s| - |p + q|..][|p|..];
  }

  /** Dropping one copy of a doubled suffix leaves a string ending in one copy. */
  lemma DropDoubledSuffix(s: string, p: string)
    requires EndsWith(s, p + p)
    ensures EndsWith(s, p)
    ensures EndsWith(s[..|s| - |p|], p)
  {
    EndsWithAppended(p, p);
    EndsWithSuffix(s, p + p, p);
    var t := s[..|s| - |p|];
    assert t[|t| - |p|..] == s[|s| - |p + p|..][..|p|];
  }

  /** `s.replace(/^p/, "")`: drops `p` once, and only at the very start of `s`. */
  function StripPrefix(s: string, p: string): (r: string)
    ensures StartsWith(s, p) ==> p + r == s
    ensures !StartsWith(s, p) ==> r == s
  {
    if StartsWith(s, p) then s[|p|..] else s
  }

  /**
    `s.replace(/from/g, to)` for a single character: every `from` becomes `to`
    and every other character stays in its place (see `ReplaceAllAt`).
   */
  function ReplaceAll(s: string, from: char, to: char): (r: string)
    ensures |r| == |s|
  {
    if s == [] then [] else [if s[0] == from then to else s[0]] + ReplaceAll(s[1..], from, to)
  }

  /** Position `i` of the result is `to` where `s` has `from`, and `s[i]` elsewhere. */
  lemma {:induction false} ReplaceAllAt(s: string, from: char, to: char, i: nat)
    requires i < |s|
    ensures ReplaceAll(s, from, to)[i] == if s[i] == from then to else s[i]
  {
    if i > 0 {
      ReplaceAllAt(s[1..], from, to, i - 1);
    }
  }

  /** After the replacement no `from` is left. */
  lemma ReplaceAllRemoves(s: string, from: char, to: char)
    requires from != to
    ensures from !in ReplaceAll(s, from, to)
  {
    var r := ReplaceAll(s, from, to);
    forall i | 0 <= i < |r|
      ensures r[i] != from
    {
      ReplaceAllAt(s, from, to, i);
    }
  }

  /** A string without `from` is left as it is. */
  lemma ReplaceAllAbsent(s: string, from: char, to: char)
    requires from !in s
    ensures ReplaceAll(s, from, to) == s
  {
    var r := ReplaceAll(s, from, to);
    forall i | 0 <= i < |s|
      ensures r[i] == s[i]
    {
      ReplaceAllAt(s, from, to, i);
    }
  }

  /** Replacing characters commutes with taking a prefix. */
  lemma ReplaceAllPrefix(s: string, k: nat, from: char, to: char)
    requires k <= |s|
    ensures ReplaceAll(s, from, to)[..k] == ReplaceAll(s[..k], from, to)
  {
    var r, q := ReplaceAll(s, from, to), ReplaceAll(s[..k], from, to);
    forall i | 0 <= i < k
      ensures r[..k][i] == q[i]
    {
      ReplaceAllAt(s, from, to, i);
      ReplaceAllAt(s[..k], from, to, i);
    }
  }

  /** On strings free of `to`, the replacement loses no information. */
  lemma ReplaceAllInjective(s: string, t: string, from: char, to: char)
    requires to !in s && to !in t
    requires ReplaceAll(s, from, to) == ReplaceAll(t, from, to)
    ensures s == t
  {
    forall i | 0 <= i < |s|
      ensures s[i] == t[i]
    {
      ReplaceAllAt(s, from, to, i);
      ReplaceAllAt(t, from, to, i);
      assert s[i] != to && t[i] != to;
    }
  }

  /**
    `s.replace(/suffix$/, repl)`: when `s` ends with `suffix`, that one
    occurrence becomes `repl`; otherwise `s` is returned unchanged.
   */
  function ReplaceSuffix(s: string, suffix: string, repl: string): (r: string)
    ensures !EndsWith(s, suffix) ==> r == s
    ensures EndsWith(s, suffix) ==> |r| == |s| - |suffix| + |repl|
  {
    if EndsWith(s, suffix) then s[..|s| - |suffix|] + repl else s
  }

  /** The replacement puts back what it took away: nothing else is lost. */
  lemma ReplaceSuffixInverse(s: string, suffix: string, repl: string)
    requires EndsWith(s, suffix)
    ensures EndsWith(ReplaceSuffix(s, suffix, repl), repl)
    ensures ReplaceSuffix(ReplaceSuffix(s, suffix, repl), repl, suffix) == s
  {
    var stem := s[..|s| - |suffix|];
    EndsWithAppended(stem, repl);
    assert (stem + repl)[..|stem|] == stem;
    assert stem + suffix == s;
  }

  /** Every character of the result comes from `s` or from `repl`. */
  lemma ReplaceSuffixChars(s: string, suffix: string, repl: string, c: char)
    requires c !in s && c !in repl
    ensures c !in ReplaceSuffix(s, suffix, repl)
  {
    if EndsWith(s, suffix) {
      assert forall i :: 0 <= i < |s| - |suffix| ==> s[..|s| - |suffix|][i] == s[i];
    }
  }
}
