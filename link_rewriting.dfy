/**
 * Rewriting of inline `{@link X}` references into `<see cref="X"/>`, as the
 * `ReplaceLinks` loops of both converters do it.  The current converter
 * removes every `#` from the reference and stops at a marker with no `}`
 * after it; the legacy converter keeps `#` and has no such guard (it throws
 * there, which `LegacyClosed` rules out).
 */
module LinkRewriting {
  import opened Text
  import opened DocHelper

  const LinkMarker: string := "{@link "

  /** The position of the first link marker, or -1. */
  function FirstMarker(s: string): (p: int)
    ensures p == -1 || OccursAt(s, LinkMarker, p)
  {
    IndexOf(s, LinkMarker, 0)
  }

  /** The position of the first `}` at or after `from`, or -1. */
  function ClosingBrace(s: string, from: nat): (q: int)
    ensures q == -1 || (from <= q < |s| && s[q] == '}')
    ensures forall k :: from <= k < |s| && (q == -1 || k < q) ==> s[k] != '}'
  {
    var q := IndexOf(s, "}", from);
    assert forall k :: from <= k < |s| && s[k] == '}' ==> OccursAt(s, "}", k) by {
      forall k | from <= k < |s| && s[k] == '}' ensures OccursAt(s, "}", k) {
        assert s[k..k + 1] == [s[k]];
      }
    }
    q
  }

  /** A `}` found from a marker lies after the whole marker. */
  lemma BraceAfterMarker(s: string, p: nat)
    requires OccursAt(s, LinkMarker, p)
    ensures ClosingBrace(s, p) == -1 || p + |LinkMarker| <= ClosingBrace(s, p)
  {
    forall k | p <= k < p + |LinkMarker| ensures s[k] != '}' {
      assert s[k] == s[p..p + |LinkMarker|][k - p];
    }
  }

  /** No rewriting is left to do: no marker, or no `}` after the first one. */
  predicate Resolved(s: string) {
    FirstMarker(s) == -1 || ClosingBrace(s, FirstMarker(s)) == -1
  }

  /** Replaces the span from the marker at `p` to the `}` at `q` by `<see cref="cref"/>`. */
  function Rewrite(s: string, p: nat, q: nat, cref: string): (r: string)
    requires p <= q < |s|
  {
    s[..p] + CreateTagWithVar("see", "cref", cref) + s[q + 1..]
  }

  /** The reference text between the marker at `p` and the `}` at `q`. */
  function LinkTarget(s: string, p: nat, q: nat): (target: string)
    requires p + |LinkMarker| <= q <= |s|
  {
    s[p + |LinkMarker|..q]
  }

  /**
   * One rewrite of the first link removes exactly the `}` that closed it and
   * adds none, provided the reference put in its place has none.
   */
  lemma {:induction false} RewriteDropsOneBrace(s: string, p: nat, cref: string)
    requires OccursAt(s, LinkMarker, p) && ClosingBrace(s, p) != -1
    requires '}' !in cref
    ensures p + |LinkMarker| <= ClosingBrace(s, p)
    ensures CountChar(Rewrite(s, p, ClosingBrace(s, p), cref), '}') + 1 == CountChar(s, '}')
  {
    var q := ClosingBrace(s, p);
    BraceAfterMarker(s, p);
    var tag := CreateTagWithVar("see", "cref", cref);
    TagWithVarLacks("see", "cref", cref, '}');
    assert '}' !in s[p..q];
    CountCharSplice(s, p, q, tag, '}');
    assert Rewrite(s, p, q, cref) == s[..p] + tag + s[q + 1..];
  }

  /**
   * The reference the current converter writes for a link: its text with
   * every `#` dropped and the other characters kept in order.
   */
  function StrippedTarget(s: string, p: nat, q: nat): (cref: string)
    requires p + |LinkMarker| <= q <= |s|
    requires forall k :: p <= k < q ==> s[k] != '}'
    ensures '#' !in cref && '}' !in cref
  {
    RemoveCharLeavesNone(LinkTarget(s, p, q), '#');
    RemoveCharKeepsOthers(LinkTarget(s, p, q), '#', '}');
    Replace(LinkTarget(s, p, q), "#", "")
  }

  /** The reference is the link text with every `#` dropped and the other characters kept in order. */
  lemma StrippedTargetIsWithout(s: string, p: nat, q: nat)
    requires p + |LinkMarker| <= q <= |s|
    requires forall k :: p <= k < q ==> s[k] != '}'
    ensures StrippedTarget(s, p, q) == Without(LinkTarget(s, p, q), '#')
  {
    RemoveCharIsWithout(LinkTarget(s, p, q), '#');
  }

  /**
   * What `DocConverter.ReplaceLinks` returns: the first link is rewritten
   * with `#` removed from its reference, again and again, until `Resolved`.
   */
  function ResolveLinks(s: string): (r: string)
    ensures Resolved(r)
    ensures FirstMarker(s) == -1 ==> r == s
    ensures s != "" ==> r != ""
    ensures CountChar(r, '}') <= CountChar(s, '}')
    decreases CountChar(s, '}')
  {
    var p := FirstMarker(s);
    if p == -1 then s
    else
      var q := ClosingBrace(s, p);
      if q == -1 then s
      else
        BraceAfterMarker(s, p);
        var cref := StrippedTarget(s, p, q);
        RewriteDropsOneBrace(s, p, cref);
        ResolveLinks(Rewrite(s, p, q, cref))
  }

  /** A resolved string is left as it is. */
  lemma ResolvedIsFixed(s: string)
    requires Resolved(s)
    ensures ResolveLinks(s) == s && LegacyResolveLinks(s) == s
  {
  }

  /** One step of the current rewriting: the first link goes, and with it one `}`. */
  lemma ResolveStep(s: string, p: int, q: int)
    requires p == FirstMarker(s) && p != -1 && q == ClosingBrace(s, p) && q != -1
    ensures p + |LinkMarker| <= q
    ensures var next := s[..p] + CreateTagWithVar("see", "cref", Replace(s[p + |LinkMarker|..q], "#", "")) + s[q + 1..];
      ResolveLinks(s) == ResolveLinks(next) && CountChar(next, '}') < CountChar(s, '}')
  {
    BraceAfterMarker(s, p);
    var cref := StrippedTarget(s, p, q);
    assert Rewrite(s, p, q, cref) == s[..p] + CreateTagWithVar("see", "cref", cref) + s[q + 1..];
    assert cref == Replace(s[p + |LinkMarker|..q], "#", "");
    RewriteDropsOneBrace(s, p, cref);
  }

  /** A second pass finds nothing left to rewrite. */
  lemma ResolveLinksIdempotent(s: string)
    ensures ResolveLinks(ResolveLinks(s)) == ResolveLinks(s)
  {
  }

  /**
   * What `Converter.ReplaceLinks` returns where it returns at all: the link
   * text is kept as it is, `#` included.  Where a marker has no `}` after it
   * the source throws; this function then stops, and `LegacyClosed` tells the
   * two cases apart.
   */
  function LegacyResolveLinks(s: string): (r: string)
    ensures FirstMarker(s) == -1 ==> r == s
    ensures s != "" ==> r != ""
    decreases CountChar(s, '}')
  {
    var p := FirstMarker(s);
    if p == -1 then s
    else
      var q := ClosingBrace(s, p);
      if q == -1 then s
      else
        BraceAfterMarker(s, p);
        RewriteDropsOneBrace(s, p, LinkTarget(s, p, q));
        LegacyResolveLinks(Rewrite(s, p, q, LinkTarget(s, p, q)))
  }

  /**
   * The legacy loop never meets a marker without a later `}`: every rewrite
   * it performs finds its closing brace.
   */
  predicate LegacyClosed(s: string)
    decreases CountChar(s, '}')
  {
    var p := FirstMarker(s);
    if p == -1 then true
    else
      var q := ClosingBrace(s, p);
      if q == -1 then false
      else
        BraceAfterMarker(s, p);
        RewriteDropsOneBrace(s, p, LinkTarget(s, p, q));
        LegacyClosed(Rewrite(s, p, q, LinkTarget(s, p, q)))
  }

  /** A closed string comes out of the legacy rewriting with no marker left. */
  lemma {:induction false} LegacyResolvesEveryMarker(s: string)
    requires LegacyClosed(s)
    ensures FirstMarker(LegacyResolveLinks(s)) == -1
    decreases CountChar(s, '}')
  {
    var p := FirstMarker(s);
    if p != -1 {
      var q := ClosingBrace(s, p);
      BraceAfterMarker(s, p);
      RewriteDropsOneBrace(s, p, LinkTarget(s, p, q));
      LegacyResolvesEveryMarker(Rewrite(s, p, q, LinkTarget(s, p, q)));
    }
  }

  /** Without any `#` the two rewritings agree, on every input. */
  lemma {:induction false} EnginesAgreeWithoutHash(s: string)
    requires '#' !in s
    ensures ResolveLinks(s) == LegacyResolveLinks(s)
    decreases CountChar(s, '}')
  {
    var p := FirstMarker(s);
    if p != -1 {
      var q := ClosingBrace(s, p);
      if q != -1 {
        BraceAfterMarker(s, p);
        var target := LinkTarget(s, p, q);
        assert '#' !in target;
        assert StrippedTarget(s, p, q) == target by { RemoveAbsentChar(target, '#'); }
        RewriteDropsOneBrace(s, p, target);
        var next := Rewrite(s, p, q, target);
        TagWithVarLacks("see", "cref", target, '#');
        assert '#' !in next;
        EnginesAgreeWithoutHash(next);
      }
    }
  }

  /** One step of the legacy rewriting on a closed string: the result is closed again and one `}` shorter. */
  lemma LegacyStep(s: string, p: int, q: int)
    requires LegacyClosed(s) && p == FirstMarker(s) && p != -1 && q == ClosingBrace(s, p)
    ensures q != -1 && p + |LinkMarker| <= q
    ensures var next := s[..p] + CreateTagWithVar("see", "cref", s[p + |LinkMarker|..q]) + s[q + 1..];
      LegacyClosed(next) && LegacyResolveLinks(s) == LegacyResolveLinks(next) && CountChar(next, '}') < CountChar(s, '}')
  {
    BraceAfterMarker(s, p);
    var cref := LinkTarget(s, p, q);
    assert Rewrite(s, p, q, cref) == s[..p] + CreateTagWithVar("see", "cref", cref) + s[q + 1..];
    RewriteDropsOneBrace(s, p, cref);
  }

  /**
   * `DocConverter.ReplaceLinks(input)`: rewrites the first link again and
   * again until no marker is left or the first one has no `}` after it.
   */
  method ReplaceLinks(input: string) returns (r: string)
    ensures r == ResolveLinks(input)
  {
    r := input;
    while true
      invariant ResolveLinks(r) == ResolveLinks(input)
      decreases CountChar(r, '}')
    {
      var startIndex := IndexOf(r, LinkMarker, 0);
      if startIndex == -1 {
        ResolvedIsFixed(r);
        break;
      }
      var endIndex := IndexOf(r, "}", startIndex);
      if endIndex == -1 {
        ResolvedIsFixed(r);
        break;
      }
      ResolveStep(r, startIndex, endIndex);
      var crefIndex := startIndex + |LinkMarker|;
      var before := r[..startIndex];
      var middle := Replace(r[crefIndex..endIndex], "#", "");
      var after := r[endIndex + 1..];
      r := before + CreateTagWithVar("see", "cref", middle) + after;
    }
  }

  /**
   * `Converter.ReplaceLinks(input)`: the same loop with neither the check
   * for a missing `}` nor the removal of `#`; on a closed input every
   * marker it meets has its `}`.
   */
  method LegacyReplaceLinks(input: string) returns (r: string)
    requires LegacyClosed(input)
    ensures r == LegacyResolveLinks(input)
  {
    r := input;
    while true
      invariant LegacyClosed(r) && LegacyResolveLinks(r) == LegacyResolveLinks(input)
      decreases CountChar(r, '}')
    {
      var startIndex := IndexOf(r, LinkMarker, 0);
      if startIndex == -1 {
        break;
      }
      var endIndex := IndexOf(r, "}", startIndex);
      LegacyStep(r, startIndex, endIndex);
      var crefIndex := startIndex + |LinkMarker|;
      var before := r[..startIndex];
      var middle := r[crefIndex..endIndex];
      var after := r[endIndex + 1..];
      r := before + CreateTagWithVar("see", "cref", middle) + after;
    }
  }
}
