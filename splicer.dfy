/** `findAndReplaceAttrs`: every `attr(...)` occurrence in the cooked text of a
    template's segments is cut out and replaced by an interpolated accessor function.
    The new segments are the non-empty pieces of text around the occurrences; a
    segment without any occurrence is kept as it is. */
module Splicer {
  import opened Ast
  import opened AttrScanner
  import opened AccessorBuilder

  function Min(a: int, b: int): int
  {
    if a <= b then a else b
  }

  /** `s.slice(a, b)` for non-negative `a` and `b`: both ends are clamped to the
      length, and an empty string results when the end is before the start. */
  function Slice(s: string, a: nat, b: nat): (r: string)
    ensures a <= b <= |s| ==> r == s[a..b]
  {
    var lo := Min(a, |s|);
    var hi := Min(b, |s|);
    if lo <= hi then s[lo..hi] else ""
  }

  /** `s.slice(a)` */
  function SliceFrom(s: string, a: nat): (r: string)
    ensures a <= |s| ==> r == s[a..]
  {
    Slice(s, a, |s|)
  }

  /** The literal template element `{raw: text, cooked: text}`. */
  function Piece(text: string, tail: bool): TemplateElement
  {
    TemplateElement(text, text, tail)
  }

  /** `cursor` when the `j`-th match is handled: the end of the previous match. */
  function CursorBefore(ms: seq<Match>, j: nat): nat
    requires j <= |ms|
  {
    if j == 0 then 0 else End(ms[j - 1])
  }

  /** The two arrays the reduce over the segments accumulates: `accum[0]`, the new
      segments, and `accum[1]`, the new interpolations. */
  datatype Accum = Accum(quasis: seq<TemplateElement>, exprs: seq<Expr>)

  /** The `k`-th text around the matches `ms` of `str`: the text before match `k`,
      or the text after the final match when `k == |ms|`. */
  function Cut(str: string, ms: seq<Match>, k: nat): string
    requires k <= |ms|
  {
    if k < |ms| then Slice(str, CursorBefore(ms, k), ms[k].index)
    else SliceFrom(str, CursorBefore(ms, k))
  }

  /** `acc` after the segments pushed while handling the `j`-th match of `str`: the
      text since the previous match when it is not empty, and for the final match
      the text after it when that is not empty, marked as the tail when `last`. */
  function PushPieces(acc: seq<TemplateElement>, str: string, ms: seq<Match>, j: nat, last: bool): seq<TemplateElement>
    requires j < |ms|
  {
    var preAttr := Cut(str, ms, j);
    var withPre := if |preAttr| > 0 then acc + [Piece(preAttr, false)] else acc;
    if j == |ms| - 1 && |Cut(str, ms, |ms|)| > 0 then withPre + [Piece(Cut(str, ms, |ms|), last)] else withPre
  }

  /** `acc` after the segments pushed for the first `j` matches of `str`. */
  function PiecesOnto(acc: seq<TemplateElement>, str: string, ms: seq<Match>, j: nat, last: bool): seq<TemplateElement>
    requires j <= |ms|
  {
    if j == 0 then acc else PushPieces(PiecesOnto(acc, str, ms, j - 1, last), str, ms, j - 1, last)
  }

  /** `acc` after one accessor for each of the first `j` matches, `build` making the
      accessor of a match (it is `Accessor`). */
  function AccessorsOnto(acc: seq<Expr>, ms: seq<Match>, build: Match -> Expr, j: nat): seq<Expr>
    requires j <= |ms|
  {
    if j == 0 then acc else AccessorsOnto(acc, ms, build, j - 1) + [build(ms[j - 1])]
  }

  /** `acc` after `stubs[i]` is pushed, when there is one. */
  function PushStub(acc: seq<Expr>, t: Template, i: nat): seq<Expr>
  {
    if i < |t.exprs| then acc + [t.exprs[i]] else acc
  }

  /** The reduce callback for segment `i` of `t` with the matches `ms` of its cooked
      text: the pieces and accessors of the matches, then the segment's
      interpolation; a segment without matches is pushed itself, and its
      interpolation a second time. */
  function SegmentOnto(acc: Accum, t: Template, i: nat, ms: seq<Match>): Accum
    requires i < |t.quasis|
  {
    Accum(SegmentQuasis(acc.quasis, t, i, ms), SegmentStubs(acc.exprs, t, i, ms, Accessor))
  }

  /** The segments the callback for segment `i` pushes onto `acc`. */
  function SegmentQuasis(acc: seq<TemplateElement>, t: Template, i: nat, ms: seq<Match>): seq<TemplateElement>
    requires i < |t.quasis|
  {
    var quasis := PiecesOnto(acc, t.quasis[i].cooked, ms, |ms|, i == |t.quasis| - 1);
    if |ms| == 0 then quasis + [t.quasis[i]] else quasis
  }

  /** The interpolations the callback for segment `i` pushes onto `acc`, `build`
      making the accessor of a match. */
  function SegmentStubs(acc: seq<Expr>, t: Template, i: nat, ms: seq<Match>, build: Match -> Expr): seq<Expr>
    requires i < |t.quasis|
  {
    var exprs := PushStub(AccessorsOnto(acc, ms, build, |ms|), t, i);
    if |ms| == 0 then PushStub(exprs, t, i) else exprs
  }

  /** The accumulator after the first `n` segments of `t`, `scan` giving the matches
      of a segment's cooked text. */
  function Reduce(t: Template, scan: string -> seq<Match>, n: nat): Accum
    requires n <= |t.quasis|
  {
    Accum(ReducedQuasis(t, scan, n), ReducedExprs(t, scan, Accessor, n))
  }

  function ReducedQuasis(t: Template, scan: string -> seq<Match>, n: nat): seq<TemplateElement>
    requires n <= |t.quasis|
  {
    if n == 0 then []
    else SegmentQuasis(ReducedQuasis(t, scan, n - 1), t, n - 1, scan(t.quasis[n - 1].cooked))
  }

  function ReducedExprs(t: Template, scan: string -> seq<Match>, build: Match -> Expr, n: nat): seq<Expr>
    requires n <= |t.quasis|
  {
    if n == 0 then []
    else SegmentStubs(ReducedExprs(t, scan, build, n - 1), t, n - 1, scan(t.quasis[n - 1].cooked), build)
  }

  /** How many matches the first `n` segments of `t` hold. */
  function MatchCount(t: Template, scan: string -> seq<Match>, n: nat): nat
    requires n <= |t.quasis|
  {
    if n == 0 then 0 else MatchCount(t, scan, n - 1) + |scan(t.quasis[n - 1].cooked)|
  }

  /** The template `findAndReplaceAttrs` returns: the rebuilt one when some segment
      matched, the original otherwise. It is the input unchanged when no segment holds
      a match, and, for templates with no more interpolations than segments (every
      template literal), only then: the rebuilt one has more interpolations. */
  function Splice(t: Template): (r: Template)
    ensures NoMatches(t) ==> r == t
    ensures |t.exprs| <= |t.quasis| && !NoMatches(t) ==> |r.exprs| > |t.exprs|
  {
    MatchCountZero(t, Matches, |t.quasis|);
    InterpolationCount(t, Matches, Accessor, |t.quasis|);
    StubCountAtLeast(t, Matches, |t.quasis|);
    if MatchCount(t, Matches, |t.quasis|) > 0
    then Template(ReducedQuasis(t, Matches, |t.quasis|), ReducedExprs(t, Matches, Accessor, |t.quasis|))
    else t
  }

  /** The reduce callback for segment `i`: the loop over its matches, which advances
      `cursor` and pushes the pieces of text around the matches and one accessor per
      match, and the pushes of the segment's interpolation. */
  method SpliceSegment(acc: Accum, template: Template, i: nat, matches: seq<Match>) returns (next: Accum)
    requires i < |template.quasis|
    ensures next == SegmentOnto(acc, template, i, matches)
  {
    var quasis := template.quasis;
    var stubs := template.exprs;
    var str := quasis[i].cooked;
    var last := i == |quasis| - 1;
    var nextQuasis := acc.quasis;
    var nextStubs := acc.exprs;
    var cursor := 0;
    for j := 0 to |matches|
      invariant cursor == CursorBefore(matches, j)
      invariant nextQuasis == PiecesOnto(acc.quasis, str, matches, j, last)
      invariant nextStubs == AccessorsOnto(acc.exprs, matches, Accessor, j)
    {
      var m := matches[j];
      var preAttr := Slice(str, cursor, m.index);
      cursor := End(m);
      var postAttr := SliceFrom(str, cursor);
      assert preAttr == Cut(str, matches, j);
      assert j == |matches| - 1 ==> postAttr == Cut(str, matches, |matches|);
      if |preAttr| > 0 {
        nextQuasis := nextQuasis + [Piece(preAttr, false)];
      }
      if |postAttr| > 0 && j == |matches| - 1 {
        nextQuasis := nextQuasis + [Piece(postAttr, last)];
      }
      nextStubs := nextStubs + [Accessor(m)];
    }
    if i < |stubs| {
      nextStubs := nextStubs + [stubs[i]];
    }
    if |matches| == 0 {
      nextQuasis := nextQuasis + [quasis[i]];
      if i < |stubs| {
        nextStubs := nextStubs + [stubs[i]];
      }
    }
    next := Accum(nextQuasis, nextStubs);
  }

  /** One step of the reduce: segment `i` scanned with the regex and spliced onto
      the accumulator of the segments before it. */
  method SpliceNext(accum: Accum, template: Template, i: nat) returns (next: Accum, matched: bool)
    requires i < |template.quasis| && accum == Reduce(template, Matches, i)
    ensures next == Reduce(template, Matches, i + 1)
    ensures matched <==> |Matches(template.quasis[i].cooked)| > 0
    ensures MatchCount(template, Matches, i + 1) > 0 <==> MatchCount(template, Matches, i) > 0 || matched
  {
    var matches := ScanSegment(template.quasis[i].cooked);
    matched := |matches| > 0;
    next := SpliceSegment(accum, template, i, matches);
  }

  /** The reduce over the segments of `template`, and the `didFindAtLeastOneMatch` flag
      the scanning loops set. */
  method ReduceSegments(template: Template) returns (accum: Accum, didFindAtLeastOneMatch: bool)
    ensures accum == Reduce(template, Matches, |template.quasis|)
    ensures didFindAtLeastOneMatch <==> MatchCount(template, Matches, |template.quasis|) > 0
  {
    didFindAtLeastOneMatch := false;
    accum := Accum([], []);
    for i := 0 to |template.quasis|
      invariant accum == Reduce(template, Matches, i)
      invariant didFindAtLeastOneMatch <==> MatchCount(template, Matches, i) > 0
    {
      var matched;
      accum, matched := SpliceNext(accum, template, i);
      didFindAtLeastOneMatch := didFindAtLeastOneMatch || matched;
    }
  }

  /** `findAndReplaceAttrs`: the rebuilt template when some segment matched, the
      original otherwise. */
  method FindAndReplaceAttrs(quasi: Template) returns (r: Template)
    ensures r == Splice(quasi)
  {
    var accum, didFindAtLeastOneMatch := ReduceSegments(quasi);
    if didFindAtLeastOneMatch {
      r := Template(accum.quasis, accum.exprs);
    } else {
      r := quasi;
    }
  }

  // ---------------------------------------------------------------------------
  // The texts around the matches

  lemma PrefixSplit(s: string, b: nat, c: nat)
    requires b <= c <= |s|
    ensures s[..c] == s[..b] + s[b..c]
  {
  }

  /** The matches `ms` lie inside `str` at the text they matched, in ascending order
      and without overlapping. */
  predicate Tiled(str: string, ms: seq<Match>)
  {
    forall k :: 0 <= k < |ms| ==> InPlace(str, ms, k)
  }

  /** Match `k` of `ms` lies inside `str` at the text it matched, after the previous one. */
  predicate InPlace(str: string, ms: seq<Match>, k: nat)
    requires k < |ms|
  {
    CursorBefore(ms, k) <= ms[k].index && OccursIn(str, ms[k])
  }

  /** The scanner's matches of a segment tile it. */
  lemma MatchesTiled(s: string)
    ensures Tiled(s, Matches(s))
  {
    MatchesSound(s);
    MatchesOrdered(s);
    var ms := Matches(s);
    forall k | 0 <= k < |ms|
      ensures InPlace(s, ms, k)
    {
      assert ms[k] in ms;
      if k > 0 {
        assert End(ms[k - 1]) <= ms[k].index;
      }
    }
  }

  /** The first `k` texts around the matches, each followed by its match. */
  function Woven(str: string, ms: seq<Match>, k: nat): string
    requires k <= |ms|
  {
    if k == 0 then "" else Woven(str, ms, k - 1) + Cut(str, ms, k - 1) + ms[k - 1].value
  }

  lemma {:induction false} WovenPrefix(str: string, ms: seq<Match>, k: nat)
    requires Tiled(str, ms) && k <= |ms|
    ensures CursorBefore(ms, k) <= |str| && Woven(str, ms, k) == str[..CursorBefore(ms, k)]
  {
    if k > 0 {
      WovenPrefix(str, ms, k - 1);
      var m := ms[k - 1];
      var a := CursorBefore(ms, k - 1);
      assert InPlace(str, ms, k - 1);
      assert Cut(str, ms, k - 1) == str[a..m.index];
      assert m.value == str[m.index..End(m)];
      PrefixSplit(str, a, m.index);
      PrefixSplit(str, m.index, End(m));
    }
  }

  /** Cutting a segment at its matches loses no text: the texts around the matches,
      interleaved with the matched texts, give the segment back. */
  lemma CutsRoundTrip(str: string, ms: seq<Match>)
    requires Tiled(str, ms)
    ensures Woven(str, ms, |ms|) + Cut(str, ms, |ms|) == str
  {
    WovenPrefix(str, ms, |ms|);
    var c := CursorBefore(ms, |ms|);
    assert str[..c] + str[c..] == str;
  }

  /** The texts around the regex's matches in a segment and the matched texts,
      interleaved, give the segment back. */
  lemma SegmentRoundTrip(str: string)
    ensures Woven(str, Matches(str), |Matches(str)|) + Cut(str, Matches(str), |Matches(str)|) == str
  {
    MatchesTiled(str);
    CutsRoundTrip(str, Matches(str));
  }

  // ---------------------------------------------------------------------------
  // The new segments of one segment

  /** `cuts` holds the texts around the matches `ms` of `str`, one more than there
      are matches. */
  predicate CutsOf(str: string, ms: seq<Match>, cuts: seq<string>)
  {
    |cuts| == |ms| + 1 && forall k :: 0 <= k <= |ms| ==> cuts[k] == Cut(str, ms, k)
  }

  /** The texts around the matches can be listed. */
  lemma CutsExist(str: string, ms: seq<Match>)
    ensures exists cuts :: CutsOf(str, ms, cuts)
  {
    var cuts := seq(|ms| + 1, k requires 0 <= k <= |ms| => Cut(str, ms, k));
    assert CutsOf(str, ms, cuts);
  }

  /** `acc` followed by a segment for each non-empty text among the first `n` of
      `cuts`, in order, marked as the tail when it is the final text of `cuts` and
      `last` holds. */
  function KeptOnto(acc: seq<TemplateElement>, cuts: seq<string>, n: nat, last: bool): seq<TemplateElement>
    requires n <= |cuts|
  {
    if n == 0 then acc
    else
      var text := cuts[n - 1];
      var kept := KeptOnto(acc, cuts, n - 1, last);
      if |text| > 0 then kept + [Piece(text, last && n == |cuts|)] else kept
  }

  /** `KeptOnto` keeps `acc` in front; every segment after it is a non-empty text
      with the same raw and cooked value, and only the one for the final text of
      `cuts` can be the tail. */
  lemma {:induction false} KeptOntoShape(acc: seq<TemplateElement>, cuts: seq<string>, n: nat, last: bool)
    requires n <= |cuts|
    ensures |KeptOnto(acc, cuts, n, last)| >= |acc|
    ensures forall k :: 0 <= k < |acc| ==> KeptOnto(acc, cuts, n, last)[k] == acc[k]
    ensures forall k :: |acc| <= k < |KeptOnto(acc, cuts, n, last)| ==>
              KeptOnto(acc, cuts, n, last)[k].raw == KeptOnto(acc, cuts, n, last)[k].cooked &&
              |KeptOnto(acc, cuts, n, last)[k].raw| > 0
    ensures forall k :: |acc| <= k < |KeptOnto(acc, cuts, n, last)| ==>
              (KeptOnto(acc, cuts, n, last)[k].tail <==>
               last && n == |cuts| && k == |KeptOnto(acc, cuts, n, last)| - 1 && |cuts[n - 1]| > 0)
  {
    if n > 0 {
      KeptOntoShape(acc, cuts, n - 1, last);
    }
  }

  /** Before the final match, the segments pushed are the non-empty texts before the
      matches handled so far. */
  lemma {:induction false} PiecesPrefix(acc: seq<TemplateElement>, str: string, ms: seq<Match>, cuts: seq<string>, j: nat, last: bool)
    requires j < |ms| && CutsOf(str, ms, cuts)
    ensures PiecesOnto(acc, str, ms, j, last) == KeptOnto(acc, cuts, j, last)
  {
    if j > 0 {
      PiecesPrefix(acc, str, ms, cuts, j - 1, last);
      assert cuts[j - 1] == Cut(str, ms, j - 1);
    }
  }

  /** The final match adds the text before it and the text after it. */
  lemma PiecesFinal(acc: seq<TemplateElement>, str: string, ms: seq<Match>, cuts: seq<string>, last: bool)
    requires |ms| > 0 && CutsOf(str, ms, cuts)
    requires PiecesOnto(acc, str, ms, |ms| - 1, last) == KeptOnto(acc, cuts, |ms| - 1, last)
    ensures PiecesOnto(acc, str, ms, |ms|, last) == KeptOnto(acc, cuts, |ms| + 1, last)
  {
    assert cuts[|ms| - 1] == Cut(str, ms, |ms| - 1);
    assert cuts[|ms|] == Cut(str, ms, |ms|);
  }

  /** The segments pushed for the matches of a segment are the non-empty texts around
      them, in order, the text after the final match marked as the tail when the
      segment is the last. */
  lemma PiecesAreKept(acc: seq<TemplateElement>, str: string, ms: seq<Match>, cuts: seq<string>, last: bool)
    requires |ms| > 0 && CutsOf(str, ms, cuts)
    ensures PiecesOnto(acc, str, ms, |ms|, last) == KeptOnto(acc, cuts, |ms| + 1, last)
  {
    PiecesPrefix(acc, str, ms, cuts, |ms| - 1, last);
    PiecesFinal(acc, str, ms, cuts, last);
  }

  /** Every segment but the last is not the tail, and the last one is. */
  predicate TailsOk(qs: seq<TemplateElement>)
  {
    forall k :: 0 <= k < |qs| ==> (qs[k].tail <==> k == |qs| - 1)
  }

  /** A segment of the output: one of `t`'s own, or a new non-empty text whose raw
      and cooked values agree. */
  predicate FromTemplate(q: TemplateElement, t: Template)
  {
    q in t.quasis || (q.raw == q.cooked && |q.raw| > 0)
  }

  /** Every segment of `qs` comes from `t`, and only the final one can be the tail,
      and only when `final`. */
  predicate QuasisOk(qs: seq<TemplateElement>, t: Template, final: bool)
  {
    forall k :: 0 <= k < |qs| ==> FromTemplate(qs[k], t) && (qs[k].tail ==> final && k == |qs| - 1)
  }

  /** The new segments of a segment with matches, after well-formed ones, are well formed. */
  lemma KeptOk(acc: seq<TemplateElement>, t: Template, i: nat, ms: seq<Match>, cuts: seq<string>)
    requires i < |t.quasis| && QuasisOk(acc, t, false)
    requires |ms| > 0 && CutsOf(t.quasis[i].cooked, ms, cuts)
    ensures QuasisOk(PiecesOnto(acc, t.quasis[i].cooked, ms, |ms|, i == |t.quasis| - 1), t, i == |t.quasis| - 1)
  {
    PiecesAreKept(acc, t.quasis[i].cooked, ms, cuts, i == |t.quasis| - 1);
    KeptOntoShape(acc, cuts, |ms| + 1, i == |t.quasis| - 1);
  }

  /** Splicing segment `i` onto well-formed segments keeps them well formed. */
  lemma SegmentQuasisOk(acc: seq<TemplateElement>, t: Template, i: nat, ms: seq<Match>)
    requires i < |t.quasis| && TailsOk(t.quasis) && QuasisOk(acc, t, false)
    ensures QuasisOk(SegmentQuasis(acc, t, i, ms), t, i == |t.quasis| - 1)
  {
    if |ms| > 0 {
      CutsExist(t.quasis[i].cooked, ms);
      var cuts :| CutsOf(t.quasis[i].cooked, ms, cuts);
      KeptOk(acc, t, i, ms, cuts);
    } else {
      assert t.quasis[i] in t.quasis;
    }
  }

  /** The segments built from the first `n` segments of `t` are segments of `t` or
      new non-empty texts whose raw and cooked values agree; when the segments of `t`
      are marked correctly, none of them is the tail except possibly the final one,
      and only once all segments are handled. */
  lemma {:induction false} ReduceQuasis(t: Template, scan: string -> seq<Match>, n: nat)
    requires n <= |t.quasis| && TailsOk(t.quasis)
    ensures QuasisOk(ReducedQuasis(t, scan, n), t, n == |t.quasis|)
  {
    if n > 0 {
      ReduceQuasis(t, scan, n - 1);
      SegmentQuasisOk(ReducedQuasis(t, scan, n - 1), t, n - 1, scan(t.quasis[n - 1].cooked));
    }
  }

  /** In the template `findAndReplaceAttrs` returns, only the final segment can be the
      tail, and every segment is one of the input or a new non-empty text. */
  lemma SpliceQuasis(t: Template)
    requires TailsOk(t.quasis)
    ensures forall k :: 0 <= k < |Splice(t).quasis| - 1 ==> !Splice(t).quasis[k].tail
    ensures forall k :: 0 <= k < |Splice(t).quasis| ==> FromTemplate(Splice(t).quasis[k], t)
  {
    ReduceQuasis(t, Matches, |t.quasis|);
  }

  // ---------------------------------------------------------------------------
  // The new interpolations

  /** One accessor is pushed per match. `AccessorsOntoIndex` states this too, but the
      count alone keeps the proofs that need only the length cheap. */
  lemma {:induction false} AccessorsOntoLength(acc: seq<Expr>, ms: seq<Match>, build: Match -> Expr, j: nat)
    requires j <= |ms|
    ensures |AccessorsOnto(acc, ms, build, j)| == |acc| + j
  {
    if j > 0 {
      AccessorsOntoLength(acc, ms, build, j - 1);
    }
  }

  /** Pushing accessors onto `acc` keeps it in front and appends one accessor per
      match, in match order. */
  lemma {:induction false} AccessorsOntoIndex(acc: seq<Expr>, ms: seq<Match>, build: Match -> Expr, j: nat)
    requires j <= |ms|
    ensures |AccessorsOnto(acc, ms, build, j)| == |acc| + j
    ensures forall k :: 0 <= k < |acc| ==> AccessorsOnto(acc, ms, build, j)[k] == acc[k]
    ensures forall k :: 0 <= k < j ==> AccessorsOnto(acc, ms, build, j)[|acc| + k] == build(ms[k])
  {
    if j > 0 {
      AccessorsOntoIndex(acc, ms, build, j - 1);
    }
  }

  /** The copies of interpolation `i` pushed after segment `i`: one when it matched,
      two when it did not, none when there is no interpolation `i`. */
  function StubCopies(t: Template, i: nat, ms: seq<Match>): nat
  {
    if i < |t.exprs| then (if |ms| == 0 then 2 else 1) else 0
  }

  /** Segment `i` adds one interpolation per match and the copies of its own. This is
      the first clause of `SegmentExprs` on its own: `InterpolationStep` needs only the
      count, and the per-index clauses make its proof too costly. */
  lemma SegmentExprCount(acc: seq<Expr>, t: Template, i: nat, ms: seq<Match>, build: Match -> Expr)
    requires i < |t.quasis|
    ensures |SegmentStubs(acc, t, i, ms, build)| == |acc| + |ms| + StubCopies(t, i, ms)
  {
    AccessorsOntoLength(acc, ms, build, |ms|);
  }

  /** Segment `i` keeps the interpolations before it, and appends one accessor per
      match, in match order, followed by the copies of its own interpolation. */
  lemma SegmentExprs(acc: seq<Expr>, t: Template, i: nat, ms: seq<Match>, build: Match -> Expr)
    requires i < |t.quasis|
    ensures |SegmentStubs(acc, t, i, ms, build)| == |acc| + |ms| + StubCopies(t, i, ms)
    ensures forall k :: 0 <= k < |acc| ==> SegmentStubs(acc, t, i, ms, build)[k] == acc[k]
    ensures forall k :: 0 <= k < |ms| ==> SegmentStubs(acc, t, i, ms, build)[|acc| + k] == build(ms[k])
    ensures forall k :: |acc| + |ms| <= k < |SegmentStubs(acc, t, i, ms, build)| ==>
              SegmentStubs(acc, t, i, ms, build)[k] == t.exprs[i]
  {
    AccessorsOntoIndex(acc, ms, build, |ms|);
  }

  /** How many interpolations the first `n` segments push besides the accessors. */
  function StubCount(t: Template, scan: string -> seq<Match>, n: nat): nat
    requires n <= |t.quasis|
  {
    if n == 0 then 0
    else StubCount(t, scan, n - 1) + StubCopies(t, n - 1, scan(t.quasis[n - 1].cooked))
  }

  /** One interpolation per match, and one or two copies of each interpolation that
      follows a segment. */
  lemma {:induction false} InterpolationCount(t: Template, scan: string -> seq<Match>, build: Match -> Expr, n: nat)
    requires n <= |t.quasis|
    ensures |ReducedExprs(t, scan, build, n)| == MatchCount(t, scan, n) + StubCount(t, scan, n)
  {
    if n > 0 {
      InterpolationCount(t, scan, build, n - 1);
      InterpolationStep(t, scan, build, n);
    }
  }

  /** The step of `InterpolationCount`: segment `n - 1` adds its matches and its copies. */
  lemma InterpolationStep(t: Template, scan: string -> seq<Match>, build: Match -> Expr, n: nat)
    requires 0 < n <= |t.quasis|
    requires |ReducedExprs(t, scan, build, n - 1)| == MatchCount(t, scan, n - 1) + StubCount(t, scan, n - 1)
    ensures |ReducedExprs(t, scan, build, n)| == MatchCount(t, scan, n) + StubCount(t, scan, n)
  {
    SegmentExprCount(ReducedExprs(t, scan, build, n - 1), t, n - 1, scan(t.quasis[n - 1].cooked), build);
  }

  /** Every interpolation that follows one of the first `n` segments is pushed at least once. */
  lemma {:induction false} StubCountAtLeast(t: Template, scan: string -> seq<Match>, n: nat)
    requires n <= |t.quasis|
    ensures StubCount(t, scan, n) >= Min(n, |t.exprs|)
  {
    if n > 0 {
      StubCountAtLeast(t, scan, n - 1);
    }
  }

  /** No match among the first `n` segments exactly when each of them has none. */
  lemma {:induction false} MatchCountZero(t: Template, scan: string -> seq<Match>, n: nat)
    requires n <= |t.quasis|
    ensures MatchCount(t, scan, n) == 0 <==> forall i :: 0 <= i < n ==> |scan(t.quasis[i].cooked)| == 0
  {
    if n > 0 {
      MatchCountZero(t, scan, n - 1);
    }
  }

  /** No segment of `t` holds a match. */
  predicate NoMatches(t: Template)
  {
    forall i :: 0 <= i < |t.quasis| ==> |Matches(t.quasis[i].cooked)| == 0
  }
}
