/** The `TaggedTemplateExpression` visitor: the shorthands ``emotion.h1`…` `` and
    ``emotion('h1')`…` `` become the call ``emotion('h1', css`…`)``, with every
    `attr(...)` in the template expanded by `findAndReplaceAttrs`. */
module Shorthand {
  import opened Ast
  import opened Splicer

  /** A tag `emotion.P`. */
  predicate EmotionMemberTag(tag: Expr)
  {
    tag.Member? && NameOf(tag.receiver) == Some("emotion")
  }

  /** A tag `emotion(a0, …)`. */
  predicate EmotionCallTag(tag: Expr)
  {
    tag.Call? && NameOf(tag.callee) == Some("emotion")
  }

  /** The node that replaces the tagged template `tag quasi`: the call to `emotion`
      with the element name (the property of a member tag, the first argument of a
      call tag) and the `css`-tagged spliced template; any other tagged template is
      left as it is. */
  function Normalized(tag: Expr, quasi: Template): (r: Expr)
    requires EmotionCallTag(tag) ==> |tag.args| > 0
    ensures r == TaggedTemplate(tag, quasi) ||
            (r.Call? && NameOf(r.callee) == Some("emotion") && |r.args| == 2 && r.args[1] == CssTagged(Splice(quasi)))
  {
    if EmotionMemberTag(tag) then Call(tag.receiver, [StringLit(tag.property), CssTagged(Splice(quasi))])
    else if EmotionCallTag(tag) then Call(tag.callee, [tag.args[0], CssTagged(Splice(quasi))])
    else TaggedTemplate(tag, quasi)
  }

  /** The visitor. */
  method NormalizeShorthand(tag: Expr, quasi: Template) returns (r: Expr)
    requires EmotionCallTag(tag) ==> |tag.args| > 0
    ensures r == Normalized(tag, quasi)
  {
    if tag.Member? && NameOf(tag.receiver) == Some("emotion") {
      var built := FindAndReplaceAttrs(quasi);
      r := Call(tag.receiver, [StringLit(tag.property), CssTagged(built)]);
    } else if tag.Call? && NameOf(tag.callee) == Some("emotion") {
      var built := FindAndReplaceAttrs(quasi);
      r := Call(tag.callee, [tag.args[0], CssTagged(built)]);
    } else {
      r := TaggedTemplate(tag, quasi);
    }
  }

  /** An `emotion` shorthand becomes a call to the same `emotion` identifier with two
      arguments: the element name as written (a string literal made from the member's
      property, or the call's first argument verbatim) and the `css`-tagged spliced
      template. Every other tagged template is left as it is, and only those. */
  lemma NormalizedShape(tag: Expr, quasi: Template)
    requires EmotionCallTag(tag) ==> |tag.args| > 0
    ensures Normalized(tag, quasi) == TaggedTemplate(tag, quasi) <==> !EmotionMemberTag(tag) && !EmotionCallTag(tag)
    ensures EmotionMemberTag(tag) || EmotionCallTag(tag) ==>
              var r := Normalized(tag, quasi);
              r.Call? && NameOf(r.callee) == Some("emotion") && |r.args| == 2 &&
              r.args[1] == CssTagged(Splice(quasi)) &&
              (EmotionMemberTag(tag) ==> r.args[0] == StringLit(tag.property)) &&
              (EmotionCallTag(tag) ==> r.args[0] == tag.args[0])
  {
  }

  /** A template without any `attr(...)` is passed to `css` unchanged. */
  lemma NormalizedWithoutAttr(tag: Expr, quasi: Template)
    requires EmotionMemberTag(tag) || (EmotionCallTag(tag) && |tag.args| > 0)
    requires NoMatches(quasi)
    ensures Normalized(tag, quasi).args[1] == CssTagged(quasi)
  {
  }

  /** The `css`-tagged template the visitor builds is not rewritten again when the
      visitor meets it: its tag is `css`, not an `emotion` shorthand. */
  lemma NormalizedSettles(tag: Expr, quasi: Template)
    requires EmotionMemberTag(tag) || (EmotionCallTag(tag) && |tag.args| > 0)
    ensures var inner := Normalized(tag, quasi).args[1];
            Normalized(inner.tag, inner.quasi) == inner
  {
  }

  /** When the segments of the written template are marked with a single final tail,
      only the final segment of the spliced template can be the tail. */
  lemma NormalizedTails(tag: Expr, quasi: Template)
    requires EmotionMemberTag(tag) || (EmotionCallTag(tag) && |tag.args| > 0)
    requires TailsOk(quasi.quasis)
    ensures var q := Normalized(tag, quasi).args[1].quasi;
            forall k :: 0 <= k < |q.quasis| - 1 ==> !q.quasis[k].tail
  {
    SpliceQuasis(quasi);
  }
}
