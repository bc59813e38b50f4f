/** The `JSXOpeningElement` visitor: the `css` attribute of an element is turned into
    a `css`-tagged template and moved into `className`, merged with an existing
    `className` value when there is one. */
module CssProp {
  import opened Ast

  /** The error the visitor raises for a `css` value that is neither a string nor a
      template literal; it carries the offending value, absent for `<div css />`. */
  datatype CssError = NotStringOrTemplate(value: Option<Expr>)

  /** The index of the last of the first `n` attributes named `name`: the `forEach`
      overwrites `cssPath` and `classNamesPath` at every attribute of that name. */
  function LastNamed(attrs: seq<JsxAttr>, name: string, n: nat): (r: Option<nat>)
    requires n <= |attrs|
    ensures r.Some? ==> r.value < n && attrs[r.value].name == name
    ensures r.Some? ==> forall q :: r.value < q < n ==> attrs[q].name != name
    ensures r.None? <==> forall q :: 0 <= q < n ==> attrs[q].name != name
  {
    if n == 0 then None
    else if attrs[n - 1].name == name then Some(n - 1)
    else LastNamed(attrs, name, n - 1)
  }

  /** The value of the `css` attribute with one expression container unwrapped. */
  function Unwrapped(v: AttrValue): Option<Expr>
  {
    match v
    case NoValue => None
    case StrValue(text) => Some(StringLit(text))
    case Container(e) => Some(e)
  }

  /** The `css`-tagged template built from the value of the `css` attribute: a
      template literal is tagged as it is, a string literal becomes a template of
      one segment (not the tail) and no interpolation, anything else is an error. */
  function CssTemplate(v: AttrValue): (r: Result<Expr, CssError>)
    ensures r.Ok? <==> Unwrapped(v).Some? && (Unwrapped(v).value.TemplateLit? || Unwrapped(v).value.StringLit?)
    ensures r.Err? ==> r.error == NotStringOrTemplate(Unwrapped(v))
    ensures r.Ok? ==> r.value.TaggedTemplate? && NameOf(r.value.tag) == Some("css")
  {
    match Unwrapped(v)
    case Some(TemplateLit(template)) => Ok(CssTagged(template))
    case Some(StringLit(text)) => Ok(CssTagged(Template([TemplateElement(text, text, false)], [])))
    case _ => Err(NotStringOrTemplate(Unwrapped(v)))
  }

  /** A template literal is tagged without any `attr()` expansion, and a string
      becomes the single segment of a template with no interpolation. */
  lemma CssTemplateKeepsText(v: AttrValue)
    ensures Unwrapped(v).Some? && Unwrapped(v).value.TemplateLit? ==>
              CssTemplate(v) == Ok(CssTagged(Unwrapped(v).value.template))
    ensures Unwrapped(v).Some? && Unwrapped(v).value.StringLit? ==>
              var q := CssTemplate(v).value.quasi;
              |q.quasis| == 1 && q.exprs == [] && !q.quasis[0].tail &&
              q.quasis[0].raw == Unwrapped(v).value.value && q.quasis[0].cooked == Unwrapped(v).value.value
  {
  }

  /** The merged class name: `(className + " ") + css…`, where `className` is the
      expression of a container, or the string literal of a string value. */
  function Merged(classNames: AttrValue, css: Expr): (r: Expr)
    requires !classNames.NoValue?
    ensures r.Binary? && r.op == "+" && r.right == css
    ensures r.left.Binary? && r.left.op == "+" && r.left.right == StringLit(" ")
    ensures classNames.Container? ==> r.left.left == classNames.expression
    ensures classNames.StrValue? ==> r.left.left == StringLit(classNames.text)
  {
    var first := if classNames.Container? then classNames.expression else StringLit(classNames.text);
    Binary("+", Binary("+", first, StringLit(" ")), css)
  }

  /** `attrs` without the attribute at `c`. */
  function Removed(attrs: seq<JsxAttr>, c: nat): (r: seq<JsxAttr>)
    requires c < |attrs|
    ensures |r| == |attrs| - 1
    ensures forall p :: 0 <= p < c ==> r[p] == attrs[p]
    ensures forall p :: c < p < |attrs| ==> r[p - 1] == attrs[p]
  {
    attrs[..c] + attrs[c + 1..]
  }

  /** Where the attribute at `p` sits once the attribute at `c` is removed. */
  function Shifted(p: nat, c: nat): nat
  {
    if p > c then p - 1 else p
  }

  /** The attributes after the visitor, or its error: it fails only on a `css`
      attribute, and removes at most one attribute. */
  function Lowered(attrs: seq<JsxAttr>): (r: Result<seq<JsxAttr>, CssError>)
    ensures r.Err? ==> LastNamed(attrs, "css", |attrs|).Some?
    ensures r.Ok? ==> |attrs| - 1 <= |r.value| <= |attrs|
  {
    match LastNamed(attrs, "css", |attrs|)
    case None => Ok(attrs)
    case Some(c) =>
      match CssTemplate(attrs[c].value)
      case Err(e) => Err(e)
      case Ok(css) =>
        var k := LastNamed(attrs, "className", |attrs|);
        if k.None? || attrs[k.value].value.NoValue? then Ok(attrs[c := ClassNameAttr(css)])
        else Ok(Removed(attrs, c)[Shifted(k.value, c) := ClassNameAttr(Merged(attrs[k.value].value, css))])
  }

  /** An opening JSX element: its attribute list, which the visitor rewrites in place. */
  class OpeningElement {
    var attributes: seq<JsxAttr>

    constructor (attributes: seq<JsxAttr>)
      ensures this.attributes == attributes
    {
      this.attributes := attributes;
    }

    /** The visitor: finds the last `css` and the last `className` attribute, then
        replaces the `css` attribute by `className={css…}`, or removes it and
        replaces `className` by the merged class name. On an invalid `css` value it
        raises the error and leaves the attributes as they were. */
    method LowerCssProp() returns (err: Option<CssError>)
      modifies this
      ensures Lowered(old(attributes)).Ok? ==> err.None? && attributes == Lowered(old(attributes)).value
      ensures Lowered(old(attributes)).Err? ==> err == Some(Lowered(old(attributes)).error) && attributes == old(attributes)
    {
      var cssPath: Option<nat> := None;
      var classNamesPath: Option<nat> := None;
      for p := 0 to |attributes|
        invariant cssPath == LastNamed(attributes, "css", p)
        invariant classNamesPath == LastNamed(attributes, "className", p)
      {
        if attributes[p].name == "css" {
          cssPath := Some(p);
        }
        if attributes[p].name == "className" {
          classNamesPath := Some(p);
        }
      }
      if cssPath.None? {
        return None;
      }
      var c := cssPath.value;
      var cssTemplateExpression := CssTemplate(attributes[c].value);
      if cssTemplateExpression.Err? {
        return Some(cssTemplateExpression.error);
      }
      var css := cssTemplateExpression.value;
      if classNamesPath.None? || attributes[classNamesPath.value].value.NoValue? {
        attributes := attributes[c := ClassNameAttr(css)];
        return None;
      }
      var k := classNamesPath.value;
      var classNamesValue := attributes[k].value;
      attributes := Removed(attributes, c);
      attributes := attributes[Shifted(k, c) := ClassNameAttr(Merged(classNamesValue, css))];
      err := None;
    }
  }

  /** The element is left as it is exactly when it has no `css` attribute. */
  lemma LoweredUnchanged(attrs: seq<JsxAttr>)
    ensures Lowered(attrs) == Ok(attrs) <==> forall p :: 0 <= p < |attrs| ==> attrs[p].name != "css"
  {
    var c := LastNamed(attrs, "css", |attrs|);
    if c.Some? && CssTemplate(attrs[c.value].value).Ok? {
      var k := LastNamed(attrs, "className", |attrs|);
      if k.None? || attrs[k.value].value.NoValue? {
        assert Lowered(attrs).value[c.value].name == "className";
      } else {
        assert |Lowered(attrs).value| < |attrs|;
      }
    }
  }

  /** The visitor fails exactly when the last `css` attribute holds, once a container
      is unwrapped, neither a string nor a template literal. */
  lemma LoweredFails(attrs: seq<JsxAttr>)
    ensures Lowered(attrs).Err? <==>
              exists c :: 0 <= c < |attrs| && LastNamed(attrs, "css", |attrs|) == Some(c) &&
                !(Unwrapped(attrs[c].value).Some? &&
                  (Unwrapped(attrs[c].value).value.TemplateLit? || Unwrapped(attrs[c].value).value.StringLit?))
  {
    var c := LastNamed(attrs, "css", |attrs|);
    if c.Some? {
      assert 0 <= c.value < |attrs|;
    }
  }

  /** Without a `className` value, the last `css` attribute is replaced in place by
      `className={css…}` and nothing else changes. */
  lemma LoweredInPlace(attrs: seq<JsxAttr>, c: nat)
    requires LastNamed(attrs, "css", |attrs|) == Some(c) && CssTemplate(attrs[c].value).Ok?
    requires LastNamed(attrs, "className", |attrs|).None? ||
             attrs[LastNamed(attrs, "className", |attrs|).value].value.NoValue?
    ensures Lowered(attrs).Ok? && |Lowered(attrs).value| == |attrs|
    ensures Lowered(attrs).value[c] == ClassNameAttr(CssTemplate(attrs[c].value).value)
    ensures forall p :: 0 <= p < |attrs| && p != c ==> Lowered(attrs).value[p] == attrs[p]
  {
  }

  /** With a `className` value, the last `css` attribute is removed, the last
      `className` attribute is replaced by the merged class name, and every other
      attribute is kept in order. */
  lemma LoweredMerged(attrs: seq<JsxAttr>, c: nat, k: nat)
    requires LastNamed(attrs, "css", |attrs|) == Some(c) && CssTemplate(attrs[c].value).Ok?
    requires LastNamed(attrs, "className", |attrs|) == Some(k) && !attrs[k].value.NoValue?
    ensures Lowered(attrs).Ok? && |Lowered(attrs).value| == |attrs| - 1
    ensures Lowered(attrs).value[Shifted(k, c)] ==
              ClassNameAttr(Merged(attrs[k].value, CssTemplate(attrs[c].value).value))
    ensures forall p :: 0 <= p < |attrs| && p != c && p != k ==> Lowered(attrs).value[Shifted(p, c)] == attrs[p]
  {
    var r := Removed(attrs, c);
    forall p | 0 <= p < |attrs| && p != c && p != k
      ensures Lowered(attrs).value[Shifted(p, c)] == attrs[p]
    {
      assert r[Shifted(p, c)] == attrs[p];
    }
  }
}
