/** The fragment of the Babel syntax tree that the plugin reads and builds.
    Nodes are immutable values: a pass returns the node that replaces its input. */
module Ast {

  datatype Option<+T> = None | Some(value: T)

  datatype Result<+T, +E> = Ok(value: T) | Err(error: E)

  /** One literal segment ("quasi") of a template literal. */
  datatype TemplateElement = TemplateElement(raw: string, cooked: string, tail: bool)

  /** A template literal: its segments and the interpolations between them. */
  datatype Template = Template(quasis: seq<TemplateElement>, exprs: seq<Expr>)

  /** The expression forms the plugin inspects or synthesizes.
      `FunctionExpr` stands for `function id(params) { return body }`, the only
      function shape the plugin builds; `NumericLit` stands for every other literal. */
  datatype Expr =
    | Identifier(name: string)
    | StringLit(value: string)
    | NumericLit(number: int)
    | TemplateLit(template: Template)
    | TaggedTemplate(tag: Expr, quasi: Template)
    | Call(callee: Expr, args: seq<Expr>)
    | Member(receiver: Expr, property: string)
    | Binary(op: string, left: Expr, right: Expr)
    | Conditional(test: Expr, consequent: Expr, alternate: Expr)
    | Paren(inner: Expr)
    | FunctionExpr(id: string, params: seq<string>, body: Expr)
    | Array(elements: seq<Expr>)

  /** The value of a JSX attribute: absent (`<div css />`), a string literal
      (`css="..."`) or an expression container (`css={...}`). */
  datatype AttrValue = NoValue | StrValue(text: string) | Container(expression: Expr)

  /** A named JSX attribute. */
  datatype JsxAttr = JsxAttr(name: string, value: AttrValue)

  /** The name an expression has when it is an identifier (`node.name` in the source);
      every other node has none. */
  function NameOf(e: Expr): Option<string>
  {
    if e.Identifier? then Some(e.name) else None
  }

  /** `t.taggedTemplateExpression(t.identifier('css'), template)` */
  function CssTagged(template: Template): (r: Expr)
    ensures r.TaggedTemplate? && NameOf(r.tag) == Some("css") && r.quasi == template
  {
    TaggedTemplate(Identifier("css"), template)
  }

  /** `className={expression}` */
  function ClassNameAttr(expression: Expr): (r: JsxAttr)
    ensures r.name == "className" && r.value == Container(expression)
  {
    JsxAttr("className", Container(expression))
  }
}
