/** The accessor function the plugin puts in place of one `attr(...)` occurrence:
      function getName(props) { return <value read from props> }
    It reads `props.<propName>`, appends the unit when there is one, and falls back
    to the default (followed by the unit, or nothing) when one is given. */
module AccessorBuilder {
  import opened Ast
  import opened AttrScanner

  /** `toUpperCase` on one character, for the ASCII letters. */
  function UpperChar(c: char): char
  {
    if 'a' <= c <= 'z' then (c as int - 'a' as int + 'A' as int) as char else c
  }

  /** `s.charAt(0).toUpperCase() + s.slice(1)`: only the first character can change,
      and it changes exactly when it is a lower-case letter, into its capital. */
  function UpperFirst(s: string): (r: string)
    ensures |r| == |s|
    ensures |s| > 0 ==> r[1..] == s[1..] && !('a' <= r[0] <= 'z')
    ensures |s| > 0 ==> (r[0] == s[0] <==> !('a' <= s[0] <= 'z'))
    ensures |s| > 0 && 'a' <= s[0] <= 'z' ==> r[0] as int == s[0] as int - 32
  {
    if s == [] then [] else [UpperChar(s[0])] + s[1..]
  }

  /** Upper-casing the first character leaves a string that does not start with a
      lower-case ASCII letter unchanged, and is idempotent. */
  lemma UpperFirstFacts(s: string)
    ensures |s| > 0 && !('a' <= s[0] <= 'z') ==> UpperFirst(s) == s
    ensures UpperFirst(UpperFirst(s)) == UpperFirst(s)
  {
  }

  /** `props.<name>` */
  function PropRead(name: string): Expr
  {
    Member(Identifier("props"), name)
  }

  /** The name of the accessor: `get` and the property name with its first letter
      upper-cased. */
  function AccessorName(propName: string): (id: string)
    ensures |id| == 3 + |propName| && id[..3] == "get"
    ensures |propName| > 0 ==> id[3] == UpperChar(propName[0]) && id[4..] == propName[1..]
  {
    UpperFirstFacts(propName);
    "get" + UpperFirst(propName)
  }

  /** The returned value: `props.name`, then `props.name + "unit"` when a unit was
      captured, and `props.name ? props.name : ("default" + "unit")` when a default
      was captured, which replaces the former and keeps the unit only in the fallback.
      A conditional is returned exactly when there is a default, a sum exactly when
      there is a unit and no default, and otherwise the bare read. */
  function ReturnValue(m: Match): (r: Expr)
    ensures r.Conditional? <==> m.defaultValue.Some?
    ensures r.Binary? <==> m.unit.Some? && m.defaultValue.None?
    ensures m.unit.None? && m.defaultValue.None? ==> r == PropRead(m.propName)
  {
    var read := PropRead(m.propName);
    var withUnit := if m.unit.Some? then Binary("+", read, StringLit(m.unit.value)) else read;
    if m.defaultValue.Some? then
      Conditional(read, read, Paren(Binary("+", StringLit(m.defaultValue.value), StringLit(UnitText(m.unit)))))
    else withUnit
  }

  /** The accessor expression built for match `m`: a function named after the
      property, of the single parameter `props`. */
  function Accessor(m: Match): (r: Expr)
    ensures r.FunctionExpr? && r.params == ["props"] && r.id == AccessorName(m.propName)
  {
    FunctionExpr(AccessorName(m.propName), ["props"], ReturnValue(m))
  }

  /** The accessor returns the bare read, the read followed by the unit, or the
      fallback to the default when one is given. */
  lemma AccessorShape(m: Match)
    ensures m.unit.None? && m.defaultValue.None? ==> Accessor(m).body == PropRead(m.propName)
    ensures m.unit.Some? && m.defaultValue.None? ==>
              Accessor(m).body == Binary("+", PropRead(m.propName), StringLit(m.unit.value))
    ensures m.defaultValue.Some? ==>
              Accessor(m).body == Conditional(PropRead(m.propName), PropRead(m.propName),
                Paren(Binary("+", StringLit(m.defaultValue.value), StringLit(UnitText(m.unit)))))
  {
  }

  /** The three capture groups an accessor is built from. */
  datatype Groups = Groups(propName: string, unit: Option<string>, defaultValue: Option<string>)

  function GroupsOf(m: Match): Groups
  {
    Groups(m.propName, m.unit, m.defaultValue)
  }

  /** Reads the groups back from an accessor body: the property read, the unit
      literal, or the default and unit literals of the fallback. */
  function ReadBody(e: Expr): Option<Groups>
  {
    match e
    case Member(Identifier(obj), name) =>
      if obj == "props" then Some(Groups(name, None, None)) else None
    case Binary(op, Member(Identifier(obj), name), StringLit(unit)) =>
      if op == "+" && obj == "props" then Some(Groups(name, Some(unit), None)) else None
    case Conditional(Member(Identifier(obj), name), whenSet,
                     Paren(Binary(op, StringLit(default), StringLit(unit)))) =>
      if op == "+" && obj == "props" && whenSet == PropRead(name)
      then Some(Groups(name, if unit == "" then None else Some(unit), Some(default)))
      else None
    case _ => None
  }

  /** Reads the groups back from a whole accessor, checking its name and parameter. */
  function ReadAccessor(e: Expr): Option<Groups>
  {
    if e.FunctionExpr? && e.params == ["props"] then
      var g := ReadBody(e.body);
      if g.Some? && e.id == AccessorName(g.value.propName) then g else None
    else None
  }

  /** No unit of the regex is the empty string. */
  lemma UnitsNonEmpty(m: Match)
    requires WellFormed(m)
    ensures m.unit != Some("")
  {
    if m.unit.Some? {
      assert m.unit.value in Units;
    }
  }

  /** The accessor loses none of the groups: they can be read back from it. */
  lemma AccessorRoundTrip(m: Match)
    requires m.unit != Some("")
    ensures ReadAccessor(Accessor(m)) == Some(GroupsOf(m))
  {
  }

  /** Matches whose groups differ get different accessors. */
  lemma AccessorInjective(m1: Match, m2: Match)
    requires WellFormed(m1) && WellFormed(m2)
    requires Accessor(m1) == Accessor(m2)
    ensures GroupsOf(m1) == GroupsOf(m2)
  {
    UnitsNonEmpty(m1);
    UnitsNonEmpty(m2);
  }

  /** When a default is given, the branch taken when the property is set is the bare
      `props.name`: the unit is appended only to the default. */
  lemma DefaultDropsUnit(m: Match)
    requires m.defaultValue.Some?
    ensures Accessor(m).body.Conditional? && Accessor(m).body.consequent == PropRead(m.propName)
    ensures Accessor(m).body.alternate.inner.right == StringLit(UnitText(m.unit))
  {
  }
}
