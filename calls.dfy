/** The `CallExpression` visitor: a `css(...)` call that is an argument of an
    `emotion(...)` call is replaced by the array literal of its arguments. */
module CallSimplify {
  import opened Ast

  /** A call is simplified when its callee is the identifier `css` and its parent is
      a call whose callee is the identifier `emotion`. */
  predicate Simplifies(callee: Expr, parent: Expr)
  {
    NameOf(callee) == Some("css") && parent.Call? && NameOf(parent.callee) == Some("emotion")
  }

  /** The node that replaces the call `callee(args)` whose parent is `parent`. */
  function SimplifyCall(callee: Expr, args: seq<Expr>, parent: Expr): (r: Expr)
    ensures r == Call(callee, args) <==> !Simplifies(callee, parent)
    ensures Simplifies(callee, parent) ==> r.Array? && r.elements == args
  {
    if Simplifies(callee, parent) then Array(args) else Call(callee, args)
  }

  /** An argument of the call `parent` once the visitor has met it. */
  function ArgumentAfter(arg: Expr, parent: Expr): Expr
  {
    if arg.Call? then SimplifyCall(arg.callee, arg.args, parent) else arg
  }

  /** The call `parent` once the visitor has met each of its arguments: a call to the
      same callee with as many arguments. */
  function SimplifiedArguments(parent: Expr): (r: Expr)
    requires parent.Call?
    ensures r.Call? && r.callee == parent.callee && |r.args| == |parent.args|
  {
    Call(parent.callee, seq(|parent.args|, i requires 0 <= i < |parent.args| => ArgumentAfter(parent.args[i], parent)))
  }

  /** The `css` calls are wrapped, not spliced: the `emotion` call keeps its number of
      arguments, each `css(...)` argument becomes the array of its own arguments in
      order, and every other argument is kept. A call to anything but `emotion` is
      left as it is. */
  lemma SimplifiedShape(parent: Expr)
    requires parent.Call?
    ensures SimplifiedArguments(parent).callee == parent.callee
    ensures |SimplifiedArguments(parent).args| == |parent.args|
    ensures forall i :: 0 <= i < |parent.args| ==>
              if parent.args[i].Call? && Simplifies(parent.args[i].callee, parent)
              then SimplifiedArguments(parent).args[i] == Array(parent.args[i].args)
              else SimplifiedArguments(parent).args[i] == parent.args[i]
    ensures NameOf(parent.callee) != Some("emotion") ==> SimplifiedArguments(parent) == parent
  {
    var r := SimplifiedArguments(parent);
    if NameOf(parent.callee) != Some("emotion") {
      assert r.args == parent.args;
    }
  }

  /** Meeting the arguments a second time changes nothing: the arrays are no calls. */
  lemma SimplifiedIdempotent(parent: Expr)
    requires parent.Call?
    ensures SimplifiedArguments(SimplifiedArguments(parent)) == SimplifiedArguments(parent)
  {
    var once := SimplifiedArguments(parent);
    var twice := SimplifiedArguments(once);
    forall i | 0 <= i < |once.args|
      ensures twice.args[i] == once.args[i]
    {
      var arg := parent.args[i];
      if arg.Call? && Simplifies(arg.callee, parent) {
        assert once.args[i].Array?;
      } else {
        assert once.args[i] == arg;
      }
    }
    assert twice.args == once.args;
  }
}
