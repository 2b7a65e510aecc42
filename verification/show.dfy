/** `LpExpression::show` (src/dsl/variables.rs): the text of an expression.

    `ShowTree` is the rendering read off the tree; `Show` is the source's
    loop over an explicit stack of pending parts, walked on the arena, and is
    proved to produce exactly `ShowTree`. The text of a number is whatever
    `fmt` makes of it (Rust's `Display` for `f32`).
 */
module Show {
  import opened Wrappers
  import opened Tree
  import opened Arena

  /** The rendering of a tree. With parentheses every operation is wrapped
      in `(` `)` and a product is written `a * b`; without, a product is
      `a b`. A product whose left operand is the literal 1 or -1 is written
      as a sign (` b`, `-b`). */
  function ShowTree(t: Expr, paren: bool, fmt: real -> string): string {
    var open := if paren then "(" else "";
    var close := if paren then ")" else "";
    match t
    case Leaf(LitVal(n)) => fmt(n)
    case Leaf(EmptyExpr) => "EmptyExpr!!!"
    case Leaf(l) => VarName(l).value
    case Comp(Addition, l, r) => open + ShowTree(l, paren, fmt) + " + " + ShowTree(r, paren, fmt) + close
    case Comp(Subtraction, l, r) => open + ShowTree(l, paren, fmt) + " - " + ShowTree(r, paren, fmt) + close
    case Comp(Multiplication, l, r) =>
      if l == Lit(1.0) then open + " " + ShowTree(r, paren, fmt) + close
      else if l == Lit(-1.0) then open + "-" + ShowTree(r, paren, fmt) + close
      else open + ShowTree(l, paren, fmt) + (if paren then " * " else " ") + ShowTree(r, paren, fmt) + close
  }

  /** With parentheses, the text of an operation is enclosed in them. */
  lemma ParenthesisedOperation(t: Expr, fmt: real -> string)
    requires t.Comp?
    ensures var s := ShowTree(t, true, fmt);
            |s| >= 2 && s[0] == '(' && s[|s| - 1] == ')'
  {
  }

  /** A pending piece of output on the stack of `show`. */
  datatype Part =
    | NoPart
    | CharPart(c: char)
    | StrPart(s: string)
    | Elem(index: nat)

  /** Every pending expression index can be read as a tree. */
  ghost predicate Readable(a: seq<LpExprNode>, stack: seq<Part>) {
    forall k :: 0 <= k < |stack| ==> stack[k].Elem? ==> TreeAt(a, stack[k].index, |a|).Some?
  }

  /** The text a pending part stands for (nothing for an unreadable index). */
  ghost function PartText(a: seq<LpExprNode>, p: Part, paren: bool, fmt: real -> string): string {
    match p
    case NoPart => ""
    case CharPart(c) => [c]
    case StrPart(s) => s
    case Elem(i) => (match TreeAt(a, i, |a|) case Some(t) => ShowTree(t, paren, fmt) case None => "")
  }

  /** The weight of one part: an expression weighs four times its size. */
  ghost function PartWeight(a: seq<LpExprNode>, p: Part): nat {
    match p
    case Elem(i) => (match TreeAt(a, i, |a|) case Some(t) => 4 * Size(t) case None => 0)
    case _ => 1
  }

  /** The text still to come when `text` renders one part: the stack popped
      from its end. */
  function StackText<T>(text: T -> string, stack: seq<T>): string {
    if |stack| == 0 then "" else text(stack[|stack| - 1]) + StackText(text, stack[..|stack| - 1])
  }

  /** The total weight of a stack. */
  function Weight<T>(weight: T -> nat, stack: seq<T>): nat {
    if |stack| == 0 then 0 else weight(stack[|stack| - 1]) + Weight(weight, stack[..|stack| - 1])
  }

  /** Pushing a part puts its text in front of the text still to come. */
  lemma PushPart<T>(text: T -> string, weight: T -> nat, stack: seq<T>, p: T)
    ensures StackText(text, stack + [p]) == text(p) + StackText(text, stack)
    ensures Weight(weight, stack + [p]) == weight(p) + Weight(weight, stack)
  {
    assert (stack + [p])[..|stack|] == stack;
  }

  /** The text and weight of a stack split in two. */
  lemma {:induction false} StackAppend<T>(text: T -> string, weight: T -> nat, x: seq<T>, y: seq<T>)
    ensures StackText(text, x + y) == StackText(text, y) + StackText(text, x)
    ensures Weight(weight, x + y) == Weight(weight, y) + Weight(weight, x)
    decreases |y|
  {
    if |y| == 0 {
      assert x + y == x;
    } else {
      var y' := y[..|y| - 1];
      var last := y[|y| - 1];
      StackAppend(text, weight, x, y');
      assert x + y == (x + y') + [last];
      PushPart(text, weight, x + y', last);
      assert y == y' + [last];
      PushPart(text, weight, y', last);
    }
  }

  /** The text and weight of parts pushed in order. */
  lemma FourParts<T>(text: T -> string, weight: T -> nat, p0: T, p1: T, p2: T, p3: T)
    ensures StackText(text, [p0, p1, p2, p3]) == text(p3) + text(p2) + text(p1) + text(p0)
    ensures Weight(weight, [p0, p1, p2, p3]) == weight(p0) + weight(p1) + weight(p2) + weight(p3)
  {
    PushPart(text, weight, [], p0);
    PushPart(text, weight, [p0], p1);
    PushPart(text, weight, [p0, p1], p2);
    PushPart(text, weight, [p0, p1, p2], p3);
    assert [] + [p0] == [p0] && [p0] + [p1] == [p0, p1] && [p0, p1] + [p2] == [p0, p1, p2];
    assert [p0, p1, p2] + [p3] == [p0, p1, p2, p3];
  }

  lemma FiveParts<T>(text: T -> string, weight: T -> nat, p0: T, p1: T, p2: T, p3: T, p4: T)
    ensures StackText(text, [p0, p1, p2, p3, p4]) == text(p4) + text(p3) + text(p2) + text(p1) + text(p0)
    ensures Weight(weight, [p0, p1, p2, p3, p4]) == weight(p0) + weight(p1) + weight(p2) + weight(p3) + weight(p4)
  {
    FourParts(text, weight, p0, p1, p2, p3);
    PushPart(text, weight, [p0, p1, p2, p3], p4);
    assert [p0, p1, p2, p3] + [p4] == [p0, p1, p2, p3, p4];
  }

  /** The parts `show` pushes for the operation node at index `i`, in the
      order it pushes them: the closing part first, the opening part last. */
  function Pieces(a: seq<LpExprNode>, i: nat, paren: bool): (r: seq<Part>)
    requires i < |a| && a[i].LpCompExpr? && a[i].leftIndex < |a|
    ensures 4 <= |r| <= 5
  {
    var left := if paren then CharPart('(') else NoPart;
    var right := if paren then CharPart(')') else NoPart;
    var opMult := if paren then StrPart(" * ") else CharPart(' ');
    match a[i]
    case LpCompExpr(Addition, e1, e2) => [right, Elem(e2), StrPart(" + "), Elem(e1), left]
    case LpCompExpr(Subtraction, e1, e2) => [right, Elem(e2), StrPart(" - "), Elem(e1), left]
    case LpCompExpr(Multiplication, e1, e2) =>
      if a[e1] == LeafNode(LitVal(1.0)) then [right, Elem(e2), CharPart(' '), left]
      else if a[e1] == LeafNode(LitVal(-1.0)) then [right, Elem(e2), StrPart("-"), left]
      else [right, Elem(e2), opMult, Elem(e1), left]
  }

  /** One iteration of `show` on the popped part: the text it writes and the
      parts it pushes. */
  function Step(a: seq<LpExprNode>, part: Part, paren: bool, fmt: real -> string): (r: (string, seq<Part>))
    requires part.Elem? ==> part.index < |a| && (a[part.index].LpCompExpr? ==> a[part.index].leftIndex < |a|)
  {
    match part
    case NoPart => ("", [])
    case CharPart(c) => ([c], [])
    case StrPart(s) => (s, [])
    case Elem(i) =>
      match a[i]
      case LeafNode(LitVal(n)) => (fmt(n), [])
      case LeafNode(EmptyExpr) => ("EmptyExpr!!!", [])
      case LeafNode(l) => (VarName(l).value, [])
      case LpCompExpr(_, _, _) => ("", Pieces(a, i, paren))
  }

  /** `text` and `weight` are `PartText` and `PartWeight`. */
  ghost predicate Measures(a: seq<LpExprNode>, paren: bool, fmt: real -> string,
                           text: Part -> string, weight: Part -> nat) {
    (forall q :: text(q) == PartText(a, q, paren, fmt)) && (forall q :: weight(q) == PartWeight(a, q))
  }

  /** What the pieces of an operation need to know of the functions that
      render and weigh parts. */
  ghost predicate PlainParts(text: Part -> string, weight: Part -> nat) {
    text(NoPart) == "" && weight(NoPart) == 1
    && (forall c :: text(CharPart(c)) == [c] && weight(CharPart(c)) == 1)
    && (forall s :: text(StrPart(s)) == s && weight(StrPart(s)) == 1)
  }

  /** The pieces render as the operation, for any rendering of the parts
      that renders the operands as their trees. */
  lemma OpPieces(a: seq<LpExprNode>, i: nat, t: Expr, paren: bool, fmt: real -> string,
                 text: Part -> string, weight: Part -> nat)
    requires i < |a| && a[i].LpCompExpr? && a[i].leftIndex < |a|
    requires t.Comp? && t.op == a[i].op
    requires a[a[i].leftIndex] == LeafNode(LitVal(1.0)) <==> t.left == Lit(1.0)
    requires a[a[i].leftIndex] == LeafNode(LitVal(-1.0)) <==> t.left == Lit(-1.0)
    requires PlainParts(text, weight)
    requires text(Elem(i)) == ShowTree(t, paren, fmt) && weight(Elem(i)) == 4 * Size(t)
    requires text(Elem(a[i].leftIndex)) == ShowTree(t.left, paren, fmt) && weight(Elem(a[i].leftIndex)) == 4 * Size(t.left)
    requires text(Elem(a[i].rightIndex)) == ShowTree(t.right, paren, fmt) && weight(Elem(a[i].rightIndex)) == 4 * Size(t.right)
    ensures StackText(text, Pieces(a, i, paren)) == text(Elem(i))
    ensures Weight(weight, Pieces(a, i, paren)) < weight(Elem(i))
  {
    var e1, e2 := a[i].leftIndex, a[i].rightIndex;
    var left := if paren then CharPart('(') else NoPart;
    var right := if paren then CharPart(')') else NoPart;
    assert text(left) == (if paren then "(" else "") && weight(left) == 1;
    assert text(right) == (if paren then ")" else "") && weight(right) == 1;
    var p := Pieces(a, i, paren);
    if t.op.Multiplication? && t.left == Lit(1.0) {
      assert p == [right, Elem(e2), CharPart(' '), left];
      assert text(CharPart(' ')) == " " && weight(CharPart(' ')) == 1;
      FourParts(text, weight, right, Elem(e2), CharPart(' '), left);
    } else if t.op.Multiplication? && t.left == Lit(-1.0) {
      assert p == [right, Elem(e2), StrPart("-"), left];
      assert text(StrPart("-")) == "-" && weight(StrPart("-")) == 1;
      FourParts(text, weight, right, Elem(e2), StrPart("-"), left);
    } else {
      var middle := p[2];
      assert p == [right, Elem(e2), middle, Elem(e1), left];
      assert middle.CharPart? || middle.StrPart?;
      assert weight(middle) == 1;
      FiveParts(text, weight, right, Elem(e2), middle, Elem(e1), left);
    }
  }

  /** The text of an index holding a tree. */
  lemma ElemText(a: seq<LpExprNode>, i: nat, t: Expr, paren: bool, fmt: real -> string)
    requires TreeAt(a, i, |a|) == Some(t)
    ensures PartText(a, Elem(i), paren, fmt) == ShowTree(t, paren, fmt)
    ensures PartWeight(a, Elem(i)) == 4 * Size(t)
  {
  }

  /** The operands of a complete operation node, as trees and as text. */
  lemma OperandFacts(a: seq<LpExprNode>, i: nat, t: Expr, paren: bool, fmt: real -> string)
    requires TreeAt(a, i, |a|) == Some(t) && a[i].LpCompExpr?
    ensures a[i].leftIndex < |a| && a[i].rightIndex < |a|
    ensures t.Comp? && t.op == a[i].op
    ensures TreeAt(a, a[i].leftIndex, |a|) == Some(t.left)
    ensures TreeAt(a, a[i].rightIndex, |a|) == Some(t.right)
    ensures a[a[i].leftIndex] == LeafNode(LitVal(1.0)) <==> t.left == Lit(1.0)
    ensures a[a[i].leftIndex] == LeafNode(LitVal(-1.0)) <==> t.left == Lit(-1.0)
  {
    ChildrenComplete(a, i);
  }

  /** Every expression index among the pieces can be read. */
  lemma PiecesReadable(a: seq<LpExprNode>, i: nat, paren: bool)
    requires i < |a| && a[i].LpCompExpr? && a[i].leftIndex < |a|
    requires TreeAt(a, a[i].leftIndex, |a|).Some? && TreeAt(a, a[i].rightIndex, |a|).Some?
    ensures Readable(a, Pieces(a, i, paren))
  {
    var p := Pieces(a, i, paren);
    forall k | 0 <= k < |p| && p[k].Elem?
      ensures TreeAt(a, p[k].index, |a|).Some?
    {
      assert p[k].index == a[i].leftIndex || p[k].index == a[i].rightIndex;
    }
  }

  /** The pieces of an operation node render as the operation. */
  lemma PiecesText(a: seq<LpExprNode>, i: nat, paren: bool, fmt: real -> string,
                   text: Part -> string, weight: Part -> nat)
    requires TreeAt(a, i, |a|).Some? && a[i].LpCompExpr?
    requires Measures(a, paren, fmt, text, weight)
    ensures a[i].leftIndex < |a|
    ensures Readable(a, Pieces(a, i, paren))
    ensures StackText(text, Pieces(a, i, paren)) == text(Elem(i))
    ensures Weight(weight, Pieces(a, i, paren)) < weight(Elem(i))
  {
    var t := TreeAt(a, i, |a|).value;
    OperandFacts(a, i, t, paren, fmt);
    ElemText(a, i, t, paren, fmt);
    ElemText(a, a[i].leftIndex, t.left, paren, fmt);
    ElemText(a, a[i].rightIndex, t.right, paren, fmt);
    assert PlainParts(text, weight);
    OpPieces(a, i, t, paren, fmt, text, weight);
    PiecesReadable(a, i, paren);
  }

  /** A part that is not an operation node writes its text and pushes nothing. */
  lemma StepFlat(a: seq<LpExprNode>, part: Part, paren: bool, fmt: real -> string,
                 text: Part -> string, weight: Part -> nat)
    requires part.Elem? ==> TreeAt(a, part.index, |a|).Some? && a[part.index].LeafNode?
    requires Measures(a, paren, fmt, text, weight)
    ensures part.Elem? ==> part.index < |a|
    ensures Step(a, part, paren, fmt).1 == []
    ensures text(part) == Step(a, part, paren, fmt).0
  {
    if part.Elem? {
      var t := Leaf(a[part.index].leaf);
      assert TreeAt(a, part.index, |a|) == Some(t);
      ElemText(a, part.index, t, paren, fmt);
    }
  }

  /** One iteration writes the text of the popped part, save what the parts
      it pushes will write, and those parts weigh less. */
  lemma StepText(a: seq<LpExprNode>, part: Part, paren: bool, fmt: real -> string,
                 text: Part -> string, weight: Part -> nat)
    requires part.Elem? ==> TreeAt(a, part.index, |a|).Some?
    requires Measures(a, paren, fmt, text, weight)
    ensures part.Elem? ==> part.index < |a| && (a[part.index].LpCompExpr? ==> a[part.index].leftIndex < |a|)
    ensures Readable(a, Step(a, part, paren, fmt).1)
    ensures text(part) == Step(a, part, paren, fmt).0 + StackText(text, Step(a, part, paren, fmt).1)
    ensures Weight(weight, Step(a, part, paren, fmt).1) < weight(part)
  {
    var (out, pushed) := Step(a, part, paren, fmt);
    if part.Elem? && a[part.index].LpCompExpr? {
      PiecesText(a, part.index, paren, fmt, text, weight);
      assert out == "" && pushed == Pieces(a, part.index, paren);
      assert text(part) == out + StackText(text, pushed);
    } else {
      StepFlat(a, part, paren, fmt, text, weight);
      assert pushed == [] && StackText(text, pushed) == "" && Weight(weight, pushed) == 0;
      assert text(part) == out + StackText(text, pushed);
      assert weight(part) >= 1;
    }
  }

  lemma ReadableAppend(a: seq<LpExprNode>, x: seq<Part>, y: seq<Part>)
    requires Readable(a, x) && Readable(a, y)
    ensures Readable(a, x + y)
  {
    forall k | 0 <= k < |x + y| && (x + y)[k].Elem?
      ensures TreeAt(a, (x + y)[k].index, |a|).Some?
    {
      if k >= |x| {
        assert (x + y)[k] == y[k - |x|];
      }
    }
  }

  /** A readable part can be stepped. */
  lemma StepDefined(a: seq<LpExprNode>, part: Part)
    requires part.Elem? ==> TreeAt(a, part.index, |a|).Some?
    ensures part.Elem? ==> part.index < |a| && (a[part.index].LpCompExpr? ==> a[part.index].leftIndex < |a|)
  {
    if part.Elem? && a[part.index].LpCompExpr? {
      ChildrenComplete(a, part.index);
    }
  }

  /** Replacing the top of a stack by what it writes and what it pushes
      keeps the text to come and lightens the stack. */
  lemma StackStep<T>(text: T -> string, weight: T -> nat, rest: seq<T>, top: T,
                     result: string, goal: string, out: string, pushed: seq<T>)
    requires result + StackText(text, rest + [top]) == goal
    requires text(top) == out + StackText(text, pushed)
    requires Weight(weight, pushed) < weight(top)
    ensures (result + out) + StackText(text, rest + pushed) == goal
    ensures Weight(weight, rest + pushed) < Weight(weight, rest + [top])
  {
    PushPart(text, weight, rest, top);
    StackAppend(text, weight, rest, pushed);
  }

  /** Popping a readable stack and pushing readable parts leaves it readable. */
  lemma ReadableStep(a: seq<LpExprNode>, rest: seq<Part>, part: Part, pushed: seq<Part>)
    requires Readable(a, rest + [part]) && Readable(a, pushed)
    ensures Readable(a, rest + pushed)
    ensures part.Elem? ==> TreeAt(a, part.index, |a|).Some?
  {
    assert (rest + [part])[|rest|] == part;
    assert Readable(a, rest) by {
      forall k | 0 <= k < |rest| && rest[k].Elem?
        ensures TreeAt(a, rest[k].index, |a|).Some?
      {
        assert (rest + [part])[k] == rest[k];
      }
    }
    ReadableAppend(a, rest, pushed);
  }

  /** `show`: pops parts off a stack, writing characters and strings, and
      replacing an expression index by its pieces, pushed in reverse order. */
  method Show(a: seq<LpExprNode>, e: nat, paren: bool, fmt: real -> string) returns (result: string)
    requires TreeAt(a, e, |a|).Some?
    ensures result == ShowTree(TreeAt(a, e, |a|).value, paren, fmt)
  {
    ghost var text := (q: Part) => PartText(a, q, paren, fmt);
    ghost var weight := (q: Part) => PartWeight(a, q);
    ghost var goal := ShowTree(TreeAt(a, e, |a|).value, paren, fmt);
    assert Measures(a, paren, fmt, text, weight);
    PushPart(text, weight, [], Elem(e));
    var remaining := [] + [Elem(e)];
    result := "";
    while |remaining| > 0
      invariant Readable(a, remaining)
      invariant result + StackText(text, remaining) == goal
      decreases Weight(weight, remaining)
    {
      var part := remaining[|remaining| - 1];
      var rest := remaining[..|remaining| - 1];
      assert remaining == rest + [part];
      assert part.Elem? ==> TreeAt(a, part.index, |a|).Some?;
      StepDefined(a, part);
      var (out, pushed) := Step(a, part, paren, fmt);
      StepText(a, part, paren, fmt, text, weight);
      StackStep(text, weight, rest, part, result, goal, out, pushed);
      ReadableStep(a, rest, part, pushed);
      result := result + out;
      remaining := rest + pushed;
    }
  }
}
