/** The `simplifications` and `simplify_deep_sum` tests of
    src/dsl/variables.rs, followed through the model: `(a - 2) + (1 - a)` and
    `(1 - a) + (a - 2)` both simplify to an expression whose constant term is
    -1, and a left-nested sum of terms `v * 2 + 1` to one whose constant term
    is the number of terms (followed through for two terms; for any number,
    the constant and the rest at zero add up to it).

    Whether the outer loop stops after a round depends on how numbers are
    written, so the number formatting is only assumed to write digits, a
    point and a minus sign, as `f32`'s `Display` does. Both orders are
    followed round by round; the rounds after the text settles end in the
    same constant whichever round the loop stops at. */
module SimplifyExamples {
  import opened Wrappers
  import opened Vars
  import opened Tree
  import opened Arena
  import opened Show
  import opened Simplify
  import opened Constraints

  /** The characters `f32`'s `Display` writes. */
  predicate NumericText(s: string) {
    forall k :: 0 <= k < |s| ==> s[k] in "0123456789.-"
  }

  /** The integer variable `a` of the test, as a leaf. */
  function VarA(): Expr {
    Leaf(ConsInt(NewInteger("a")))
  }

  /** `a - 2` and `1 - a`, as the operators build them. */
  function AMinusTwo(): Expr {
    Comp(Subtraction, VarA(), Lit(2.0))
  }

  function OneMinusA(): Expr {
    Comp(Subtraction, Lit(1.0), VarA())
  }

  /** The text of the tree before the first round names `a`; after it, the
      tree holds only literals, so the first round always changes the text. */
  lemma FirstRoundChangesText(t: Expr, t1: Expr, fmt: real -> string)
    requires forall x :: NumericText(fmt(x))
    requires t == Comp(Addition, AMinusTwo(), OneMinusA()) || t == Comp(Addition, OneMinusA(), AMinusTwo())
    requires t1 == Comp(Addition, Comp(Subtraction, Lit(0.0), Lit(2.0)), Lit(1.0))
          || t1 == Comp(Subtraction, Comp(Addition, Lit(0.0), Lit(1.0)), Lit(2.0))
    ensures !SameText(t1, t, fmt)
  {
    assert ShowTree(VarA(), true, fmt) == "a";
    assert 'a' in ShowTree(t, true, fmt);
    LiteralHasNoLetter(fmt, 0.0);
    LiteralHasNoLetter(fmt, 1.0);
    LiteralHasNoLetter(fmt, 2.0);
    assert 'a' !in ShowTree(t1, true, fmt);
  }

  /** A number's text has no letter `a`. */
  lemma LiteralHasNoLetter(fmt: real -> string, x: real)
    requires forall x :: NumericText(fmt(x))
    ensures 'a' !in fmt(x)
  {
    assert NumericText(fmt(x));
  }

  /** A turn of the inner loop with a single path on the stack. */
  lemma RoundStep(t: Expr, p: seq<Dir>, n: Expr, n': Expr, qs: seq<seq<Dir>>, fuel: nat)
    requires fuel > 0 && At(t, p) == Some(n) && Rule(n) == (n', qs)
    ensures Round(t, [p], fuel) == Round(Put(t, p, n'), Extend(p, qs), fuel - 1)
  {
    var stack := [p];
    assert stack[|stack| - 1] == p && stack[..|stack| - 1] == [];
    assert stack[..|stack| - 1] + Extend(p, qs) == Extend(p, qs);
  }

  /** A turn of the inner loop, whatever lies below the top of the stack. */
  lemma RoundStepOn(t: Expr, rest: seq<seq<Dir>>, p: seq<Dir>, n: Expr, n': Expr, qs: seq<seq<Dir>>, fuel: nat)
    requires fuel > 0 && At(t, p) == Some(n) && Rule(n) == (n', qs)
    ensures Round(t, rest + [p], fuel) == Round(Put(t, p, n'), rest + Extend(p, qs), fuel - 1)
  {
    var stack := rest + [p];
    assert stack[|stack| - 1] == p && stack[..|stack| - 1] == rest;
  }

  /** Pushing one relative path. */
  lemma ExtendOne(p: seq<Dir>, q: seq<Dir>)
    ensures Extend(p, [q]) == [p + q]
  {
    assert [q][1..] == [];
  }

  /** The visits of the first round on `(a - 2) + (1 - a)`, one rule each. */
  lemma FirstRulesAMinusTwoFirst()
    ensures Rule(Comp(Addition, AMinusTwo(), OneMinusA()))
         == (Comp(Subtraction, Comp(Addition, AMinusTwo(), Lit(1.0)), VarA()), [Here])
    ensures Rule(Comp(Subtraction, Comp(Addition, AMinusTwo(), Lit(1.0)), VarA()))
         == (Comp(Addition, Comp(Subtraction, AMinusTwo(), VarA()), Lit(1.0)), [Here])
    ensures Rule(Comp(Addition, Comp(Subtraction, AMinusTwo(), VarA()), Lit(1.0)))
         == (Comp(Addition, Comp(Subtraction, AMinusTwo(), VarA()), Lit(1.0)), [LeftChild])
    ensures Rule(Comp(Subtraction, AMinusTwo(), VarA()))
         == (Comp(Subtraction, Comp(Subtraction, VarA(), VarA()), Lit(2.0)), [LeftChild])
    ensures Rule(Comp(Subtraction, VarA(), VarA())) == (Lit(0.0), [])
  {
  }

  /** Pushing two relative paths. */
  lemma ExtendTwo(p: seq<Dir>, q1: seq<Dir>, q2: seq<Dir>)
    ensures Extend(p, [q1, q2]) == [p + q1, p + q2]
  {
    assert [q1, q2][1..] == [q2];
    ExtendOne(p, q2);
  }

  /** The first round on `(a - 2) + (1 - a)`: the sum of differences is
      reassociated, the `1` moves outwards, the two `a` meet and cancel. */
  lemma FirstRoundAMinusTwoFirst(fuel: nat)
    requires fuel >= 5
    ensures Round(Comp(Addition, AMinusTwo(), OneMinusA()), [Here], fuel)
         == Some(Comp(Addition, Comp(Subtraction, Lit(0.0), Lit(2.0)), Lit(1.0)))
  {
    var f1 := fuel - 1;
    var f2 := f1 - 1;
    var f3 := f2 - 1;
    var f4 := f3 - 1;
    var a, x := VarA(), AMinusTwo();
    FirstRulesAMinusTwoFirst();
    ExtendOne(Here, Here);
    ExtendOne(Here, LeftChild);
    ExtendOne([Left], LeftChild);
    assert Here + Here == Here && Here + LeftChild == [Left] && [Left] + LeftChild == [Left, Left];
    assert Extend([Left, Left], []) == [];
    var t0 := Comp(Addition, x, OneMinusA());
    var u1 := Comp(Subtraction, Comp(Addition, x, Lit(1.0)), a);
    var u2 := Comp(Addition, Comp(Subtraction, x, a), Lit(1.0));
    var x' := Comp(Subtraction, Comp(Subtraction, a, a), Lit(2.0));
    var u3 := Comp(Addition, x', Lit(1.0));
    var u4 := Comp(Addition, Comp(Subtraction, Lit(0.0), Lit(2.0)), Lit(1.0));
    RoundStep(t0, Here, t0, u1, [Here], fuel);
    RoundStep(u1, Here, u1, u2, [Here], f1);
    RoundStep(u2, Here, u2, u2, [LeftChild], f2);
    assert At(u2, [Left]) == Some(Comp(Subtraction, x, a));
    assert Put(u2, [Left], x') == u3;
    RoundStep(u2, [Left], Comp(Subtraction, x, a), x', [LeftChild], f3);
    assert At(u3, [Left, Left]) == Some(Comp(Subtraction, a, a));
    assert Put(u3, [Left, Left], Lit(0.0)) == u4;
    RoundStep(u3, [Left, Left], Comp(Subtraction, a, a), Lit(0.0), [], f4);
  }

  /** The visits of the first round on `(1 - a) + (a - 2)`, one rule each. */
  lemma FirstRulesOneMinusAFirst()
    ensures Rule(Comp(Addition, OneMinusA(), AMinusTwo()))
         == (Comp(Subtraction, Comp(Addition, OneMinusA(), VarA()), Lit(2.0)), [Here])
    ensures Rule(Comp(Subtraction, Comp(Addition, OneMinusA(), VarA()), Lit(2.0)))
         == (Comp(Subtraction, Comp(Addition, OneMinusA(), VarA()), Lit(2.0)), [LeftChild])
    ensures Rule(Comp(Addition, OneMinusA(), VarA()))
         == (Comp(Addition, Comp(Subtraction, VarA(), VarA()), Lit(1.0)), [LeftChild])
    ensures Rule(Comp(Subtraction, VarA(), VarA())) == (Lit(0.0), [])
  {
  }

  /** The first round on `(1 - a) + (a - 2)`: the difference on the right is
      reassociated, the `1` moves outwards, the two `a` meet and cancel. */
  lemma FirstRoundOneMinusAFirst(fuel: nat)
    requires fuel >= 4
    ensures Round(Comp(Addition, OneMinusA(), AMinusTwo()), [Here], fuel)
         == Some(Comp(Subtraction, Comp(Addition, Lit(0.0), Lit(1.0)), Lit(2.0)))
  {
    var f1 := fuel - 1;
    var f2 := f1 - 1;
    var f3 := f2 - 1;
    var a, y := VarA(), OneMinusA();
    FirstRulesOneMinusAFirst();
    ExtendOne(Here, Here);
    ExtendOne(Here, LeftChild);
    ExtendOne([Left], LeftChild);
    assert Here + Here == Here && Here + LeftChild == [Left] && [Left] + LeftChild == [Left, Left];
    assert Extend([Left, Left], []) == [];
    var t0 := Comp(Addition, y, AMinusTwo());
    var v1 := Comp(Subtraction, Comp(Addition, y, a), Lit(2.0));
    var y' := Comp(Addition, Comp(Subtraction, a, a), Lit(1.0));
    var v2 := Comp(Subtraction, y', Lit(2.0));
    var v3 := Comp(Subtraction, Comp(Addition, Lit(0.0), Lit(1.0)), Lit(2.0));
    RoundStep(t0, Here, t0, v1, [Here], fuel);
    RoundStep(v1, Here, v1, v1, [LeftChild], f1);
    assert At(v1, [Left]) == Some(Comp(Addition, y, a));
    assert Put(v1, [Left], y') == v2;
    RoundStep(v1, [Left], Comp(Addition, y, a), y', [LeftChild], f2);
    assert At(v2, [Left, Left]) == Some(Comp(Subtraction, a, a));
    assert Put(v2, [Left, Left], Lit(0.0)) == v3;
    RoundStep(v2, [Left, Left], Comp(Subtraction, a, a), Lit(0.0), [], f3);
  }

  /** A round on a literal leaves it alone. */
  lemma RoundLiteral(c: real, fuel: nat)
    requires fuel >= 1
    ensures Round(Lit(c), [Here], fuel) == Some(Lit(c))
  {
    assert Extend(Here, []) == [];
    RoundStep(Lit(c), Here, Lit(c), Lit(c), [], fuel);
  }

  /** The later rounds on `(a - 2) + (1 - a)`: `(0 - 2) + 1` gathers to
      `0 + -1`, which drops its zero. */
  lemma LaterRoundsAMinusTwoFirst(fuel: nat)
    requires fuel >= 2
    ensures Round(Comp(Addition, Comp(Subtraction, Lit(0.0), Lit(2.0)), Lit(1.0)), [Here], fuel)
         == Some(Comp(Addition, Lit(0.0), Lit(-1.0)))
    ensures Round(Comp(Addition, Lit(0.0), Lit(-1.0)), [Here], fuel) == Some(Lit(-1.0))
  {
    var f1 := fuel - 1;
    var t1 := Comp(Addition, Comp(Subtraction, Lit(0.0), Lit(2.0)), Lit(1.0));
    var w := Comp(Addition, Lit(0.0), Lit(-1.0));
    ExtendOne(Here, Here);
    ExtendOne(Here, LeftChild);
    assert Here + Here == Here && Here + LeftChild == [Left];
    assert Extend([Left], []) == [] && Extend(Here, []) == [];
    assert Rule(t1) == (w, [LeftChild]);
    RoundStep(t1, Here, t1, w, [LeftChild], fuel);
    assert At(w, [Left]) == Some(Lit(0.0)) && Put(w, [Left], Lit(0.0)) == w;
    RoundStep(w, [Left], Lit(0.0), Lit(0.0), [], f1);
    assert Rule(w) == (Lit(-1.0), [Here]);
    RoundStep(w, Here, w, Lit(-1.0), [Here], fuel);
    RoundStep(Lit(-1.0), Here, Lit(-1.0), Lit(-1.0), [], f1);
  }

  /** The later round on `(1 - a) + (a - 2)`: `(0 + 1) - 2` gathers to
      `0 + -1`, which drops its zero. */
  lemma LaterRoundOneMinusAFirst(fuel: nat)
    requires fuel >= 3
    ensures Round(Comp(Subtraction, Comp(Addition, Lit(0.0), Lit(1.0)), Lit(2.0)), [Here], fuel)
         == Some(Lit(-1.0))
  {
    var f1 := fuel - 1;
    var f2 := f1 - 1;
    var t1 := Comp(Subtraction, Comp(Addition, Lit(0.0), Lit(1.0)), Lit(2.0));
    var w := Comp(Addition, Lit(0.0), Lit(-1.0));
    ExtendOne(Here, Here);
    assert Here + Here == Here;
    assert Extend(Here, []) == [];
    assert Rule(t1) == (w, [Here]);
    RoundStep(t1, Here, t1, w, [Here], fuel);
    assert Rule(w) == (Lit(-1.0), [Here]);
    RoundStep(w, Here, w, Lit(-1.0), [Here], f1);
    RoundStep(Lit(-1.0), Here, Lit(-1.0), Lit(-1.0), [], f2);
  }

  /** One turn of the outer loop, from a known round. */
  lemma SimplifyStep(t: Expr, t1: Expr, fmt: real -> string, fuel: nat)
    requires fuel > 0 && Round(t, [Here], fuel) == Some(t1)
    ensures SimplifyTree(t, fmt, fuel)
         == if SameText(t1, t, fmt) then Some(t1) else SimplifyTree(t1, fmt, fuel - 1)
  {
  }

  /** `(a - 2) + (1 - a)` simplifies, within five rounds' worth of fuel, to
      `0 + -1` or to `-1`, depending on how the formatting writes them; the
      constant `split_off_constant` takes off is -1 either way. */
  lemma SimplifiesAMinusTwoFirst(fmt: real -> string, fuel: nat)
    requires forall x :: NumericText(fmt(x))
    requires fuel >= 5
    ensures var r := SimplifyTree(Comp(Addition, AMinusTwo(), OneMinusA()), fmt, fuel);
      r.Some? && SplitTree(r.value).1 == -1.0
  {
    var f1 := fuel - 1;
    var f2 := f1 - 1;
    var f3 := f2 - 1;
    var t0 := Comp(Addition, AMinusTwo(), OneMinusA());
    var t1 := Comp(Addition, Comp(Subtraction, Lit(0.0), Lit(2.0)), Lit(1.0));
    var w := Comp(Addition, Lit(0.0), Lit(-1.0));
    FirstRoundAMinusTwoFirst(fuel);
    FirstRoundChangesText(t0, t1, fmt);
    SimplifyStep(t0, t1, fmt, fuel);
    LaterRoundsAMinusTwoFirst(f1);
    SimplifyStep(t1, w, fmt, f1);
    LaterRoundsAMinusTwoFirst(f2);
    SimplifyStep(w, Lit(-1.0), fmt, f2);
    RoundLiteral(-1.0, f3);
    SimplifyStep(Lit(-1.0), Lit(-1.0), fmt, f3);
  }

  /** `(1 - a) + (a - 2)` simplifies, within five rounds' worth of fuel, to
      the literal -1, the constant `split_off_constant` takes off. */
  lemma SimplifiesOneMinusAFirst(fmt: real -> string, fuel: nat)
    requires forall x :: NumericText(fmt(x))
    requires fuel >= 5
    ensures SimplifyTree(Comp(Addition, OneMinusA(), AMinusTwo()), fmt, fuel) == Some(Lit(-1.0))
    ensures SplitTree(Lit(-1.0)).1 == -1.0
  {
    var f1 := fuel - 1;
    var f2 := f1 - 1;
    var t0 := Comp(Addition, OneMinusA(), AMinusTwo());
    var t1 := Comp(Subtraction, Comp(Addition, Lit(0.0), Lit(1.0)), Lit(2.0));
    FirstRoundOneMinusAFirst(fuel);
    FirstRoundChangesText(t0, t1, fmt);
    SimplifyStep(t0, t1, fmt, fuel);
    LaterRoundOneMinusAFirst(f1);
    SimplifyStep(t1, Lit(-1.0), fmt, f1);
    RoundLiteral(-1.0, f2);
    SimplifyStep(Lit(-1.0), Lit(-1.0), fmt, f2);
  }

  /** The `simplifications` test on arenas: any arena holding either sum
      simplifies, and `split_off_constant` then takes off -1. */
  lemma Simplifications(e: LpExpression, fmt: real -> string, fuel: nat)
    requires Denote(e) == Some(Comp(Addition, AMinusTwo(), OneMinusA()))
          || Denote(e) == Some(Comp(Addition, OneMinusA(), AMinusTwo()))
    requires forall x :: NumericText(fmt(x))
    requires fuel >= 5
    ensures SimplifyExpr(e, fmt, fuel).Ok?
    ensures SplitOffConstant(SimplifyExpr(e, fmt, fuel).value).Ok?
    ensures SplitOffConstant(SimplifyExpr(e, fmt, fuel).value).value.1 == -1.0
  {
    SimplifiesAMinusTwoFirst(fmt, fuel);
    SimplifiesOneMinusAFirst(fmt, fuel);
  }

  // simplify_deep_sum

  /** `&LpInteger::new(name) * 2 + 1`, one term of the deep sum. */
  function Term(name: string): Expr {
    Comp(Addition, Times2(name), Lit(1.0))
  }

  /** The terms for the given variable names, in order. */
  function Terms(names: seq<string>): (ts: seq<Expr>)
    ensures |ts| == |names|
    ensures forall k :: 0 <= k < |names| ==> ts[k] == Term(names[k])
  {
    if |names| == 0 then [] else [Term(names[0])] + Terms(names[1..])
  }

  /** Every term is worth 1 when no variable has a value, so the sum is worth
      the number of terms. */
  lemma {:induction false} TermsTotal(names: seq<string>)
    ensures Total(Terms(names), map[]) == |names| as real
  {
    if |names| > 0 {
      var name := names[0];
      assert Terms(names)[1..] == Terms(names[1..]);
      var v := ConsInt(NewInteger(name));
      assert VarName(v) == Some(name);
      assert LeafValue(v, map[]) == 0.0;
      assert Eval(Comp(Multiplication, Leaf(v), Lit(2.0)), map[]) == 0.0;
      assert Eval(Term(name), map[]) == 1.0;
      TermsTotal(names[1..]);
    }
  }

  /** Whatever the deep sum simplifies to, the constant `split_off_constant`
      takes off plus what the rest is worth with every variable at 0 is the
      number of terms. */
  lemma DeepSumCount(names: seq<string>, fmt: real -> string, fuel: nat)
    requires |names| > 0 && SimplifyTree(SumTree(Terms(names)), fmt, fuel).Some?
    ensures var (rest, c) := SplitTree(SimplifyTree(SumTree(Terms(names)), fmt, fuel).value);
      c + (if rest.Some? then Eval(rest.value, map[]) else 0.0) == |names| as real
  {
    var t := SumTree(Terms(names));
    SimplifyEval(t, fmt, fuel, map[]);
    SplitTreeValue(SimplifyTree(t, fmt, fuel).value, map[]);
    SumTreeEval(Terms(names), map[]);
    TermsTotal(names);
  }

  /** The products `2 * v` the deep sum turns `v * 2` into. */
  function Doubled(name: string): Expr {
    Comp(Multiplication, Lit(2.0), Leaf(ConsInt(NewInteger(name))))
  }

  /** `v * 2`, before the literal moves first. */
  function Times2(name: string): Expr {
    Comp(Multiplication, Leaf(ConsInt(NewInteger(name))), Lit(2.0))
  }

  /** The trees the first round on the deep sum of `v0` and `v1` passes
      through. */
  function DeepStart(): Expr {
    Comp(Addition, Term("v0"), Term("v1"))
  }

  function DeepA(): Expr {
    Comp(Addition, Comp(Addition, Term("v0"), Times2("v1")), Lit(1.0))
  }

  function DeepB(): Expr {
    Comp(Addition, Comp(Addition, Comp(Addition, Times2("v0"), Times2("v1")), Lit(1.0)), Lit(1.0))
  }

  function DeepC(): Expr {
    Comp(Addition, Comp(Addition, Comp(Addition, Times2("v0"), Doubled("v1")), Lit(1.0)), Lit(1.0))
  }

  /** The sum of the first round on the deep sum of `v0` and `v1`. */
  function DeepOne(): Expr {
    Comp(Addition, Comp(Addition, Comp(Addition, Doubled("v0"), Doubled("v1")), Lit(1.0)), Lit(1.0))
  }

  /** What it settles to: `(2 v0 + 2 v1) + 2`. */
  function DeepTwo(): Expr {
    Comp(Addition, Comp(Addition, Doubled("v0"), Doubled("v1")), Lit(2.0))
  }

  /** The second term is split off its constant. */
  lemma DeepVisit1(fuel: nat)
    requires fuel > 0
    ensures Round(DeepStart(), [Here], fuel) == Round(DeepA(), [Here], fuel - 1)
  {
    assert At(DeepStart(), Here) == Some(DeepStart());
    assert Rule(DeepStart()) == (DeepA(), [Here]);
    assert Put(DeepStart(), Here, DeepA()) == DeepA();
    ExtendOne(Here, Here);
    assert Here + Here == Here;
    assert [] + Extend(Here, [Here]) == [Here];
    assert [] + [Here] == [Here];
    RoundStepOn(DeepStart(), [], Here, DeepStart(), DeepA(), [Here], fuel);
  }

  /** The constant waits for the left operand. */
  lemma DeepVisit2(fuel: nat)
    requires fuel > 0
    ensures Round(DeepA(), [Here], fuel) == Round(DeepA(), [[Left]], fuel - 1)
  {
    assert At(DeepA(), Here) == Some(DeepA());
    assert Rule(DeepA()) == (DeepA(), [LeftChild]);
    assert Put(DeepA(), Here, DeepA()) == DeepA();
    ExtendOne(Here, LeftChild);
    assert Here + LeftChild == [Left];
    assert [] + Extend(Here, [LeftChild]) == [[Left]];
    assert [] + [Here] == [Here];
    RoundStepOn(DeepA(), [], Here, DeepA(), DeepA(), [LeftChild], fuel);
  }

  /** The first term's constant moves outwards. */
  lemma DeepVisit3(fuel: nat)
    requires fuel > 0
    ensures Round(DeepA(), [[Left]], fuel) == Round(DeepB(), [[Left, Left]], fuel - 1)
  {
    assert At(DeepA(), [Left]) == Some(Comp(Addition, Term("v0"), Times2("v1")));
    assert Rule(Comp(Addition, Term("v0"), Times2("v1"))) == (Comp(Addition, Comp(Addition, Times2("v0"), Times2("v1")), Lit(1.0)), [LeftChild]);
    assert Put(DeepA(), [Left], Comp(Addition, Comp(Addition, Times2("v0"), Times2("v1")), Lit(1.0))) == DeepB();
    ExtendOne([Left], LeftChild);
    assert [Left] + LeftChild == [Left, Left];
    assert [] + Extend([Left], [LeftChild]) == [[Left, Left]];
    assert [] + [[Left]] == [[Left]];
    RoundStepOn(DeepA(), [], [Left], Comp(Addition, Term("v0"), Times2("v1")), Comp(Addition, Comp(Addition, Times2("v0"), Times2("v1")), Lit(1.0)), [LeftChild], fuel);
  }

  /** The sum of the two products descends into both. */
  lemma DeepVisit4(fuel: nat)
    requires fuel > 0
    ensures Round(DeepB(), [[Left, Left]], fuel) == Round(DeepB(), [[Left, Left, Left], [Left, Left, Right]], fuel - 1)
  {
    assert At(DeepB(), [Left, Left]) == Some(Comp(Addition, Times2("v0"), Times2("v1")));
    assert Rule(Comp(Addition, Times2("v0"), Times2("v1"))) == (Comp(Addition, Times2("v0"), Times2("v1")), [LeftChild, RightChild]);
    assert Put(DeepB(), [Left, Left], Comp(Addition, Times2("v0"), Times2("v1"))) == DeepB();
    ExtendTwo([Left, Left], LeftChild, RightChild);
    assert [Left, Left] + LeftChild == [Left, Left, Left] && [Left, Left] + RightChild == [Left, Left, Right];
    assert [] + Extend([Left, Left], [LeftChild, RightChild]) == [[Left, Left, Left], [Left, Left, Right]];
    assert [] + [[Left, Left]] == [[Left, Left]];
    RoundStepOn(DeepB(), [], [Left, Left], Comp(Addition, Times2("v0"), Times2("v1")), Comp(Addition, Times2("v0"), Times2("v1")), [LeftChild, RightChild], fuel);
  }

  /** `v1 * 2` puts its literal first. */
  lemma DeepVisit5(fuel: nat)
    requires fuel > 0
    ensures Round(DeepB(), [[Left, Left, Left], [Left, Left, Right]], fuel) == Round(DeepC(), [[Left, Left, Left], [Left, Left, Right]], fuel - 1)
  {
    assert At(DeepB(), [Left, Left, Right]) == Some(Times2("v1"));
    assert Rule(Times2("v1")) == (Doubled("v1"), [Here]);
    assert Put(DeepB(), [Left, Left, Right], Doubled("v1")) == DeepC();
    ExtendOne([Left, Left, Right], Here);
    assert [Left, Left, Right] + Here == [Left, Left, Right];
    assert [[Left, Left, Left]] + Extend([Left, Left, Right], [Here]) == [[Left, Left, Left], [Left, Left, Right]];
    assert [[Left, Left, Left]] + [[Left, Left, Right]] == [[Left, Left, Left], [Left, Left, Right]];
    RoundStepOn(DeepB(), [[Left, Left, Left]], [Left, Left, Right], Times2("v1"), Doubled("v1"), [Here], fuel);
  }

  /** `2 * v1` stays. */
  lemma DeepVisit6(fuel: nat)
    requires fuel > 0
    ensures Round(DeepC(), [[Left, Left, Left], [Left, Left, Right]], fuel) == Round(DeepC(), [[Left, Left, Left]], fuel - 1)
  {
    assert At(DeepC(), [Left, Left, Right]) == Some(Doubled("v1"));
    assert Rule(Doubled("v1")) == (Doubled("v1"), []);
    assert Put(DeepC(), [Left, Left, Right], Doubled("v1")) == DeepC();
    assert [[Left, Left, Left]] + Extend([Left, Left, Right], []) == [[Left, Left, Left]];
    assert [[Left, Left, Left]] + [[Left, Left, Right]] == [[Left, Left, Left], [Left, Left, Right]];
    RoundStepOn(DeepC(), [[Left, Left, Left]], [Left, Left, Right], Doubled("v1"), Doubled("v1"), [], fuel);
  }

  /** `v0 * 2` puts its literal first. */
  lemma DeepVisit7(fuel: nat)
    requires fuel > 0
    ensures Round(DeepC(), [[Left, Left, Left]], fuel) == Round(DeepOne(), [[Left, Left, Left]], fuel - 1)
  {
    assert At(DeepC(), [Left, Left, Left]) == Some(Times2("v0"));
    assert Rule(Times2("v0")) == (Doubled("v0"), [Here]);
    assert Put(DeepC(), [Left, Left, Left], Doubled("v0")) == DeepOne();
    ExtendOne([Left, Left, Left], Here);
    assert [Left, Left, Left] + Here == [Left, Left, Left];
    assert [] + Extend([Left, Left, Left], [Here]) == [[Left, Left, Left]];
    assert [] + [[Left, Left, Left]] == [[Left, Left, Left]];
    RoundStepOn(DeepC(), [], [Left, Left, Left], Times2("v0"), Doubled("v0"), [Here], fuel);
  }

  /** `2 * v0` stays. */
  lemma DeepVisit8(fuel: nat)
    requires fuel > 0
    ensures Round(DeepOne(), [[Left, Left, Left]], fuel) == Round(DeepOne(), [], fuel - 1)
  {
    assert At(DeepOne(), [Left, Left, Left]) == Some(Doubled("v0"));
    assert Rule(Doubled("v0")) == (Doubled("v0"), []);
    assert Put(DeepOne(), [Left, Left, Left], Doubled("v0")) == DeepOne();
    assert [] + Extend([Left, Left, Left], []) == [];
    assert [] + [[Left, Left, Left]] == [[Left, Left, Left]];
    RoundStepOn(DeepOne(), [], [Left, Left, Left], Doubled("v0"), Doubled("v0"), [], fuel);
  }

  /** The first half of the first round on the deep sum of `v0` and `v1`:
      the constants move outwards. */
  lemma DeepFirstHalf(fuel: nat)
    requires fuel >= 4
    ensures Round(DeepStart(), [Here], fuel)
         == Round(DeepB(), [[Left, Left, Left], [Left, Left, Right]], fuel - 4)
  {
    var f1 := fuel - 1;
    var f2 := f1 - 1;
    var f3 := f2 - 1;
    DeepVisit1(fuel);
    DeepVisit2(f1);
    DeepVisit3(f2);
    DeepVisit4(f3);
  }

  /** The second half of the first round on the deep sum of `v0` and `v1`:
      each product puts its literal first. */
  lemma DeepSecondHalf(fuel: nat)
    requires fuel >= 4
    ensures Round(DeepB(), [[Left, Left, Left], [Left, Left, Right]], fuel)
         == Round(DeepOne(), [], fuel - 4)
  {
    var f1 := fuel - 1;
    var f2 := f1 - 1;
    var f3 := f2 - 1;
    DeepVisit5(fuel);
    DeepVisit6(f1);
    DeepVisit7(f2);
    DeepVisit8(f3);
  }

  /** The first round on the deep sum of `v0` and `v1`: the constant of the
      second term moves outwards, and each product puts its literal first. */
  lemma FirstRoundDeepSumOfTwo(fuel: nat)
    requires fuel >= 8
    ensures Round(DeepStart(), [Here], fuel) == Some(DeepOne())
  {
    var f1 := fuel - 1;
    var f2 := f1 - 1;
    var f3 := f2 - 1;
    var f4 := f3 - 1;
    DeepFirstHalf(fuel);
    DeepSecondHalf(f4);
  }

  /** Later rounds on the deep sum of `v0` and `v1`: the two constants are
      gathered, and then nothing changes. */
  lemma LaterRoundsDeepSumOfTwo(fuel: nat)
    requires fuel >= 5
    ensures Round(DeepOne(), [Here], fuel) == Some(DeepTwo())
    ensures Round(DeepTwo(), [Here], fuel) == Some(DeepTwo())
  {
    var f1 := fuel - 1;
    var f2 := f1 - 1;
    var f3 := f2 - 1;
    var f4 := f3 - 1;
    var y0, y1 := Doubled("v0"), Doubled("v1");
    var sum := Comp(Addition, y0, y1);
    assert Rule(DeepOne()) == (DeepTwo(), [Here]);
    assert Rule(DeepTwo()) == (DeepTwo(), [LeftChild]);
    assert Rule(sum) == (sum, [LeftChild, RightChild]);
    assert Rule(y0) == (y0, []) && Rule(y1) == (y1, []);
    ExtendOne(Here, Here);
    ExtendOne(Here, LeftChild);
    assert Here + Here == Here && Here + LeftChild == [Left];
    var l, ll, lr := [Left], [Left, Left], [Left, Right];
    ExtendTwo(l, LeftChild, RightChild);
    assert l + LeftChild == ll && l + RightChild == lr;
    assert Extend(ll, []) == [] && Extend(lr, []) == [];
    assert [ll, lr] == [ll] + [lr] && [ll] + [] == [ll];
    assert At(DeepTwo(), l) == Some(sum) && Put(DeepTwo(), l, sum) == DeepTwo();
    assert At(DeepTwo(), lr) == Some(y1) && Put(DeepTwo(), lr, y1) == DeepTwo();
    assert At(DeepTwo(), ll) == Some(y0) && Put(DeepTwo(), ll, y0) == DeepTwo();
    RoundStep(DeepOne(), Here, DeepOne(), DeepTwo(), [Here], fuel);
    RoundStep(DeepTwo(), Here, DeepTwo(), DeepTwo(), [LeftChild], f1);
    RoundStep(DeepTwo(), l, sum, sum, [LeftChild, RightChild], f2);
    RoundStepOn(DeepTwo(), [ll], lr, y1, y1, [], f3);
    RoundStep(DeepTwo(), ll, y0, y0, [], f4);
    RoundStep(DeepTwo(), Here, DeepTwo(), DeepTwo(), [LeftChild], fuel);
    RoundStep(DeepTwo(), l, sum, sum, [LeftChild, RightChild], f1);
    RoundStepOn(DeepTwo(), [ll], lr, y1, y1, [], f2);
    RoundStep(DeepTwo(), ll, y0, y0, [], f3);
  }

  /** Before the first round the text ends in two closing parentheses; after
      it, in a number and one, so the first round changes the text. */
  lemma FirstRoundChangesDeepSumText(fmt: real -> string)
    requires forall x :: NumericText(fmt(x))
    ensures !SameText(DeepOne(), DeepStart(), fmt)
  {
    var t0 := DeepStart();
    var a, b := ShowTree(Term("v0"), true, fmt), ShowTree(Term("v1"), true, fmt);
    ParenthesisedOperation(Term("v1"), fmt);
    var s0 := ShowTree(t0, true, fmt);
    assert s0 == "(" + a + " + " + b + ")";
    assert s0[|s0| - 2] == ')';
    var q := Comp(Addition, Comp(Addition, Doubled("v0"), Doubled("v1")), Lit(1.0));
    var one := fmt(1.0);
    assert NumericText(one);
    var s1 := ShowTree(DeepOne(), true, fmt);
    assert s1 == "(" + ShowTree(q, true, fmt) + " + " + one + ")";
    if |one| > 0 {
      assert s1[|s1| - 2] == one[|one| - 1];
    } else {
      assert s1[|s1| - 2] == ' ';
    }
  }

  /** The `simplify_deep_sum` test for two terms: `(v0 * 2 + 1) + (v1 * 2 + 1)`
      simplifies to `(2 v0 + 2 v1) + 2`, and `split_off_constant` takes off
      the number of terms. */
  lemma DeepSumOfTwo(fmt: real -> string, fuel: nat)
    requires forall x :: NumericText(fmt(x))
    requires fuel >= 10
    ensures SimplifyTree(SumTree(Terms(["v0", "v1"])), fmt, fuel) == Some(DeepTwo())
    ensures SplitTree(DeepTwo()).1 == 2.0
  {
    var f1 := fuel - 1;
    DeepStartIsSum();
    FirstRoundDeepSumOfTwo(fuel);
    FirstRoundChangesDeepSumText(fmt);
    SimplifyStep(DeepStart(), DeepOne(), fmt, fuel);
    DeepOneSettles(fmt, f1);
  }

  /** The deep sum of `v0` and `v1` as a tree. */
  lemma DeepStartIsSum()
    ensures SumTree(Terms(["v0", "v1"])) == DeepStart()
  {
    var ts := Terms(["v0", "v1"]);
    assert ts == [Term("v0"), Term("v1")] && ts[..1] == [Term("v0")];
  }

  /** From the first round's sum on, the deep sum of `v0` and `v1` settles to
      `(2 v0 + 2 v1) + 2`. */
  lemma DeepOneSettles(fmt: real -> string, fuel: nat)
    requires fuel >= 9
    ensures SimplifyTree(DeepOne(), fmt, fuel) == Some(DeepTwo())
  {
    var f1 := fuel - 1;
    LaterRoundsDeepSumOfTwo(fuel);
    SimplifyStep(DeepOne(), DeepTwo(), fmt, fuel);
    if !SameText(DeepTwo(), DeepOne(), fmt) {
      LaterRoundsDeepSumOfTwo(f1);
      SimplifyStep(DeepTwo(), DeepTwo(), fmt, f1);
    }
  }

  /** The same on arenas: the `lp_sum` of two arenas holding the terms, in
      order, simplifies, and `split_off_constant` takes off 2. */
  lemma DeepSumOfTwoSplitsOffTwo(xs: seq<LpExpression>, fmt: real -> string, fuel: nat)
    requires |xs| == 2 && Valid(xs[0]) && Valid(xs[1])
    requires Trees(xs) == Terms(["v0", "v1"])
    requires forall x :: NumericText(fmt(x))
    requires fuel >= 10
    ensures LpSum(xs).Ok? && SimplifyExpr(LpSum(xs).value, fmt, fuel).Ok?
    ensures SplitOffConstant(SimplifyExpr(LpSum(xs).value, fmt, fuel).value).Ok?
    ensures SplitOffConstant(SimplifyExpr(LpSum(xs).value, fmt, fuel).value).value.1 == 2.0
  {
    LpSumDenotes(xs);
    DeepSumOfTwo(fmt, fuel);
  }
}
