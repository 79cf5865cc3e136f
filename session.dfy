/** A calculator session run through `Parser.Eval`: with `a = 3 + 4`,
    evaluating `a` gives 7; with `b = a * 2`, evaluating `b` gives 14; with
    `a = b`, evaluating `a` is circular and `Parser.Eval` gives 0.0. */
module Session {
  import opened Tree
  import Values
  import Guard
  import Calc

  /** Every node built so far has its flag lowered. */
  ghost predicate Idle(made: set<Node>)
    reads made
  {
    forall m | m in made :: !m.active
  }

  lemma {:induction false} RegNodesWithin(regs: seq<Node?>, made: set<Node>)
    requires forall i | 0 <= i < |regs| && regs[i] != null :: regs[i].Repr <= made
    ensures RegNodes(regs) <= made
  {
    if regs != [] {
      RegNodesWithin(regs[1..], made);
    }
  }

  /** With every node idle, evaluation of `n` starts with no flag raised. */
  lemma NothingRaised(n: Node, regs: seq<Node?>, made: set<Node>)
    requires Idle(made) && n.Repr <= made
    requires forall i | 0 <= i < |regs| && regs[i] != null :: regs[i].Repr <= made
    ensures Universe(n, regs) <= made
    ensures ActiveIn(Universe(n, regs)) == {}
  {
    RegNodesWithin(regs, made);
  }

  lemma BinaryValue(n: Node, regs: seq<Node?>, path: set<Node>, x: Values.Double, y: Values.Double)
    requires WellFormed(regs) && n.Tree() && n.kind.Binary? && n !in path
    requires Stack(n.kind.lhs, regs, path + {n}) == Ok(x)
    requires Stack(n.kind.rhs, regs, path + {n}) == Ok(y)
    ensures Stack(n, regs, path) == Ok(Apply(n.kind.op, x, y))
  {
  }

  lemma NameValue(n: Node, regs: seq<Node?>, path: set<Node>, o: Outcome)
    requires WellFormed(regs) && n.Tree() && n.kind.Name? && n !in path
    requires regs[Index(n.kind.name)] != null
    requires Stack(regs[Index(n.kind.name)], regs, path + {n}) == o
    ensures Stack(n, regs, path) == o
  {
  }

  /** `3 + 4` is 7, whichever nodes are already being evaluated outside it. */
  lemma SumValue(sum: Node, regs: seq<Node?>, path: set<Node>)
    requires WellFormed(regs) && sum.Tree()
    requires sum.kind.Binary? && sum.kind.op == Plus
    requires sum.kind.lhs.kind == Literal(Values.Finite(3.0))
    requires sum.kind.rhs.kind == Literal(Values.Finite(4.0))
    requires sum !in path && sum.kind.lhs !in path && sum.kind.rhs !in path
    ensures Stack(sum, regs, path) == Ok(Values.Finite(7.0))
  {
    assert Stack(sum.kind.lhs, regs, path + {sum}) == Ok(Values.Finite(3.0));
    assert Stack(sum.kind.rhs, regs, path + {sum}) == Ok(Values.Finite(4.0));
    BinaryValue(sum, regs, path, Values.Finite(3.0), Values.Finite(4.0));
  }

  /** `eval a` with `a = 3 + 4`. */
  lemma EvalSum(e: Node, sum: Node, regs: seq<Node?>)
    requires WellFormed(regs) && e.Tree() && sum.Tree()
    requires e.kind == Name('a') && regs[0] == sum
    requires sum.kind.Binary? && sum.kind.op == Plus
    requires sum.kind.lhs.kind == Literal(Values.Finite(3.0))
    requires sum.kind.rhs.kind == Literal(Values.Finite(4.0))
    ensures Stack(e, regs, {}) == Ok(Values.Finite(7.0))
  {
    assert {} + {e} == {e};
    SumValue(sum, regs, {e});
    NameValue(e, regs, {}, Ok(Values.Finite(7.0)));
  }

  /** `eval b` with `a = 3 + 4` and `b = a * 2`. */
  lemma EvalProduct(e: Node, sum: Node, prod: Node, regs: seq<Node?>)
    requires WellFormed(regs) && e.Tree() && sum.Tree() && prod.Tree()
    requires e.kind == Name('b') && regs[0] == sum && regs[1] == prod
    requires sum.kind.Binary? && sum.kind.op == Plus
    requires sum.kind.lhs.kind == Literal(Values.Finite(3.0))
    requires sum.kind.rhs.kind == Literal(Values.Finite(4.0))
    requires prod.kind.Binary? && prod.kind.op == Mul
    requires prod.kind.lhs.kind == Name('a')
    requires prod.kind.rhs.kind == Literal(Values.Finite(2.0))
    ensures Stack(e, regs, {}) == Ok(Values.Finite(14.0))
  {
    var a := prod.kind.lhs;
    var path := {e, prod};
    SumValue(sum, regs, path + {a});
    NameValue(a, regs, path, Ok(Values.Finite(7.0)));
    assert Stack(prod.kind.rhs, regs, path) == Ok(Values.Finite(2.0));
    assert {e} + {prod} == path;
    BinaryValue(prod, regs, {e}, Values.Finite(7.0), Values.Finite(2.0));
    assert {} + {e} == {e};
    NameValue(e, regs, {}, Ok(Values.Finite(14.0)));
  }

  /** `eval a` with `b = a * 2` and then `a = b`: a cycle through `a` and `b`. */
  lemma EvalCycle(e: Node, prod: Node, regs: seq<Node?>)
    requires WellFormed(regs) && e.Tree() && prod.Tree()
    requires e.kind == Name('a') && regs[1] == prod && regs[0] != null && regs[0].kind == Name('b')
    requires prod.kind.Binary? && prod.kind.lhs.kind == Name('a')
    ensures Stack(e, regs, {}) == Circular
  {
    var ks := [0, 1];
    assert Guard.LeftLeaf(regs[0]) == regs[0];
    assert Guard.LeftLeaf(prod) == prod.kind.lhs;
    assert Guard.SpineCycle(regs, ks);
    Guard.CycleIsCircular(regs, ks, e);
  }

  /** `eval a` with `a = 1 + a`: the cycle runs through the right operand,
      once the left one has yielded its value. The leaf evaluated may be the
      very leaf inside the tree. */
  lemma EvalSelfReference(e: Node, sum: Node, regs: seq<Node?>)
    requires WellFormed(regs) && e.Tree() && sum.Tree()
    requires e.kind == Name('a') && regs[0] == sum
    requires sum.kind.Binary? && sum.kind.lhs.kind == Literal(Values.Finite(1.0))
    requires sum.kind.rhs.kind == Name('a')
    ensures Run(e, regs, {}) == (Circular, {})
  {
    var one, a := sum.kind.lhs, sum.kind.rhs;
    var w := if a == e then [e, sum, a] else [e, sum, a, sum];
    assert {} + {e} == {e} && {e} + {sum} == {e, sum};
    assert Stack(one, regs, {e, sum}) == Ok(Values.Finite(1.0));
    if a != e {
      assert Guard.Reenters(regs, {e, sum, a}, w[3..]);
    }
    assert Guard.Reenters(regs, {e, sum}, w[2..]);
    assert Guard.Reenters(regs, {e}, w[1..]);
    assert Guard.Reenters(regs, {}, w);
    Guard.CircularIffReenters(e, regs);
  }

  /** The parser's registers hold trees of nodes from `made`. */
  ghost predicate Stored(p: Calc.Parser, made: set<Node>)
    reads p.regs
  {
    p.Valid() && forall i | 0 <= i < p.regs.Length && p.regs[i] != null :: p.regs[i].Repr <= made
  }

  /** A literal leaf, idle like every node built before it. */
  method Constant(v: Values.Double, ghost made: set<Node>) returns (n: Node, ghost made': set<Node>)
    requires Idle(made)
    ensures fresh(n) && n.kind == Literal(v) && n.Tree() && n.Repr == {n}
    ensures made' == made + {n} && Idle(made')
  {
    n := Calc.Parser.MakeConstLeaf(v);
    made' := made + {n};
  }

  /** A name leaf, idle like every node built before it. */
  method Ident(c: char, ghost made: set<Node>) returns (n: Node, ghost made': set<Node>)
    requires Idle(made) && 'a' <= c <= 'z'
    ensures fresh(n) && n.kind == Name(c) && n.Tree() && n.Repr == {n}
    ensures made' == made + {n} && Idle(made')
  {
    n := Calc.Parser.MakeIdLeaf(c);
    made' := made + {n};
  }

  /** A binary node over trees of idle nodes. */
  method Operation(op: BinOp, l: Node, r: Node, ghost made: set<Node>) returns (n: Node, ghost made': set<Node>)
    requires Idle(made) && l.Tree() && r.Tree() && l.Repr <= made && r.Repr <= made
    ensures fresh(n) && n.kind == Binary(op, l, r) && n.Tree() && n.Repr <= made'
    ensures made' == made + {n} && Idle(made')
  {
    n := Calc.Parser.MakeBinary(op, l, r);
    made' := made + {n};
  }

  /** `c = expr`. */
  method Assign(p: Calc.Parser, c: char, expr: Node, ghost made: set<Node>)
    requires Stored(p, made) && 'a' <= c <= 'z' && expr.Tree() && expr.Repr <= made
    modifies p.regs
    ensures Stored(p, made)
    ensures p.regs[..] == old(p.regs[..])[Index(c) := expr]
  {
    var dst := Calc.Parser.MakeIdLeaf(c);
    p.AssignExpression(dst, expr);
  }

  /** `eval e` on an idle session: the value of `e` evaluated from no raised
      flag, after which every node is idle again. */
  method Evaluate(p: Calc.Parser, e: Node, ghost made: set<Node>) returns (v: Values.Double)
    requires Stored(p, made) && Idle(made) && e.Tree() && e.Repr <= made
    modifies made
    ensures Idle(made) && unchanged(p.regs)
    ensures var o := Stack(e, p.regs[..], {}); v == if o.Ok? then o.value else Values.Zero
  {
    NothingRaised(e, p.regs[..], made);
    ghost var U := Universe(e, p.regs[..]);
    v := p.Eval(e);
    assert ActiveIn(U) == {};
    forall m | m in made
      ensures !m.active
    {
      if m in U {
        assert m !in ActiveIn(U);
      }
    }
  }

  /** `a = 3 + 4` on empty registers, and the leaf `a` to evaluate; `made`
      are the nodes built. */
  method DefineSum(p: Calc.Parser) returns (sum: Node, a1: Node, ghost made: set<Node>)
    requires p.Valid() && forall i | 0 <= i < p.regs.Length :: p.regs[i] == null
    modifies p.regs
    ensures Stored(p, made) && Idle(made) && fresh(made)
    ensures sum.Tree() && sum.kind.Binary? && sum.kind.op == Plus
    ensures sum.kind.lhs.kind == Literal(Values.Finite(3.0))
    ensures sum.kind.rhs.kind == Literal(Values.Finite(4.0))
    ensures a1.Tree() && a1.kind == Name('a') && a1.Repr <= made
    ensures p.regs[0] == sum
  {
    var three, four;
    three, made := Constant(Values.Finite(3.0), {});
    four, made := Constant(Values.Finite(4.0), made);
    sum, made := Operation(Plus, three, four, made);
    Assign(p, 'a', sum, made);
    a1, made := Ident('a', made);
  }

  /** `eval a`, with `a = 3 + 4` stored. */
  method EvalA(p: Calc.Parser) returns (seven: Values.Double, sum: Node, ghost made: set<Node>)
    requires p.Valid() && forall i | 0 <= i < p.regs.Length :: p.regs[i] == null
    modifies p.regs
    ensures seven == Values.Finite(7.0)
    ensures Stored(p, made) && Idle(made) && fresh(made)
    ensures sum.Tree() && sum.kind.Binary? && sum.kind.op == Plus
    ensures sum.kind.lhs.kind == Literal(Values.Finite(3.0))
    ensures sum.kind.rhs.kind == Literal(Values.Finite(4.0))
    ensures p.regs[0] == sum
  {
    var a1;
    sum, a1, made := DefineSum(p);
    EvalSum(a1, sum, p.regs[..]);
    seven := Evaluate(p, a1, made);
  }

  /** `b = a * 2`, and the leaf `b` to evaluate; `added` are the nodes built. */
  method DefineProduct(p: Calc.Parser, ghost made: set<Node>) returns (prod: Node, b1: Node, ghost added: set<Node>)
    requires Stored(p, made) && Idle(made)
    modifies p.regs
    ensures fresh(added) && Stored(p, made + added) && Idle(made + added)
    ensures prod.Tree() && prod.kind.Binary? && prod.kind.op == Mul
    ensures prod.kind.lhs.kind == Name('a') && prod.kind.rhs.kind == Literal(Values.Finite(2.0))
    ensures b1.Tree() && b1.kind == Name('b') && b1.Repr <= made + added
    ensures p.regs[..] == old(p.regs[..])[1 := prod]
  {
    var a, two;
    ghost var all;
    a, all := Ident('a', made);
    two, all := Constant(Values.Finite(2.0), all);
    prod, all := Operation(Mul, a, two, all);
    Assign(p, 'b', prod, all);
    b1, all := Ident('b', all);
    added := {a, two, prod, b1};
    assert all == made + added;
  }

  /** `eval b`, with `a = 3 + 4` and `b = a * 2` stored. */
  method EvalB(p: Calc.Parser, sum: Node, ghost made: set<Node>) returns (fourteen: Values.Double, prod: Node, ghost added: set<Node>)
    requires Stored(p, made) && Idle(made)
    requires sum.Tree() && sum.kind.Binary? && sum.kind.op == Plus
    requires sum.kind.lhs.kind == Literal(Values.Finite(3.0))
    requires sum.kind.rhs.kind == Literal(Values.Finite(4.0))
    requires p.regs[0] == sum
    modifies p.regs, made
    ensures fourteen == Values.Finite(14.0)
    ensures fresh(added) && Stored(p, made + added) && Idle(made + added)
    ensures prod.Tree() && prod.kind.Binary? && prod.kind.lhs.kind == Name('a')
    ensures p.regs[1] == prod
  {
    var b1;
    prod, b1, added := DefineProduct(p, made);
    EvalProduct(b1, sum, prod, p.regs[..]);
    fourteen := Evaluate(p, b1, made + added);
  }

  /** `a = b` and `Parser.Eval` of `a`, with `b = a * 2` stored: circular,
      so 0.0. */
  method CloseCycle(p: Calc.Parser, prod: Node, ghost made: set<Node>) returns (cycle: Values.Double)
    requires Stored(p, made) && Idle(made)
    requires prod.Tree() && prod.kind.Binary? && prod.kind.lhs.kind == Name('a')
    requires p.regs[1] == prod
    modifies p.regs, made
    ensures cycle == Values.Zero
  {
    var b, a1;
    ghost var all;
    b, all := Ident('b', made);
    Assign(p, 'a', b, all);
    a1, all := Ident('a', all);
    EvalCycle(a1, prod, p.regs[..]);
    cycle := Evaluate(p, a1, all);
  }

  /** The session `a = 3 + 4`, `eval a`, `b = a * 2`, `eval b`, `a = b`,
      `eval a`. */
  method Example() returns (seven: Values.Double, fourteen: Values.Double, cycle: Values.Double)
    ensures seven == Values.Finite(7.0)
    ensures fourteen == Values.Finite(14.0)
    ensures cycle == Values.Zero
  {
    var p := new Calc.Parser();
    var sum, prod;
    ghost var made, added;
    seven, sum, made := EvalA(p);
    fourteen, prod, added := EvalB(p, sum, made);
    cycle := CloseCycle(p, prod, made + added);
  }
}
