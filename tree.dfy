/** The RealTree expression nodes: literal and name leaves, unary negation and
    the five binary operators. Each node carries a mutable guard flag that
    node evaluation raises on entry and lowers on every exit, so that a
    register whose tree reaches back to itself fails instead of recursing
    forever. */
module Tree {
  import Values

  /** The tags of binary nodes (`NodeTag.plus` ... `NodeTag.rem`). */
  datatype BinOp = Plus | Minus | Mul | Div | Rem

  /** What a node is; the children of operator nodes are themselves nodes. */
  datatype Kind =
    | Literal(value: Values.Double)
    | Name(name: char)
    | Negate(child: Node)
    | Binary(op: BinOp, lhs: Node, rhs: Node)

  /** The outcome of node evaluation: a value, the `CircularEvalException`,
      or the exception raised by evaluating an empty register. */
  datatype Outcome = Ok(value: Values.Double) | Circular | Undefined

  /** The number of registers, `'a'` to `'z'`. */
  const Slots := 26

  /** The register a name leaf refers to, `name - 'a'`. */
  function Index(c: char): (i: int)
    ensures 'a' <= c <= 'z' <==> 0 <= i < Slots
  {
    c as int - 'a' as int
  }

  /** The name of register `i`, `(char)(i + 'a')`. */
  function Letter(i: int): (c: char)
    requires 0 <= i < Slots
    ensures 'a' <= c <= 'z' && Index(c) == i
  {
    (i + 'a' as int) as char
  }

  /** The operator a binary node applies, as C# does on doubles: a NaN
      operand gives NaN, and finite operands give a finite result except for
      a zero divisor. */
  function Apply(op: BinOp, x: Values.Double, y: Values.Double): (r: Values.Double)
    ensures x.NaN? || y.NaN? ==> r.NaN?
    ensures x.Finite? && y.Finite? && ((op != Div && op != Rem) || y.r != 0.0) ==> r.Finite?
    ensures x.Finite? && y == Values.Zero && (op == Div || op == Rem) ==> !r.Finite?
  {
    match op
    case Plus => Values.Add(x, y)
    case Minus => Values.Sub(x, y)
    case Mul => Values.Mul(x, y)
    case Div => Values.Div(x, y)
    case Rem => Values.Rem(x, y)
  }

  /** How a binary node prints its operator: one character, a different one
      for each operator. */
  function Symbol(op: BinOp): (s: string)
    ensures |s| == 1 && s[0] in "+-*/%"
  {
    match op
    case Plus => "+"
    case Minus => "-"
    case Mul => "*"
    case Div => "/"
    case Rem => "%"
  }

  /** Different operators print differently. */
  lemma SymbolsDistinct(op: BinOp, other: BinOp)
    ensures Symbol(op) == Symbol(other) <==> op == other
  {
  }

  class Node {
    const kind: Kind
    /** The guard flag: raised by Prolog, lowered by Epilog. */
    var active: bool
    /** The nodes of the tree rooted here. */
    ghost const Repr: set<Node>

    /** The node roots a finite, acyclic tree whose name leaves are letters. */
    ghost predicate Tree()
      decreases Repr
    {
      this in Repr &&
      match kind
      case Literal(_) => Repr == {this}
      case Name(c) => Repr == {this} && 'a' <= c <= 'z'
      case Negate(c) => Repr == {this} + c.Repr && this !in c.Repr && c.Tree()
      case Binary(_, l, r) =>
        && Repr == {this} + l.Repr + r.Repr
        && this !in l.Repr && this !in r.Repr
        && l.Tree() && r.Tree()
    }

    constructor ConstLeaf(v: Values.Double)
      ensures kind == Literal(v) && Repr == {this} && !active && Tree()
    {
      kind, Repr := Literal(v), {this};
      active := false;
    }

    constructor IdLeaf(c: char)
      requires 'a' <= c <= 'z'
      ensures kind == Name(c) && Repr == {this} && !active && Tree()
    {
      kind, Repr := Name(c), {this};
      active := false;
    }

    constructor UnaryNode(child: Node)
      requires child.Tree()
      ensures kind == Negate(child) && Repr == {this} + child.Repr && !active && Tree()
    {
      kind, Repr := Negate(child), {this} + child.Repr;
      active := false;
    }

    constructor BinaryNode(op: BinOp, lhs: Node, rhs: Node)
      requires lhs.Tree() && rhs.Tree()
      ensures kind == Binary(op, lhs, rhs) && Repr == {this} + lhs.Repr + rhs.Repr
      ensures !active && Tree()
    {
      kind, Repr := Binary(op, lhs, rhs), {this} + lhs.Repr + rhs.Repr;
      active := false;
    }

    /** Raises the flag; `circular` stands for the exception thrown when it
        was already raised, in which case the flag stays raised. */
    method Prolog(ghost U: set<Node>) returns (circular: bool)
      requires this in U
      modifies this
      ensures circular == old(active)
      ensures active
      ensures ActiveIn(U) == old(ActiveIn(U)) + {this}
    {
      circular := active;
      if !circular {
        active := true;
      }
    }

    method Epilog(ghost U: set<Node>)
      modifies this
      ensures !active
      ensures ActiveIn(U) == old(ActiveIn(U)) - {this}
    {
      active := false;
    }

    /** Evaluates the tree rooted here, looking name leaves up in `regs`; the
        dispatch to the evaluation of the node's own class. `U` holds every
        node that evaluation may reach; the result and the new set of raised
        flags are those the specification function Run gives. */
    method Eval(regs: array<Node?>, ghost U: set<Node>) returns (r: Outcome)
      requires WellFormed(regs[..]) && Tree() && Universe(this, regs[..]) <= U
      modifies U
      ensures (r, ActiveIn(U)) == Run(this, regs[..], old(ActiveIn(U)))
      decreases |Universe(this, regs[..]) - ActiveIn(U)|, 1
    {
      match kind
      case Literal(_) => r := LeafEval(regs, U);
      case Name(_) => r := LeafEval(regs, U);
      case Negate(_) => r := UnaryEval(regs, U);
      case Binary(_, _, _) => r := BinaryEval(regs, U);
    }

    /** `Leaf.Eval`. Prolog runs inside the `try` and Epilog in its `finally`,
        so Epilog runs even when Prolog finds the flag raised: it then lowers
        the flag of the frame further up that raised it. The same holds of
        UnaryEval and BinaryEval. */
    method LeafEval(regs: array<Node?>, ghost U: set<Node>) returns (r: Outcome)
      requires kind.Literal? || kind.Name?
      requires WellFormed(regs[..]) && Tree() && Universe(this, regs[..]) <= U
      modifies U
      ensures (r, ActiveIn(U)) == Run(this, regs[..], old(ActiveIn(U)))
      decreases |Universe(this, regs[..]) - ActiveIn(U)|, 0
    {
      ghost var act, R := ActiveIn(U), regs[..];
      var circular := Prolog(U);
      assert circular <==> this in act;
      if circular {
        r := Circular;
        assert ActiveIn(U) == act;
      } else if kind.Name? {
        var t := regs[Index(kind.name)];
        if t == null {
          r := Undefined;
          assert ActiveIn(U) - {this} == act;
        } else {
          SlotInUniverse(this, R, Index(kind.name));
          Shrinks(this, t, R, act);
          r := t.Eval(regs, U);
          assert regs[..] == R;
        }
      } else {
        r := Ok(kind.value);
        assert ActiveIn(U) - {this} == act;
      }
      assert Run(this, R, act) == (r, ActiveIn(U) - {this});
      Epilog(U);
    }

    /** `Unary.Eval`: the negation of the child's value. */
    method UnaryEval(regs: array<Node?>, ghost U: set<Node>) returns (r: Outcome)
      requires kind.Negate?
      requires WellFormed(regs[..]) && Tree() && Universe(this, regs[..]) <= U
      modifies U
      ensures (r, ActiveIn(U)) == Run(this, regs[..], old(ActiveIn(U)))
      decreases |Universe(this, regs[..]) - ActiveIn(U)|, 0
    {
      ghost var act, R := ActiveIn(U), regs[..];
      var circular := Prolog(U);
      assert circular <==> this in act;
      if circular {
        r := Circular;
        assert ActiveIn(U) == act;
      } else {
        Shrinks(this, kind.child, R, act);
        var x := kind.child.Eval(regs, U);
        assert regs[..] == R;
        r := if x.Ok? then Ok(Values.Neg(x.value)) else x;
      }
      assert Run(this, R, act) == (r, ActiveIn(U) - {this});
      Epilog(U);
    }

    /** `Binary.Eval`: the left operand is evaluated completely before the
        right one, and both before the operator is applied; an exception from
        the left operand leaves the right one unevaluated. */
    method BinaryEval(regs: array<Node?>, ghost U: set<Node>) returns (r: Outcome)
      requires kind.Binary?
      requires WellFormed(regs[..]) && Tree() && Universe(this, regs[..]) <= U
      modifies U
      ensures (r, ActiveIn(U)) == Run(this, regs[..], old(ActiveIn(U)))
      decreases |Universe(this, regs[..]) - ActiveIn(U)|, 0
    {
      ghost var act, R := ActiveIn(U), regs[..];
      var circular := Prolog(U);
      assert circular <==> this in act;
      if circular {
        r := Circular;
        assert ActiveIn(U) == act;
      } else {
        Shrinks(this, kind.lhs, R, act);
        var x := kind.lhs.Eval(regs, U);
        assert regs[..] == R;
        if x.Ok? {
          assert ActiveIn(U) == act + {this};
          Shrinks(this, kind.rhs, R, act);
          var y := kind.rhs.Eval(regs, U);
          assert regs[..] == R;
          r := if y.Ok? then Ok(Apply(kind.op, x.value, y.value)) else y;
        } else {
          r := x;
        }
      }
      assert Run(this, R, act) == (r, ActiveIn(U) - {this});
      Epilog(U);
    }

    /** The printed form: a literal as `fmt` renders the double, a name as its
        letter, operators fully parenthesised. */
    function Unparse(fmt: Values.Double -> string): (s: string)
      requires Tree()
      ensures kind.Literal? ==> s == fmt(kind.value)
      ensures kind.Name? ==> s == [kind.name]
      ensures kind.Negate? ==> 5 <= |s| && s[..4] == "( - " && s[|s| - 1] == ')'
      ensures kind.Binary? ==> 5 <= |s| && s[0] == '(' && s[|s| - 1] == ')'
      ensures kind.Binary? ==> Symbol(kind.op)[0] in s
      decreases Repr
    {
      match kind
      case Literal(v) => fmt(v)
      case Name(c) => [c]
      case Negate(c) => "( - " + c.Unparse(fmt) + ")"
      case Binary(op, l, r) => "(" + l.Unparse(fmt) + " " + Symbol(op) + " " + r.Unparse(fmt) + ")"
    }
  }

  /** The register table holds 26 slots, each empty or a tree. */
  ghost predicate WellFormed(regs: seq<Node?>)
  {
    |regs| == Slots && forall i | 0 <= i < |regs| :: regs[i] != null ==> regs[i].Tree()
  }

  /** Every node of every stored tree. */
  ghost function RegNodes(regs: seq<Node?>): set<Node>
  {
    if regs == [] then {} else (if regs[0] == null then {} else regs[0].Repr) + RegNodes(regs[1..])
  }

  /** Every node evaluation of `n` can reach. */
  ghost function Universe(n: Node, regs: seq<Node?>): set<Node>
  {
    n.Repr + RegNodes(regs)
  }

  /** The nodes of `U` whose flag is raised. */
  ghost function ActiveIn(U: set<Node>): set<Node>
    reads U
  {
    set m | m in U && m.active
  }

  /** Evaluation of `n` as the source performs it, from the set `act` of raised
      flags: the outcome and the set of raised flags afterwards. Evaluation
      only lowers flags, always lowers that of `n`, and on success leaves
      every flag as it found it. */
  ghost function Run(n: Node, regs: seq<Node?>, act: set<Node>): (res: (Outcome, set<Node>))
    requires WellFormed(regs) && n.Tree()
    ensures res.1 <= act - {n}
    ensures res.0.Ok? ==> n !in act && res.1 == act
    decreases |Universe(n, regs) - act|
  {
    if n in act then (Circular, act - {n})
    else
      match n.kind
      case Literal(v) => (Ok(v), act)
      case Name(c) =>
        var t := regs[Index(c)];
        if t == null then (Undefined, act)
        else
          SlotInUniverse(n, regs, Index(c));
          Shrinks(n, t, regs, act);
          var (o, a) := Run(t, regs, act + {n});
          (o, a - {n})
      case Negate(c) =>
        Shrinks(n, c, regs, act);
        var (o, a) := Run(c, regs, act + {n});
        (if o.Ok? then Ok(Values.Neg(o.value)) else o, a - {n})
      case Binary(op, l, r) =>
        Shrinks(n, l, regs, act);
        var (o, a) := Run(l, regs, act + {n});
        if !o.Ok? then (o, a - {n})
        else
          Shrinks(n, r, regs, act);
          var (o', a') := Run(r, regs, a);
          (if o'.Ok? then Ok(Apply(op, o.value, o'.value)) else o', a' - {n})
  }

  /** Evaluation under the discipline "a flag is raised exactly while a frame
      for its node is on the stack": `path` is the set of nodes with a frame. */
  ghost function Stack(n: Node, regs: seq<Node?>, path: set<Node>): Outcome
    requires WellFormed(regs) && n.Tree()
    decreases |Universe(n, regs) - path|
  {
    if n in path then Circular
    else
      match n.kind
      case Literal(v) => Ok(v)
      case Name(c) =>
        var t := regs[Index(c)];
        if t == null then Undefined
        else
          SlotInUniverse(n, regs, Index(c));
          Shrinks(n, t, regs, path);
          Stack(t, regs, path + {n})
      case Negate(c) =>
        Shrinks(n, c, regs, path);
        var o := Stack(c, regs, path + {n});
        if o.Ok? then Ok(Values.Neg(o.value)) else o
      case Binary(op, l, r) =>
        Shrinks(n, l, regs, path);
        Shrinks(n, r, regs, path);
        var o := Stack(l, regs, path + {n});
        if !o.Ok? then o
        else
          var o' := Stack(r, regs, path + {n});
          if o'.Ok? then Ok(Apply(op, o.value, o'.value)) else o'
  }

  /** The tree stored in a register lies in the universe of any node. */
  lemma {:induction false} SlotInUniverse(n: Node, regs: seq<Node?>, i: int)
    requires 0 <= i < |regs| && regs[i] != null
    ensures Universe(regs[i], regs) <= Universe(n, regs)
  {
    if i > 0 {
      SlotInUniverse(n, regs[1..], i - 1);
    }
  }

  lemma {:induction false} SubsetSize<T>(a: set<T>, b: set<T>)
    requires a <= b
    ensures |a| <= |b|
    decreases a
  {
    if a != {} {
      var x :| x in a;
      SubsetSize(a - {x}, b - {x});
    }
  }

  /** Raising the flag of `n` removes it from the nodes left to enter, so any
      part of its universe has fewer of them: the termination measure. */
  lemma Shrinks(n: Node, t: Node, regs: seq<Node?>, act: set<Node>)
    requires n.Tree() && n !in act
    requires Universe(t, regs) <= Universe(n, regs)
    ensures |Universe(t, regs) - (act + {n})| < |Universe(n, regs) - act|
  {
    var big := Universe(n, regs) - act;
    SubsetSize(Universe(t, regs) - (act + {n}), big - {n});
    assert n in big;
  }
}
