/** The RealTree calculator's semantic helpers: the 26 registers `a` to `z`,
    the commands that store, clear, list and evaluate trees, and the node
    factories the grammar's actions call. */
module Calc {
  import opened Tree
  import Values
  import Guard

  /** The decimal form of a register number, `0` to `25`. */
  function Decimal(i: int): (s: string)
    requires 0 <= i < Slots
    ensures 1 <= |s| <= 2 && forall k | 0 <= k < |s| :: '0' <= s[k] <= '9'
    ensures |s| == 1 <==> i < 10
  {
    if i < 10 then [Digit(i)] else [Digit(i / 10), Digit(i % 10)]
  }

  function Digit(d: int): char
    requires 0 <= d < 10
  {
    (d + '0' as int) as char
  }

  /** The line `regs[i] = 'c' = tree` of the register listing: the number in
      decimal, then the register's letter, then the printed tree at the end. */
  function RegisterLine(i: int, tree: string): (line: string)
    requires 0 <= i < Slots
    ensures var d := Decimal(i);
      && |line| == 15 + |d| + |tree|
      && line[..5] == "regs[" && line[5..5 + |d|] == d
      && line[5 + |d|..10 + |d|] == "] = '"
      && line[10 + |d|] == Letter(i)
      && line[11 + |d|..15 + |d|] == "' = "
      && line[15 + |d|..] == tree
  {
    "regs[" + Decimal(i) + "] = '" + [Letter(i)] + "' = " + tree
  }

  /** The number a listing line starts with is the register's number. */
  lemma DecimalValue(i: int)
    requires 0 <= i < Slots
    ensures var s := Decimal(i);
      i == if |s| == 1 then s[0] as int - '0' as int
           else 10 * (s[0] as int - '0' as int) + (s[1] as int - '0' as int)
  {
  }

  /** The non-empty registers among the first `n`, in ascending order. */
  function Filled(regs: seq<Node?>, n: nat): (slots: seq<int>)
    requires n <= |regs|
    ensures forall k | 0 <= k < |slots| :: 0 <= slots[k] < n && regs[slots[k]] != null
  {
    if n == 0 then []
    else Filled(regs, n - 1) + (if regs[n - 1] != null then [n - 1] else [])
  }

  /** The listing names each non-empty register exactly once, in ascending
      order, and no empty one. */
  lemma {:induction false} FilledSlots(regs: seq<Node?>, n: nat)
    requires n <= |regs|
    ensures forall k, l | 0 <= k < l < |Filled(regs, n)| :: Filled(regs, n)[k] < Filled(regs, n)[l]
    ensures forall i | 0 <= i < n :: i in Filled(regs, n) <==> regs[i] != null
  {
    if n > 0 {
      FilledSlots(regs, n - 1);
    }
  }

  class Parser {
    /** `Parser.regs`: the array itself is never replaced, only its slots. */
    const regs: array<Node?>

    ghost predicate Valid()
      reads regs
    {
      WellFormed(regs[..])
    }

    /** A parser starts with every register empty. */
    constructor ()
      ensures Valid() && fresh(regs)
      ensures forall i | 0 <= i < regs.Length :: regs[i] == null
    {
      regs := new Node?[Slots](_ => null);
    }

    /** `reset`: every register becomes empty. */
    method ClearRegisters()
      requires Valid()
      modifies regs
      ensures Valid()
      ensures forall i | 0 <= i < regs.Length :: regs[i] == null
    {
      for i := 0 to regs.Length
        invariant forall j | 0 <= j < i :: regs[j] == null
      {
        regs[i] := null;
      }
    }

    /** `x = expression`: the tree goes into the register the name leaf `dst`
        names, and no other register changes. */
    method AssignExpression(dst: Node, expr: Node)
      requires Valid() && dst.Tree() && dst.kind.Name? && expr.Tree()
      modifies regs
      ensures Valid()
      ensures regs[Index(dst.kind.name)] == expr
      ensures forall i | 0 <= i < regs.Length && i != Index(dst.kind.name) :: regs[i] == old(regs[i])
    {
      regs[Index(dst.kind.name)] := expr;
    }

    /** `print`: one line per non-empty register, in ascending order, giving
        its number, its name and the printed form of its tree. Values are not
        evaluated. */
    method PrintRegisters(fmt: Values.Double -> string) returns (lines: seq<string>)
      requires Valid()
      ensures var slots := Filled(regs[..], Slots);
        |lines| == |slots| &&
        forall k | 0 <= k < |slots| :: lines[k] == RegisterLine(slots[k], regs[slots[k]].Unparse(fmt))
    {
      lines := [];
      for i := 0 to regs.Length
        invariant var slots := Filled(regs[..], i);
          |lines| == |slots| &&
          forall k | 0 <= k < |slots| :: lines[k] == RegisterLine(slots[k], regs[slots[k]].Unparse(fmt))
      {
        if regs[i] != null {
          lines := lines + [RegisterLine(i, regs[i].Unparse(fmt))];
        }
      }
    }

    /** `Parser.Eval`: the value of `node`, or `0.0` when evaluation
        fails because it is circular or reads an empty register. The value is
        the one evaluation gives when a flag is raised exactly while its node
        is being evaluated; evaluation lowers flags and never raises one, so
        with every flag lowered before, every flag is lowered after. */
    method Eval(node: Node) returns (v: Values.Double)
      requires Valid() && node.Tree()
      modifies Universe(node, regs[..])
      ensures Valid()
      ensures var o := Stack(node, regs[..], old(ActiveIn(Universe(node, regs[..]))));
        v == if o.Ok? then o.value else Values.Zero
      ensures ActiveIn(Universe(node, regs[..])) <= old(ActiveIn(Universe(node, regs[..]))) - {node}
      ensures old(ActiveIn(Universe(node, regs[..]))) == {} ==> ActiveIn(Universe(node, regs[..])) == {}
    {
      ghost var U := Universe(node, regs[..]);
      ghost var act := ActiveIn(U);
      var o := node.Eval(regs, U);
      Guard.QuirkHarmless(node, regs[..], act);
      v := if o.Ok? then o.value else Values.Zero;
    }

    static method MakeBinary(op: BinOp, lhs: Node, rhs: Node) returns (n: Node)
      requires lhs.Tree() && rhs.Tree()
      ensures fresh(n) && n.kind == Binary(op, lhs, rhs) && n.Repr == {n} + lhs.Repr + rhs.Repr
      ensures !n.active && n.Tree()
    {
      n := new Node.BinaryNode(op, lhs, rhs);
    }

    static method MakeUnary(child: Node) returns (n: Node)
      requires child.Tree()
      ensures fresh(n) && n.kind == Negate(child) && n.Repr == {n} + child.Repr && !n.active && n.Tree()
    {
      n := new Node.UnaryNode(child);
    }

    static method MakeIdLeaf(c: char) returns (n: Node)
      requires 'a' <= c <= 'z'
      ensures fresh(n) && n.kind == Name(c) && n.Repr == {n} && !n.active && n.Tree()
    {
      n := new Node.IdLeaf(c);
    }

    static method MakeConstLeaf(v: Values.Double) returns (n: Node)
      ensures fresh(n) && n.kind == Literal(v) && n.Repr == {n} && !n.active && n.Tree()
    {
      n := new Node.ConstLeaf(v);
    }
  }
}
