/** What the printed form of a tree looks like: one pair of parentheses per
    operator, properly nested, with an operator's whole rendering enclosed in
    its own outer pair, whatever the rendering of literals (as long as it
    contains no parentheses, which no rendering of a double does). */
module Render {
  import opened Tree
  import Values

  /** The number of occurrences of `ch` in `s`. */
  function Count(s: string, ch: char): (k: nat)
    ensures k <= |s|
  {
    if s == [] then 0 else (if s[0] == ch then 1 else 0) + Count(s[1..], ch)
  }

  lemma {:induction false} CountConcat(s: string, t: string, ch: char)
    ensures Count(s + t, ch) == Count(s, ch) + Count(t, ch)
  {
    if s == [] {
      assert s + t == t;
    } else {
      assert (s + t)[0] == s[0] && (s + t)[1..] == s[1..] + t;
      CountConcat(s[1..], t, ch);
    }
  }

  /** Opening parentheses not yet closed after reading `s`. */
  function Depth(s: string): int
  {
    Count(s, '(') - Count(s, ')')
  }

  lemma DepthConcat(s: string, t: string)
    ensures Depth(s + t) == Depth(s) + Depth(t)
  {
    CountConcat(s, t, '(');
    CountConcat(s, t, ')');
  }

  /** Every parenthesis of `s` is closed in `s`, after being opened in `s`. */
  ghost predicate Balanced(s: string)
  {
    Depth(s) == 0 && forall k | 0 <= k <= |s| :: Depth(s[..k]) >= 0
  }

  /** `s` is one parenthesised group: its first parenthesis is closed only
      by its last character. */
  ghost predicate Group(s: string)
  {
    && 2 <= |s| && s[0] == '(' && s[|s| - 1] == ')'
    && Depth(s) == 0
    && forall k | 0 < k < |s| :: Depth(s[..k]) > 0
  }

  predicate NoParens(s: string)
  {
    forall i | 0 <= i < |s| :: s[i] != '(' && s[i] != ')'
  }

  lemma {:induction false} NoParensCount(s: string)
    requires NoParens(s)
    ensures Count(s, '(') == 0 && Count(s, ')') == 0
  {
    if s != [] {
      NoParensCount(s[1..]);
    }
  }

  lemma NoParensBalanced(s: string)
    requires NoParens(s)
    ensures Balanced(s)
  {
    NoParensCount(s);
    forall k | 0 <= k <= |s|
      ensures Depth(s[..k]) == 0
    {
      NoParensCount(s[..k]);
    }
  }

  lemma BalancedConcat(s: string, t: string)
    requires Balanced(s) && Balanced(t)
    ensures Balanced(s + t)
  {
    DepthConcat(s, t);
    forall k | 0 <= k <= |s + t|
      ensures Depth((s + t)[..k]) >= 0
    {
      if k <= |s| {
        assert (s + t)[..k] == s[..k];
      } else {
        assert (s + t)[..k] == s + t[..k - |s|];
        DepthConcat(s, t[..k - |s|]);
      }
    }
  }

  /** Enclosing a balanced string in parentheses makes one group. */
  lemma Enclose(s: string)
    requires Balanced(s)
    ensures Group("(" + s + ")") && Balanced("(" + s + ")")
    ensures Count("(" + s + ")", '(') == Count(s, '(') + 1
  {
    var g := "(" + s + ")";
    CountConcat("(", s, '(');
    CountConcat("(" + s, ")", '(');
    DepthConcat("(", s);
    DepthConcat("(" + s, ")");
    forall k | 0 < k < |g|
      ensures Depth(g[..k]) > 0
    {
      assert g[..k] == "(" + s[..k - 1];
      DepthConcat("(", s[..k - 1]);
    }
    assert g[..0] == [] && g[..|g|] == g;
  }

  /** A negation prints its operand's form right after `( - `, before the
      closing `)`. */
  lemma NegateLayout(n: Node, fmt: Values.Double -> string)
    requires n.Tree() && n.kind.Negate?
    ensures var s := n.Unparse(fmt); s[4..|s| - 1] == n.kind.child.Unparse(fmt)
  {
    Enclosed("( - ", n.kind.child.Unparse(fmt), ")");
  }

  /** `s` reads, by position, as `(`, then `l`, then `m`, then `r`, then `)`. */
  ghost predicate Parts(s: string, l: string, m: string, r: string)
  {
    && |s| == |l| + |m| + |r| + 2
    && s[0] == '(' && s[|s| - 1] == ')'
    && s[1..1 + |l|] == l
    && s[1 + |l|..1 + |l| + |m|] == m
    && s[1 + |l| + |m|..|s| - 1] == r
  }

  /** A binary node prints its left operand's form right after `(`, then
      ` op `, then its right operand's form before the closing `)`. */
  lemma BinaryLayout(n: Node, op: BinOp, l: Node, r: Node, fmt: Values.Double -> string)
    requires n.Tree() && n.kind == Binary(op, l, r)
    ensures Parts(n.Unparse(fmt), l.Unparse(fmt), " " + Symbol(op) + " ", r.Unparse(fmt))
  {
    var ls, rs := l.Unparse(fmt), r.Unparse(fmt);
    BinaryText(n, op, l, r, fmt);
    Triple(ls, " " + Symbol(op) + " ", rs);
  }

  lemma BinaryText(n: Node, op: BinOp, l: Node, r: Node, fmt: Values.Double -> string)
    requires n.Tree() && n.kind == Binary(op, l, r)
    ensures n.Unparse(fmt) == "(" + l.Unparse(fmt) + (" " + Symbol(op) + " ") + r.Unparse(fmt) + ")"
  {
    Regroup(l.Unparse(fmt), Symbol(op), r.Unparse(fmt));
  }

  lemma Regroup(l: string, o: string, r: string)
    ensures "(" + l + " " + o + " " + r + ")" == "(" + l + (" " + o + " ") + r + ")"
  {
  }

  /** Where the parts sit in `(` + `l` + `m` + `r` + `)`. */
  lemma Triple(l: string, m: string, r: string)
    ensures Parts("(" + l + m + r + ")", l, m, r)
  {
    var s := "(" + l + m + r + ")";
    Enclosed("(", l, m + r + ")");
    Enclosed("(" + l, m, r + ")");
    Enclosed("(" + l + m, r, ")");
    assert "(" + l + (m + r + ")") == s;
    assert "(" + l + m + (r + ")") == s;
  }

  /** Where `m` sits in `p + m + q`. */
  lemma Enclosed(p: string, m: string, q: string)
    ensures (p + m + q)[|p|..|p| + |m|] == m
  {
  }

  /** The number of operator nodes in the tree rooted at `n`. */
  ghost function Operators(n: Node): nat
    requires n.Tree()
    decreases n.Repr
  {
    match n.kind
    case Literal(_) => 0
    case Name(_) => 0
    case Negate(c) => 1 + Operators(c)
    case Binary(_, l, r) => 1 + Operators(l) + Operators(r)
  }

  /** The printed form of a negation, `( - c)`, is a group around that of `c`. */
  lemma NegateForm(cs: string)
    requires Balanced(cs)
    ensures Group("( - " + cs + ")") && Balanced("( - " + cs + ")")
    ensures Count("( - " + cs + ")", '(') == Count(cs, '(') + 1
  {
    var inner := " - " + cs;
    assert NoParens(" - ");
    NoParensBalanced(" - ");
    NoParensCount(" - ");
    BalancedConcat(" - ", cs);
    CountConcat(" - ", cs, '(');
    Enclose(inner);
    assert "( - " + cs + ")" == "(" + inner + ")";
  }

  /** The printed form of a binary node, `(l op r)`, is a group around those
      of its operands. */
  lemma BinaryForm(ls: string, op: BinOp, rs: string)
    requires Balanced(ls) && Balanced(rs)
    ensures var s := "(" + ls + " " + Symbol(op) + " " + rs + ")";
      Group(s) && Balanced(s) && Count(s, '(') == Count(ls, '(') + Count(rs, '(') + 1
  {
    var mid := " " + Symbol(op) + " ";
    assert NoParens(mid);
    NoParensBalanced(mid);
    NoParensCount(mid);
    BalancedConcat(ls, mid);
    BalancedConcat(ls + mid, rs);
    CountConcat(ls, mid, '(');
    CountConcat(ls + mid, rs, '(');
    var inner := ls + mid + rs;
    Enclose(inner);
    Regroup(ls, Symbol(op), rs);
    assert "(" + ls + mid + rs + ")" == "(" + inner + ")";
  }

  /** The printed form of a tree is balanced and holds one pair of
      parentheses per operator node, and that of an operator node is one
      group. */
  lemma {:induction false} UnparseBalanced(n: Node, fmt: Values.Double -> string)
    requires n.Tree()
    requires forall v :: NoParens(fmt(v))
    ensures Balanced(n.Unparse(fmt))
    ensures Count(n.Unparse(fmt), '(') == Count(n.Unparse(fmt), ')') == Operators(n)
    ensures n.kind.Negate? || n.kind.Binary? ==> Group(n.Unparse(fmt))
    decreases n.Repr
  {
    var s := n.Unparse(fmt);
    match n.kind
    case Literal(v) =>
      NoParensBalanced(s);
      NoParensCount(s);
    case Name(c) =>
      assert NoParens(s);
      NoParensBalanced(s);
      NoParensCount(s);
    case Negate(c) =>
      UnparseBalanced(c, fmt);
      NegateForm(c.Unparse(fmt));
    case Binary(op, l, r) =>
      UnparseBalanced(l, fmt);
      UnparseBalanced(r, fmt);
      BinaryForm(l.Unparse(fmt), op, r.Unparse(fmt));
  }
}
