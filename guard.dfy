/** What the guard flags achieve: the early lowering of a flag by the Epilog
    of a re-entered node never changes an outcome; evaluation is reported as
    circular exactly when, taking operands in the code's order, it can walk
    back into a node it is still evaluating; and where every step of
    evaluation goes down a ranking of the nodes, it never is. */
module Guard {
  import opened Tree

  /** The outcome of evaluation as the source performs it equals the outcome
      under the discipline "a flag is raised exactly while its node has a
      frame on the stack", although the flags themselves may differ. */
  lemma {:induction false} QuirkHarmless(n: Node, regs: seq<Node?>, act: set<Node>)
    requires WellFormed(regs) && n.Tree()
    ensures Run(n, regs, act).0 == Stack(n, regs, act)
    decreases |Universe(n, regs) - act|
  {
    if n !in act {
      match n.kind
      case Literal(_) =>
      case Name(c) =>
        var t := regs[Index(c)];
        if t != null {
          SlotInUniverse(n, regs, Index(c));
          Shrinks(n, t, regs, act);
          QuirkHarmless(t, regs, act + {n});
        }
      case Negate(c) =>
        Shrinks(n, c, regs, act);
        QuirkHarmless(c, regs, act + {n});
      case Binary(_, l, r) =>
        Shrinks(n, l, regs, act);
        QuirkHarmless(l, regs, act + {n});
        Shrinks(n, r, regs, act);
        QuirkHarmless(r, regs, act + {n});
    }
  }

  /** The leaf evaluation reaches first: down the operand of a negation and
      the left operand of a binary node. */
  ghost function LeftLeaf(n: Node): (leaf: Node)
    requires n.Tree()
    ensures leaf.kind.Literal? || leaf.kind.Name?
    ensures leaf in n.Repr
    decreases n.Repr
  {
    match n.kind
    case Negate(c) => LeftLeaf(c)
    case Binary(_, l, _) => LeftLeaf(l)
    case _ => n
  }

  /** Registers `ks[0]`, `ks[1]`, ... each hold a tree whose first leaf names
      the next register of the list, and the last one names `ks[0]`: `a = a`,
      or `a = b` with `b = a * 2`. */
  ghost predicate SpineCycle(regs: seq<Node?>, ks: seq<int>)
    requires WellFormed(regs)
  {
    && |ks| > 0
    && (forall j | 0 <= j < |ks| ::
         0 <= ks[j] < Slots && regs[ks[j]] != null && LeftLeaf(regs[ks[j]]).kind.Name?)
    && (forall j {:trigger NextSlot(ks, j)} | 0 <= j < |ks| ::
         Index(LeftLeaf(regs[ks[j]]).kind.name) == NextSlot(ks, j))
  }

  /** The register after `ks[j]` in the cycle. */
  function NextSlot(ks: seq<int>, j: int): int
    requires 0 <= j < |ks|
  {
    if j + 1 < |ks| then ks[j + 1] else ks[0]
  }

  /** A circular failure of the first operand is the failure of the node. */
  lemma OperandCircular(n: Node, regs: seq<Node?>, act: set<Node>)
    requires WellFormed(regs) && n.Tree() && n !in act && (n.kind.Negate? || n.kind.Binary?)
    requires Run(if n.kind.Negate? then n.kind.child else n.kind.lhs, regs, act + {n}).0 == Circular
    ensures Run(n, regs, act).0 == Circular
  {
  }

  /** A circular failure of a register's tree is the failure of a name leaf naming it. */
  lemma NameCircular(n: Node, regs: seq<Node?>, act: set<Node>)
    requires WellFormed(regs) && n.Tree() && n !in act && n.kind.Name?
    requires regs[Index(n.kind.name)] != null
    requires Run(regs[Index(n.kind.name)], regs, act + {n}).0 == Circular
    ensures Run(n, regs, act).0 == Circular
  {
  }

  /** Evaluation of a node `n` on the first-leaf path of register `ks[m]`'s
      tree fails as circular, provided the registers before `ks[m]` in the
      cycle (and `ks[m]` itself unless `n` is its root) are already raised. */
  lemma {:induction false} SpineCycleCircular(regs: seq<Node?>, ks: seq<int>, m: int, n: Node, act: set<Node>)
    requires WellFormed(regs) && SpineCycle(regs, ks) && 0 <= m < |ks|
    requires n.Tree() && LeftLeaf(n) == LeftLeaf(regs[ks[m]])
    requires n == regs[ks[m]] || regs[ks[m]] in act
    requires forall j | 0 <= j < m :: regs[ks[j]] in act
    ensures Run(n, regs, act).0 == Circular
    decreases |ks| - m, n.Repr, 1
  {
    if n !in act {
      match n.kind
      case Negate(c) =>
        SpineCycleCircular(regs, ks, m, c, act + {n});
        OperandCircular(n, regs, act);
      case Binary(_, l, _) =>
        SpineCycleCircular(regs, ks, m, l, act + {n});
        OperandCircular(n, regs, act);
      case Name(c) =>
        NextInCycle(regs, ks, m, n, act);
        assert Index(c) == NextSlot(ks, m);
        NameCircular(n, regs, act);
      case Literal(_) =>
        assert false;
    }
  }

  /** Once the first leaf of register `ks[m]`'s tree is raised as well, the
      next register of the cycle, or the first one again, fails as circular. */
  lemma {:induction false} NextInCycle(regs: seq<Node?>, ks: seq<int>, m: int, n: Node, act: set<Node>)
    requires WellFormed(regs) && SpineCycle(regs, ks) && 0 <= m < |ks|
    requires n.Tree() && n !in act && n == LeftLeaf(regs[ks[m]])
    requires n == regs[ks[m]] || regs[ks[m]] in act
    requires forall j | 0 <= j < m :: regs[ks[j]] in act
    ensures Run(regs[NextSlot(ks, m)], regs, act + {n}).0 == Circular
    decreases |ks| - m, n.Repr, 0
  {
    var act' := act + {n};
    assert regs[ks[m]] in act';
    if m + 1 < |ks| {
      assert forall j | 0 <= j < m + 1 :: regs[ks[j]] in act';
      SpineCycleCircular(regs, ks, m + 1, regs[ks[m + 1]], act');
    } else {
      assert regs[ks[0]] in act';
    }
  }

  /** `eval a` where register `a` starts such a cycle fails as circular,
      and leaves every flag lowered. */
  lemma CycleIsCircular(regs: seq<Node?>, ks: seq<int>, e: Node)
    requires WellFormed(regs) && SpineCycle(regs, ks)
    requires e.Tree() && e.kind.Name? && Index(e.kind.name) == ks[0]
    ensures Run(e, regs, {}) == (Circular, {})
    ensures Stack(e, regs, {}) == Circular
  {
    var t := regs[ks[0]];
    SpineCycleCircular(regs, ks, 0, t, {e});
    assert {} + {e} == {e};
    NameCircular(e, regs, {});
    var res := Run(e, regs, {});
    assert res.1 <= {} - {e};
    assert res.1 == {};
    QuirkHarmless(e, regs, {});
  }

  /** A step evaluation of `m` takes while the nodes of `path` (`m` among
      them) are being evaluated: from a name leaf into its register's tree,
      into the operand of a negation, into the left operand of a binary
      node, or into its right operand once the left one has yielded a value. */
  ghost predicate Step(regs: seq<Node?>, path: set<Node>, m: Node, next: Node)
    requires WellFormed(regs) && m.Tree()
  {
    match m.kind
    case Literal(_) => false
    case Name(c) => regs[Index(c)] == next
    case Negate(c) => next == c
    case Binary(_, l, r) => next == l || (next == r && Stack(l, regs, path).Ok?)
  }

  /** `w` is a walk of evaluation steps from `w[0]`, with the nodes of `path`
      already being evaluated, that ends on a node still being evaluated: in
      `path` or earlier in the walk. */
  ghost predicate Reenters(regs: seq<Node?>, path: set<Node>, w: seq<Node>)
    requires WellFormed(regs)
    decreases |w|
  {
    && |w| > 0 && w[0].Tree()
    && if w[0] in path then |w| == 1
       else
         && |w| > 1
         && Step(regs, path + {w[0]}, w[0], w[1])
         && Reenters(regs, path + {w[0]}, w[1..])
  }

  /** Evaluation that can walk back into a node it is still evaluating fails
      as circular: `a = a`, `a = 1 + a`, `a = -(1 * a)` or `a = b` with
      `b = 2 * a` alike. */
  lemma {:induction false} ReentryIsCircular(regs: seq<Node?>, path: set<Node>, w: seq<Node>)
    requires WellFormed(regs) && Reenters(regs, path, w)
    ensures Stack(w[0], regs, path) == Circular
    decreases |w|
  {
    var n := w[0];
    if n !in path {
      ReentryIsCircular(regs, path + {n}, w[1..]);
      match n.kind
      case Name(c) =>
        assert regs[Index(c)] == w[1];
      case Negate(c) =>
      case Binary(_, l, r) =>
        if w[1] != l {
          assert Stack(l, regs, path + {n}).Ok?;
        }
    }
  }

  /** A walk `[n] + w` back into a node being evaluated, from one starting at
      a step of `n`. */
  lemma Prepend(regs: seq<Node?>, path: set<Node>, n: Node, next: Node)
    requires WellFormed(regs) && n.Tree() && n !in path
    requires Step(regs, path + {n}, n, next)
    requires exists w :: Reenters(regs, path + {n}, w) && w[0] == next
    ensures exists w :: Reenters(regs, path, w) && w[0] == n
  {
    var w :| Reenters(regs, path + {n}, w) && w[0] == next;
    assert ([n] + w)[1..] == w;
    assert Reenters(regs, path, [n] + w);
  }

  /** Conversely, a circular failure always comes from such a walk. */
  lemma {:induction false} CircularReenters(n: Node, regs: seq<Node?>, path: set<Node>)
    requires WellFormed(regs) && n.Tree() && Stack(n, regs, path) == Circular
    ensures exists w :: Reenters(regs, path, w) && w[0] == n
    decreases |Universe(n, regs) - path|
  {
    if n in path {
      assert Reenters(regs, path, [n]);
    } else {
      match n.kind
      case Literal(_) =>
        assert false;
      case Name(c) =>
        var t := regs[Index(c)];
        SlotInUniverse(n, regs, Index(c));
        Shrinks(n, t, regs, path);
        CircularReenters(t, regs, path + {n});
        Prepend(regs, path, n, t);
      case Negate(c) =>
        Shrinks(n, c, regs, path);
        CircularReenters(c, regs, path + {n});
        Prepend(regs, path, n, c);
      case Binary(_, l, r) =>
        Shrinks(n, l, regs, path);
        Shrinks(n, r, regs, path);
        if Stack(l, regs, path + {n}) == Circular {
          CircularReenters(l, regs, path + {n});
          Prepend(regs, path, n, l);
        } else {
          CircularReenters(r, regs, path + {n});
          Prepend(regs, path, n, r);
        }
    }
  }

  /** `eval n` fails as circular exactly when evaluation, in the order the
      code evaluates operands, can walk from `n` back into a node it is still
      evaluating; afterwards every flag is lowered again. */
  lemma CircularIffReenters(n: Node, regs: seq<Node?>)
    requires WellFormed(regs) && n.Tree()
    ensures Run(n, regs, {}).0 == Circular <==> exists w :: Reenters(regs, {}, w) && w[0] == n
    ensures Run(n, regs, {}).1 == {}
  {
    QuirkHarmless(n, regs, {});
    if Stack(n, regs, {}) == Circular {
      CircularReenters(n, regs, {});
    }
    if exists w :: Reenters(regs, {}, w) && w[0] == n {
      var w :| Reenters(regs, {}, w) && w[0] == n;
      ReentryIsCircular(regs, {}, w);
    }
  }

  /** `h` ranks the nodes so that every step evaluation takes, to an operand
      or from a name leaf to its register's tree, goes down: the evaluation
      graph restricted to `h` has no cycle. */
  ghost predicate Ranked(regs: seq<Node?>, h: map<Node, nat>)
    requires |regs| == Slots
  {
    forall m | m in h ::
      match m.kind
      case Literal(_) => true
      case Name(c) =>
        0 <= Index(c) < Slots && regs[Index(c)] != null ==>
          regs[Index(c)] in h && h[regs[Index(c)]] < h[m]
      case Negate(c) => c in h && h[c] < h[m]
      case Binary(_, l, r) => l in h && r in h && h[l] < h[m] && h[r] < h[m]
  }

  /** Every name leaf ranked by `h` names a register that holds a tree. */
  ghost predicate Defined(regs: seq<Node?>, h: map<Node, nat>)
  {
    forall m | m in h && m.kind.Name? && 0 <= Index(m.kind.name) < |regs| :: regs[Index(m.kind.name)] != null
  }

  /** Where the evaluation graph has no cycle, the guard never fires: the
      outcome is never circular, and with every register defined it is a
      value. */
  lemma {:induction false} RankedNeverCircular(n: Node, regs: seq<Node?>, h: map<Node, nat>, path: set<Node>)
    requires WellFormed(regs) && n.Tree() && Ranked(regs, h) && n in h
    requires forall x | x in path && x in h :: h[x] > h[n]
    ensures Stack(n, regs, path) != Circular
    ensures Defined(regs, h) ==> Stack(n, regs, path).Ok?
    decreases h[n]
  {
    assert n !in path;
    var path' := path + {n};
    match n.kind
    case Literal(_) =>
    case Name(c) =>
      var t := regs[Index(c)];
      if t != null {
        RankedNeverCircular(t, regs, h, path');
      }
    case Negate(c) =>
      RankedNeverCircular(c, regs, h, path');
    case Binary(_, l, r) =>
      RankedNeverCircular(l, regs, h, path');
      RankedNeverCircular(r, regs, h, path');
  }

  /** A top-level evaluation over a ranked graph is not circular, and with
      every register defined it yields a value with every flag as it was. */
  lemma RankedEvaluation(n: Node, regs: seq<Node?>, h: map<Node, nat>)
    requires WellFormed(regs) && n.Tree() && Ranked(regs, h) && n in h
    ensures Run(n, regs, {}).0 != Circular
    ensures Defined(regs, h) ==> Run(n, regs, {}).0.Ok? && Run(n, regs, {}).1 == {}
  {
    RankedNeverCircular(n, regs, h, {});
    QuirkHarmless(n, regs, {});
  }

  /** A name leaf whose register is empty fails as undefined and leaves every
      other flag as it found it; once its own flag is raised the failure is
      circular instead. */
  lemma EmptyRegister(n: Node, regs: seq<Node?>, act: set<Node>)
    requires WellFormed(regs) && n.Tree() && n.kind.Name? && regs[Index(n.kind.name)] == null
    ensures n !in act ==> Run(n, regs, act) == (Undefined, act)
    ensures n in act ==> Run(n, regs, act) == (Circular, act - {n})
    ensures Stack(n, regs, act) == if n in act then Circular else Undefined
  {
  }

  /** A literal leaf yields its value whatever the registers hold. */
  lemma LiteralIgnoresRegisters(n: Node, regs: seq<Node?>, regs': seq<Node?>, act: set<Node>)
    requires WellFormed(regs) && WellFormed(regs') && n.Tree() && n.kind.Literal? && n !in act
    ensures Run(n, regs, act) == Run(n, regs', act) == (Ok(n.kind.value), act)
  {
  }
}
