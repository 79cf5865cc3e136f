# RealTree expression evaluator, modelled in Dafny

RealTree is a small calculator shipped as a sample with the gppg parser
generator. It has 26 registers, `a` to `z`. Each register is empty or holds an
expression tree. A tree is built from literal and name leaves, unary negation
and the binary operators `+ - * / %`. A name leaf evaluates the tree stored in
its register. A register can therefore reach back to itself (`a = b`, with
`b = a * 2`), even though every tree on its own is finite.

Each node carries a guard flag. `Prolog` raises it on entry to evaluation and
throws `CircularEvalException` if it was already raised. `Epilog` lowers it on
every exit. `Parser.Eval` turns any failure into the result `0.0`.
`Display` evaluates the same way, but it reports a failure instead of
printing a value.

The model has six modules:

- `Values` (values.dfy) models C# `double`. Finite values are exact reals.
  The IEEE infinities and NaN are kept, so division by zero is not an error.
  `%` truncates toward zero, as C# does.
- `Tree` (tree.dfy) holds the `Node` class. A node has an immutable `kind`, a
  mutable `active` flag, and a ghost `Repr`, the set of nodes of its tree.
  - `Prolog`, `Epilog` and the three `Eval` methods update the flags in
    place. `Prolog` and `Epilog` are specified by the set of raised flags
    they leave. The three `Eval` methods are proved against the
    specification function `Run`.
  - `Run` gives the outcome and the set of raised flags after an evaluation,
    exactly as the code performs it.
  - `Stack` is the idealised reading: a flag is raised exactly while its node
    has a frame on the call stack.
  - Termination is proved. Each nested evaluation raises one more flag among
    the finitely many nodes it can reach.
- `Guard` (guard.dfy) proves three facts about the guard flags:
  - The code's early lowering of flags never changes an outcome.
  - `eval` fails as circular exactly when evaluation can walk back into a
    node it is still evaluating. The walk takes operands in the code's
    order, and it enters a right operand only after the left one has
    yielded a value. So `a = 1 + a` is circular, while `a = b + a` with `b`
    empty fails as undefined first.
  - Suppose a ranking of the nodes goes down along every step evaluation
    can take, so the evaluation graph has no cycle. Then evaluation is
    never circular.
- `Render` (render.dfy) proves that the printed form of a tree is fully and
  properly parenthesised.
- `Calc` (calc.dfy) holds the `Parser` part of the calculator: the register
  array, `reset`, assignment, the register listing, the top-level
  `Parser.Eval`, and the node factories.
- `Session` (session.dfy) runs one example session through `Parser.Eval`
  and proves its results:
  - `a = 3 + 4`, then evaluating `a` gives 7;
  - `b = a * 2`, then evaluating `b` gives 14;
  - `a = b`, then evaluating `a` is circular, so `Parser.Eval` gives 0.0.

  A separate lemma shows that evaluating `a` with `a = 1 + a` is circular.

A flag is not always raised exactly while its node has a frame on the
stack.

`Prolog` runs inside the `try`. When a node is re-entered, the `finally` of
the inner frame runs `Epilog`. That lowers the flag while the outer frame of
the same node is still on the stack.

`Run` models this exactly, threading the set of raised flags through the
evaluation. `Guard.QuirkHarmless` proves that the outcome is nevertheless the
one `Stack` gives.

The register listing prints each register's number, letter and printed
tree. It does not evaluate the registers.

Paths below are relative to the repository root. Every line cited is in
`ConsoleApplication1/gppg-distro-1_5_2/testfiles/RealTreeSources/RealTreeHelper.cs`.

## Model

| member | source | states |
|---|---|---|
| `Values.Neg` | ConsoleApplication1/gppg-distro-1_5_2/testfiles/RealTreeSources/RealTreeHelper.cs:314 | negation keeps a value finite, infinite or NaN, and flips its sign |
| `Values.Add` | ConsoleApplication1/gppg-distro-1_5_2/testfiles/RealTreeSources/RealTreeHelper.cs:342 | `+` is exact on finite operands; an infinity absorbs a finite operand; a NaN operand, or opposite infinities, give NaN |
| `Values.Sub` | ConsoleApplication1/gppg-distro-1_5_2/testfiles/RealTreeSources/RealTreeHelper.cs:341 | `-` is exact on finite operands; an infinity less itself, or a NaN operand, gives NaN |
| `Values.Mul` | ConsoleApplication1/gppg-distro-1_5_2/testfiles/RealTreeSources/RealTreeHelper.cs:344 | `*` is exact on finite operands; zero times an infinity is NaN; an infinity times a non-zero number is an infinity of the product's sign |
| `Values.Div` | ConsoleApplication1/gppg-distro-1_5_2/testfiles/RealTreeSources/RealTreeHelper.cs:340 | `/` is exact on finite operands with a non-zero divisor; a finite number over an infinity is zero; an infinity over an infinity, or a NaN operand, is NaN |
| `Values.Rem` | ConsoleApplication1/gppg-distro-1_5_2/testfiles/RealTreeSources/RealTreeHelper.cs:343 | `%` of an infinity, by zero, or with a NaN operand is NaN; a finite number `%` an infinity is itself; finite operands with a non-zero divisor give a finite remainder |
| `Values.DivisionByZero` | ConsoleApplication1/gppg-distro-1_5_2/testfiles/RealTreeSources/RealTreeHelper.cs:340 | a nonzero number divided by zero is an infinity of its sign, and `0 / 0` is NaN; neither is a failure |
| `Values.RemainderTruncates` | ConsoleApplication1/gppg-distro-1_5_2/testfiles/RealTreeSources/RealTreeHelper.cs:343 | `a % b` with `b != 0` is the `m` with `a == q * b + m`, where `q` is `a / b` truncated toward zero; `m` is smaller than `b` in magnitude and never of the opposite sign to `a` |
| `Tree.Index` | ConsoleApplication1/gppg-distro-1_5_2/testfiles/RealTreeSources/RealTreeHelper.cs:282 | `name - 'a'` is a register number, 0 to 25, exactly when the name is a letter `a` to `z` |
| `Tree.Letter` | ConsoleApplication1/gppg-distro-1_5_2/testfiles/RealTreeSources/RealTreeHelper.cs:208 | `(char)(i + 'a')` is a letter, and `Index` maps it back to `i` |
| `Tree.Apply` | ConsoleApplication1/gppg-distro-1_5_2/testfiles/RealTreeSources/RealTreeHelper.cs:339-345 | a binary node's operator: a NaN operand gives NaN, finite operands give a finite result unless they divide by zero, and dividing by zero gives no finite result |
| `Tree.Symbol` | ConsoleApplication1/gppg-distro-1_5_2/testfiles/RealTreeSources/RealTreeHelper.cs:355-361 | an operator prints as one character among `+ - * / %` |
| `Tree.SymbolsDistinct` | ConsoleApplication1/gppg-distro-1_5_2/testfiles/RealTreeSources/RealTreeHelper.cs:355-361 | two operators print the same only when they are the same operator |
| `Tree.Node.ConstLeaf` | ConsoleApplication1/gppg-distro-1_5_2/testfiles/RealTreeSources/RealTreeHelper.cs:280 | a new literal leaf is a one-node tree with its flag lowered |
| `Tree.Node.IdLeaf` | ConsoleApplication1/gppg-distro-1_5_2/testfiles/RealTreeSources/RealTreeHelper.cs:279 | a new name leaf is a one-node tree with its flag lowered |
| `Tree.Node.UnaryNode` | ConsoleApplication1/gppg-distro-1_5_2/testfiles/RealTreeSources/RealTreeHelper.cs:308-309 | a new negation over a tree is a tree with the new node added, its flag lowered |
| `Tree.Node.BinaryNode` | ConsoleApplication1/gppg-distro-1_5_2/testfiles/RealTreeSources/RealTreeHelper.cs:330-332 | a new binary node over two trees is a tree with the new node added, its flag lowered |
| `Tree.Node.Prolog` | ConsoleApplication1/gppg-distro-1_5_2/testfiles/RealTreeSources/RealTreeHelper.cs:267-271 | signals circular exactly when the flag was already raised; in both cases the flag is raised afterwards, and no other flag changes |
| `Tree.Node.Epilog` | ConsoleApplication1/gppg-distro-1_5_2/testfiles/RealTreeSources/RealTreeHelper.cs:273 | the node's flag is lowered and no other flag changes |
| `Tree.Node.Eval` | ConsoleApplication1/gppg-distro-1_5_2/testfiles/RealTreeSources/RealTreeHelper.cs:264 | the virtual `Eval` gives the outcome and the new flags that `Run` specifies; it terminates |
| `Tree.Node.LeafEval` | ConsoleApplication1/gppg-distro-1_5_2/testfiles/RealTreeSources/RealTreeHelper.cs:285-296 | `Leaf.Eval`: a literal yields its value; a name evaluates its register's tree; an empty register fails; the flag is lowered on every exit, as `Run` specifies |
| `Tree.Node.UnaryEval` | ConsoleApplication1/gppg-distro-1_5_2/testfiles/RealTreeSources/RealTreeHelper.cs:311-319 | `Unary.Eval`: the negation of the child's value, or the child's failure; the flag is lowered on every exit |
| `Tree.Node.BinaryEval` | ConsoleApplication1/gppg-distro-1_5_2/testfiles/RealTreeSources/RealTreeHelper.cs:334-351 | `Binary.Eval`: the left operand completely, then the right one, with the flags the left one left behind, then the operator; a failure of the left operand skips the right one; the flag is lowered on every exit |
| `Tree.Node.Unparse` | ConsoleApplication1/gppg-distro-1_5_2/testfiles/RealTreeSources/RealTreeHelper.cs:298-363 | `Leaf.Unparse` (298-303): a literal prints as `fmt` renders its value and a name leaf as its letter; `Unary.Unparse` (321-323): a negation's form starts with `( - ` and ends with `)`; `Binary.Unparse` (353-363): a binary node's form is in parentheses and contains its operator's symbol. Where the operands sit is stated by `Render.NegateLayout` and `Render.BinaryLayout` |
| `Tree.Run` | ConsoleApplication1/gppg-distro-1_5_2/testfiles/RealTreeSources/RealTreeHelper.cs:267-273 | evaluation only lowers flags and always lowers the node's own; a success leaves every flag as it found it, so all flags lowered before means all lowered after |
| `Tree.Shrinks` | ConsoleApplication1/gppg-distro-1_5_2/testfiles/RealTreeSources/RealTreeHelper.cs:289 | raising a node's flag leaves fewer unraised nodes within reach of any operand or register it evaluates: the termination measure |
| `Tree.SlotInUniverse` | ConsoleApplication1/gppg-distro-1_5_2/testfiles/RealTreeSources/RealTreeHelper.cs:289 | the nodes a register's tree can reach are within reach of every node |
| `Guard.QuirkHarmless` | ConsoleApplication1/gppg-distro-1_5_2/testfiles/RealTreeSources/RealTreeHelper.cs:285-296 | the outcome with the code's early lowering of flags equals the outcome when a flag is raised exactly while its node is on the stack |
| `Guard.ReentryIsCircular` | ConsoleApplication1/gppg-distro-1_5_2/testfiles/RealTreeSources/RealTreeHelper.cs:268-269 | an evaluation that can walk back into a node still being evaluated fails as circular; a step enters a register's tree, an operand, or a right operand once the left one has a value |
| `Guard.CircularReenters` | ConsoleApplication1/gppg-distro-1_5_2/testfiles/RealTreeSources/RealTreeHelper.cs:268-269 | conversely, every circular failure comes from such a walk |
| `Guard.CircularIffReenters` | ConsoleApplication1/gppg-distro-1_5_2/testfiles/RealTreeSources/RealTreeHelper.cs:221-223 | `eval n` fails as circular if and only if such a walk starts at `n`, and it leaves every flag lowered |
| `Guard.CycleIsCircular` | ConsoleApplication1/gppg-distro-1_5_2/testfiles/RealTreeSources/RealTreeHelper.cs:267-271 | a special case: `eval a`, where `a`'s tree leads through first operands to `b`, then to `c`, and so on back to `a`, fails as circular and leaves every flag lowered |
| `Guard.SpineCycleCircular` | ConsoleApplication1/gppg-distro-1_5_2/testfiles/RealTreeSources/RealTreeHelper.cs:268-269 | every node on such a chain fails as circular once the registers before it are being evaluated |
| `Guard.NextInCycle` | ConsoleApplication1/gppg-distro-1_5_2/testfiles/RealTreeSources/RealTreeHelper.cs:288-289 | the first leaf of one register of the chain hands evaluation to the next register, which fails as circular |
| `Guard.RankedNeverCircular` | ConsoleApplication1/gppg-distro-1_5_2/testfiles/RealTreeSources/RealTreeHelper.cs:289 | when a ranking of the reachable nodes goes down along every step evaluation can take, evaluation is never circular; if every ranked name leaf's register also holds a tree, it yields a value |
| `Guard.RankedEvaluation` | ConsoleApplication1/gppg-distro-1_5_2/testfiles/RealTreeSources/RealTreeHelper.cs:221-223 | the same for a top-level evaluation, which then leaves every flag lowered |
| `Guard.EmptyRegister` | ConsoleApplication1/gppg-distro-1_5_2/testfiles/RealTreeSources/RealTreeHelper.cs:288-289 | a name leaf whose register is empty fails as undefined, or as circular if its own flag is already raised |
| `Guard.LiteralIgnoresRegisters` | ConsoleApplication1/gppg-distro-1_5_2/testfiles/RealTreeSources/RealTreeHelper.cs:290-291 | a literal leaf yields its value, and leaves the flags as they were, whatever the registers hold |
| `Render.NegateLayout` | ConsoleApplication1/gppg-distro-1_5_2/testfiles/RealTreeSources/RealTreeHelper.cs:321-323 | a negation's form holds its operand's form between `( - ` and the closing `)` |
| `Render.BinaryLayout` | ConsoleApplication1/gppg-distro-1_5_2/testfiles/RealTreeSources/RealTreeHelper.cs:353-363 | a binary node's form is `(`, the left operand's form, ` op ` with the operator's symbol, the right operand's form and `)`, each at its position |
| `Render.NegateForm` | ConsoleApplication1/gppg-distro-1_5_2/testfiles/RealTreeSources/RealTreeHelper.cs:321-323 | `( - c)` around a balanced `c` is one parenthesised group with one more `(` |
| `Render.BinaryForm` | ConsoleApplication1/gppg-distro-1_5_2/testfiles/RealTreeSources/RealTreeHelper.cs:353-363 | `(l op r)` around balanced `l` and `r` is one parenthesised group, and its `(` count is theirs plus one |
| `Render.UnparseBalanced` | ConsoleApplication1/gppg-distro-1_5_2/testfiles/RealTreeSources/RealTreeHelper.cs:298-363 | the printed form of any tree is balanced, with one pair of parentheses per operator node; an operator node prints as one group |
| `Calc.Decimal` | ConsoleApplication1/gppg-distro-1_5_2/testfiles/RealTreeSources/RealTreeHelper.cs:208 | a register number prints as one or two decimal digits, one exactly below 10 |
| `Calc.RegisterLine` | ConsoleApplication1/gppg-distro-1_5_2/testfiles/RealTreeSources/RealTreeHelper.cs:208 | a listing line is `regs[`, the register number in decimal, `] = '`, the register's letter, `' = ` and the printed tree |
| `Calc.DecimalValue` | ConsoleApplication1/gppg-distro-1_5_2/testfiles/RealTreeSources/RealTreeHelper.cs:208 | the printed digits read back as the register number |
| `Calc.Parser.constructor` | ConsoleApplication1/gppg-distro-1_5_2/testfiles/RealTreeSources/RealTreeHelper.cs:42 | a parser starts with 26 empty registers |
| `Calc.Parser.ClearRegisters` | ConsoleApplication1/gppg-distro-1_5_2/testfiles/RealTreeSources/RealTreeHelper.cs:200-203 | `reset` empties all 26 registers |
| `Calc.Parser.AssignExpression` | ConsoleApplication1/gppg-distro-1_5_2/testfiles/RealTreeSources/RealTreeHelper.cs:211-214 | the tree goes into the register the destination leaf names, and the other 25 registers keep their trees |
| `Calc.Parser.PrintRegisters` | ConsoleApplication1/gppg-distro-1_5_2/testfiles/RealTreeSources/RealTreeHelper.cs:205-209 | one line `regs[i] = 'c' = tree` for each register `Filled` lists, in that order |
| `Calc.Filled` | ConsoleApplication1/gppg-distro-1_5_2/testfiles/RealTreeSources/RealTreeHelper.cs:206-207 | the registers the listing walks are register numbers whose register is non-empty |
| `Calc.FilledSlots` | ConsoleApplication1/gppg-distro-1_5_2/testfiles/RealTreeSources/RealTreeHelper.cs:206-207 | the listing names every non-empty register and no empty one, each once, in ascending order |
| `Calc.Parser.Eval` | ConsoleApplication1/gppg-distro-1_5_2/testfiles/RealTreeSources/RealTreeHelper.cs:221-232 | the value the tree has when a flag is raised exactly while its node is on the stack, or `0.0` when that evaluation is circular or reads an empty register; flags are only lowered, so all lowered before means all lowered after |
| `Calc.Parser.MakeBinary` | ConsoleApplication1/gppg-distro-1_5_2/testfiles/RealTreeSources/RealTreeHelper.cs:166-168 | a new binary node over the two trees |
| `Calc.Parser.MakeUnary` | ConsoleApplication1/gppg-distro-1_5_2/testfiles/RealTreeSources/RealTreeHelper.cs:170-172 | a new negation over the tree |
| `Calc.Parser.MakeIdLeaf` | ConsoleApplication1/gppg-distro-1_5_2/testfiles/RealTreeSources/RealTreeHelper.cs:174-176 | a new name leaf |
| `Calc.Parser.MakeConstLeaf` | ConsoleApplication1/gppg-distro-1_5_2/testfiles/RealTreeSources/RealTreeHelper.cs:178-180 | a new literal leaf |
| `Session.EvalSum` | ConsoleApplication1/gppg-distro-1_5_2/testfiles/RealTreeSources/RealTreeHelper.cs:342 | with `a = 3 + 4`, `eval a` is 7 |
| `Session.EvalProduct` | ConsoleApplication1/gppg-distro-1_5_2/testfiles/RealTreeSources/RealTreeHelper.cs:344 | with `a = 3 + 4` and `b = a * 2`, `eval b` is 14 |
| `Session.EvalCycle` | ConsoleApplication1/gppg-distro-1_5_2/testfiles/RealTreeSources/RealTreeHelper.cs:268-269 | with `b = a * 2` and then `a = b`, `eval a` is circular |
| `Session.EvalSelfReference` | ConsoleApplication1/gppg-distro-1_5_2/testfiles/RealTreeSources/RealTreeHelper.cs:337-338 | with `a = 1 + a`, `eval a` is circular: the left operand yields 1, then the right one re-enters `a`'s tree; every flag is lowered afterwards |
| `Session.Example` | ConsoleApplication1/gppg-distro-1_5_2/testfiles/RealTreeSources/RealTreeHelper.cs:221-232 | the session above, run through the factories, `AssignExpression` and `Parser.Eval`, gives 7, 14 and `0.0` |

`Node.Unparse` has no reads clause. It therefore depends on neither the
registers nor the flags, and it cannot change either.

## Left out

- The lexer (lines 62-158) is left out. It is character I/O with Unicode
  letter and digit classes and `double.Parse`. Name leaves are therefore
  required to be the letters `a` to `z`, which the lexer's lower-casing
  guarantees for ASCII input.
- The gppg-generated parser and its base classes are not part of this model.
  `AssignExpression` is required to receive a name leaf, which is the only
  kind of node the grammar passes it.
- `Main`, `PrintHelp`, `CallExit`, `Display` and `yyerror` are console I/O
  and process exit, so they are left out. `Display` evaluates as
  `Parser.Eval` does, but on a failure it prints an error message and no
  value.
- The error messages `Parser.Eval` writes are left out. Only which failure
  occurred (`Circular` or `Undefined`) is modelled.
- IEEE rounding, overflow to infinity, underflow and signed zero are not
  modelled. Finite results are exact reals.
- `double.ToString`, used to print literals, is the parameter `fmt` of
  `Unparse` and `PrintRegisters`. `Render.UnparseBalanced` requires only that
  `fmt` prints no parentheses.
- `Calc.Parser.PrintRegisters` returns its lines instead of writing them to
  the console.
- The default `bad tag` branch of `Binary.Eval`, and the empty operator
  `Binary.Unparse` falls back to, cannot be reached: the five operators
  form a closed datatype.
- `Calc.Parser.MakeUnary` drops the tag argument. Negation is the only unary
  tag, and neither `Unary.Eval` nor `Unary.Unparse` reads the tag.
- `Calc.Parser.MakeBinary` takes one of the five operators rather than any
  `NodeTag`.
- Stack overflow and running out of memory are not modelled. Termination is
  proved, and the nesting depth is bounded by the number of reachable nodes.
