# daixtrose, modelled in Dafny

daixtrose is a C++ expression-template library. An expression such as
`(a + b) * c` is not evaluated where it is written. It becomes a tree of
`Expr`, `UnOp` and `BinOp` nodes, typed by the operands and by a
`Disambiguation` tag that decides which operators compile. Separate
manipulators then walk that tree:

- `Simplify` rewrites it;
- `Diff` differentiates it;
- `CountOccurrence`, `CountTypeOccurrence` and `CountLeaves` count in it;
- `PrettyPrinter` and `LaTeX` print it;
- row and column extractors, counters and `GetValue` evaluate it into the
  sparse `Linalg::Matrix` and `Linalg::Vector` and the fixed-size
  `TinyMat`/`TinyVec` containers.

This project models that core in Dafny:

- the tree and its tags;
- the builders and the manipulators;
- the sparse matrix, vector, slice-vector and slice-iterator classes, with
  their assignment and compound-assignment loops;
- the tiny containers;
- the printer for blocked matrices;
- the ITL bindings;
- three demos: the solver with its Jacobian (`Solver_2.C`), the "poor man's
  lambda" predicates (`PoorMansLambda.C`) and the `Mini.3.C` quick-tour
  program.

The C++ type of a node is modelled as a value of the datatype `Nodes.Node`
(`Nodes.Erase` forgets what is not part of the type). A template
instantiation that does not compile becomes an `Err` result of the
builder or manipulator that would instantiate it. Classes whose members
update fields in place (`Matrix`, `Vector`, `SliceVector`, `SliceIterator`,
`TinyVector`, `TinyMatrix`, the ITL targets, `Solver`, the demo's `X`) are
Dafny classes with `modifies` clauses. Each of their loops is a method
proved against a specification function. Values are `real`, not `double`.

Module map:

- `Ops`, `Tags`, `Nodes`, `Terms`: the operators, the disambiguation rules,
  the node tree and the `Expr`/`ChangeDisambiguation` wrappers.
- `Counting`, `Printer`, `Simplification`, `Differentiation`: the
  manipulators. `Semantics` gives a tree its value and `Slope` its
  derivative; the proof modules relate the manipulators to these.
- `SparseRows`, `LinalgExpr`, `LinalgProofs`, `MatrixVectorOps`,
  `SparseMatrix`, `SparseVector`, `SliceVectors`, `SliceIteration`,
  `BlockedPrinter`, `ItlBindings`: the sparse linear algebra.
- `TinyValues`, `TinyValueLaws`, `TinyContainers`: the fixed-size
  containers.
- `SolverDemo`, `LambdaDemo`, `MiniDemo`: the demos.
- `Wrappers`, `Decimal`, `Brackets`: helpers (results, integer texts,
  bracket balance).

The specification functions (`Simplification.Impl`, `Differentiation.Diff`,
`Semantics.Eval`, `Counting.StaticCount`, the extractors of `LinalgExpr`, the
demos' evaluators and the like) have no row of their own: the lemma rows
below state their properties and name them.

## Model

| member | source | states |
|---|---|---|
| Ops.BinarySymbolInjective | daixtrose/daixtrose/src/daixtrose/DefaultOps.h:275-308 | two binary operations with the same printed symbol are the same operation |
| Ops.UnarySymbolInjective | daixtrose/daixtrose/src/daixtrose/DefaultOps.h:167-182 | two unary operations, other than the do-nothing matrix operations, with the same symbol are the same operation |
| Tags.SameTagKept | daixtrose/daixtrose/src/daixtrose/Disambiguation.h:65-69 | two operands with the same tag give that tag, for every operator |
| Tags.ResultTagFromOperands | daixtrose/daixtrose/src/daixtrose/Disambiguation.h:61-69 | a binary node takes the tag of one of its operands or the comparison tag; for every operator but the product the rule is symmetric, and two different ordinary tags give no node |
| Tags.MatrixTimesVectorIsVector | daixtrose/daixtrose/src/linalg/MatrixVectorOps.h:78-95 | sparse matrix times sparse vector has the vector's tag, whatever the matrix's number type and allocator |
| Tags.TinyMatrixTimesVectorIsVector | daixtrose/daixtrose/src/tiny/MatrixVectorOps.h:79-93 | tiny matrix times tiny vector of the same element type and dimension has the vector tag |
| Tags.UnaryTagRule | daixtrose/daixtrose/src/daixtrose/Disambiguation.h:73-77 | a unary node changes its argument's tag only for the row sum of a matrix, which becomes a vector of the same number type and allocator; applying the rule twice changes nothing more |
| Tags.ResultTagByOperator | daixtrose/daixtrose/src/daixtrose/Disambiguation.h:61-77 | only the product has extra result tags; every other operator has those of `+` |
| Nodes.WellFormedCompositeTagged | daixtrose/daixtrose/src/daixtrose/BinOps.h:82-84 | every unary, binary and power node of a tree the compiler accepts has a `Disambiguation` |
| Nodes.EraseIdempotent | daixtrose/daixtrose/src/daixtrose/BinOps.h:47-61 | the type of a node is the type of its type, and forgetting values keeps the tag |
| Nodes.SameTypeSameTag | daixtrose/daixtrose/src/daixtrose/UnOps.h:67-79 | two nodes of the same C++ type have the same tag |
| Nodes.NeutralTypes | daixtrose/daixtrose/src/daixtrose/Disambiguation.h:45-50 | being of type `IsNull<D>` or `IsOne<D>` is being that value |
| Nodes.TopOpOfSameType | daixtrose/daixtrose/src/daixtrose/ExtractOp.h:45-71 | `ExtractOp` is a function of the C++ type: two nodes of the same type give the same operator |
| Terms.ExprOf | daixtrose/daixtrose/src/daixtrose/Expr.h:50-72 | `Expr<T>` can be built exactly from a bare tagged node, keeps it as content, and an `Expr` of an `Expr` is rejected |
| Terms.MakeExprRoundTrip | daixtrose/daixtrose/src/daixtrose/Expr.h:82-112 | `make_expr` is idempotent and always gives an `Expr`; `unwrap_expr` of it gives back the node |
| Terms.ChangeDisambiguation | daixtrose/daixtrose/src/daixtrose/ChangeDisambiguation.h:43-95 | only an `Expr` can get new features; the content and its `Disambiguation` are kept and only the features tag changes |
| Terms.UnaryNode | daixtrose/daixtrose/src/daixtrose/DefaultOps.h:52-87 | a unary operator compiles exactly for a tagged argument, builds an `Expr` around a unary node and keeps well-formedness |
| Terms.BinaryNode | daixtrose/daixtrose/src/daixtrose/DefaultOps.h:93-131 | a binary operator compiles exactly when the operand tags have a result tag, builds `BinOp<lhs, rhs, OP>` around the unwrapped operands and keeps well-formedness |
| Terms.RationalPow | daixtrose/daixtrose/src/daixtrose/DefaultOps.h:192-237 | `RationalPow<m, n>` rejects `n == 0` and otherwise builds the power `m/n` of the unwrapped argument |
| Terms.NamedPowers | daixtrose/daixtrose/src/daixtrose/DefaultOps.h:239-266 | `Pow<m>`, `Sqrt` and `Inverse` build the exponents `m/1`, `1/2` and `1/-1` |
| Terms.ScalarOnRight | daixtrose/daixtrose/src/daixtrose/Scalar.h:70-111 | `expr OP d` compiles for the four convenience operators exactly when the expression has a tag, with a `Scalar` of that tag on the right |
| Terms.ScalarOnLeft | daixtrose/daixtrose/src/daixtrose/Scalar.h:70-111 | the same with the `Scalar` on the left |
| Counting.StaticCountZero | daixtrose/daixtrose/src/daixtrose/CountOccurence.h:51-95 | the static count is zero exactly when no node has the searched type and no by-reference leaf refers to an object of it; it is 1 for a tree of that type, and 1 for a leaf whose object has that type, held by value or through `ConstRef` |
| Counting.StaticCountTermZero | daixtrose/daixtrose/src/daixtrose/CountOccurence.h:51-116 | `CountTypeOccurrence` finds a type in an `Expr` exactly when it occurs in the content, looking through `ConstRef` leaves to the object they refer to; a changer hides its content |
| Counting.ByReferenceOperandsCounted | daixtrose/daixtrose/src/daixtrose/CountOccurence.h:88-116 | in `A + B` over two operands held by reference, the type of the objects counts 2 |
| Counting.NoExprInNodes | daixtrose/daixtrose/src/daixtrose/CountOccurence.h:51-77 | no node holds an `Expr`, so an `Expr` type counts 0 inside a tree |
| Counting.StaticCountByType | daixtrose/daixtrose/src/daixtrose/CountOccurence.h:51-86 | the static count depends only on the type of the tree, not on its scalar values or leaf identities |
| Counting.DynamicCountInTree | daixtrose/daixtrose/src/daixtrose/CountOccurence.h:121-154 | `CountOccurrence` finds an object stored in the tree exactly once, and an address that is no node of the tree not at all |
| Counting.DynamicCountOutside | daixtrose/daixtrose/src/daixtrose/CountOccurence.h:121-154 | an address outside the subtree is not counted |
| Counting.DynamicCountExternal | daixtrose/daixtrose/src/daixtrose/CountOccurence.h:156-161 | an object outside the tree counts once per by-reference leaf that refers to it |
| Counting.LeafCount | daixtrose/daixtrose/src/daixtrose/CountLeaves.h:42-58 | every tree has at least one leaf |
| Counting.LeafCountTerm | daixtrose/daixtrose/src/daixtrose/CountLeaves.h:60-75 | `CountLeaves` of an `Expr` is that of its content |
| Counting.LeafCountSkeleton | daixtrose/daixtrose/src/daixtrose/CountLeaves.h:42-58 | the leaf count is one more than the number of binary nodes above the unary nodes |
| Decimal.IntTextRoundTrip | daixtrose/daixtrose/src/daixtrose/PrettyPrinter.h:228-275 | the decimal text of an exponent reads back as that integer |
| Decimal.IntTextInjective | daixtrose/daixtrose/src/daixtrose/PrettyPrinter.h:228-275 | different exponents print differently |
| Decimal.NatTextValue | daixtrose/daixtrose/src/daixtrose/PrettyPrinter.h:228-275 | the digits of a natural number denote it |
| Printer.BinaryOpTextNamesOperation | daixtrose/daixtrose/src/daixtrose/PrettyPrinter.h:56-123 | two operators print alike only when they are the same, except that LaTeX writes both `==` and `%=` as `=` |
| Printer.PrintBinaryNode | daixtrose/daixtrose/src/daixtrose/PrettyPrinter.h:280-353 | a binary node built from two terms prints as the formatter's text for its operator around the printed operands, bracketed by the operands' own operators; an `Expr` around an operand is looked through (145-151) |
| Printer.PrintUnaryNode | daixtrose/daixtrose/src/daixtrose/PrettyPrinter.h:208-225 | a unary node built from a term prints as the formatter's text for its operator around the printed argument, bracketed by the argument's operator |
| Printer.ByReferenceTransparent | daixtrose/daixtrose/src/daixtrose/PrettyPrinter.h:134-141 | a by-reference leaf prints as the object it refers to |
| Printer.FormatterFrames | daixtrose/daixtrose/src/daixtrose/PrettyPrinter.h:56-123 | both formatters open and close their delimiters, powers and fractions |
| Printer.PrintBalanced | daixtrose/daixtrose/src/daixtrose/PrettyPrinter.h:167-352 | every printed tree has balanced brackets of every pair the formatters use, given leaves with balanced texts |
| Semantics.EvalProductWithInverse | daixtrose/daixtrose/src/daixtrose/Simplify.h:671-700 | `a * b^(-1/1)` has the value of `a / b` |
| Semantics.PowerOfPower | daixtrose/daixtrose/src/daixtrose/Simplify.h:409-428 | `(x^a)^b` has the value of `x^(a*b)` wherever it has a value |
| Semantics.PowerOfProduct | daixtrose/daixtrose/src/daixtrose/Simplify.h:431-466 | `(x*y)^m` is `x^m * y^m` wherever it has a value |
| Semantics.NormalisedPower | daixtrose/daixtrose/src/daixtrose/Simplify.h:315-405 | moving the exponent's sign to the numerator keeps the value |
| Semantics.IntendedRationalPower | daixtrose/daixtrose/src/daixtrose/DefaultOps.h:192-202 | what `RationalPower<m,n>` is meant to compute: `x^(m/1)` is `x^m`, `x^(-m/-1)` is `x^m` and `Inverse` is `1/x` |
| Semantics.EvalNegTimesNeg | daixtrose/daixtrose/src/daixtrose/Simplify.h:586-666 | `(-a)*(-b)` has the value of `a*b` |
| Simplification.Evoke | daixtrose/daixtrose/src/daixtrose/Simplify.h:115-206 | `SimplEvoker<T>` gives a result only when `T` has a `Disambiguation`, and the result has the same one |
| Simplification.EvokeAgain | daixtrose/daixtrose/src/daixtrose/Simplify.h:122-206 | the repeat steps of `SimplEvoker<T>` give a result only when `T` has a `Disambiguation`, and the result has the same one |
| Simplification.Simplify | daixtrose/daixtrose/src/daixtrose/Simplify.h:931-936 | `Simplify` gives a result only for a bare node or an `Expr` with a tag, and then an `Expr` with that tag |
| Simplification.KeepTag | daixtrose/daixtrose/src/daixtrose/Simplify.h:115-177 | the paranoia check of `SimplEvoker` passes exactly when the argument has a `Disambiguation` and the result keeps it; an argument without one is refused with `NoTag` |
| Simplification.Earliest | daixtrose/daixtrose/src/daixtrose/Simplify.h:96-108 | the repeat step stops at one of the computed results, of the type that reappeared |
| SimplificationProofs.SimplifyPreserves | daixtrose/daixtrose/src/daixtrose/Simplify.h:931-936 | `Simplify` succeeds only on an argument with a tag, and then gives an `Expr` around a well-formed tree with that tag |
| SimplificationProofs.SumWithIntLiteralRejected | daixtrose/daixtrose/src/daixtrose/Simplify.h:167-168 | `Simplify(x + 6)` with an `int` literal is refused with `NoTag`: the literal has no `Disambiguation` |
| SimplificationProofs.EvokePreserves | daixtrose/daixtrose/src/daixtrose/Simplify.h:96-206 | the repeated simplification of `SimplEvoker` succeeds only on an argument with a tag, and gives a well-formed tree with the tag and operand tag of its argument |
| SimplificationProofs.ImplPreserves | daixtrose/daixtrose/src/daixtrose/Simplify.h:215-925 | one rewriting step of `SimplImpl` gives a well-formed tree, and leaves a node without a tag alone |
| SimplificationProofs.EvokeSound | daixtrose/daixtrose/src/daixtrose/Simplify.h:96-206 | with the corrected rules, the repeated simplification keeps the value |
| SimplificationProofs.ImplSound | daixtrose/daixtrose/src/daixtrose/Simplify.h:215-925 | with the corrected rules, one rewriting step keeps the value |
| SimplificationProofs.SimplifySound | daixtrose/daixtrose/src/daixtrose/Simplify.h:931-936 | with the corrected rules, `Simplify` keeps the value of the tree |
| SimplificationProofs.ImplUnSound | daixtrose/daixtrose/src/daixtrose/Simplify.h:241-311 | the unary rules, `-(-x) = x` included, keep the value |
| SimplificationProofs.ImplPowSound | daixtrose/daixtrose/src/daixtrose/Simplify.h:315-466 | the power rules keep the value |
| SimplificationProofs.ImplMultiplySound | daixtrose/daixtrose/src/daixtrose/Simplify.h:469-666 | the product rules, the sign rules included, keep the value |
| SimplificationProofs.ImplDivideSound | daixtrose/daixtrose/src/daixtrose/Simplify.h:671-721 | the quotient rules keep the value |
| SimplificationProofs.ImplPlusSound | daixtrose/daixtrose/src/daixtrose/Simplify.h:727-885 | the sum and difference rules keep the value |
| SimplificationProofs.FoldScalarsSound | daixtrose/daixtrose/src/daixtrose/Simplify.h:888-925 | folding two scalars keeps the value |
| SimplificationProofs.SumOfSameTypeLeavesDoubled | daixtrose/daixtrose/src/daixtrose/Simplify.h:837-859 | as written, `A + B` for two leaves of one type becomes `2 * A` and changes the value |
| SimplificationProofs.QuotientOfSameTypeLeavesIsOne | daixtrose/daixtrose/src/daixtrose/Simplify.h:703-721 | as written, `A / B` for two leaves of one type becomes One |
| SimplificationProofs.NotOfNullIsNull | daixtrose/daixtrose/src/daixtrose/Simplify.h:241-291 | as written, `!0` becomes 0 although its value is 1; the corrected rule keeps it |
| SimplificationProofs.PowerOfSimplifiableProductRejected | daixtrose/daixtrose/src/daixtrose/Simplify.h:431-466 | as written, `((1*A)*B)^2` does not compile; the corrected rule gives `A^2 * B^2` |
| SimplificationProofs.PowerOfProductAsWritten | daixtrose/daixtrose/src/daixtrose/Simplify.h:431-466 | the rule as written rejects `((1*A)*B)^2` with a conversion error |
| SimplificationProofs.PowerOfProductCorrected | daixtrose/daixtrose/src/daixtrose/Simplify.h:431-466 | the corrected rule turns `((1*A)*B)^2` into `A^2 * B^2` |
| DifferentiationProofs.CoefficientValue | daixtrose/daixtrose/src/daixtrose/Differentiation.h:345-548 | the power-rule coefficient of `f^(m/n)` has the value `m/n` in every case |
| DifferentiationProofs.CoefficientRules | daixtrose/daixtrose/src/daixtrose/Differentiation.h:443-492 | the corrected coefficient always exists; as written it is missing exactly for `m == n` and for `m == 1`, `m != -n` |
| DifferentiationProofs.PowerRuleShape | daixtrose/daixtrose/src/daixtrose/Differentiation.h:345-548 | the power rule gives `(c * f^((m-n)/n)) * f'` after normalising the sign |
| DifferentiationProofs.PowerRuleSound | daixtrose/daixtrose/src/daixtrose/Differentiation.h:345-548 | the power rule evaluates to `(k * x^(k-1)) * dx` for an integral exponent `k` |
| DifferentiationProofs.ProductRuleValue | daixtrose/daixtrose/src/daixtrose/Differentiation.h:286-312 | the product rule evaluates to `dx * y + x * dy` |
| DifferentiationProofs.DiffSound | daixtrose/daixtrose/src/daixtrose/Differentiation.h:182-340 | the derivative tree evaluates to the derivative of the tree wherever that exists |
| DifferentiationProofs.DiffPreserves | daixtrose/daixtrose/src/daixtrose/Differentiation.h:182-340 | the derivative of a well-formed tree is well formed and has the tag of the function |
| DifferentiationProofs.DiffTotal | daixtrose/daixtrose/src/daixtrose/Differentiation.h:182-548 | with the corrected coefficients every well-formed tree that has a derivative is differentiated |
| DifferentiationProofs.DiffAsWrittenAgrees | daixtrose/daixtrose/src/daixtrose/Differentiation.h:443-492 | the as-written rules differentiate fewer trees, never differently |
| DifferentiationProofs.SlopeWithoutVariable | daixtrose/daixtrose/src/daixtrose/Differentiation.h:78-90 | a tree that does not mention the variable has slope 0 wherever it has a slope, the reason `PreDifferentiator` means to answer Null |
| DifferentiationProofs.NotOfOtherVariable | daixtrose/daixtrose/src/daixtrose/Differentiation.h:82-90 | as written the short-cut is off: `Diff(!y, x)` is not implemented, where the short-cut gives Null; inside `x + !y` neither variant helps, because the short-cut applies only at the top |
| DifferentiationProofs.DiffTermShortcutMeaning | daixtrose/daixtrose/src/daixtrose/Differentiation.h:78-125 | with the short-cut on, a tree without the variable differentiates to Null of the tag, any other tree as before, everything that differentiated still does, and the result has the slope's value |
| DifferentiationProofs.DiffTermResult | daixtrose/daixtrose/src/daixtrose/Differentiation.h:151-212 | `Diff(f, x)` succeeds exactly when the tags agree and the content is differentiated, and returns an `Expr` with the tag of `f` |
| DifferentiationProofs.SquareRootRejected | daixtrose/daixtrose/src/daixtrose/Differentiation.h:443-492 | as written `Diff(Sqrt(x), x)` does not compile; corrected it does |
| DifferentiationProofs.EqualExponentsRejected | daixtrose/daixtrose/src/daixtrose/Differentiation.h:443-492 | as written `Diff(x^(2/2), x)` does not compile; corrected it does |
| SparseRows.MinKey | daixtrose/daixtrose/src/linalg/RowAndColumExtractors.h:677-800 | the least column key of a row, which an ordered `std::map` walk meets first |
| SparseRows.MergeMeaning | daixtrose/daixtrose/src/linalg/RowAndColumExtractors.h:58-86 | `Merge` stores the union of the keys and adds common entries |
| SparseRows.MergeWithMeaning | daixtrose/daixtrose/src/linalg/RowAndColumExtractors.h:88-117 | `Merge` with an operation adds the operation's image of the second row |
| SparseRows.DifferenceMeaning | daixtrose/daixtrose/src/linalg/RowAndColumExtractors.h:311-360 | the difference extractor stores the union of the keys and subtracts, missing entries reading 0 |
| SparseRows.ScaledMeaning | daixtrose/daixtrose/src/linalg/RowAndColumExtractors.h:390-477 | scalar products keep the keys and scale every value |
| SparseRows.MergeCommutes | daixtrose/daixtrose/src/linalg/RowAndColumExtractors.h:285-307 | the row of `A + B` does not depend on the operand order |
| SparseRows.FilledRowMeaning | daixtrose/daixtrose/src/linalg/Matrix.h:301-318 | filling keeps the sparsity pattern and stores `t` exactly there |
| SparseRows.SumOfMerge | daixtrose/daixtrose/src/linalg/RowSum.h:94-119 | the row sum of a merge is the sum of the row sums |
| SparseRows.SumOfDifference | daixtrose/daixtrose/src/linalg/RowSum.h:94-119 | the row sum of a difference is the difference of the row sums |
| SparseRows.LumpedMeaning | daixtrose/daixtrose/src/linalg/Lump.h:48-84 | a lumped row is empty for an empty row and otherwise the single diagonal entry holding the row sum |
| LinalgExpr.Collect | daixtrose/daixtrose/src/linalg/Vector.h:260-295 | the loop over entries `1..n` gives `n` items or the first error |
| LinalgExpr.CollectMeaning | daixtrose/daixtrose/src/linalg/Vector.h:260-295 | the collection succeeds exactly when every item does, and holds the items in order |
| LinalgProofs.GetColumnCorrect | daixtrose/daixtrose/src/linalg/Matrix.h:633-670 | `GetColumn(j)` of a consistent matrix succeeds exactly for the columns and returns exactly column `j` |
| LinalgProofs.RowsAgreeWithColumns | daixtrose/daixtrose/src/linalg/Matrix.h:713-775 | rows and column lists of a consistent matrix hold the same entries |
| LinalgProofs.RowWithinShape | daixtrose/daixtrose/src/linalg/RowAndColumCounters.h:77-225 | a row that extracts has its index among the counted rows, its keys among the counted columns, and the expression is square |
| LinalgProofs.ColWithinShape | daixtrose/daixtrose/src/linalg/RowAndColumCounters.h:383-529 | a column that extracts has its index among the counted columns and its keys among the counted rows |
| LinalgProofs.ExtractableIsSquare | daixtrose/daixtrose/src/linalg/RowAndColumCounters.h:77-225 | an accepted expression over square matrices has as many rows as columns |
| LinalgProofs.ShapeOfMentioned | daixtrose/daixtrose/src/linalg/RowAndColumCounters.h:148-205 | an accepted expression has the shape of every matrix it mentions |
| LinalgProofs.RowsAgreeWithCols | daixtrose/daixtrose/src/linalg/RowAndColumExtractors.h:802-1023 | the row and the column extractors describe the same matrix, entry by entry, for every operation |
| LinalgProofs.UncountedIsUnmentioned | daixtrose/daixtrose/src/daixtrose/CountOccurence.h:131-162 | with every matrix and vector captured by reference, `CountOccurrence` is zero exactly for an object the expression does not mention |
| LinalgProofs.FrameRow | daixtrose/daixtrose/src/linalg/RowAndColumExtractors.h:158-477 | the rows of an expression do not depend on an object it does not mention |
| LinalgProofs.FrameVec | daixtrose/daixtrose/src/linalg/RowAndColumExtractors.h:479-800 | the entries of a vector expression do not depend on an object it does not mention |
| LinalgProofs.RowOfSum | daixtrose/daixtrose/src/linalg/RowAndColumExtractors.h:286-308 | row `i` of `A + B` is the merge of row `i` of `A` and row `i` of `B` |
| LinalgProofs.RowOfDifference | daixtrose/daixtrose/src/linalg/RowAndColumExtractors.h:311-360 | row `i` of `A - B` is row `i` of `A` with every entry of row `i` of `B` subtracted |
| LinalgProofs.RowSumAt | daixtrose/daixtrose/src/linalg/RowSum.h:94-119 | entry `i` of `RowSum(M)` is the sum of the stored values of row `i` of `M` |
| LinalgProofs.RowSumOfSum | daixtrose/daixtrose/src/linalg/RowSum.h:94-119 | entry `i` of `RowSum(A + B)` is the sum of row `i` of `A` plus the sum of row `i` of `B` (each of which is entry `i` of that operand's `RowSum`, by `RowSumAt`) |
| LinalgProofs.RowSumOfDifference | daixtrose/daixtrose/src/linalg/RowSum.h:94-119 | entry `i` of `RowSum(A - B)` is the sum of row `i` of `A` minus the sum of row `i` of `B` (each of which is entry `i` of that operand's `RowSum`, by `RowSumAt`) |
| LinalgProofs.LumpKeepsRowSums | daixtrose/daixtrose/src/linalg/Lump.h:48-84 | a lumped row stores at most its diagonal entry, and lumping keeps every row sum |
| LinalgProofs.LumpIsSymmetric | daixtrose/daixtrose/src/linalg/Transpose.h:73-99 | the transpose of a lumped matrix is the lumped matrix |
| LinalgProofs.RowSumCounterAsWritten | daixtrose/daixtrose/src/linalg/RowSum.h:66-77 | as written, `NumberOfRows(RowSum(M))` for a matrix `M` does not compile |
| LinalgProofs.RowSumCounterFixed | daixtrose/daixtrose/src/linalg/RowSum.h:66-77 | counted by the matrix counter, `RowSum(M)` has as many entries as `M` has rows, and entry `i` extracts exactly for those |
| LinalgProofs.PowerNotCompiled | daixtrose/daixtrose/src/daixtrose/DefaultOps.h:192-202 | a rational power with `n != 1` has no row, column or vector entry and is not accepted: its `RationalPower<m,n>::Apply` does not compile |
| MatrixVectorOps.OperandLeaf | daixtrose/daixtrose/src/linalg/MatrixVectorOps.h:57-68 | an operand becomes a leaf captured by reference exactly as `CRefOrVal` says |
| MatrixVectorOps.BuiltCapturedByReference | daixtrose/daixtrose/src/linalg/MatrixVectorOps.h:57-68 | a built tree refers to all its leaves by reference exactly when every operand is a sparse matrix or vector |
| MatrixVectorOps.MatrixTimesVectorBuilt | daixtrose/daixtrose/src/linalg/MatrixVectorOps.h:78-95 | the built product of a sparse matrix and a sparse vector has the vector's tag |
| MatrixVectorOps.DoNothingIsTheDefault | daixtrose/daixtrose/src/linalg/MatrixVectorOps.h:97-101 | the five matrix operations are exactly the unary operations that print as "DoNothing" and keep every number |
| SparseMatrix.Without | daixtrose/daixtrose/src/linalg/Matrix.h:713-775 | erasing a row from a column list removes exactly that row |
| SparseMatrix.EmptyIsIndexed | daixtrose/daixtrose/src/linalg/Matrix.h:234-248 | a matrix without entries is consistent |
| SparseMatrix.ReplaceRowKeepsIndexed | daixtrose/daixtrose/src/linalg/Matrix.h:606-613 | replacing a row and updating the column index keeps the matrix consistent |
| SparseMatrix.InsertKeepsIndexed | daixtrose/daixtrose/src/linalg/Matrix.h:480-507 | storing a new entry and listing its row in the column keeps the matrix consistent |
| SparseMatrix.AppendRowKeepsIndexed | daixtrose/daixtrose/src/linalg/Matrix.h:261-281 | appending an indexed row keeps the rows built so far consistent |
| SparseMatrix.RowsUpToMeaning | daixtrose/daixtrose/src/linalg/Matrix.h:321-382 | the rows extracted up to `n` are the expression's rows, and the first failing row is the result |
| SparseMatrix.ExtractFits | daixtrose/daixtrose/src/linalg/Matrix.h:321-382 | an assigned expression is square and gives one row per counted row |
| SparseMatrix.AddedIsAssignedSum | daixtrose/daixtrose/src/linalg/Matrix.h:385-446 | `M += E` gives what `M = M + E` gives |
| SparseMatrix.SetInColumnMeaning | daixtrose/daixtrose/src/linalg/Matrix.h:569-603 | setting a column fills its stored entries and leaves every other column |
| SparseMatrix.PartlyUpdatedDone | daixtrose/daixtrose/src/linalg/Matrix.h:713-775 | the erase loop followed by the append loop updates the column index as one step |
| SparseMatrix.Matrix.constructor | daixtrose/daixtrose/src/linalg/Matrix.h:234-248 | a new square matrix has no entries and an empty column index |
| SparseMatrix.Matrix.Copy | daixtrose/daixtrose/src/linalg/Matrix.h:250-259 | the copy has the same value |
| SparseMatrix.Matrix.Assign | daixtrose/daixtrose/src/linalg/Matrix.h:283-298 | the copy assignment takes the other value; self-assignment changes nothing |
| SparseMatrix.Matrix.Swap | daixtrose/daixtrose/src/linalg/Matrix.h:462-472 | two matrices exchange their values |
| SparseMatrix.Matrix.RowAt | daixtrose/daixtrose/src/linalg/Matrix.h:536-543 | `M(i)` is row `i` exactly for `1 <= i <= nrows`, within the columns |
| SparseMatrix.Matrix.EntryAt | daixtrose/daixtrose/src/linalg/Matrix.h:510-533 | the const `M(i, j)` is defined exactly in range and reads the same value as the column index |
| SparseMatrix.Matrix.At | daixtrose/daixtrose/src/linalg/Matrix.h:480-507 | the non-const `M(i, j)` is a range error outside the shape, otherwise stores a 0 entry if missing and keeps the matrix's values |
| SparseMatrix.Matrix.Set | daixtrose/daixtrose/src/linalg/Matrix.h:480-507 | `M(i, j) = x` stores and indexes the entry, or is a range error that changes nothing |
| SparseMatrix.Matrix.Fill | daixtrose/daixtrose/src/linalg/Matrix.h:301-318 | `M = t` sets every stored value to `t` and keeps the pattern |
| SparseMatrix.Matrix.SetEntriesInRowTo | daixtrose/daixtrose/src/linalg/Matrix.h:546-566 | the stored values of row `i` become `val`, or a range error that changes nothing |
| SparseMatrix.Matrix.SetEntriesInColTo | daixtrose/daixtrose/src/linalg/Matrix.h:569-603 | the stored values of column `j` become `val`, or a range error that changes nothing |
| SparseMatrix.Matrix.ReplaceRow | daixtrose/daixtrose/src/linalg/Matrix.h:606-613 | the row is replaced and the column index updated, keeping the matrix consistent |
| SparseMatrix.Matrix.UpdateColumnInfo | daixtrose/daixtrose/src/linalg/Matrix.h:713-775 | row `i` leaves the lists of the columns it no longer stores and joins those it newly stores |
| SparseMatrix.Matrix.NumberOfEntriesPerRow | daixtrose/daixtrose/src/linalg/Matrix.h:616-630 | the count of stored entries of every row |
| SparseMatrix.Matrix.GetColumn | daixtrose/daixtrose/src/linalg/Matrix.h:633-670 | column `j` keyed by row, exactly for `1 <= j <= ncols` |
| SparseMatrix.Matrix.AssignFrom | daixtrose/daixtrose/src/linalg/Matrix.h:321-382 | `M = E` gives the extracted rows, or the first error; with or without aliasing |
| SparseMatrix.Matrix.AssignViaTemporary | daixtrose/daixtrose/src/linalg/Matrix.h:321-382 | the aliasing branch builds all rows in a temporary and leaves the matrix as it was on error |
| SparseMatrix.Matrix.ExtractRows | daixtrose/daixtrose/src/linalg/Matrix.h:338-342 | the temporary receives row `i` of the expression for every `i`, read from the operands as they were; the result is all rows or the first error |
| SparseMatrix.Matrix.AssignInPlace | daixtrose/daixtrose/src/linalg/Matrix.h:321-382 | the branch without aliasing gives the rows of the expression as the reset matrix reads them |
| SparseMatrix.Matrix.MergeIntoRow | daixtrose/daixtrose/src/linalg/Matrix.h:385-446 | the inner `+=` loop merges a row into row `i` |
| SparseMatrix.Matrix.PlusAssign | daixtrose/daixtrose/src/linalg/Matrix.h:385-446 | `M += E` is a range error for another shape and otherwise gives the merged rows |
| SparseMatrix.Matrix.MinusAssign | daixtrose/daixtrose/src/linalg/Matrix.h:449-459 | `M -= E` is `M += Simplify(-E)`: a negation that does not simplify does not compile, otherwise the result and the error are those of `+=` on the simplified negation |
| LinalgSimplify.Negated | daixtrose/daixtrose/src/linalg/Matrix.h:458 | `Simplify(-E)` exists exactly when `E` has a tag and its negation simplifies, and then has a tag |
| LinalgSimplify.NegatedByRef | daixtrose/daixtrose/src/linalg/Matrix.h:449-459 | simplifying the negation keeps every operand captured by reference, so the result may be handed to `+=` |
| LinalgSimplify.EvokeByRef | daixtrose/daixtrose/src/daixtrose/Simplify.h:96-206 | the repeated simplification only rebuilds nodes around the leaves it was given, so operands captured by reference stay so |
| LinalgSimplify.ImplByRef | daixtrose/daixtrose/src/daixtrose/Simplify.h:215-925 | one rewriting step keeps operands captured by reference |
| SparseVector.AddSeq | daixtrose/daixtrose/src/linalg/Vector.h:297-328 | the entry-by-entry sum |
| SparseVector.Resized | daixtrose/daixtrose/src/linalg/Vector.h:183-190 | `resize(n)` keeps the first entries and pads with 0 |
| SparseVector.ResizedRoundTrip | daixtrose/daixtrose/src/linalg/Vector.h:183-190 | growing and shrinking back gives the vector again; shrinking keeps a prefix |
| SparseVector.EntriesUpToMeaning | daixtrose/daixtrose/src/linalg/Vector.h:260-295 | the extracted entries are the expression's, and extraction fails exactly when an entry does |
| SparseVector.EvaluateMeaning | daixtrose/daixtrose/src/linalg/Vector.h:219-295 | a vector assigned from an expression has the counted size and the expression's entries |
| SparseVector.SummedMeaning | daixtrose/daixtrose/src/linalg/Vector.h:297-328 | `v += e` succeeds exactly for an expression of the size of `v` with all entries, and adds them |
| SparseVector.SubtractedMeaning | daixtrose/daixtrose/src/linalg/Vector.h:330-340 | adding the negation of `e` subtracts entry by entry, which is what `-=` intends |
| SparseVector.SummedIsAssignedSum | daixtrose/daixtrose/src/linalg/Vector.h:297-328 | `v += e` gives what `v = v + e` gives |
| SparseVector.Vector.constructor | daixtrose/daixtrose/src/linalg/Vector.h:192-198 | `Vector(size)` holds `size` zeros |
| SparseVector.Vector.Copy | daixtrose/daixtrose/src/linalg/Vector.h:207-217 | the copy has the same entries |
| SparseVector.Vector.Assign | daixtrose/daixtrose/src/linalg/Vector.h:236-248 | the copy assignment takes the other entries |
| SparseVector.Vector.Swap | daixtrose/daixtrose/src/linalg/Vector.h:343-350 | two vectors exchange their entries |
| SparseVector.Vector.Resize | daixtrose/daixtrose/src/linalg/Vector.h:183-190 | `resize` keeps a prefix and pads with 0 |
| SparseVector.Vector.At | daixtrose/daixtrose/src/linalg/Vector.h:357-377 | `V(j)` is entry `j` exactly for `1 <= j <= size` |
| SparseVector.Vector.Set | daixtrose/daixtrose/src/linalg/Vector.h:357-377 | `V(j) = x` writes entry `j`, or is a range error that changes nothing |
| SparseVector.Vector.Fill | daixtrose/daixtrose/src/linalg/Vector.h:250-258 | `V = t` sets every entry to `t` |
| SparseVector.Vector.AssignFrom | daixtrose/daixtrose/src/linalg/Vector.h:260-295 | `V = E` gives the expression's entries or the first error, with or without aliasing |
| SparseVector.Vector.AssignInPlace | daixtrose/daixtrose/src/linalg/Vector.h:260-295 | the branch without aliasing appends the entries as the cleared vector reads them |
| SparseVector.Vector.PlusAssign | daixtrose/daixtrose/src/linalg/Vector.h:297-328 | `V += E` is a range error for another size and otherwise adds the entries |
| SparseVector.Vector.AddInPlace | daixtrose/daixtrose/src/linalg/Vector.h:297-328 | the loop without aliasing adds entry `i` of the expression as the vector reads it at that moment |
| SparseVector.Vector.MinusAssign | daixtrose/daixtrose/src/linalg/Vector.h:330-340 | `V -= E` is `V += Simplify(-E)`: a negation that does not simplify does not compile, otherwise the result and the error are those of `+=` on the simplified negation |
| SparseVector.MinusAssignOfSumAsWritten | daixtrose/daixtrose/src/linalg/Vector.h:330-340 | because `-=` simplifies first, `V -= A + B` for two vectors of one type with entries 2 and 3 subtracts `2 * A`, that is 4, where the sum is 5 |
| SparseRows.MergeEmpty | daixtrose/daixtrose/src/linalg/RowAndColumExtractors.h:58-86 | merging with an empty row, on either side, changes nothing |
| LinalgExpr.CollectFails | daixtrose/daixtrose/src/linalg/Vector.h:274-291 | once the loop meets a failing item, the whole collection fails with that item's error |
| LinalgExpr.CollectAgree | daixtrose/daixtrose/src/linalg/Vector.h:274-291 | two loops whose items agree on `1..n` collect the same result |
| LinalgProofs.WalkCollects | daixtrose/daixtrose/src/linalg/Matrix.h:633-670 | walking the rows listed for column `j`, each storing an entry there, collects exactly those entries keyed by row |
| LinalgProofs.RowOkIsExtractable | daixtrose/daixtrose/src/linalg/RowAndColumExtractors.h:158-477 | a row that extracts without error comes from a tree the row extractor accepts |
| LinalgProofs.ColOkIsExtractable | daixtrose/daixtrose/src/linalg/RowAndColumExtractors.h:802-1023 | a column that extracts without error comes from a tree the column extractor accepts |
| LinalgProofs.RefCountMentions | daixtrose/daixtrose/src/daixtrose/CountOccurence.h:131-162 | with every operand captured by reference, the count of an object is 0 exactly when the tree does not mention it |
| LinalgProofs.FrameShape | daixtrose/daixtrose/src/linalg/RowAndColumCounters.h:77-225 | the counted rows and columns of an expression do not depend on an object it does not mention |
| LinalgProofs.FrameCol | daixtrose/daixtrose/src/linalg/RowAndColumExtractors.h:802-1023 | the columns of an expression do not depend on an object it does not mention |
| LinalgProofs.FrameVecRows | daixtrose/daixtrose/src/linalg/RowAndColumCounters.h:77-225 | the counted length of a vector expression does not depend on an object it does not mention |
| LinalgProofs.LumpedAgree | daixtrose/daixtrose/src/linalg/Lump.h:48-84 | rows and columns of a lumped matrix meet only on the diagonal, where they hold the same value |
| SparseMatrix.MergeRows | daixtrose/daixtrose/src/linalg/Matrix.h:414-443 | the rows of `M += E` are the row-by-row merges |
| SparseMatrix.MergedPrefixEnds | daixtrose/daixtrose/src/linalg/Matrix.h:414-443 | before the `+=` loop the rows are those of `M`; after it, every row is merged |
| SparseMatrix.SumRows | daixtrose/daixtrose/src/linalg/Matrix.h:405-413 | the rows of `M + E` up to `k` are the rows of `M` merged with those of `E`, or the first error of `E` |
| SparseMatrix.RowsUpToFails | daixtrose/daixtrose/src/linalg/Matrix.h:370-378 | once a row fails, the rows up to any later index fail with that error |
| SparseMatrix.LiveRow | daixtrose/daixtrose/src/linalg/Matrix.h:370-378 | an expression that does not mention the matrix reads the same rows whatever the matrix holds |
| SparseMatrix.Matrix.FromExpression | daixtrose/daixtrose/src/linalg/Matrix.h:261-281 | `Matrix(E)` holds the extracted rows and a consistent column index, or fails with the extraction's error |
| SparseMatrix.Matrix.AppendRows | daixtrose/daixtrose/src/linalg/Matrix.h:273-279 | pushing row `i` of the expression and listing its keys, for `i` from 1 to n, gives the expression's rows with a consistent column index, or the first row error |
| SparseMatrix.Matrix.Reset | daixtrose/daixtrose/src/linalg/Matrix.h:353-367 | a matrix given a new shape is empty, with an empty column list per column |
| SparseMatrix.Matrix.FillRows | daixtrose/daixtrose/src/linalg/Matrix.h:369-378 | each row is replaced by the expression's row read from the matrix as it is; the result is the expression's rows or the first error |
| SparseMatrix.Matrix.MergeInPlace | daixtrose/daixtrose/src/linalg/Matrix.h:414-443 | each row of the expression is merged into the stored row; the result is the merged rows or the first error |
| SparseMatrix.Matrix.MergeKey | daixtrose/daixtrose/src/linalg/Matrix.h:426-441 | one entry of the expression's row merged into the stored row keeps the matrix consistent |
| SparseMatrix.Matrix.MergeEntry | daixtrose/daixtrose/src/linalg/Matrix.h:429-440 | a stored entry is incremented, a missing one is stored with the value and listed in its column |
| SparseMatrix.Matrix.AddToEntry | daixtrose/daixtrose/src/linalg/Matrix.h:431-434 | incrementing a stored entry changes only that value and keeps the column index |
| SparseMatrix.Matrix.InsertEntry | daixtrose/daixtrose/src/linalg/Matrix.h:435-439 | a new entry is stored and its row appended to the column list, keeping the matrix consistent |
| SparseMatrix.Matrix.EraseFromColumns | daixtrose/daixtrose/src/linalg/Matrix.h:754-763 | row `i` is removed from the lists of the given columns and from no other |
| SparseMatrix.Matrix.AppendToColumns | daixtrose/daixtrose/src/linalg/Matrix.h:765-775 | row `i` is appended once to the lists of the given columns and to no other |
| SparseVector.Filled | daixtrose/daixtrose/src/linalg/Vector.h:250-258 | `n` entries, each equal to `t` |
| SparseVector.EntriesUpToFails | daixtrose/daixtrose/src/linalg/Vector.h:283-291 | once an entry fails, the entries up to any later index fail with that error |
| SparseVector.SumEntries | daixtrose/daixtrose/src/linalg/Vector.h:297-328 | the entries of `v + E` up to `k` are those of `v` plus those of `E`, or the first error of `E` |
| SparseVector.AddedPrefixEnds | daixtrose/daixtrose/src/linalg/Vector.h:318-324 | before the `+=` loop the entries are those of `v`; after it, the entry-by-entry sums |
| SparseVector.Vector.FromExpression | daixtrose/daixtrose/src/linalg/Vector.h:219-234 | `Vector(E)` holds the expression's entries, or fails with the extraction's error |
| SliceVectors.PositionIsStep | daixtrose/daixtrose/src/linalg/SliceVector.h:128-147 | the position of entry `k` is where the begin iterator stands after `k` increments |
| SliceVectors.PositionMonotone | daixtrose/daixtrose/src/linalg/SliceVector.h:150-188 | later entries sit further on, strictly so for a non-zero stride |
| SliceVectors.PositionInjective | daixtrose/daixtrose/src/linalg/SliceVector.h:213-218 | with the non-zero stride the constructor demands, different entries sit at different positions |
| SliceVectors.AcceptedAsWrittenMeaning | daixtrose/daixtrose/src/linalg/SliceVector.h:220-235 | the range check as written accepts every slice that fits and, besides those, exactly the slices whose last entry is one past the end |
| SliceVectors.AcceptedAsWrittenOnePastEnd | daixtrose/daixtrose/src/linalg/SliceVector.h:220-235 | the check as written accepts a slice of one entry at position 3 of a vector of 3 entries |
| SliceVectors.Gather | daixtrose/daixtrose/src/linalg/SliceVector.h:128-188 | the entries between `begin()` and `end()`: one per slice entry |
| SliceVectors.GatherAt | daixtrose/daixtrose/src/linalg/SliceVector.h:396-414 | entry `k` of the view is the vector's value at the position of entry `k` |
| SliceVectors.Scatter | daixtrose/daixtrose/src/linalg/SliceVector.h:249-261 | storing through the iterator keeps the length of the vector |
| SliceVectors.ScatterAt | daixtrose/daixtrose/src/linalg/SliceVector.h:249-261 | after storing `xs`, the position of entry `k` holds `xs[k]` |
| SliceVectors.ScatterUntouched | daixtrose/daixtrose/src/linalg/SliceVector.h:249-261 | positions outside the slice keep their values |
| SliceVectors.GatherScatter | daixtrose/daixtrose/src/linalg/SliceVector.h:249-261 | reading the view after storing `xs` gives `xs` |
| SliceVectors.ScatterGather | daixtrose/daixtrose/src/linalg/SliceVector.h:249-261 | storing the entries the view already holds changes nothing |
| SliceVectors.GatherUpdate | daixtrose/daixtrose/src/linalg/SliceVector.h:396-414 | writing the position of entry `k` changes entry `k` of the view and no other |
| SliceVectors.SliceEntriesMeaning | daixtrose/daixtrose/src/linalg/SliceVector.h:273-318 | the extracted entries are those of the expression from the base index on, and extraction fails exactly when one of them fails |
| SliceVectors.SliceAssignedMeaning | daixtrose/daixtrose/src/linalg/SliceVector.h:273-318 | assignment succeeds exactly when the expression compiles, has the size of the slice and all its entries; another size is a range error |
| SliceVectors.SliceSummedMeaning | daixtrose/daixtrose/src/linalg/SliceVector.h:320-363 | `+=` succeeds under the same conditions and adds entry by entry |
| SliceVectors.SliceOfBaseOne | daixtrose/daixtrose/src/linalg/SliceVector.h:273-363 | with base index 1 a view gets from an expression what a `Vector` gets, for `=` and `+=` |
| SliceVectors.BeginEndDistance | daixtrose/daixtrose/src/linalg/SliceVector.h:128-196 | `end() - begin()` is `size()` and `begin() < end()` |
| SliceVectors.SliceVector.Make | daixtrose/daixtrose/src/linalg/SliceVector.h:198-237 | a view is made exactly for a slice with entries, a non-zero stride and its last entry inside the vector, and otherwise is a range error; it views exactly the slice's entries |
| SliceVectors.SliceVector.Init | daixtrose/daixtrose/src/linalg/SliceVector.h:198-204 | the view refers to the vector and keeps its own copy of the slice |
| SliceVectors.SliceVector.Size | daixtrose/daixtrose/src/linalg/SliceVector.h:190-196 | `size()` is the number of entries of the view |
| SliceVectors.SliceVector.At | daixtrose/daixtrose/src/linalg/SliceVector.h:396-430 | `S(j)` is defined exactly for `base <= j < base + size` and is entry `j - base` of the view |
| SliceVectors.SliceVector.Set | daixtrose/daixtrose/src/linalg/SliceVector.h:396-430 | `S(j) = x` changes exactly entry `j - base` of the view, at its position in the vector, or is a range error that changes nothing |
| SliceVectors.SliceVector.Begin | daixtrose/daixtrose/src/linalg/SliceVector.h:128-147 | `begin()` stands at the start with the slice's stride |
| SliceVectors.SliceVector.End | daixtrose/daixtrose/src/linalg/SliceVector.h:150-188 | `end()` stands `size` steps after the start |
| SliceVectors.SliceVector.CopyIn | daixtrose/daixtrose/src/linalg/SliceVector.h:249-261 | `std::copy` into the view stores the entries at the slice's positions |
| SliceVectors.SliceVector.Fill | daixtrose/daixtrose/src/linalg/SliceVector.h:263-271 | `S = t` sets every entry of the view to `t` and leaves the rest of the vector |
| SliceVectors.SliceVector.AddIn | daixtrose/daixtrose/src/linalg/SliceVector.h:320-363 | adding a sequence adds entry by entry at the slice's positions |
| SliceVectors.SliceVector.AssignFrom | daixtrose/daixtrose/src/linalg/SliceVector.h:273-318 | `S = E` gives the assigned entries or the error; a size mismatch or an expression mentioning the view leaves the vector as it was on error |
| SliceVectors.SliceVector.AssignInPlace | daixtrose/daixtrose/src/linalg/SliceVector.h:273-318 | when the expression does not hold the slice, each entry is stored as soon as it is extracted from the operands as they were before the loop |
| SliceVectors.SliceVector.StoreEntries | daixtrose/daixtrose/src/linalg/SliceVector.h:273-318 | the in-place loop stores the entries of a function until the first failure |
| SliceVectors.SliceVector.PlusAssign | daixtrose/daixtrose/src/linalg/SliceVector.h:320-363 | `S += E` gives the summed entries or the error, with the same guarantees as assignment |
| SliceVectors.SliceVector.AddInPlace | daixtrose/daixtrose/src/linalg/SliceVector.h:320-363 | the `+=` loop without aliasing adds the extracted entries |
| SliceVectors.SliceVector.AddEntries | daixtrose/daixtrose/src/linalg/SliceVector.h:320-363 | the in-place `+=` loop adds the entries of a function until the first failure |
| SliceVectors.SliceVector.MinusAssign | daixtrose/daixtrose/src/linalg/SliceVector.h:365-376 | `S -= E` is `S += Simplify(-E)`: a negation that does not simplify does not compile, otherwise the result, the error and the new view are those of `+=` on the simplified negation |
| SliceVectors.SliceVector.Copy | daixtrose/daixtrose/src/linalg/SliceVector.h:239-247 | a copy shares the vector and the slice, so it views the same entries |
| SliceVectors.SliceVector.Assign | daixtrose/daixtrose/src/linalg/SliceVector.h:249-261 | the copy assignment takes over the other view's vector and slice |
| SliceVectors.SliceVector.Swap | daixtrose/daixtrose/src/linalg/SliceVector.h:378-386 | two views exchange vectors and slices and so their entries |
| SliceIteration.StepAdds | daixtrose/daixtrose/src/linalg/SliceIterator.h:117-153 | moving by `a` steps and then by `b` steps is moving by `a + b` steps |
| SliceIteration.StepInjective | daixtrose/daixtrose/src/linalg/SliceIterator.h:155-166 | with a non-zero stride, different step counts reach different positions |
| SliceIteration.ToUnsigned | daixtrose/daixtrose/src/linalg/SliceIterator.h:155-166 | the conversion of a signed difference to `std::size_t` lies in the 64-bit range |
| SliceIteration.DistanceOfMoved | daixtrose/daixtrose/src/linalg/SliceIterator.h:155-166 | measuring the distance of an iterator moved `k` steps gives `k` back |
| SliceIteration.DistanceAsWrittenAgrees | daixtrose/daixtrose/src/linalg/SliceIterator.h:155-166 | the distance as written is the intended one for a later iterator or a stride of 1 |
| SliceIteration.DistanceAsWrittenWrongBackwards | daixtrose/daixtrose/src/linalg/SliceIterator.h:155-166 | for stride 2 and an iterator one step before the other the distance as written is `2^63 - 1`, not -1 |
| SliceIteration.ComparisonsByDistance | daixtrose/daixtrose/src/linalg/SliceIterator.h:176-222 | the six comparisons agree with the sign of the distance, which moves one iterator onto the other |
| SliceIteration.SliceIterator.constructor | daixtrose/daixtrose/src/linalg/SliceIterator.h:62-70 | the iterator stands at the position with the stride |
| SliceIteration.SliceIterator.Deref | daixtrose/daixtrose/src/linalg/SliceIterator.h:72-78 | `*it` is the entry at the position |
| SliceIteration.SliceIterator.Increment | daixtrose/daixtrose/src/linalg/SliceIterator.h:80-88 | `++it` moves one stride forward |
| SliceIteration.SliceIterator.PostIncrement | daixtrose/daixtrose/src/linalg/SliceIterator.h:89-96 | `it++` moves one stride forward and returns the old iterator |
| SliceIteration.SliceIterator.Decrement | daixtrose/daixtrose/src/linalg/SliceIterator.h:98-106 | `--it` moves one stride back |
| SliceIteration.SliceIterator.PostDecrement | daixtrose/daixtrose/src/linalg/SliceIterator.h:107-115 | `it--` moves one stride back and returns the old iterator |
| SliceIteration.SliceIterator.AddAssign | daixtrose/daixtrose/src/linalg/SliceIterator.h:117-124 | `it += k` moves `k` strides |
| SliceIteration.SliceIterator.SubAssign | daixtrose/daixtrose/src/linalg/SliceIterator.h:136-143 | `it -= k` moves `-k` strides |
| SliceIteration.SliceIterator.Plus | daixtrose/daixtrose/src/linalg/SliceIterator.h:126-134 | `it + k` is a moved copy; the iterator stays |
| SliceIteration.SliceIterator.Minus | daixtrose/daixtrose/src/linalg/SliceIterator.h:145-153 | `it - k` is a copy moved back |
| SliceIteration.SliceIterator.Index | daixtrose/daixtrose/src/linalg/SliceIterator.h:168-174 | `it[k]` is the entry `k` strides away |
| BlockedPrinter.PadLeft | daixtrose/daixtrose/src/linalg/PrintBlockedMatrix.h:139-143 | `setw` gives a field of exactly the width, or the text's own length when the text is longer |
| BlockedPrinter.PadLeftKeepsText | daixtrose/daixtrose/src/linalg/PrintBlockedMatrix.h:139-143 | `setw` right-aligns: the field ends with the whole text and holds only blanks before it, so nothing is cut |
| BlockedPrinter.ValueTextShape | daixtrose/daixtrose/src/linalg/PrintBlockedMatrix.h:139-145 | a number that fits prints in 13 characters whose 12th is the number's last character and whose 13th is the blank written after it |
| BlockedPrinter.MakeEmptynessAsWritten | daixtrose/daixtrose/src/linalg/PrintBlockedMatrix.h:80-85 | the placeholder as the source fills it, dashes at `i * 12 + 11` |
| BlockedPrinter.MakeEmptyness | daixtrose/daixtrose/src/linalg/PrintBlockedMatrix.h:80-85 | the placeholder with the dash of inner column `i` at `i * 13 + 11` |
| BlockedPrinter.FieldsLength | daixtrose/daixtrose/src/linalg/PrintBlockedMatrix.h:137-145 | an inner row of a stored block is 13 characters per number |
| BlockedPrinter.FieldEnds | daixtrose/daixtrose/src/linalg/PrintBlockedMatrix.h:137-145 | the 12th and 13th characters of the q-th field of an inner row are those of the q-th number's own field, so each number ends at `13 * (q - 1) + 11` |
| BlockedPrinter.DashUnderValueEnd | daixtrose/daixtrose/src/linalg/PrintBlockedMatrix.h:80-85 | the corrected placeholder is as wide as a stored block's line and puts each dash under the last character of that column's numbers |
| BlockedPrinter.PlaceholderMisplacedDash | daixtrose/daixtrose/src/linalg/PrintBlockedMatrix.h:80-85 | with blocks of dimension 2 the second dash as written sits one place before the end of the number above it |
| BlockedPrinter.GapsBeforeKey | daixtrose/daixtrose/src/linalg/PrintBlockedMatrix.h:113-133 | between consecutive stored blocks the row shows exactly `key - prev - 1` placeholders |
| BlockedPrinter.TrailingAfterLast | daixtrose/daixtrose/src/linalg/PrintBlockedMatrix.h:147-160 | after the last stored block the row shows blanks up to the last column |
| BlockedPrinter.SlotWidth | daixtrose/daixtrose/src/linalg/PrintBlockedMatrix.h:76-77 | with numbers that fit their field every block column is `LengthOfBlockRow` wide |
| BlockedPrinter.LineWidth | daixtrose/daixtrose/src/linalg/PrintBlockedMatrix.h:76-78 | every block column with its separator is `LengthOfBlockRow + 3` wide |
| BlockedPrinter.BlockLineWidth | daixtrose/daixtrose/src/linalg/PrintBlockedMatrix.h:88-92 | every text line is one character longer than the row separator |
| BlockedPrinter.PictureLength | daixtrose/daixtrose/src/linalg/PrintBlockedMatrix.h:87-172 | the picture has `1 + (n + 1) * k` lines for `k` block rows |
| BlockedPrinter.SeparatorAt | daixtrose/daixtrose/src/linalg/PrintBlockedMatrix.h:87-172 | a separator opens every block row and closes the last one |
| BlockedPrinter.BlockLineAt | daixtrose/daixtrose/src/linalg/PrintBlockedMatrix.h:162-166 | between the separators come the `n` text lines of the block row |
| BlockedPrinter.SeparatorLine | daixtrose/daixtrose/src/linalg/PrintBlockedMatrix.h:88-92 | the loop writes one dash fewer than its bound |
| BlockedPrinter.StoredLine | daixtrose/daixtrose/src/linalg/PrintBlockedMatrix.h:137-145 | the numbers of an inner row of a stored block in their fields |
| BlockedPrinter.RenderRow | daixtrose/daixtrose/src/linalg/PrintBlockedMatrix.h:99-160 | the streams of one block row hold placeholders, stored blocks and trailing blanks as the row's keys say |
| BlockedPrinter.MakeSeparator | daixtrose/daixtrose/src/linalg/PrintBlockedMatrix.h:88-92 | the row separator |
| BlockedPrinter.PrintBlockRow | daixtrose/daixtrose/src/linalg/PrintBlockedMatrix.h:99-172 | one more block row of the picture and its separator |
| BlockedPrinter.PrintBlockRows | daixtrose/daixtrose/src/linalg/PrintBlockedMatrix.h:87-174 | the separator line, then every block row followed by the separator, as the picture lists them |
| BlockedPrinter.Print | daixtrose/daixtrose/src/linalg/PrintBlockedMatrix.h:55-175 | `os << M` gives the picture, or a range error for a matrix without rows or columns; the vector overload (182-297) likewise |
| ItlBindings.QuotRem | daixtrose/daixtrose/src/linalg/ITL_Bindings.h:47-55 | a flat position is its block's start plus its place in the block |
| ItlBindings.QuotUnique | daixtrose/daixtrose/src/linalg/ITL_Bindings.h:47-55 | block `q` holds exactly the positions whose quotient is `q` |
| ItlBindings.BlockEntryLands | daixtrose/daixtrose/src/linalg/ITL_Bindings.h:47-55 | entry `(br + 1, bc + 1)` of stored block `(irow + 1, key)` lands at `(irow * bs + br, (key - 1) * bs + bc)` |
| ItlBindings.CoveredDecomposes | daixtrose/daixtrose/src/linalg/ITL_Bindings.h:47-55 | every written position is the landing place of the block entry its quotient and remainder name |
| ItlBindings.CoveredInBounds | daixtrose/daixtrose/src/linalg/ITL_Bindings.h:32-35 | every written position lies inside the resized `bs * rows` by `bs * cols` target |
| ItlBindings.MatrixWritesAt | daixtrose/daixtrose/src/linalg/ITL_Bindings.h:37-57 | after `n` block rows the target holds exactly the covered positions of those rows with their block entries |
| ItlBindings.FlattenedMatrix | daixtrose/daixtrose/src/linalg/ITL_Bindings.h:20-58 | the flat matrix holds exactly the positions of stored blocks, each with its block entry |
| ItlBindings.FlatMatrix.constructor | daixtrose/daixtrose/src/linalg/ITL_Bindings.h:20-25 | an MTL matrix with no shape and nothing written |
| ItlBindings.FlatMatrix.Resize | daixtrose/daixtrose/src/linalg/ITL_Bindings.h:35 | `resize` sets the shape, nothing written |
| ItlBindings.FlatMatrix.Put | daixtrose/daixtrose/src/linalg/ITL_Bindings.h:51-54 | a write changes one cell |
| ItlBindings.WriteBlock | daixtrose/daixtrose/src/linalg/ITL_Bindings.h:47-55 | the two inner loops write one block |
| ItlBindings.WriteRow | daixtrose/daixtrose/src/linalg/ITL_Bindings.h:45-56 | the key loop writes the stored blocks of a block row in ascending key order |
| ItlBindings.AssignBlockMatrix | daixtrose/daixtrose/src/linalg/ITL_Bindings.h:20-58 | `mtl_matrix <= M` resizes to `bs * rows` by `bs * cols` and writes every block entry to its flat position |
| ItlBindings.FlattenLength | daixtrose/daixtrose/src/linalg/ITL_Bindings.h:70-72 | the flat vector has `bs * size` entries |
| ItlBindings.FlattenEntry | daixtrose/daixtrose/src/linalg/ITL_Bindings.h:74-80 | entry `j * bs + jj` is entry `jj + 1` of block `j + 1` |
| ItlBindings.FlattenOnto | daixtrose/daixtrose/src/linalg/ITL_Bindings.h:74-80 | every flat entry comes from the block and place its quotient and remainder name |
| ItlBindings.FlatVector.constructor | daixtrose/daixtrose/src/linalg/ITL_Bindings.h:62-66 | an empty MTL vector |
| ItlBindings.FlatVector.Resize | daixtrose/daixtrose/src/linalg/ITL_Bindings.h:72 | `resize(n)` gives `n` entries |
| ItlBindings.AssignBlockVector | daixtrose/daixtrose/src/linalg/ITL_Bindings.h:62-81 | `mtl_vector <= v` holds the blocks laid end to end |
| TinyContainers.BoundMinusAgreesOnlyAtScalar | daixtrose/daixtrose/src/tiny/TinyVector.h:209-220 | the functor of the scalar `-=` gives the entry minus the scalar only when the two are equal |
| TinyContainers.BoundMinusWrong | daixtrose/daixtrose/src/tiny/TinyVector.h:209-220 | with scalar 1 an entry 3 becomes -2 where 2 is meant |
| TinyContainers.AddThenSubtract | daixtrose/daixtrose/src/tiny/TinyMatrix.h:174-191 | `+= t` then `-= t` gives the entry back as intended, and its negation as written |
| TinyContainers.ColumnMajorMeaning | daixtrose/daixtrose/src/tiny/TinyMatrix.h:231-255 | the data built from an expression are complete exactly when every in-range entry has a value, and entry (i, j) sits at `i - 1 + (j - 1) * n` |
| TinyContainers.ColumnStartIsIndex | daixtrose/daixtrose/src/tiny/TinyMatrix.h:244-250 | counting the double loop's positions column by column reaches `(j - 1) * n` at column `j` |
| TinyContainers.TinyVector.constructor | daixtrose/daixtrose/src/tiny/TinyVector.h:130-135 | a new vector of dimension `n` |
| TinyContainers.TinyVector.Filled | daixtrose/daixtrose/src/tiny/TinyVector.h:136-139 | every entry is `t` |
| TinyContainers.TinyVector.Get | daixtrose/daixtrose/src/tiny/TinyVector.h:293-318 | `V(j)` is defined exactly for `1 <= j <= n` and reads `data_[j - 1]` |
| TinyContainers.TinyVector.Set | daixtrose/daixtrose/src/tiny/TinyVector.h:293-318 | `V(j) = x` changes entry `j` only, or is a range error that changes nothing |
| TinyContainers.TinyVector.Span | daixtrose/daixtrose/src/tiny/TinyVector.h:261-289 | `begin()` to `end()` covers exactly the `n` stored entries |
| TinyContainers.TinyVector.Fill | daixtrose/daixtrose/src/tiny/TinyVector.h:159-165 | `V = t` sets every entry to `t` |
| TinyContainers.TinyVector.Transform | daixtrose/daixtrose/src/tiny/TinyVector.h:187-220 | `std::transform` applies the functor to every entry |
| TinyContainers.TinyVector.Scale | daixtrose/daixtrose/src/tiny/TinyVector.h:187-196 | `*= t` multiplies every entry by `t` |
| TinyContainers.TinyVector.AddScalar | daixtrose/daixtrose/src/tiny/TinyVector.h:198-207 | `+= t` adds `t` to every entry |
| TinyContainers.TinyVector.SubtractScalarAsWritten | daixtrose/daixtrose/src/tiny/TinyVector.h:209-220 | `-= t` as written replaces every entry `x` by `t - x` |
| TinyContainers.TinyVector.SubtractScalar | daixtrose/daixtrose/src/tiny/TinyVector.h:209-220 | `-= t` as intended subtracts `t` from every entry |
| TinyContainers.TinyVector.AddVector | daixtrose/daixtrose/src/tiny/TinyVector.h:222-231 | `+= Other` adds entry by entry, also when `Other` is the vector itself |
| TinyContainers.TinyVector.SubtractVector | daixtrose/daixtrose/src/tiny/TinyVector.h:233-244 | `-= Other` subtracts entry by entry |
| TinyContainers.TinyVector.CopyFrom | daixtrose/daixtrose/src/tiny/TinyVector.h:176-183 | copying from a temporary takes all its entries |
| TinyContainers.TinyVector.StoreEntries | daixtrose/daixtrose/src/tiny/TinyVector.h:149-156 | the loop over `j = 1..n` stores the expression's entries until the first failure |
| TinyContainers.TinyVector.FromExpression | daixtrose/daixtrose/src/tiny/TinyVector.h:144-157 | a vector built from an expression holds its `n` entries, or reports the first failing one |
| TinyContainers.TinyVector.AssignFrom | daixtrose/daixtrose/src/tiny/TinyVector.h:167-185 | `V = E` gives the expression's entries or the first error; when the expression mentions `V` an error leaves it as it was |
| TinyContainers.TinyVector.AssignInPlace | daixtrose/daixtrose/src/tiny/TinyVector.h:167-185 | without aliasing the entries written in place are those the expression had at the start |
| TinyContainers.TinyMatrix.constructor | daixtrose/daixtrose/src/tiny/TinyMatrix.h:124-129 | a new matrix of dimension `n` |
| TinyContainers.TinyMatrix.Filled | daixtrose/daixtrose/src/tiny/TinyMatrix.h:130-135 | every entry is `t` |
| TinyContainers.TinyMatrix.Size | daixtrose/daixtrose/src/tiny/TinyMatrix.h:292-294 | the dimension, whose square is the number of stored entries |
| TinyContainers.TinyMatrix.Get | daixtrose/daixtrose/src/tiny/TinyMatrix.h:274-310 | `M(i, j)` is defined exactly for in-range indices and reads position `i - 1 + (j - 1) * n` |
| TinyContainers.TinyMatrix.Set | daixtrose/daixtrose/src/tiny/TinyMatrix.h:274-310 | `M(i, j) = x` changes that position only, or is a range error that changes nothing |
| TinyContainers.TinyMatrix.Fill | daixtrose/daixtrose/src/tiny/TinyMatrix.h:156-162 | `M = t` sets every entry to `t` |
| TinyContainers.TinyMatrix.Transform | daixtrose/daixtrose/src/tiny/TinyMatrix.h:164-191 | `std::transform` applies the functor to every entry |
| TinyContainers.TinyMatrix.Scale | daixtrose/daixtrose/src/tiny/TinyMatrix.h:164-172 | `*= t` multiplies every entry by `t` |
| TinyContainers.TinyMatrix.AddScalar | daixtrose/daixtrose/src/tiny/TinyMatrix.h:174-182 | `+= t` adds `t` to every entry |
| TinyContainers.TinyMatrix.SubtractScalarAsWritten | daixtrose/daixtrose/src/tiny/TinyMatrix.h:184-191 | `-= t` as written replaces every entry `x` by `t - x` |
| TinyContainers.TinyMatrix.SubtractScalar | daixtrose/daixtrose/src/tiny/TinyMatrix.h:184-191 | `-= t` as intended subtracts `t` from every entry |
| TinyContainers.TinyMatrix.AddMatrix | daixtrose/daixtrose/src/tiny/TinyMatrix.h:193-207 | `+= Other` adds entry by entry, also when `Other` is the matrix itself |
| TinyContainers.TinyMatrix.SubtractMatrix | daixtrose/daixtrose/src/tiny/TinyMatrix.h:209-222 | `-= Other` subtracts entry by entry |
| TinyContainers.TinyMatrix.Assign | daixtrose/daixtrose/src/tiny/TinyMatrix.h:224-229 | the copy assignment takes all entries of the other matrix |
| TinyContainers.TinyMatrix.StoreEntries | daixtrose/daixtrose/src/tiny/TinyMatrix.h:143-153 | the double loop stores the entries in storage order until the first failure |
| TinyContainers.TinyMatrix.StoreColumn | daixtrose/daixtrose/src/tiny/TinyMatrix.h:147-150 | the inner loop stores rows 1 to n of column j at the next n storage positions, or stops at the first failing entry |
| TinyContainers.TinyMatrix.FromExpression | daixtrose/daixtrose/src/tiny/TinyMatrix.h:138-154 | a matrix built from an expression holds its entries in storage order, or reports the first failing one |
| TinyContainers.TinyMatrix.AssignFrom | daixtrose/daixtrose/src/tiny/TinyMatrix.h:231-255 | `M = E` gives the expression's entries or the first error; when the expression mentions `M` an error leaves it as it was |
| TinyContainers.TinyMatrix.AssignInPlace | daixtrose/daixtrose/src/tiny/TinyMatrix.h:231-255 | without aliasing the entries written in place are those the expression had at the start |
| TinyContainers.SetEntriesInRowTo | daixtrose/daixtrose/src/tiny/TinyMatrix.h:338-346 | row `i` becomes `Value` and nothing else changes; an out-of-range row is a range error that changes nothing |
| TinyContainers.SetEntriesInColTo | daixtrose/daixtrose/src/tiny/TinyMatrix.h:348-356 | column `j` becomes `Value` and nothing else changes; an out-of-range column is a range error that changes nothing |
| TinyContainers.ExtractRow | daixtrose/daixtrose/src/tiny/MatrixVectorOps.h:96-108 | a new vector holding row `i`, or a range error for a row outside `1..n` |
| TinyContainers.ExtractColumn | daixtrose/daixtrose/src/tiny/MatrixVectorOps.h:110-122 | a new vector holding column `i`, or a range error for a column outside `1..n` |
| TinyValues.MatIndexBound | daixtrose/daixtrose/src/tiny/TinyMatrix.h:274-290 | every in-range entry has a position inside the data |
| TinyValues.MatIndexInjective | daixtrose/daixtrose/src/tiny/TinyMatrix.h:274-290 | different in-range entries have different positions |
| TinyValues.MatIndexOnto | daixtrose/daixtrose/src/tiny/TinyMatrix.h:274-290 | every position belongs to the entry in row `k % n + 1` and column `k / n + 1` |
| TinyValues.MatIndexDivMod | daixtrose/daixtrose/src/tiny/TinyMatrix.h:274-290 | row and column of a position are its remainder and quotient by `n`, plus one |
| TinyValues.MatEntry | daixtrose/daixtrose/src/tiny/GetIndexedValue.h:87-97 | a matrix leaf's entry is defined exactly for in-range indices and is read at its storage position |
| TinyValues.VecEntry | daixtrose/daixtrose/src/tiny/TinyVector.h:293-318 | a vector leaf's entry `j` is defined exactly for `1 <= j <= n` and is `data_[j - 1]` |
| TinyValues.MatGetValue | daixtrose/daixtrose/src/tiny/GetIndexedValue.h:48-316 | an entry exists only for an expression with the tiny-matrix tag of the element type, and never for a rational power with `n != 1`, whose `Apply` does not compile |
| TinyValues.VecGetValue | daixtrose/daixtrose/src/tiny/GetIndexedValue.h:331-543 | an entry exists only for an expression with the tiny-vector tag of the element type, and never for a rational power with `n != 1` |
| TinyValueLaws.UnaryKeepsTag | daixtrose/daixtrose/src/tiny/MatrixVectorOps.h:67-68 | transpose and lump keep their argument's tiny-matrix tag |
| TinyValueLaws.TransposeEntry | daixtrose/daixtrose/src/tiny/GetIndexedValue.h:157-169 | `Transpose(A)(i, j) = A(j, i)` for every tree |
| TinyValueLaws.TransposeTwice | daixtrose/daixtrose/src/tiny/GetIndexedValue.h:157-169 | transposing twice gives the matrix back |
| TinyValueLaws.RowTotalIsRowSum | daixtrose/daixtrose/src/tiny/GetIndexedValue.h:171-196 | the lump's loop is the sum of row `i`, failing where the row fails |
| TinyValueLaws.LumpEntry | daixtrose/daixtrose/src/tiny/GetIndexedValue.h:171-196 | `Lump(A)(i, j)` is 0 off the diagonal and the row sum on it |
| TinyValueLaws.LumpSymmetric | daixtrose/daixtrose/src/tiny/GetIndexedValue.h:157-196 | the lump equals its own transpose |
| TinyValueLaws.BinTag | daixtrose/daixtrose/src/tiny/MatrixVectorOps.h:79-93 | two operands of the same tiny-matrix tag give the binary node that tag |
| TinyValueLaws.OnlySameTagsMakeTinyMatrix | daixtrose/daixtrose/src/tiny/MatrixVectorOps.h:79-93 | no rule makes a tiny-matrix tag of two different tags |
| TinyValueLaws.BinaryNeedsEqualDimensions | daixtrose/daixtrose/src/tiny/GetIndexedValue.h:199-280 | a binary node has an entry only when both operands are tiny matrices of the element type and the same dimension |
| TinyValueLaws.ProductEntry | daixtrose/daixtrose/src/tiny/GetIndexedValue.h:245-280 | `(A*B)(i, j)` is the sum over `k` of `A(i, k) * B(k, j)`, defined exactly when row and column are |
| TinyValueLaws.SumAndDifferenceEntry | daixtrose/daixtrose/src/tiny/GetIndexedValue.h:199-243 | sums and differences are entry-wise, defined exactly when both entries are |
| TinyValueLaws.ScaledEntry | daixtrose/daixtrose/src/tiny/GetIndexedValue.h:282-315 | a matrix times a scalar, on either side, scales every entry |
| TinyValueLaws.MatVecMultIsRowTimesVector | daixtrose/daixtrose/src/tiny/GetIndexedValue.h:526-531 | the unrolled `MatVecMult<n>`, adding from `n` down to 1, is the sum over `k` of `M(j, k) * v(k)` |
| TinyValueLaws.MatVecMultIsDownSum | daixtrose/daixtrose/src/tiny/GetIndexedValue.h:488-520 | `MatVecMult<n>` evaluates entry n of the row and of the vector first and adds the rest down to 1, whatever the operands |
| TinyValueLaws.DownSumIsSum | daixtrose/daixtrose/src/tiny/GetIndexedValue.h:488-520 | adding the products from n down to 1 fails exactly when an entry of the row or of the vector fails, and otherwise equals the sum from 1 up |
| TinyValueLaws.MatrixTimesVectorEntry | daixtrose/daixtrose/src/tiny/GetIndexedValue.h:437-543 | `(M*v)(j)` is row `j` of `M` times `v`, defined exactly when both are |
| TinyValueLaws.VectorsNeedEqualDimensions | daixtrose/daixtrose/src/tiny/GetIndexedValue.h:437-543 | vector operands of different dimensions never give a value |
| TinyValueLaws.TransposeOfVectorIsIdentity | daixtrose/daixtrose/src/tiny/GetIndexedValue.h:422-435 | a transposed vector reads the same entries |
| TinyValueLaws.FrameMat | daixtrose/daixtrose/src/tiny/GetIndexedValue.h:48-316 | the entries of a matrix expression do not depend on an object it does not mention |
| TinyValueLaws.FrameVec | daixtrose/daixtrose/src/tiny/GetIndexedValue.h:331-543 | the entries of a vector expression do not depend on an object it does not mention |
| TinyValueLaws.PowerNotCompiled | daixtrose/daixtrose/src/daixtrose/DefaultOps.h:192-202 | a rational power with `n != 1` has no matrix or vector entry, because `RationalPower<m,n>::Apply` does not compile |
| SolverDemo.VariableNumberOf | daixtrose/daixtrose/src/demos/Solver/Solver_2.C:24-51 | the number of `Variable<Number>` is read back from its type |
| SolverDemo.VariableNumberIff | daixtrose/daixtrose/src/demos/Solver/Solver_2.C:24-51 | a leaf kind has number `Number` exactly when it is `Variable<Number>` |
| SolverDemo.GetNameBracketed | daixtrose/daixtrose/src/demos/Solver/Solver_2.C:53-111 | with bracket-free names the printed name is balanced and every operation is enclosed in one pair of brackets, so the text shows the grouping |
| SolverDemo.GetVariable | daixtrose/daixtrose/src/demos/Solver/Solver_2.C:149-174 | variable `Number` at sample `index` reads `V.at(index * NumberOfVars + Number - 1)` exactly when that is in range, and is out of range otherwise |
| SolverDemo.GetValueIsEval | daixtrose/daixtrose/src/demos/Solver/Solver_2.C:149-224 | `GetValue` is the value of the tree at the sample's point |
| SolverDemo.ValueCompilesMeaning | daixtrose/daixtrose/src/demos/Solver/Solver_2.C:149-224 | `GetValue` of a tree compiles exactly when the tree has no rational power with `n != 1`; otherwise it fails |
| SolverDemo.DemoRationalPowNotCompiled | daixtrose/daixtrose/src/demos/Solver/Solver_2.C:419 | `RationalPow<3,2>(a)`, the demo's third expression, has no `GetValue` that compiles |
| SolverDemo.Samples | daixtrose/daixtrose/src/demos/Solver/Solver_2.C:270-285 | `size` samples take `NumberOfVars * size` entries |
| SolverDemo.SamplesAt | daixtrose/daixtrose/src/demos/Solver/Solver_2.C:270-285 | after `Resize`, entry `i * NumberOfVars + j` holds `j + 1` |
| SolverDemo.ResizedVariable | daixtrose/daixtrose/src/demos/Solver/Solver_2.C:270-285 | after `Resize(size)` variable `Number` reads `Number` at every sample below `size` and is out of range after |
| SolverDemo.Resized | daixtrose/daixtrose/src/demos/Solver/Solver_2.C:272 | `std::vector::resize` keeps a prefix and pads with zeros |
| SolverDemo.Derivative | daixtrose/daixtrose/src/demos/Solver/Solver_2.C:288-345 | a stored derivative carries the accessor features |
| SolverDemo.DerivativeIsSlope | daixtrose/daixtrose/src/demos/Solver/Solver_2.C:288-345 | the stored derivative by variable `Col`, evaluated at a sample, is the partial derivative by that variable there |
| SolverDemo.StoredDiffsAt | daixtrose/daixtrose/src/demos/Solver/Solver_2.C:288-345 | `StoreDiff<Row, Col>` fills exactly cells `(Row, 1..Col)` with the derivatives and keeps every other cell |
| SolverDemo.Solver.constructor | daixtrose/daixtrose/src/demos/Solver/Solver_2.C:256-267 | a new solver holds no values, expressions or derivatives |
| SolverDemo.Solver.Resize | daixtrose/daixtrose/src/demos/Solver/Solver_2.C:270-285 | `Resize(size)` fills `size` samples with `1..NumberOfVars` and keeps the expressions |
| SolverDemo.Solver.FillSample | daixtrose/daixtrose/src/demos/Solver/Solver_2.C:276-284 | the inner loop fills one sample and leaves the earlier ones |
| SolverDemo.Solver.StoreDiff | daixtrose/daixtrose/src/demos/Solver/Solver_2.C:288-345 | the recursion stores the derivatives of a row and changes nothing else |
| SolverDemo.Solver.AddExpression | daixtrose/daixtrose/src/demos/Solver/Solver_2.C:350-362 | an expression that cannot be differentiated, or whose value or one of whose derivatives' values does not compile, does not compile; a row outside `1..NumberOfVars` is out of range; otherwise row `Row` gets the expression and its derivatives |
| LambdaDemo.TruncDivRem | daixtrose/daixtrose/src/demos/quicktour/PoorMansLambda.C:83-90 | C++ integer division: quotient times divisor plus remainder is the dividend, the remainder is smaller and has the dividend's sign |
| LambdaDemo.SignedDivision | daixtrose/daixtrose/src/demos/quicktour/PoorMansLambda.C:83-90 | the signed quotient and remainder follow from those of the magnitudes |
| LambdaDemo.IntResult | daixtrose/daixtrose/src/demos/quicktour/PoorMansLambda.C:83-90 | an `int` result exists exactly when the value is in the 32-bit range; outside it the behaviour is undefined |
| LambdaDemo.ApplyUnaryOp | daixtrose/daixtrose/src/demos/quicktour/PoorMansLambda.C:75-81 | a unary operation gives an `int` exactly when its return type is the element type; increments and dereference do not compile; a negation outside the 32-bit range is undefined, and nothing else is |
| LambdaDemo.ApplyBinaryOp | daixtrose/daixtrose/src/demos/quicktour/PoorMansLambda.C:83-90 | a binary operation gives an `int` exactly when arithmetic, and then one in the 32-bit range; `+`, `-`, `*`, `/` and `%` succeed exactly when the exact result fits, division and remainder by zero are undefined; only arithmetic is ever undefined; `%=` does not compile |
| LambdaDemo.ComparisonAbsorbs | daixtrose/daixtrose/src/demos/quicktour/PoorMansLambda.C:103-120 | an operand tagged `Comparison` makes any binary node compile and be tagged `Comparison` |
| LambdaDemo.PlaceholderMakesPredicate | daixtrose/daixtrose/src/demos/quicktour/PoorMansLambda.C:103-137 | every well-formed tree mentioning `x` is a predicate |
| LambdaDemo.ClosedTermsConstant | daixtrose/daixtrose/src/demos/quicktour/PoorMansLambda.C:44-49 | a tree without `x` has the same value for every bound value |
| LambdaDemo.EvaluateStaysInRange | daixtrose/daixtrose/src/demos/quicktour/PoorMansLambda.C:36-90 | with the bound value and the literals in range, every value the evaluator gives is an `int` in range |
| LambdaDemo.DemoComparisons | daixtrose/daixtrose/src/demos/quicktour/PoorMansLambda.C:186-190 | `x < 6` and `x > 15` select what they say |
| LambdaDemo.DemoConjunction | daixtrose/daixtrose/src/demos/quicktour/PoorMansLambda.C:192-194 | `(x > 5) && (x < 13)` selects `5 < x < 13` |
| LambdaDemo.DemoEquation | daixtrose/daixtrose/src/demos/quicktour/PoorMansLambda.C:196 | `2 * x == x + 5` selects 5 wherever `2 * x` and `x + 5` fit an `int`, and is undefined where `2 * x` overflows |
| LambdaDemo.DemoInequation | daixtrose/daixtrose/src/demos/quicktour/PoorMansLambda.C:199 | `3 * x != x * x` selects all but 0 and 3 wherever `x * x` fits an `int`, and is undefined where `3 * x` overflows |
| LambdaDemo.DemoNegation | daixtrose/daixtrose/src/demos/quicktour/PoorMansLambda.C:202 | `!(x < 18)` selects `x >= 18` |
| LambdaDemo.CopyIf | daixtrose/daixtrose/src/demos/quicktour/PoorMansLambda.C:144-156 | `copy_if` writes the selected elements in order, or stops at the first failure |
| LambdaDemo.SelectedFailure | daixtrose/daixtrose/src/demos/quicktour/PoorMansLambda.C:144-156 | a failure on a prefix is the failure of the whole walk |
| LambdaDemo.SelectedConcat | daixtrose/daixtrose/src/demos/quicktour/PoorMansLambda.C:144-156 | selecting from a concatenation concatenates the selections, so the order is kept |
| LambdaDemo.SelectedOne | daixtrose/daixtrose/src/demos/quicktour/PoorMansLambda.C:148-153 | a single element is written exactly when the predicate holds for it |
| LambdaDemo.SelectedElements | daixtrose/daixtrose/src/demos/quicktour/PoorMansLambda.C:144-156 | exactly the elements satisfying the predicate are written, each as often as in the input |
| MiniDemo.EvaluateDefined | daixtrose/daixtrose/src/demos/quicktour/Mini.3.C:24-48 | `Evaluate` compiles exactly for `X` leaves under unary and binary nodes |
| MiniDemo.BlanksCountBinaryNodes | daixtrose/daixtrose/src/demos/quicktour/Mini.3.C:24-48 | with blank-free names the text has exactly two blanks per binary node |
| MiniDemo.NoBracketsAdded | daixtrose/daixtrose/src/demos/quicktour/Mini.3.C:24-48 | the text holds no bracket a name does not bring |
| MiniDemo.DemoNegationRejected | daixtrose/daixtrose/src/demos/quicktour/Mini.3.C:69 | `-x1` has no node type because `X` declares no `Disambiguation` |
| MiniDemo.DemoGroupingLost | daixtrose/daixtrose/src/demos/quicktour/Mini.3.C:62-70 | two differently grouped trees print as the same text |
| MiniDemo.X.constructor | daixtrose/daixtrose/src/demos/quicktour/Mini.3.C:9-10 | a new `X` has the given name, as `Name()` reports it |
| MiniDemo.X.ResetName | daixtrose/daixtrose/src/demos/quicktour/Mini.3.C:10-14 | afterwards `Name()` gives the new name |
| MiniDemo.X.ModuloAssign | daixtrose/daixtrose/src/demos/quicktour/Mini.3.C:53-58 | `x %= E` accepts only an `Expr` and renames `x` to its text, leaving it unchanged on failure |

## Left out

- Floating point. Numbers are `real`. Rounding, overflow of `double`, `NaN` and infinities are not modelled. `Semantics.Eval`, the meaning the simplifier and the differentiator are proved against, gives `x^(m/n)` a value only for an integral exponent: real roots are not modelled. The evaluators of the containers and of the demos follow the C++, where only `RationalPower<m, 1>` has an `Apply` that compiles (see Findings), and give `Err(NotCompiled)` for every other power.
- Text of numbers. `iostream` and `setw` formatting of a `double` is a parameter `show` of the printers; the model proves the layout around it, not the digits.
- Memory ownership: `ConstRef`, `DeepCopy`, heap allocation and the destructors. Copies of a `SliceVector` share the `std::slice` object, and the destructor deletes it (linalg/SliceVector.h:388-393); the model shares it and does not model the deletion.
- Simplification.Simplify: the repeated simplification of `SimplEvoker` takes a `fuel` bound standing for the compiler's template instantiation depth; when the fuel runs out the result is `OutOfFuel`, where the C++ compiler would instantiate further or give up. `SolverDemo.Derivative` passes such a bound on.
- `FeaturesOfExpression`, the virtual plumbing through which an `Expr` gets its members. Only its effect, the tag an `Expr` takes its features from, is modelled.
- Range checks that the C++ compiles only without `NDEBUG` (`assert` and the `#ifndef NDEBUG` blocks) are modelled as always present: a failing check is an `Err` result.
- TinyContainers.TinyVector.FromExpression: the expression's dimension is not compared with the container's (neither does the C++), so an expression of another dimension fills the entries it has and fails at the first one it lacks.
- TinyContainers.TinyMatrix.FromExpression: as for the vector.
- The demos' printing: `PrintValue`, `PrintJacobian` and the output of `main` in Solver_2.C, the output loop of PoorMansLambda.C and `operator<<` of Mini.3.C. Their values (`GetName`, `GetValue`, `Selected`, `Evaluate`) are modelled.
- LambdaDemo.ApplyBinaryOp: bitwise operators, shifts and the compound assignments other than `%=` give `Unmodelled` rather than a value; the demo does not use them.
- LambdaDemo.Evaluate: leaves other than the placeholder and `int` literals give `Unmodelled`.
- The `std::vector::resize` and element storage of the MTL/ITL targets are modelled by `ItlBindings.FlatMatrix` (shape and written cells) and `ItlBindings.FlatVector`; the external GMRES solver is not part of this model.
- `operator<<` of `Matrix`, `Vector`, `SliceVector`, `TinyQuadraticMatrix` and `TinyVector`, which only format doubles.
- linalg/Inverse.h and linalg/L2_Norm.h (floating-point numerics), daixtrose/ConstRef.h, daixtrose/MatrixSelect.h, daixtrose/CompileTimeChecks.h, error_handling/enforce.h, linalg/Linalg.h, tiny/TinyMatAndVec.h and linalg/Disambiguation.h are not part of this model; compile-time assertions appear as `requires` clauses and `Err(NotCompiled)` results.
- The other demos (the rest of quicktour, demos/linalg, demos/tiny, demos/itl, demos/Formulas) are not part of this model.
- SparseMatrix.Matrix.FromExpression: the matrix asserts a square shape; the model demands it through the counters (a non-square expression is an `Err`), so the dormant code paths for non-square shapes at linalg/Matrix.h:340 and :361 are not reached.
- SparseVector.Vector.FromExpression: counts the rows of `RowSum(M)` with the matrix's own counter, the corrected counter of the `RowSum.h` finding, so `Vector V1 = RowSum(M)` gets the row sums where the library as written does not compile.
- SparseVector.Vector.AssignFrom: counts with the corrected `RowSum` counter, as `FromExpression` does.
- SparseVector.Vector.PlusAssign: counts with the corrected `RowSum` counter, as `FromExpression` does.
- SparseVector.Vector.MinusAssign: counts with the corrected `RowSum` counter, through `PlusAssign`.
- SliceVectors.SliceVector.AssignFrom: the operands of the expression are read from `env` as they were before the assignment. When the expression mentions the `Vector` the slice views (rather than the slice itself, which an expression can only hold by value), the C++ takes the in-place branch and reads entries it has already overwritten: with `S` viewing all of `V = [1, 1]` and `M` all ones, `S = M * V` gives `[2, 3]` in C++ and `[2, 2]` here. It also counts with the corrected `RowSum` counter.
- SliceVectors.SliceVector.AssignInPlace: reads the operands as they were before the loop, as `AssignFrom` does, so it does not capture the in-place reads of the viewed `Vector`.
- SliceVectors.SliceVector.PlusAssign: reads the operands as they were before the call and counts with the corrected `RowSum` counter, as `AssignFrom` does.
- SliceVectors.SliceVector.AddInPlace: adds entries read from the operands as they were before the loop, as `AssignInPlace` does.
- SliceVectors.SliceVector.MinusAssign: inherits the snapshot reads and the corrected counter of `PlusAssign`.
- BlockedPrinter.RenderRow: fills the gaps with the corrected placeholder, whose dashes sit at `13 * i + 11`; the C++ builds them at `12 * i + 11` (see Findings, and `BlockedPrinter.MakeEmptynessAsWritten` for the string as written).
- BlockedPrinter.PrintBlockRow: uses the corrected placeholder, as `RenderRow` does.
- BlockedPrinter.PrintBlockRows: uses the corrected placeholder, as `RenderRow` does.
- BlockedPrinter.Print: builds the corrected placeholder, so for blocks of dimension 2 or more the picture of a row with gaps differs from `os << M` in where the dashes of the gaps sit; the layout around them is the same.
- SolverDemo.Derivative: differentiates and simplifies with the corrected rules of the Findings, so it gives derivatives where the library as written refuses the expression or simplifies it wrongly, as the differentiation and simplification rows of the Findings show.
- SolverDemo.Solver.AddExpression: stores the derivatives of `SolverDemo.Derivative`, with the corrected rules.

## Findings

| source | as written | input that shows it | evidently intended | confidence | as-written member | corrected member |
|---|---|---|---|---|---|---|
| daixtrose/daixtrose/src/daixtrose/Simplify.h:837-859 | `x + x -> 2 * x` fires when the two operands have the same C++ type | `A + B` for two leaves of one matrix type with values 2 and 3: value 5, result `2 * A` has value 4 | fire only for the same operand | not executed | SimplificationProofs.SumOfSameTypeLeavesDoubled | SimplificationProofs.SimplifySound |
| daixtrose/daixtrose/src/daixtrose/Simplify.h:703-721 | `a / a -> 1` fires when the two operands have the same C++ type | `A / B` for two leaves of one type with values 2 and 3 becomes One | fire only for the same operand | not executed | SimplificationProofs.QuotientOfSameTypeLeavesIsOne | SimplificationProofs.SimplifySound |
| daixtrose/daixtrose/src/daixtrose/Differentiation.h:443-450 | the coefficient for `m == n` calls `Apply` with one argument where two are needed | `D(x^(2/2))` does not compile | coefficient 1 | not executed | DifferentiationProofs.EqualExponentsRejected | DifferentiationProofs.DiffTotal |
| daixtrose/daixtrose/src/daixtrose/Differentiation.h:485-492 | the coefficient for `m == 1` uses `InverseOfN`, which is not defined | `D(Sqrt(x))`, that is `D(x^(1/2))`, does not compile | coefficient `1/n` | not executed | DifferentiationProofs.SquareRootRejected | DifferentiationProofs.CoefficientValue |
| daixtrose/daixtrose/src/tiny/TinyVector.h:209-220 | scalar `-=` applies `bind1st(minus, t)`, giving `t - x` | entry 3, `-= 1` gives -2 | `x - t`, i.e. 2 | not executed | TinyContainers.TinyVector.SubtractScalarAsWritten | TinyContainers.TinyVector.SubtractScalar |
| daixtrose/daixtrose/src/tiny/TinyMatrix.h:184-191 | the same functor in the matrix `-=` | entry 3, `-= 1` gives -2 | `x - t` | not executed | TinyContainers.BoundMinusWrong | TinyContainers.TinyMatrix.SubtractScalar |
| daixtrose/daixtrose/src/linalg/SliceVector.h:220-235 | the last entry is compared with `V.end()`, so one past the end is accepted | vector of 3 entries, slice start 3, size 1, stride 1 | reject a last entry at or past the end | not executed | SliceVectors.AcceptedAsWrittenOnePastEnd | SliceVectors.SliceVector.Make |
| daixtrose/daixtrose/src/linalg/SliceIterator.h:155-166 | the position difference is divided in place by the `size_t` stride, so a negative difference is converted to unsigned | stride 2, `it1` one step before `it2`: `2^63 - 1` instead of -1 | signed division by the stride | not executed | SliceIteration.DistanceAsWrittenWrongBackwards | SliceIteration.DistanceOfMoved |
| daixtrose/daixtrose/src/linalg/PrintBlockedMatrix.h:80-85 | the dash of inner column `i` goes to `i * 12 + 11`, although a field is 13 characters wide | blocks of dimension 2: the second dash sits one place before the end of the number above it | `i * 13 + 11`, under the last digit | not executed; medium, the layout intent is inferred | BlockedPrinter.PlaceholderMisplacedDash | BlockedPrinter.DashUnderValueEnd |
| daixtrose/daixtrose/src/linalg/RowSum.h:66-77 | the row count of `RowSum(M)` asks the vector counter about the matrix argument | `NumberOfRows(RowSum(M))` for a sparse matrix `M` has no counter specialisation and does not compile | count the argument with its own counter | not executed | LinalgProofs.RowSumCounterAsWritten | LinalgProofs.RowSumCounterFixed |
| daixtrose/daixtrose/src/daixtrose/Simplify.h:241-291 | the generic unary rule turns any operation on a Null into Null | `!0` becomes 0, but `!0` is 1 | only operations that map 0 to 0 | not executed | SimplificationProofs.NotOfNullIsNull | SimplificationProofs.SimplifySound |
| daixtrose/daixtrose/src/daixtrose/Simplify.h:431-466 | `(x * y)^a` is rebuilt from the unsimplified operands while the declared result type uses the simplified ones | `((1 * A) * B)^(2/1)`: the operand `1 * A` simplifies to `A`, the built and declared types differ, so it does not compile | build from the simplified operands | not executed | SimplificationProofs.PowerOfSimplifiableProductRejected | SimplificationProofs.ImplPowSound |
| daixtrose/daixtrose/src/daixtrose/DefaultOps.h:192-202 | the general `RationalPower<m,n>::Apply` returns `pow(pow(arg, m) -n)`, a call of `pow` with one argument | `Sqrt(A)` or `Inverse(A)`, evaluated by any container or by `GetValue` in Solver_2.C (`RationalPow<3,2>(a)`), does not compile | `pow(arg, m / n)` | not executed | LinalgProofs.PowerNotCompiled | Semantics.IntendedRationalPower |
| daixtrose/daixtrose/src/daixtrose/Differentiation.h:82-90 | the condition of `PreDifferentiator` is the constant `true`, so a tree without the variable is never short-cut to Null | `Diff(!y, x)` does not compile, since `!` has no derivative rule, although `!y` does not depend on `x` and its derivative is 0 | test `StaticOccurrenceCounter<ARG, WRT>::Result` | not executed | DifferentiationProofs.NotOfOtherVariable | DifferentiationProofs.DiffTermShortcutMeaning |
